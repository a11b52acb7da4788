/**
  The property store behind the properties panel. Each panel input
  `prop-<name>` writes its raw value into the selected element's dataset under
  the camelCase form of `<name>`; the two colour channels (picker and free-text
  field) additionally write the shared key the generator reads.
*/
module Properties {
  import opened Strings

  /** The input names the panel wires to `applyProperty`, in wiring order. */
  const Inputs: seq<string> := [
    "id", "class", "href", "src", "alt", "pt", "pr", "pb", "pl", "mt", "mr", "mb", "ml",
    "bg-color", "bg-color-text", "text-color", "text-color-text",
    "font-size", "font-weight", "text-align", "border-radius"
  ]

  predicate IsLower(c: char) {
    'a' <= c <= 'z'
  }

  predicate IsUpper(c: char) {
    'A' <= c <= 'Z'
  }

  function ToUpper(c: char): (u: char)
    requires IsLower(c)
    ensures IsUpper(u)
  {
    (c as int - 32) as char
  }

  function ToLower(c: char): (l: char)
    requires IsUpper(c)
    ensures IsLower(l)
  {
    (c as int + 32) as char
  }

  /** `name.replace(/-([a-z])/g, g => g[1].toUpperCase())`: every hyphen that is
      followed by a lower-case letter is dropped and the letter upper-cased,
      scanning left to right without overlaps. */
  function CamelCase(s: string): (r: string)
    ensures |r| <= |s|
    ensures s != [] ==> r != []
    ensures s != [] && s[0] != '-' ==> r[0] == s[0]
  {
    if |s| >= 2 && s[0] == '-' && IsLower(s[1]) then [ToUpper(s[1])] + CamelCase(s[2..])
    else if s == [] then []
    else [s[0]] + CamelCase(s[1..])
  }

  /** Converting leaves no hyphen followed by a lower-case letter, so a
      second conversion changes nothing (see `CamelCaseIdempotent`). */
  lemma {:induction false} CamelCaseLeavesNoHyphenLetter(s: string)
    ensures s != [] && IsLower(CamelCase(s)[0]) ==> CamelCase(s)[0] == s[0]
    ensures forall k :: 0 <= k < |CamelCase(s)| - 1 && CamelCase(s)[k] == '-' ==>
                          !IsLower(CamelCase(s)[k + 1])
    decreases |s|
  {
    var r := CamelCase(s);
    if |s| >= 2 && s[0] == '-' && IsLower(s[1]) {
      CamelCaseLeavesNoHyphenLetter(s[2..]);
      var t := CamelCase(s[2..]);
      assert r == [ToUpper(s[1])] + t;
      forall k | 0 <= k < |r| - 1 && r[k] == '-'
        ensures !IsLower(r[k + 1])
      {
        assert r[k] == t[k - 1];
        assert r[k + 1] == t[k];
      }
    } else if s != [] {
      CamelCaseLeavesNoHyphenLetter(s[1..]);
      var t := CamelCase(s[1..]);
      assert r == [s[0]] + t;
      forall k | 0 <= k < |r| - 1 && r[k] == '-'
        ensures !IsLower(r[k + 1])
      {
        if k == 0 {
          assert s[1..][0] == s[1];
          assert r[1] == t[0];
        } else {
          assert r[k] == t[k - 1];
          assert r[k + 1] == t[k];
        }
      }
    }
  }

  /** Converting an already converted name changes nothing. */
  lemma {:induction false} CamelCaseIdempotent(s: string)
    ensures CamelCase(CamelCase(s)) == CamelCase(s)
  {
    CamelCaseLeavesNoHyphenLetter(s);
    CamelOfConverted(CamelCase(s));
  }

  lemma {:induction false} CamelOfConverted(r: string)
    requires forall k :: 0 <= k < |r| - 1 && r[k] == '-' ==> !IsLower(r[k + 1])
    ensures CamelCase(r) == r
    decreases |r|
  {
    if r != [] {
      assert !(|r| >= 2 && r[0] == '-' && IsLower(r[1]));
      assert forall k :: 0 <= k < |r[1..]| - 1 && r[1..][k] == '-' ==> !IsLower(r[1..][k + 1]) by {
        forall k | 0 <= k < |r[1..]| - 1 && r[1..][k] == '-'
          ensures !IsLower(r[1..][k + 1])
        {
          assert r[k + 1] == '-';
        }
      }
      CamelOfConverted(r[1..]);
      assert r == [r[0]] + r[1..];
    }
  }

  /** The inverse direction: every upper-case letter becomes a hyphen and its
      lower-case form. */
  function KebabCase(s: string): string {
    if s == [] then []
    else if IsUpper(s[0]) then ['-', ToLower(s[0])] + KebabCase(s[1..])
    else [s[0]] + KebabCase(s[1..])
  }

  /** A kebab-case name: lower-case letters and digits, each hyphen followed by
      a lower-case letter. */
  predicate IsKebab(s: string) {
    && (forall k :: 0 <= k < |s| ==> IsLower(s[k]) || ('0' <= s[k] <= '9') || s[k] == '-')
    && (forall k :: 0 <= k < |s| && s[k] == '-' ==> k + 1 < |s| && IsLower(s[k + 1]))
  }

  lemma KebabSuffix(s: string, i: nat)
    requires IsKebab(s) && i <= |s|
    ensures IsKebab(s[i..])
  {
    forall k | 0 <= k < |s[i..]| && s[i..][k] == '-'
      ensures k + 1 < |s[i..]| && IsLower(s[i..][k + 1])
    {
      assert s[i + k] == '-';
    }
  }

  /** For kebab-case names the storage key determines the input name. */
  lemma {:induction false} KebabOfCamel(s: string)
    requires IsKebab(s)
    ensures KebabCase(CamelCase(s)) == s
    decreases |s|
  {
    if s != [] {
      if s[0] == '-' {
        KebabSuffix(s, 2);
        KebabOfCamel(s[2..]);
        var u := ToUpper(s[1]);
        assert CamelCase(s) == [u] + CamelCase(s[2..]);
        assert ([u] + CamelCase(s[2..]))[1..] == CamelCase(s[2..]);
        assert ToLower(u) == s[1];
        assert s == ['-', s[1]] + s[2..];
      } else {
        KebabSuffix(s, 1);
        KebabOfCamel(s[1..]);
        assert CamelCase(s) == [s[0]] + CamelCase(s[1..]);
        assert ([s[0]] + CamelCase(s[1..]))[1..] == CamelCase(s[1..]);
        assert s == [s[0]] + s[1..];
      }
    }
  }

  /** The shared colour key a colour channel also writes, if any. */
  function ColourKey(prop: string): Option<string> {
    if prop == "bg-color" || prop == "bg-color-text" then Some("bgColor")
    else if prop == "text-color" || prop == "text-color-text" then Some("textColor")
    else None
  }

  /** `applyProperty`'s dataset writes: the raw value under the camelCase key,
      then, for a colour channel, under the shared colour key as well. */
  function Store(props: map<string, string>, prop: string, value: string): (r: map<string, string>)
    ensures r.Keys == props.Keys + {CamelCase(prop)}
                      + (if ColourKey(prop).Some? then {ColourKey(prop).value} else {})
    ensures r[CamelCase(prop)] == value
    ensures ColourKey(prop).Some? ==> r[ColourKey(prop).value] == value
    ensures forall k :: k in props && k != CamelCase(prop) && Some(k) != ColourKey(prop) ==>
                          r[k] == props[k]
  {
    var written := props[CamelCase(prop) := value];
    match ColourKey(prop)
    case Some(key) => written[key := value]
    case None => written
  }

  /** A name without hyphens is its own storage key. */
  lemma {:induction false} CamelOfPlain(s: string)
    requires '-' !in s
    ensures CamelCase(s) == s
    decreases |s|
  {
    if s != [] {
      CamelOfPlain(s[1..]);
      assert s == [s[0]] + s[1..];
    }
  }

  /** The first hyphen before a lower-case letter is where the storage key
      first differs from the name. */
  lemma {:induction false} CamelAtHyphen(a: string, b: string)
    requires '-' !in a
    requires b != [] && IsLower(b[0])
    ensures CamelCase(a + "-" + b) == a + [ToUpper(b[0])] + CamelCase(b[1..])
    decreases |a|
  {
    if a == [] {
      assert a + "-" + b == ['-', b[0]] + b[1..];
    } else {
      CamelAtHyphen(a[1..], b);
      assert (a + "-" + b)[1..] == a[1..] + "-" + b;
      assert a == [a[0]] + a[1..];
    }
  }

  /** The key of a two-word name `a-b`. */
  lemma KeyOfTwoWords(a: string, b: string)
    requires '-' !in a
    requires b != [] && IsLower(b[0]) && '-' !in b
    ensures CamelCase(a + "-" + b) == a + [ToUpper(b[0])] + b[1..]
  {
    CamelAtHyphen(a, b);
    CamelOfPlain(b[1..]);
  }

  lemma KeyOfBgColor()
    ensures CamelCase("bg-color") == "bgColor"
  {
    KeyOfTwoWords("bg", "color");
    assert "bg" + "-" + "color" == "bg-color";
    assert "bg" + [ToUpper('c')] + "olor" == "bgColor";
  }

  lemma KeyOfTextColor()
    ensures CamelCase("text-color") == "textColor"
  {
    KeyOfTwoWords("text", "color");
    assert "text" + "-" + "color" == "text-color";
    assert "text" + [ToUpper('c')] + "olor" == "textColor";
  }

  lemma KeyOfFontSize()
    ensures CamelCase("font-size") == "fontSize"
  {
    KeyOfTwoWords("font", "size");
    assert "font" + "-" + "size" == "font-size";
    assert "font" + [ToUpper('s')] + "ize" == "fontSize";
  }

  lemma KeyOfFontWeight()
    ensures CamelCase("font-weight") == "fontWeight"
  {
    KeyOfTwoWords("font", "weight");
    assert "font" + "-" + "weight" == "font-weight";
    assert "font" + [ToUpper('w')] + "eight" == "fontWeight";
  }

  lemma KeyOfTextAlign()
    ensures CamelCase("text-align") == "textAlign"
  {
    KeyOfTwoWords("text", "align");
    assert "text" + "-" + "align" == "text-align";
    assert "text" + [ToUpper('a')] + "lign" == "textAlign";
  }

  lemma KeyOfBorderRadius()
    ensures CamelCase("border-radius") == "borderRadius"
  {
    KeyOfTwoWords("border", "radius");
    assert "border" + "-" + "radius" == "border-radius";
    assert "border" + [ToUpper('r')] + "adius" == "borderRadius";
  }

  /** The style inputs, in the order the generator emits their declarations:
      spacing, the two colour pickers, typography and radius. */
  const StyleInputs: seq<string> := [
    "pt", "pr", "pb", "pl", "mt", "mr", "mb", "ml",
    "bg-color", "text-color", "font-size", "font-weight", "text-align", "border-radius"
  ]

  /** The storage keys of a list of inputs, in order. */
  function StorageKeys(ps: seq<string>): (r: seq<string>)
    ensures |r| == |ps|
  {
    if ps == [] then [] else [CamelCase(ps[0])] + StorageKeys(ps[1..])
  }

  /** Each colour text field writes the key its picker is stored under. */
  lemma ColourTextSharesPickerKey()
    ensures ColourKey("bg-color-text") == Some(CamelCase("bg-color"))
    ensures ColourKey("text-color-text") == Some(CamelCase("text-color"))
  {
    KeyOfBgColor();
    KeyOfTextColor();
  }

  /** Every style input is one of the wired inputs. */
  lemma StyleInputsWired()
    ensures StyleInputs == Inputs[5..13] + [Inputs[13], Inputs[15]] + Inputs[17..]
  {
  }

  /** The storage keys of the wired inputs: the ID, Class, URL, image and
      spacing inputs store under their own names, the colour pickers under
      the shared colour keys, the typography and radius inputs in camelCase.
      The colour text fields reach the colour keys through `ColourKey`. */
  lemma StorageKeysOfInputs()
    ensures CamelCase("id") == "id" && CamelCase("class") == "class"
    ensures CamelCase("href") == "href" && CamelCase("src") == "src" && CamelCase("alt") == "alt"
    ensures CamelCase("pt") == "pt" && CamelCase("pr") == "pr"
    ensures CamelCase("pb") == "pb" && CamelCase("pl") == "pl"
    ensures CamelCase("mt") == "mt" && CamelCase("mr") == "mr"
    ensures CamelCase("mb") == "mb" && CamelCase("ml") == "ml"
    ensures CamelCase("bg-color") == "bgColor" && CamelCase("text-color") == "textColor"
    ensures CamelCase("font-size") == "fontSize" && CamelCase("font-weight") == "fontWeight"
    ensures CamelCase("text-align") == "textAlign" && CamelCase("border-radius") == "borderRadius"
  {
    CamelOfPlain("id");
    CamelOfPlain("class");
    CamelOfPlain("href");
    CamelOfPlain("src");
    CamelOfPlain("alt");
    CamelOfPlain("pt");
    CamelOfPlain("pr");
    CamelOfPlain("pb");
    CamelOfPlain("pl");
    CamelOfPlain("mt");
    CamelOfPlain("mr");
    CamelOfPlain("mb");
    CamelOfPlain("ml");
    KeyOfBgColor();
    KeyOfTextColor();
    KeyOfFontSize();
    KeyOfFontWeight();
    KeyOfTextAlign();
    KeyOfBorderRadius();
  }

  /** The inputs of the properties panel, by the element's raw `data-type`:
      ID, Class, spacing, colours and border radius always; the URL for
      buttons and links; source and alt text for images; typography for
      headings, text and paragraphs. */
  function PanelInputs(kind: string): (r: set<string>)
    ensures forall p :: p in r ==> p in Inputs
  {
    {"id", "class", "pt", "pr", "pb", "pl", "mt", "mr", "mb", "ml",
     "bg-color", "bg-color-text", "text-color", "text-color-text", "border-radius"}
    + (if kind == "button" || kind == "link" then {"href"} else {})
    + (if kind == "image" then {"src", "alt"} else {})
    + (if kind == "heading" || kind == "text" || kind == "paragraph"
       then {"font-size", "font-weight", "text-align"} else {})
  }

  /** Whether the panel shows the content text area for this `data-type`. */
  predicate HasContentField(kind: string) {
    kind in {"heading", "text", "paragraph", "button", "link"}
  }

  /** The dataset keys the generator reads for a custom id and class. */
  const CustomKeys: set<string> := {"customId", "customClass"}

  /** A write through a wired input never introduces a custom id or class key. */
  lemma StoreAvoidsCustomKeys(props: map<string, string>, prop: string, value: string)
    requires prop in Inputs && props.Keys !! CustomKeys
    ensures Store(props, prop, value).Keys !! CustomKeys
  {
    InputKeyNotCustom(prop);
    ColourKeyNotCustom(prop);
    var r := Store(props, prop, value);
    forall k | k in r.Keys
      ensures k !in CustomKeys
    {
      if k !in props.Keys && k != CamelCase(prop) {
        assert ColourKey(prop).Some? && k == ColourKey(prop).value;
      }
    }
  }

  /** The shared colour keys are neither custom key. */
  lemma ColourKeyNotCustom(prop: string)
    ensures ColourKey(prop).Some? ==> ColourKey(prop).value !in CustomKeys
  {
    assert "bgColor"[0] == 'b' && "textColor"[0] == 't';
    assert "customId"[0] == 'c' && "customClass"[0] == 'c';
  }

  /** No wired input's storage key is a custom id or class key. */
  lemma InputKeyNotCustom(p: string)
    requires p in Inputs
    ensures CamelCase(p) !in CustomKeys
  {
    InputStart(p);
    if p == "class" {
      CamelOfPlain(p);
    }
  }

  /** Every wired input name starts with a letter, and `class` is the only one
      starting with `c`. */
  lemma InputStart(p: string)
    requires p in Inputs
    ensures p != [] && p[0] != '-' && (p[0] == 'c' ==> p == "class")
  {
    var k :| 0 <= k < |Inputs| && Inputs[k] == p;
    if k < 7 {
      assert k == 0 || k == 1 || k == 2 || k == 3 || k == 4 || k == 5 || k == 6;
    } else if k < 14 {
      assert k == 7 || k == 8 || k == 9 || k == 10 || k == 11 || k == 12 || k == 13;
    } else {
      assert k == 14 || k == 15 || k == 16 || k == 17 || k == 18 || k == 19 || k == 20;
    }
  }

  /** The picker and the text field of one colour write the same key, and the
      later write wins. */
  lemma ColourLastWriteWins(props: map<string, string>, first: string, second: string,
                            v1: string, v2: string)
    requires ColourKey(first).Some? && ColourKey(first) == ColourKey(second)
    ensures Store(Store(props, first, v1), second, v2)[ColourKey(first).value] == v2
  {
  }
}
