/**
  The element catalog: the fixed table from an element type to its tag, its
  style class, whether it accepts nested elements, its default content and
  its palette label. A type the table does not know is served the `text`
  template.
*/
module Catalog {

  datatype Template = Template(tag: string, cls: string, canContain: bool,
                               defaultContent: string, displayLabel: string)

  const Templates: map<string, Template> := map[
    "section"   := Template("section", "el-section", true, "", "Section"),
    "container" := Template("div", "el-container", true, "", "Container"),
    "row"       := Template("div", "el-row", true, "", "Row"),
    "column"    := Template("div", "el-column", true, "", "Column"),
    "heading"   := Template("h2", "el-heading", false, "Heading Text", "Heading"),
    "text"      := Template("span", "el-text", false, "Text content", "Text"),
    "paragraph" := Template("p", "el-paragraph", false,
                     "Lorem ipsum dolor sit amet, consectetur adipiscing elit. Sed do eiusmod tempor incididunt ut labore.",
                     "Paragraph"),
    "image"     := Template("div", "el-image", false, "\U{1F5BC} Image Placeholder", "Image"),
    "button"    := Template("a", "el-button", false, "Button", "Button"),
    "link"      := Template("a", "el-link", false, "Link Text", "Link"),
    "spacer"    := Template("div", "el-spacer", false, "", "Spacer"),
    "divider"   := Template("hr", "el-divider", false, "", "Divider"),
    "list"      := Template("ul", "el-list", false,
                     "<li>List item 1</li><li>List item 2</li><li>List item 3</li>", "List"),
    "video"     := Template("div", "el-video", false, "\U{25B6} Video Placeholder", "Video"),
    "icon"      := Template("span", "el-icon", false, "\U{2605}", "Icon"),
    "input"     := Template("input", "el-input", false, "", "Input")
  ]

  /** The types that accept nested elements. */
  const ContainerKinds: set<string> := {"section", "container", "row", "column"}

  /** The template of an element type, falling back to `text` for a type the
      table does not list. */
  function Lookup(kind: string): (t: Template)
    ensures kind in Templates ==> t == Templates[kind]
    ensures kind !in Templates ==> t == Templates["text"]
  {
    if kind in Templates then Templates[kind] else Templates["text"]
  }

  /** Tags that the generator writes as a lone opening tag. */
  predicate IsVoidTag(tag: string) {
    tag == "hr" || tag == "input"
  }

  /** Exactly the four layout types accept nested elements; in particular an
      unknown type, served the `text` template, never does. */
  lemma ContainerIffLayoutKind(kind: string)
    ensures Lookup(kind).canContain <==> kind in ContainerKinds
  {
  }

  /** Only `divider` and `input` render as a lone opening tag. */
  lemma VoidIffDividerOrInput(kind: string)
    ensures IsVoidTag(Lookup(kind).tag) <==> kind == "divider" || kind == "input"
  {
  }

  /** An unknown type renders exactly like a `text` element. */
  lemma UnknownKindIsText(kind: string)
    requires kind !in Templates
    ensures Lookup(kind) == Template("span", "el-text", false, "Text content", "Text")
  {
  }
}
