/** The element stream the PDF converter produces, as `(item, level)` pairs from
    `iterate_items()`. Only the facts the pipeline reads are kept: which Python
    class/label the item has, its text, the `page_no` of its first provenance
    (1-based), the tree depth `level`, and whether its label is one of the default
    export labels. */
module DocItems {

  datatype ItemKind =
    | Title                                   // TextItem labelled TITLE
    | SectionHeader                           // SectionHeaderItem, or TextItem labelled SECTION_HEADER
    | ListGroup                               // GroupItem labelled LIST or ORDERED_LIST
    | OtherGroup                              // any other GroupItem
    | ListItem(enumerated: bool, marker: string)
    | Text                                    // any other TextItem (paragraphs, captions, ...)
    | Table                                   // TableItem; `text` holds its Markdown rendering
    | Other                                   // pictures and every other item class

  datatype DocItem = DocItem(kind: ItemKind, text: string, page: int, level: nat, exported: bool)

  /** `isinstance(item, (ListItem, GroupItem))`. */
  predicate IsListOrGroup(k: ItemKind) {
    k.ListItem? || k.ListGroup? || k.OtherGroup?
  }

  /** The 0-based page index the exclusion sets are keyed by. */
  function PageIndex(item: DocItem): int {
    item.page - 1
  }
}
