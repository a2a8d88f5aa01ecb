/** The parsed markup tree the finder searches, as far as the finder looks at it. */
module Elements {
  import opened Basics

  /**
    A node of the tree: its tag, its attribute map and its children in document order.
    `tag` is `None` for the nodes whose tag is not a string in ElementTree and lxml:
    comments, processing instructions and entities.
   */
  datatype Element = Element(tag: Option<string>, attrs: map<string, string>, children: seq<Element>)

  /** An element node proper, the only kind the matchers are applied to. */
  predicate IsTagged(e: Element)
  {
    e.tag.Some?
  }
}
