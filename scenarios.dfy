/** Worked documents, with `render` left arbitrary. */
module AsideBlockExamples {
  import opened Preprocessor
  import opened AsideBlockProperties
  import opened AsideBlockComposition

  lemma OneAsideGlued()
    ensures "Hello\n[[aside\n**world**\naside]]\nBye" == "Hello\n" + StartMarker + "**world**\n" + EndMarker + "\nBye"
    ensures WellFormedInner("**world**\n")
    ensures forall a :: 0 <= a < |"Hello\n"| ==> !IsStart("Hello\n", a)
  {
  }

  lemma OneAsideOutput(render: string -> string)
    ensures "Hello\n" + OpenTag + render("**world**\n") + CloseTag + AsideBlocks("\nBye", render) ==
      "Hello\n<aside>" + render("**world**\n") + "</aside>\nBye"
  {
    NoBlockIdentity("\nBye", render);
  }

  /** A paragraph, one aside, and a closing line: only the aside changes. */
  lemma OneAside(render: string -> string)
    ensures AsideBlocks("Hello\n[[aside\n**world**\naside]]\nBye", render) ==
      "Hello\n<aside>" + render("**world**\n") + "</aside>\nBye"
    ensures Inners(Parse("Hello\n[[aside\n**world**\naside]]\nBye")) == ["**world**\n"]
  {
    OneAsideGlued();
    BlockThenRest("Hello\n", "**world**\n", "\nBye", render);
    OneAsideOutput(render);
  }

  /** A start marker that is never closed: the document is left exactly as it was. */
  lemma UnclosedAside(render: string -> string)
    ensures AsideBlocks("[[aside\nfoo", render) == "[[aside\nfoo"
    ensures Inners(Parse("[[aside\nfoo")) == []
  {
    NoBlockIdentity("[[aside\nfoo", render);
  }

  lemma NestedGlued()
    ensures "[[aside\na\n[[aside\nb\naside]]\nc\naside]]" == "" + StartMarker + "a\n[[aside\nb\n" + EndMarker + "\nc\naside]]"
    ensures WellFormedInner("a\n[[aside\nb\n")
  {
  }

  lemma NestedOutput(render: string -> string)
    ensures "" + OpenTag + render("a\n[[aside\nb\n") + CloseTag + AsideBlocks("\nc\naside]]", render) ==
      "<aside>" + render("a\n[[aside\nb\n") + "</aside>\nc\naside]]"
  {
    NoBlockIdentity("\nc\naside]]", render);
  }

  /**
   A second start marker inside a block is ordinary text: the block closes
   at the first end marker, and the second end marker is left as text.
   */
  lemma NestedStartIsText(render: string -> string)
    ensures AsideBlocks("[[aside\na\n[[aside\nb\naside]]\nc\naside]]", render) ==
      "<aside>" + render("a\n[[aside\nb\n") + "</aside>\nc\naside]]"
    ensures Inners(Parse("[[aside\na\n[[aside\nb\naside]]\nc\naside]]")) == ["a\n[[aside\nb\n"]
  {
    NestedGlued();
    BlockThenRest("", "a\n[[aside\nb\n", "\nc\naside]]", render);
    NestedOutput(render);
  }

  lemma FirstOfTwoGlued()
    ensures "[[aside\nx\naside]]\n[[aside\ny\naside]]" == "" + StartMarker + "x\n" + EndMarker + "\n[[aside\ny\naside]]"
  {
  }

  lemma FirstOfTwoInner()
    ensures WellFormedInner("x\n")
  {
  }

  lemma SecondOfTwoGlued()
    ensures "\n[[aside\ny\naside]]" == "\n" + StartMarker + "y\n" + EndMarker + ""
    ensures WellFormedInner("y\n")
  {
  }

  lemma SecondOfTwoOutput(render: string -> string)
    ensures "\n" + OpenTag + render("y\n") + CloseTag + AsideBlocks("", render) == "\n<aside>" + render("y\n") + "</aside>"
  {
    NoBlockIdentity("", render);
  }

  lemma SecondOfTwo(render: string -> string)
    ensures AsideBlocks("\n[[aside\ny\naside]]", render) == "\n<aside>" + render("y\n") + "</aside>"
    ensures Inners(Parse("\n[[aside\ny\naside]]")) == ["y\n"]
  {
    SecondOfTwoGlued();
    BlockThenRest("\n", "y\n", "", render);
    SecondOfTwoOutput(render);
  }

  lemma TwoAsidesOutput(render: string -> string)
    ensures "" + OpenTag + render("x\n") + CloseTag + ("\n<aside>" + render("y\n") + "</aside>") ==
      "<aside>" + render("x\n") + "</aside>\n<aside>" + render("y\n") + "</aside>"
  {
  }

  /** The substitution is global: two blocks in a row are both replaced. */
  lemma TwoAsides(render: string -> string)
    ensures AsideBlocks("[[aside\nx\naside]]\n[[aside\ny\naside]]", render) ==
      "<aside>" + render("x\n") + "</aside>\n<aside>" + render("y\n") + "</aside>"
    ensures Inners(Parse("[[aside\nx\naside]]\n[[aside\ny\naside]]")) == ["x\n", "y\n"]
  {
    FirstOfTwoGlued();
    FirstOfTwoInner();
    BlockThenRest("", "x\n", "\n[[aside\ny\naside]]", render);
    SecondOfTwo(render);
    TwoAsidesOutput(render);
  }
}
