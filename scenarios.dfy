/** Worked examples of one chapter's rewrite, against a given file system. */
module Scenarios {
  import opened Wrappers
  import opened Directives
  import opened Artifacts
  import opened Insigno

  /** One directive inside text that holds no other `$` is replaced; the text on either side is kept. */
  lemma {:induction false} OneDirectiveInText(fs: FileSystem, before: string, d: Directive, after: string)
    requires d.Valid()
    requires forall k :: 0 <= k < |before| ==> before[k] != '$'
    requires forall k :: 0 <= k < |after| ==> after[k] != '$'
    ensures Substitute(fs, before + d.Text() + after) == before + Expand(fs, d.cmd, d.arg) + after
  {
    var resolve := Resolver(fs);
    assert before + d.Text() + after == before + (d.Text() + after);
    PlainFirst(before, d.Text() + after, resolve);
    DirectiveFirst(d, after, resolve);
    assert after == after + "";
    PlainFirst(after, "", resolve);
  }

  /** A diagram directive in running text becomes its `plantuml` block; the words around it stay. */
  lemma DiagramInText(fs: FileSystem, text: string)
    requires text == "See $uml(diagrams/flow) for detail."
    requires "/tmp/uml/diagrams/flow.puml" in fs && fs["/tmp/uml/diagrams/flow.puml"] == Some("A->B")
    ensures Substitute(fs, text) == "See \n```plantuml\nA->B\n```\n for detail."
  {
    var d := Directive("uml", "diagrams/flow");
    SplitDiagramText(text, d);
    OneDirectiveInText(fs, "See ", d, " for detail.");
    var block := Expand(fs, d.cmd, d.arg);
    DiagramBlock(fs, block);
    DiagramBlockInText(block);
  }

  lemma SplitDiagramText(text: string, d: Directive)
    requires text == "See $uml(diagrams/flow) for detail."
    requires d == Directive("uml", "diagrams/flow")
    ensures d.Valid() && text == "See " + d.Text() + " for detail."
  {
    DiagramDirective(d);
    JoinDiagramText(d.Text());
  }

  lemma DiagramDirective(d: Directive)
    requires d == Directive("uml", "diagrams/flow")
    ensures d.Valid() && d.Text() == "$uml(diagrams/flow)"
  {
  }

  lemma JoinDiagramText(t: string)
    requires t == "$uml(diagrams/flow)"
    ensures "See " + t + " for detail." == "See $uml(diagrams/flow) for detail."
  {
  }

  lemma DiagramBlock(fs: FileSystem, block: string)
    requires "/tmp/uml/diagrams/flow.puml" in fs && fs["/tmp/uml/diagrams/flow.puml"] == Some("A->B")
    requires block == Expand(fs, "uml", "diagrams/flow")
    ensures block == Fence(UmlTag, "A->B")
  {
    var arg, path := "diagrams/flow", "/tmp/uml/diagrams/flow.puml";
    DiagramPath(arg, path);
    DiagramExpanded(fs, arg, path, "A->B");
  }

  lemma DiagramPath(arg: string, path: string)
    requires arg == "diagrams/flow" && path == "/tmp/uml/diagrams/flow.puml"
    ensures path == UmlDir + arg + ".puml"
  {
  }

  lemma DiagramBlockInText(block: string)
    requires block == Fence(UmlTag, "A->B")
    ensures "See " + block + " for detail." == "See \n```plantuml\nA->B\n```\n for detail."
  {
    assert FenceOpen(UmlTag) == "\n```plantuml\n";
  }

  /** A source directive whose file is missing is removed completely. */
  lemma MissingSource(fs: FileSystem, text: string)
    requires text == "$src(Foo/Bar)"
    requires "/tmp/insigno/Foo/Bar.cs" !in fs
    ensures Substitute(fs, text) == ""
  {
    var d := Directive("src", "Foo/Bar");
    assert d.Valid();
    assert text == d.Text() + "";
    assert SrcPath(d.arg) == "/tmp/insigno/Foo/Bar.cs";
    FailedSrcRemoved(fs, d.arg, "");
  }

  /** An unknown command is removed completely. */
  lemma UnknownCommand(fs: FileSystem, text: string)
    requires text == "$noop(x)"
    ensures Substitute(fs, text) == ""
  {
    var d := Directive("noop", "x");
    assert d.Valid();
    assert text == d.Text() + "";
    UnknownCommandRemoved(fs, d, "");
  }

  /** Two directives separated by text without a `$` are both replaced, in order, and the text between them is kept. */
  lemma TwoDirectives(fs: FileSystem, first: Directive, mid: string, second: Directive)
    requires first.Valid() && second.Valid()
    requires forall k :: 0 <= k < |mid| ==> mid[k] != '$'
    ensures Substitute(fs, first.Text() + mid + second.Text())
         == Expand(fs, first.cmd, first.arg) + mid + Expand(fs, second.cmd, second.arg)
  {
    PairReplaced(first, mid, second, Resolver(fs));
  }

  /** Two diagrams are inserted in their original order, with the text between them kept. */
  lemma TwoDiagrams(fs: FileSystem, x: string, y: string, mid: string, a: string, b: string)
    requires Directive("uml", x).Valid() && Directive("uml", y).Valid()
    requires forall k :: 0 <= k < |mid| ==> mid[k] != '$'
    requires UmlPath(x) in fs && fs[UmlPath(x)] == Some(a)
    requires UmlPath(y) in fs && fs[UmlPath(y)] == Some(b)
    ensures Substitute(fs, Directive("uml", x).Text() + mid + Directive("uml", y).Text())
         == Fence("plantuml", a) + mid + Fence("plantuml", b)
  {
    TwoDirectives(fs, Directive("uml", x), mid, Directive("uml", y));
    DiagramExpanded(fs, x, UmlPath(x), a);
    DiagramExpanded(fs, y, UmlPath(y), b);
  }

  lemma DiagramExpanded(fs: FileSystem, arg: string, path: string, content: string)
    requires path == UmlDir + arg + ".puml"
    requires path in fs && fs[path] == Some(content)
    ensures Expand(fs, "uml", arg) == Fence("plantuml", content)
  {
  }
}
