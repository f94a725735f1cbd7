/**
 * The preprocessor's pass over a book: every chapter's text has each
 * `$uml(..)` and `$src(..)` directive replaced by the fenced file it names,
 * and every other directive (or one whose file cannot be read) removed;
 * sub-chapters are handled the same way, and nothing else in the book changes.
 */
module Insigno {
  import opened Wrappers
  import opened Directives
  import opened Artifacts

  /** The replacement for one directive: the closure given to `replace_all`. */
  function Expand(fs: FileSystem, cmd: string, arg: string): (r: string)
    ensures cmd == "uml" && Readable(fs, UmlPath(arg)) ==> r == Fence(UmlTag, fs[UmlPath(arg)].value)
    ensures cmd == "src" && Readable(fs, SrcPath(arg)) ==> r == Fence(CsTag, fs[SrcPath(arg)].value)
    ensures r == "" <==> !((cmd == "uml" && Readable(fs, UmlPath(arg))) || (cmd == "src" && Readable(fs, SrcPath(arg))))
  {
    if cmd == "uml" then
      match GetUml(fs, arg)
      case Ok(data) =>
        FenceUnfence(UmlTag, data);
        FenceNotEmpty(UmlTag, fs[UmlPath(arg)].value);
        data
      case Err(_) => ""
    else if cmd == "src" then
      match GetSrc(fs, arg)
      case Ok(data) =>
        FenceUnfence(CsTag, data);
        FenceNotEmpty(CsTag, fs[SrcPath(arg)].value);
        data
      case Err(_) => ""
    else ""
  }

  /** The dispatch closure, over a given file system. */
  function Resolver(fs: FileSystem): (string, string) -> string {
    (cmd, arg) => Expand(fs, cmd, arg)
  }

  /** A chapter's new content. */
  function Substitute(fs: FileSystem, content: string): string {
    ReplaceAll(content, Resolver(fs))
  }

  /** A directive with a command other than `uml` and `src` is removed, and the text after it is still processed. */
  lemma UnknownCommandRemoved(fs: FileSystem, d: Directive, rest: string)
    requires d.Valid() && d.cmd != "uml" && d.cmd != "src"
    ensures Substitute(fs, d.Text() + rest) == Substitute(fs, rest)
  {
    DirectiveFirst(d, rest, Resolver(fs));
  }

  /** A `uml` directive whose file cannot be read is removed, and the text after it is still processed. */
  lemma FailedUmlRemoved(fs: FileSystem, arg: string, rest: string)
    requires Directive("uml", arg).Valid() && !Readable(fs, UmlPath(arg))
    ensures Substitute(fs, Directive("uml", arg).Text() + rest) == Substitute(fs, rest)
  {
    DirectiveFirst(Directive("uml", arg), rest, Resolver(fs));
  }

  /** A `src` directive whose file cannot be read is removed, and the text after it is still processed. */
  lemma FailedSrcRemoved(fs: FileSystem, arg: string, rest: string)
    requires Directive("src", arg).Valid() && !Readable(fs, SrcPath(arg))
    ensures Substitute(fs, Directive("src", arg).Text() + rest) == Substitute(fs, rest)
  {
    DirectiveFirst(Directive("src", arg), rest, Resolver(fs));
  }

  /** The output of a resolver is inserted as it is, even when it holds a directive itself. */
  lemma ResolvedTextNotRescanned(fs: FileSystem, arg: string, rest: string)
    requires Directive("uml", arg).Valid() && Readable(fs, UmlPath(arg))
    ensures Substitute(fs, Directive("uml", arg).Text() + rest)
         == Fence(UmlTag, fs[UmlPath(arg)].value) + Substitute(fs, rest)
  {
    DirectiveFirst(Directive("uml", arg), rest, Resolver(fs));
  }

  /**
   * Running the preprocessor over its own output may change it again:
   * removing an unknown inner directive joins the text around it into a new
   * directive, which only a second run removes.
   */
  lemma SecondRunMayChange(fs: FileSystem, cmd: string, inner: Directive, arg: string)
    requires Directive(cmd, arg).Valid() && inner.Valid()
    requires forall k :: 0 <= k < |arg| ==> arg[k] != '$'
    requires cmd != "uml" && cmd != "src" && inner.cmd != "uml" && inner.cmd != "src"
    ensures Substitute(fs, "$" + cmd + inner.Text() + "(" + arg + ")") == Directive(cmd, arg).Text()
    ensures Substitute(fs, Substitute(fs, "$" + cmd + inner.Text() + "(" + arg + ")")) == ""
  {
    SecondPassMayChange(cmd, inner, arg, Resolver(fs));
  }

  /** A chapter; the fields the pass does not touch stand for all of mdBook's others. */
  datatype Chapter = Chapter(
    name: string,
    content: string,
    number: Option<seq<nat>>,
    subItems: seq<BookItem>,
    path: Option<string>)

  datatype BookItem = ChapterItem(chapter: Chapter) | Separator | PartTitle(title: string)

  function ProcessItem(fs: FileSystem, item: BookItem): BookItem
    decreases item
  {
    match item
    case ChapterItem(ch) =>
      ChapterItem(ch.(subItems := ProcessItems(fs, ch.subItems), content := Substitute(fs, ch.content)))
    case _ => item
  }

  /** What `process` leaves in a list of items. */
  function ProcessItems(fs: FileSystem, items: seq<BookItem>): seq<BookItem>
    decreases items
  {
    seq(|items|, k requires 0 <= k < |items| => ProcessItem(fs, items[k]))
  }

  /**
   * `process`: for each item in turn, a chapter is rewritten in place;
   * separators and part titles are left alone.
   */
  method Process(fs: FileSystem, items: seq<BookItem>) returns (out: seq<BookItem>)
    ensures out == ProcessItems(fs, items)
    decreases items
  {
    out := items;
    var i := 0;
    while i < |out|
      invariant 0 <= i <= |out| == |items|
      invariant forall k :: 0 <= k < i ==> out[k] == ProcessItem(fs, items[k])
      invariant forall k :: i <= k < |out| ==> out[k] == items[k]
      decreases |out| - i
    {
      if out[i].ChapterItem? {
        assert out[i] == items[i];
        var updated := ProcessChapter(fs, out[i]);
        out := out[i := ChapterItem(updated)];
      }
      i := i + 1;
    }
  }

  /** One chapter: its sub-items are processed first, then its content is rewritten. */
  method ProcessChapter(fs: FileSystem, item: BookItem) returns (updated: Chapter)
    requires item.ChapterItem?
    ensures ChapterItem(updated) == ProcessItem(fs, item)
    decreases item
  {
    var ch := item.chapter;
    var subs := Process(fs, ch.subItems);
    updated := ch.(subItems := subs);
    updated := updated.(content := Substitute(fs, ch.content));
  }

  /** An item with every chapter's content, at every depth, blanked out: the shape of the book. */
  function Skeleton(item: BookItem): BookItem
    decreases item
  {
    match item
    case ChapterItem(ch) => ChapterItem(ch.(content := "", subItems := Skeletons(ch.subItems)))
    case _ => item
  }

  function Skeletons(items: seq<BookItem>): seq<BookItem>
    decreases items
  {
    seq(|items|, k requires 0 <= k < |items| => Skeleton(items[k]))
  }

  /** Every chapter's content, at every depth, in the order chapters are met. */
  function Contents(items: seq<BookItem>): seq<string>
    decreases items
  {
    if items == [] then []
    else ItemContents(items[0]) + Contents(items[1..])
  }

  function ItemContents(item: BookItem): seq<string>
    decreases item
  {
    match item
    case ChapterItem(ch) => Contents(ch.subItems) + [ch.content]
    case _ => []
  }

  /** The processed book has the same items, in the same order and nesting, with the same fields; only contents differ. */
  lemma {:induction false} ProcessKeepsShape(fs: FileSystem, items: seq<BookItem>)
    ensures Skeletons(ProcessItems(fs, items)) == Skeletons(items)
    decreases items
  {
    forall k | 0 <= k < |items|
      ensures Skeleton(ProcessItem(fs, items[k])) == Skeleton(items[k])
    {
      ProcessItemKeepsShape(fs, items[k]);
    }
  }

  lemma {:induction false} ProcessItemKeepsShape(fs: FileSystem, item: BookItem)
    ensures Skeleton(ProcessItem(fs, item)) == Skeleton(item)
    decreases item
  {
    match item
    case ChapterItem(ch) => ProcessKeepsShape(fs, ch.subItems);
    case _ =>
  }

  /** Every chapter's content, at every depth, is rewritten exactly once. */
  lemma {:induction false} ProcessRewritesEachChapterOnce(fs: FileSystem, items: seq<BookItem>)
    ensures |Contents(ProcessItems(fs, items))| == |Contents(items)|
    ensures forall k :: 0 <= k < |Contents(items)| ==>
      Contents(ProcessItems(fs, items))[k] == Substitute(fs, Contents(items)[k])
    decreases items
  {
    if items != [] {
      var out := ProcessItems(fs, items);
      assert out[1..] == ProcessItems(fs, items[1..]);
      ItemRewrittenOnce(fs, items[0]);
      ProcessRewritesEachChapterOnce(fs, items[1..]);
    }
  }

  lemma {:induction false} ItemRewrittenOnce(fs: FileSystem, item: BookItem)
    ensures |ItemContents(ProcessItem(fs, item))| == |ItemContents(item)|
    ensures forall k :: 0 <= k < |ItemContents(item)| ==>
      ItemContents(ProcessItem(fs, item))[k] == Substitute(fs, ItemContents(item)[k])
    decreases item
  {
    match item
    case ChapterItem(ch) => ProcessRewritesEachChapterOnce(fs, ch.subItems);
    case _ =>
  }

  /** The shape and the contents together determine a book, so the two lemmas above say everything `process` does. */
  lemma {:induction false} ShapeAndContentsDetermine(a: seq<BookItem>, b: seq<BookItem>)
    requires Skeletons(a) == Skeletons(b) && Contents(a) == Contents(b)
    ensures a == b
    decreases a
  {
    if a != [] {
      assert |b| == |Skeletons(b)| == |Skeletons(a)| == |a|;
      assert Skeletons(a)[0] == Skeleton(a[0]) && Skeletons(b)[0] == Skeleton(b[0]);
      assert Skeleton(a[0]) == Skeleton(b[0]);
      ItemContentsLength(a[0], b[0]);
      var n := |ItemContents(a[0])|;
      assert ItemContents(a[0]) == Contents(a)[..n];
      assert ItemContents(b[0]) == Contents(b)[..n];
      ItemDetermined(a[0], b[0]);
      assert Skeletons(a[1..]) == Skeletons(a)[1..];
      assert Skeletons(b[1..]) == Skeletons(b)[1..];
      assert Contents(a[1..]) == Contents(a)[n..];
      assert Contents(b[1..]) == Contents(b)[n..];
      ShapeAndContentsDetermine(a[1..], b[1..]);
      assert a == [a[0]] + a[1..];
      assert b == [b[0]] + b[1..];
    } else {
      assert |Skeletons(b)| == 0;
    }
  }

  lemma {:induction false} ItemDetermined(a: BookItem, b: BookItem)
    requires Skeleton(a) == Skeleton(b) && ItemContents(a) == ItemContents(b)
    ensures a == b
    decreases a
  {
    match a
    case ChapterItem(ca) =>
      var cb := b.chapter;
      assert Skeletons(ca.subItems) == Skeletons(cb.subItems);
      ContentsLength(ca.subItems, cb.subItems);
      var n := |Contents(ca.subItems)|;
      assert Contents(ca.subItems) == ItemContents(a)[..n];
      assert Contents(cb.subItems) == ItemContents(b)[..n];
      ShapeAndContentsDetermine(ca.subItems, cb.subItems);
      assert ca.content == ItemContents(a)[n];
      assert cb.content == ItemContents(b)[n];
    case _ =>
  }

  /** Books of the same shape hold the same number of chapters. */
  lemma {:induction false} ContentsLength(a: seq<BookItem>, b: seq<BookItem>)
    requires Skeletons(a) == Skeletons(b)
    ensures |Contents(a)| == |Contents(b)|
    decreases a
  {
    if a != [] {
      assert |b| == |Skeletons(b)| == |Skeletons(a)| == |a|;
      assert Skeletons(a)[0] == Skeleton(a[0]) && Skeletons(b)[0] == Skeleton(b[0]);
      assert Skeleton(a[0]) == Skeleton(b[0]);
      ItemContentsLength(a[0], b[0]);
      assert Skeletons(a[1..]) == Skeletons(a)[1..];
      assert Skeletons(b[1..]) == Skeletons(b)[1..];
      ContentsLength(a[1..], b[1..]);
    } else {
      assert |Skeletons(b)| == 0;
    }
  }

  lemma {:induction false} ItemContentsLength(a: BookItem, b: BookItem)
    requires Skeleton(a) == Skeleton(b)
    ensures |ItemContents(a)| == |ItemContents(b)|
    decreases a
  {
    match a
    case ChapterItem(ca) =>
      ContentsLength(ca.subItems, b.chapter.subItems);
    case _ =>
  }
}
