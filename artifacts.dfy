/**
 * The two resolvers, `get_uml` and `get_src`: each builds a path from a fixed
 * root, the directive's argument and a fixed extension, reads that file and
 * wraps its text in a fenced code block tagged with the language.
 *
 * The file system is a map from path to what reading it gives: a path that
 * is not in the map cannot be opened, and a path mapped to `None` opens but
 * cannot be read as text.
 */
module Artifacts {
  import opened Wrappers

  type Path = string

  type FileSystem = map<Path, Option<string>>

  /** The `std::io::Error` a resolver passes on: only which step failed, opening or reading. */
  datatype IoError = OpenFailed | ReadFailed

  /** Where the diagram generator writes its `.puml` files. */
  const UmlDir: string := "/tmp/uml/"

  /** Where the C# repository is checked out. */
  const GitDir: string := "/tmp/insigno/"

  const UmlTag: string := "plantuml"
  const CsTag: string := "cs"

  /** The diagram file for `arg`: under the diagram directory, with the `.puml` extension. */
  function UmlPath(arg: string): (p: Path)
    ensures |p| == |UmlDir| + |arg| + 5
    ensures p[..|UmlDir|] == UmlDir && p[|UmlDir|..|p| - 5] == arg && p[|p| - 5..] == ".puml"
  {
    UmlDir + arg + ".puml"
  }

  /** The source file for `arg`: under the checkout, with the `.cs` extension. */
  function SrcPath(arg: string): (p: Path)
    ensures |p| == |GitDir| + |arg| + 3
    ensures p[..|GitDir|] == GitDir && p[|GitDir|..|p| - 3] == arg && p[|p| - 3..] == ".cs"
  {
    GitDir + arg + ".cs"
  }

  predicate Readable(fs: FileSystem, p: Path) {
    p in fs && fs[p].Some?
  }

  /** `File::open` followed by `read_to_string`. */
  function ReadFile(fs: FileSystem, p: Path): (r: Result<string, IoError>)
    ensures r.Ok? <==> Readable(fs, p)
    ensures r.Ok? ==> r.value == fs[p].value
    ensures r.Err? ==> (r.error.OpenFailed? <==> p !in fs)
  {
    if p !in fs then Err(OpenFailed)
    else match fs[p]
      case None => Err(ReadFailed)
      case Some(text) => Ok(text)
  }

  function FenceOpen(tag: string): string {
    "\n```" + tag + "\n"
  }

  const FenceClose: string := "\n```\n"

  /**
   * A fenced code block (CommonMark, section 4.5) tagged `tag`, set off by a
   * newline on each side. The content is inserted as it is: a line of three
   * backticks inside it would close the block early when the Markdown is
   * rendered.
   */
  function Fence(tag: string, content: string): (r: string)
    ensures |r| == |FenceOpen(tag)| + |content| + |FenceClose|
    ensures r[..|FenceOpen(tag)|] == FenceOpen(tag) && r[|r| - |FenceClose|..] == FenceClose
    ensures r[|FenceOpen(tag)|..|r| - |FenceClose|] == content
  {
    FenceOpen(tag) + content + FenceClose
  }

  /**
   * The content between the opening and closing fence strings, if `block`
   * starts and ends with them. This inverts the string concatenation of
   * `Fence`, not a Markdown parse.
   */
  function Unfence(tag: string, block: string): (r: Option<string>)
    ensures r.Some? ==> |r.value| + |FenceOpen(tag)| + |FenceClose| == |block|
  {
    var open := FenceOpen(tag);
    if |block| >= |open| + |FenceClose|
       && block[..|open|] == open
       && block[|block| - |FenceClose|..] == FenceClose
    then Some(block[|open|..|block| - |FenceClose|])
    else None
  }

  /** Unfencing gives back exactly the content that was fenced. */
  lemma UnfenceFence(tag: string, content: string)
    ensures Unfence(tag, Fence(tag, content)) == Some(content)
  {
    var b := Fence(tag, content);
    var open := FenceOpen(tag);
    assert b[..|open|] == open;
    assert b[|b| - |FenceClose|..] == FenceClose;
    assert b[|open|..|b| - |FenceClose|] == content;
  }

  /** A block that unfences was built by fencing what it unfences to. */
  lemma FenceUnfence(tag: string, block: string)
    requires Unfence(tag, block).Some?
    ensures Fence(tag, Unfence(tag, block).value) == block
  {
    var open := FenceOpen(tag);
    var n := |block| - |FenceClose|;
    assert block == block[..|open|] + block[|open|..n] + block[n..];
  }

  /** A fenced block is never empty: it starts with a newline. */
  lemma FenceNotEmpty(tag: string, content: string)
    ensures |Fence(tag, content)| > 0 && Fence(tag, content)[0] == '\n'
  {
  }

  /** `get_src`: the argument's `.cs` file under the checkout, fenced as `cs`. */
  function GetSrc(fs: FileSystem, arg: string): (r: Result<string, IoError>)
    ensures r.Ok? <==> Readable(fs, SrcPath(arg))
    ensures r.Ok? ==> Unfence(CsTag, r.value) == Some(fs[SrcPath(arg)].value)
    ensures r.Err? ==> (r.error.OpenFailed? <==> SrcPath(arg) !in fs)
  {
    match ReadFile(fs, SrcPath(arg))
    case Ok(text) =>
      UnfenceFence(CsTag, text);
      Ok(Fence(CsTag, text))
    case Err(e) => Err(e)
  }

  /** `get_uml`: the argument's `.puml` file under the diagram directory, fenced as `plantuml`. */
  function GetUml(fs: FileSystem, arg: string): (r: Result<string, IoError>)
    ensures r.Ok? <==> Readable(fs, UmlPath(arg))
    ensures r.Ok? ==> Unfence(UmlTag, r.value) == Some(fs[UmlPath(arg)].value)
    ensures r.Err? ==> (r.error.OpenFailed? <==> UmlPath(arg) !in fs)
  {
    match ReadFile(fs, UmlPath(arg))
    case Ok(text) =>
      UnfenceFence(UmlTag, text);
      Ok(Fence(UmlTag, text))
    case Err(e) => Err(e)
  }

  /** A successful `get_src` returns the whole file between the `cs` fences, byte for byte. */
  lemma GetSrcFenced(fs: FileSystem, arg: string)
    requires Readable(fs, SrcPath(arg))
    ensures GetSrc(fs, arg) == Ok("\n```cs\n" + fs["/tmp/insigno/" + arg + ".cs"].value + "\n```\n")
  {
    assert SrcPath(arg) == "/tmp/insigno/" + arg + ".cs";
    assert FenceOpen(CsTag) == "\n```cs\n";
    var text := fs[SrcPath(arg)].value;
    assert Fence(CsTag, text) == "\n```cs\n" + text + "\n```\n";
  }

  /** A successful `get_uml` returns the whole file between the `plantuml` fences, byte for byte. */
  lemma GetUmlFenced(fs: FileSystem, arg: string)
    requires Readable(fs, UmlPath(arg))
    ensures GetUml(fs, arg) == Ok("\n```plantuml\n" + fs["/tmp/uml/" + arg + ".puml"].value + "\n```\n")
  {
    assert UmlPath(arg) == "/tmp/uml/" + arg + ".puml";
    assert FenceOpen(UmlTag) == "\n```plantuml\n";
    var text := fs[UmlPath(arg)].value;
    assert Fence(UmlTag, text) == "\n```plantuml\n" + text + "\n```\n";
  }

  /** Different arguments give different `.cs` path strings. */
  lemma SrcPathInjective(a: string, b: string)
    requires SrcPath(a) == SrcPath(b)
    ensures a == b
  {
    var pa, pb := SrcPath(a), SrcPath(b);
    assert a == pa[|GitDir|..|pa| - 3];
    assert b == pb[|GitDir|..|pb| - 3];
  }

  /** Different arguments give different `.puml` path strings. */
  lemma UmlPathInjective(a: string, b: string)
    requires UmlPath(a) == UmlPath(b)
    ensures a == b
  {
    var pa, pb := UmlPath(a), UmlPath(b);
    assert a == pa[|UmlDir|..|pa| - 5];
    assert b == pb[|UmlDir|..|pb| - 5];
  }

  /** No path string the source resolver builds equals one the diagram resolver builds: they start with different roots. */
  lemma RootsDisjoint(a: string, b: string)
    ensures SrcPath(a) != UmlPath(b)
  {
    assert SrcPath(a)[5] == 'i';
    assert UmlPath(b)[5] == 'u';
  }
}
