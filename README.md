# mdbook-insigno: the directive substitution engine

`mdbook-insigno` is an mdBook preprocessor. It walks the book's chapter tree
and, in every chapter's Markdown, replaces each directive `$cmd(arg)`:

- `$uml(arg)` becomes the PlantUML file `/tmp/uml/<arg>.puml`, fenced as
  `plantuml`;
- `$src(arg)` becomes the C# file `/tmp/insigno/<arg>.cs`, fenced as `cs`;
- any other command, and any directive whose file cannot be opened or read,
  becomes the empty string.

This Dafny project models that engine and proves what it does.

- `wrappers.dfy`: `Option` and `Result`.
- `directives.dfy` (module `Directives`): the pattern
  `\$(?P<cmd>\w+)\((?P<arg>[^)]+)\)` as a hand-written scanner (`MatchPrefix`)
  and the regex crate's `replace_all` as `ReplaceAll`.
  - `Tokens` is the scan itself: the leftmost, non-overlapping matches, with the
    characters between them.
  - `IsScan` says what such a scan is without referring to the scanner.
  - The scanner meets `IsScan`, and `IsScan` has exactly one solution per text.
    So `ReplaceAll` is pinned down by the specification alone.
- `artifacts.dfy` (module `Artifacts`): `get_src` and `get_uml` over an abstract
  file system, `map<Path, Option<string>>`.
  - A path missing from the map cannot be opened (`File::open` fails).
  - A path mapped to `None` opens but cannot be read as text
    (`read_to_string` fails).
  - `Fence` wraps content in a fenced block (CommonMark, section 4.5).
    `Unfence` is its inverse as string concatenation, not as a Markdown parse:
    the file is inserted as it is, so a file holding a line of three
    backticks closes the block early when the book is rendered.
  - Paths are strings. Different arguments give different path strings, but
    nothing resolves `.`, `..`, `//` or symbolic links (see "Left out").
- `insigno.dfy` (module `Insigno`):
  - the dispatch closure (`Expand`) and a chapter's rewrite (`Substitute`);
  - the book tree (`BookItem`, `Chapter`);
  - `process` as the method `Process` (with `ProcessChapter`), which has a loop
    over the items and recurses into sub-items. It is proved equal to the
    function `ProcessItems`.
  - About `ProcessItems`, the project proves three things:
    - the shape of the book is kept (`Skeletons`);
    - each chapter's content, at every depth, is rewritten exactly once
      (`Contents`);
    - shape and contents together determine a book.
- `scenarios.dfy` (module `Scenarios`): worked examples of one chapter's
  rewrite.

The word-character class is modelled as ASCII `[A-Za-z0-9_]`
(`Directives.IsWordChar`). Rust's `\w` is Unicode-aware; see "Left out".

`[^)]` also accepts `(`, `$` and newlines. So `$a(x(y)` is one directive whose
argument is `x(y` (`ArgumentMayHoldOpenParen`).

A second pass is sometimes described as changing nothing once the fenced
blocks contain no directive. The code does not behave that way:
removing a directive can join the text on either side into a new one.
For example, with unknown commands `$a$b(c)(z)` becomes `$a(z)`, and a second
pass then removes `$a(z)` as well (`SecondPassMayChange`, and
`SecondRunMayChange` for the preprocessor's own resolver over any file
system). The model follows the code.

## Model

| member | source | states |
|---|---|---|
| `Directives.WordEnd` | src/bin/mdbook-insigno.rs:87 | the command run `\w+`: every character from the start up to the result is a word character, and the character at the result (if any) is not |
| `Directives.CloseParen` | src/bin/mdbook-insigno.rs:87 | the argument `[^)]+` ends at the first `)` after the `(`: no `)` lies between, and none exists at all when the result is `None` |
| `Directives.MatchPrefix` | src/bin/mdbook-insigno.rs:87 | a match found at the front of a text is a well-formed directive (`\w+` command, `[^)]+` argument) whose `$cmd(arg)` text is a prefix of it |
| `Directives.MatchPrefixComplete` | src/bin/mdbook-insigno.rs:87 | every well-formed directive that a text starts with is the one the scanner returns, so at most one directive starts at any position and no backtracking is needed |
| `Directives.TokensIsScan` | src/bin/mdbook-insigno.rs:87-91 | the scanner's output is a leftmost, non-overlapping scan: each kept character sits where no directive starts, each match is a well-formed directive at that point |
| `Directives.Tokens` | src/bin/mdbook-insigno.rs:87-91 | the scan of a text gives the text back: its matches and the characters between them, in order, are exactly the input (the scan is leftmost and unique by `TokensIsScan` and `ScanUnique`) |
| `Directives.ReplaceAll` | src/bin/mdbook-insigno.rs:91 | no contract of its own; `ReplaceAllSpec` ties it to the one leftmost scan, and `FreeTextUnchanged`, `DirectiveFirst`, `PlainFirst` and `NoMatchFirst` give its behaviour case by case |
| `Directives.ScanCoversText` | src/bin/mdbook-insigno.rs:91 | the matches and the text before, between and after them, in order, make up exactly the original text |
| `Directives.ScanUnique` | src/bin/mdbook-insigno.rs:91 | a text has only one leftmost, non-overlapping scan |
| `Directives.ReplaceAllSpec` | src/bin/mdbook-insigno.rs:91-119 | for the scan of a text, `replace_all` returns that scan with every match swapped for its resolution and all other text kept verbatim and in order |
| `Directives.FreeTextUnchanged` | src/bin/mdbook-insigno.rs:87-91 | a text with no match of the pattern is returned unchanged, whatever the resolver |
| `Directives.FreeIffEraseIdentity` | src/bin/mdbook-insigno.rs:87-91 | a text holds no match exactly when removing every match leaves it as it was |
| `Directives.DirectiveFirst` | src/bin/mdbook-insigno.rs:91-119 | a directive at the front is replaced by its resolution once, which is never rescanned, and scanning resumes just after its `)` |
| `Directives.PlainFirst` | src/bin/mdbook-insigno.rs:91 | text without a `$` is copied through unchanged and scanning resumes after it |
| `Directives.NoMatchFirst` | src/bin/mdbook-insigno.rs:91 | where no directive starts, one character is kept and scanning advances by one |
| `Directives.ArgumentMayHoldOpenParen` | src/bin/mdbook-insigno.rs:87 | `$a(x(y)` is a single directive with command `a` and argument `x(y` |
| `Directives.PairReplaced` | src/bin/mdbook-insigno.rs:91 | two directives with `$`-free text between them are each replaced by their resolution, in order, and the text between is kept |
| `Directives.SecondPassMayChange` | src/bin/mdbook-insigno.rs:91-119 | for any resolver that erases both, removing an inner directive joins its neighbours into a new directive, which a second pass then removes |
| `Artifacts.SrcPath` | src/bin/mdbook-insigno.rs:151 | the path string is the checkout root, then the argument, then `.cs` |
| `Artifacts.UmlPath` | src/bin/mdbook-insigno.rs:161 | the path string is the diagram directory, then the argument, then `.puml` |
| `Artifacts.ReadFile` | src/bin/mdbook-insigno.rs:153-155 | reading succeeds exactly when the path can be opened and read and returns its text; otherwise the error says whether opening or reading failed |
| `Artifacts.Fence` | src/bin/mdbook-insigno.rs:154-156 | the block is the opening fence with its tag, then the content unchanged, then the closing fence |
| `Artifacts.UnfenceFence` | src/bin/mdbook-insigno.rs:154-156 | unfencing a fenced block gives back exactly the content that was fenced |
| `Artifacts.FenceUnfence` | src/bin/mdbook-insigno.rs:154-156 | every block that unfences is the fence of its content, so fencing and unfencing are inverse |
| `Artifacts.GetSrc` | src/bin/mdbook-insigno.rs:150-158 | succeeds exactly when the argument's `.cs` file under the checkout is readable; its result unfences as `cs` to the whole file; a failure says whether that file could not be opened or could not be read |
| `Artifacts.GetUml` | src/bin/mdbook-insigno.rs:160-168 | succeeds exactly when the argument's `.puml` file under the diagram directory is readable; its result unfences as `plantuml` to the whole file; a failure says whether that file could not be opened or could not be read |
| `Artifacts.GetSrcFenced` | src/bin/mdbook-insigno.rs:150-157 | on success `get_src(arg)` returns exactly `"\n```cs\n"` + the content of `"/tmp/insigno/" + arg + ".cs"` + `"\n```\n"` |
| `Artifacts.GetUmlFenced` | src/bin/mdbook-insigno.rs:160-167 | on success `get_uml(arg)` returns exactly `"\n```plantuml\n"` + the content of `"/tmp/uml/" + arg + ".puml"` + `"\n```\n"` |
| `Artifacts.SrcPathInjective` | src/bin/mdbook-insigno.rs:151 | different arguments give different `.cs` path strings |
| `Artifacts.UmlPathInjective` | src/bin/mdbook-insigno.rs:161 | different arguments give different `.puml` path strings |
| `Artifacts.RootsDisjoint` | src/bin/mdbook-insigno.rs:56-57 | no `.cs` path string equals a `.puml` path string: they start with different roots |
| `Insigno.Expand` | src/bin/mdbook-insigno.rs:92-118 | `uml` and `src` with a readable file give that file's fenced block; the result is empty exactly when the command is neither, or its file cannot be read |
| `Insigno.Substitute` | src/bin/mdbook-insigno.rs:91-119 | no contract of its own; `UnknownCommandRemoved`, `FailedUmlRemoved`, `FailedSrcRemoved`, `ResolvedTextNotRescanned` and `SecondRunMayChange` state what it does to a chapter's text |
| `Insigno.UnknownCommandRemoved` | src/bin/mdbook-insigno.rs:117 | a directive whose command is neither `uml` nor `src` is replaced by nothing, and the rest of the text is still processed |
| `Insigno.FailedUmlRemoved` | src/bin/mdbook-insigno.rs:95-103 | a `uml` directive whose file cannot be read is replaced by nothing, and later directives are still processed |
| `Insigno.FailedSrcRemoved` | src/bin/mdbook-insigno.rs:107-115 | a `src` directive whose file cannot be read is replaced by nothing, and later directives are still processed |
| `Insigno.ResolvedTextNotRescanned` | src/bin/mdbook-insigno.rs:91-98 | a resolved diagram is inserted as its fenced block verbatim, whatever the file holds, and only the text after the directive is scanned further |
| `Insigno.SecondRunMayChange` | src/bin/mdbook-insigno.rs:91-119 | with unknown commands, one rewrite turns `$a$b(c)(z)` into `$a(z)` and a second rewrite of that output removes it, over every file system |
| `Insigno.ProcessItem` | src/bin/mdbook-insigno.rs:89-120 | no contract of its own; `ProcessChapter` proves the method equal to it, and `ProcessItemKeepsShape` and `ItemRewrittenOnce` state what it changes |
| `Insigno.ProcessItems` | src/bin/mdbook-insigno.rs:88-122 | no contract of its own; `Process` proves the method equal to it, and `ProcessKeepsShape`, `ProcessRewritesEachChapterOnce` and `ShapeAndContentsDetermine` state what it changes |
| `Insigno.Process` | src/bin/mdbook-insigno.rs:84-124 | the loop over the items leaves exactly `ProcessItems` of them: each chapter processed, every other item untouched |
| `Insigno.ProcessChapter` | src/bin/mdbook-insigno.rs:89-120 | a chapter gets its sub-items processed and its content rewritten, and no other field changes |
| `Insigno.ProcessKeepsShape` | src/bin/mdbook-insigno.rs:88-121 | the number, order and nesting of items and every field other than a chapter's content are the same after processing |
| `Insigno.ProcessRewritesEachChapterOnce` | src/bin/mdbook-insigno.rs:88-121 | every chapter at every depth has its content replaced by exactly one substitution of its old content |
| `Insigno.ShapeAndContentsDetermine` | src/bin/mdbook-insigno.rs:88-121 | books with the same shape and the same chapter contents are equal, so the two lemmas above fix the result of processing completely |
| `Scenarios.OneDirectiveInText` | src/bin/mdbook-insigno.rs:91-119 | a single directive in `$`-free text is replaced by its resolution, with the text on both sides kept |
| `Scenarios.DiagramInText` | src/bin/mdbook-insigno.rs:91-98 | `See $uml(diagrams/flow) for detail.` with that file holding `A->B` becomes ``See \n```plantuml\nA->B\n```\n for detail.`` |
| `Scenarios.MissingSource` | src/bin/mdbook-insigno.rs:105-115 | `$src(Foo/Bar)` with no `/tmp/insigno/Foo/Bar.cs` becomes the empty text |
| `Scenarios.UnknownCommand` | src/bin/mdbook-insigno.rs:117 | `$noop(x)` becomes the empty text |
| `Scenarios.TwoDirectives` | src/bin/mdbook-insigno.rs:91-119 | two directives separated by `$`-free text are both resolved, in their order, with the text between kept |
| `Scenarios.TwoDiagrams` | src/bin/mdbook-insigno.rs:91-98 | two `uml` directives with readable files and `$`-free text between them become the two fenced blocks, in order, with that text between them |

## Left out

- `main` and `make_app` (src/bin/mdbook-insigno.rs:21-54) are not modelled. They cover command-line parsing, the `supports` exit code, the JSON request read from stdin and the book written to stdout. All of it is I/O through external libraries.
- The `insigno-uml-cmd` configuration lookup is not modelled. Its value is read but never used.
- `uml_setup` is not modelled. It runs `git clone`/`git pull` and `puml-gen` as external processes. The file system map stands for whatever those leave on disk.
- Artifacts.IoError: records only whether `File::open` or `read_to_string` failed. The program passes on the `io::Error` with `?`, and only its message reaches the `eprintln!` at src/bin/mdbook-insigno.rs:100 and :112; its OS error kind and message are not modelled.
- Artifacts.FileSystem: paths are compared as strings. `.`, `..`, `//` and symbolic links are not resolved, so `$src(./a)` and `$src(a)` may name one file on disk, and `$src(../x)` can reach outside the checkout. `SrcPathInjective`, `UmlPathInjective` and `RootsDisjoint` are about path strings only.
- Artifacts.Fence: the content is not escaped, as in the program. A file holding a line of three backticks ends the block early when rendered; `Unfence` inverts the string concatenation only.
- Real file access is not modelled, including UTF-8 decoding in `read_to_string`. It is an abstract map from path to optional text.
- The `eprintln!` diagnostics are not modelled. They go to stderr and do not affect the book. Among them is the `src` failure message that says "uml".
- The `Preprocessor` boilerplate is not modelled: `name`, `supports_renderer`, and `run` unwrapping `process`. Neither is the `num_replaced_items` counter, which is never incremented. `process` always returns `Ok(())`.
- Directives.IsWordChar: is ASCII `[A-Za-z0-9_]` only. The regex crate's `\w` also accepts Unicode letters, marks (`\p{M}`, such as combining accents), digits, connector punctuation and the join controls. So a command such as `ümlaut`, or one with a combining accent, is a directive in the program but not in the model.
- The model scans Dafny characters; the regex crate matches UTF-8 text. The two agree on every character the pattern mentions.
- Insigno.Chapter: keeps `name`, `number` and `path` as stand-ins for the chapter fields the pass never touches. `source_path` and `parent_names` are left out. The pass would carry them through unchanged in the same way.
- Insigno.Process: rebuilds the item sequence and returns it instead of writing through `&mut Vec<BookItem>`. In-place update and aliasing are not modelled. The order of work within a chapter (sub-items first, then content) is kept in `ProcessChapter`, but it cannot be observed because the two touch disjoint data.
- The artifact roots are fixed constants, as in the code. They are not configuration.
