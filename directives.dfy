/**
 * The directive pattern `\$(?P<cmd>\w+)\((?P<arg>[^)]+)\)` and the
 * left-to-right, non-overlapping `replace_all` that rewrites every match.
 *
 * The regular expression is written out as a scanner: a `$`, the maximal run
 * of word characters (at least one), a `(`, then every character up to the
 * first `)` (at least one). Because a command is always followed by `(`,
 * which is not a word character, and an argument is always followed by the
 * first `)`, at most one directive can start at any position, so the scanner
 * needs no backtracking.
 */
module Directives {
  import opened Wrappers

  /** The `\w` class, restricted to ASCII letters, digits and `_`. */
  predicate IsWordChar(c: char) {
    ('a' <= c <= 'z') || ('A' <= c <= 'Z') || ('0' <= c <= '9') || c == '_'
  }

  /** One `$cmd(arg)` marker, as its two capture groups. */
  datatype Directive = Directive(cmd: string, arg: string) {

    /** The text the marker occupies: from the `$` through the closing `)`. */
    function Text(): string {
      "$" + cmd + "(" + arg + ")"
    }

    /** `cmd` is `\w+` and `arg` is `[^)]+`. */
    predicate Valid() {
      |cmd| > 0 && (forall k :: 0 <= k < |cmd| ==> IsWordChar(cmd[k])) &&
      |arg| > 0 && (forall k :: 0 <= k < |arg| ==> arg[k] != ')')
    }
  }

  predicate IsPrefix(p: string, s: string) {
    |p| <= |s| && s[..|p|] == p
  }

  /** No well-formed directive starts at the first character of `s`. */
  ghost predicate NoDirectiveAt(s: string) {
    forall d: Directive :: d.Valid() ==> !IsPrefix(d.Text(), s)
  }

  /** `s` holds no match of the pattern anywhere. */
  ghost predicate Free(s: string) {
    forall k :: 0 <= k < |s| ==> NoDirectiveAt(s[k..])
  }

  /** The first position at or after `j` that does not hold a word character. */
  function WordEnd(s: string, j: nat): (k: nat)
    requires j <= |s|
    ensures j <= k <= |s|
    ensures forall m :: j <= m < k ==> IsWordChar(s[m])
    ensures k < |s| ==> !IsWordChar(s[k])
    decreases |s| - j
  {
    if j < |s| && IsWordChar(s[j]) then WordEnd(s, j + 1) else j
  }

  /** The position of the first `)` at or after `j`, if there is one. */
  function CloseParen(s: string, j: nat): (r: Option<nat>)
    requires j <= |s|
    ensures r.Some? ==> j <= r.value < |s| && s[r.value] == ')'
    ensures forall m :: j <= m < |s| && (r.None? || m < r.value) ==> s[m] != ')'
    decreases |s| - j
  {
    if j == |s| then None
    else if s[j] == ')' then Some(j)
    else CloseParen(s, j + 1)
  }

  /** The match of the pattern anchored at the start of `s`, if any. */
  function MatchPrefix(s: string): (r: Option<Directive>)
    ensures r.Some? ==> r.value.Valid() && IsPrefix(r.value.Text(), s)
  {
    if |s| > 0 && s[0] == '$' then
      var j := WordEnd(s, 1);
      if 1 < j < |s| && s[j] == '(' then
        match CloseParen(s, j + 1)
        case Some(k) =>
          if j + 1 < k then
            var d := Directive(s[1..j], s[j + 1..k]);
            assert s[..k + 1] == d.Text() by {
              assert s[..k + 1] == s[..1] + s[1..j] + s[j..j + 1] + s[j + 1..k] + s[k..k + 1];
            }
            Some(d)
          else None
        case None => None
      else None
    else None
  }

  lemma {:induction false} WordEndAt(s: string, j: nat, k: nat)
    requires j <= k < |s|
    requires forall m :: j <= m < k ==> IsWordChar(s[m])
    requires !IsWordChar(s[k])
    ensures WordEnd(s, j) == k
    decreases k - j
  {
    if j < k {
      WordEndAt(s, j + 1, k);
    }
  }

  lemma {:induction false} CloseParenAt(s: string, j: nat, k: nat)
    requires j <= k < |s|
    requires forall m :: j <= m < k ==> s[m] != ')'
    requires s[k] == ')'
    ensures CloseParen(s, j) == Some(k)
    decreases k - j
  {
    if j < k {
      CloseParenAt(s, j + 1, k);
    }
  }

  /** The scanner finds every directive that starts at the front of `s`. */
  lemma MatchPrefixComplete(s: string, d: Directive)
    requires d.Valid() && IsPrefix(d.Text(), s)
    ensures MatchPrefix(s) == Some(d)
  {
    var t := d.Text();
    var j := 1 + |d.cmd|;
    var k := j + 1 + |d.arg|;
    assert |t| == k + 1;
    assert forall m :: 0 <= m < |t| ==> s[m] == t[m] by {
      forall m | 0 <= m < |t| ensures s[m] == t[m] {
        assert s[..|t|][m] == s[m];
      }
    }
    assert forall m :: 1 <= m < j ==> t[m] == d.cmd[m - 1];
    assert forall m :: j < m < k ==> t[m] == d.arg[m - j - 1];
    assert t[0] == '$' && t[j] == '(' && t[k] == ')';
    WordEndAt(s, 1, j);
    CloseParenAt(s, j + 1, k);
    assert s[1..j] == d.cmd;
    assert s[j + 1..k] == d.arg;
  }

  /** What one scan step yields: a character kept as it is, or a directive. */
  datatype Token = Lit(c: char) | Dir(d: Directive)

  /** The matches of the pattern in `s`, leftmost first, with the text between them. */
  function Tokens(s: string): (r: seq<Token>)
    ensures Original(r) == s
    decreases |s|
  {
    if s == [] then []
    else match MatchPrefix(s)
      case Some(d) =>
        var rest := Tokens(s[|d.Text()|..]);
        assert ([Dir(d)] + rest)[1..] == rest;
        assert s == d.Text() + s[|d.Text()|..];
        [Dir(d)] + rest
      case None =>
        var rest := Tokens(s[1..]);
        assert ([Lit(s[0])] + rest)[1..] == rest;
        assert s == [s[0]] + s[1..];
        [Lit(s[0])] + rest
  }

  /** The text a token sequence was read from. */
  function Original(toks: seq<Token>): string {
    if toks == [] then []
    else match toks[0]
      case Lit(c) => [c] + Original(toks[1..])
      case Dir(d) => d.Text() + Original(toks[1..])
  }

  /** The text with every directive replaced by what `resolve` makes of it. */
  function Replaced(toks: seq<Token>, resolve: (string, string) -> string): string {
    if toks == [] then []
    else match toks[0]
      case Lit(c) => [c] + Replaced(toks[1..], resolve)
      case Dir(d) => resolve(d.cmd, d.arg) + Replaced(toks[1..], resolve)
  }

  /** `replace_all`: every match, left to right, is replaced by its resolution; the inserted text is not scanned again. */
  function ReplaceAll(s: string, resolve: (string, string) -> string): string {
    Replaced(Tokens(s), resolve)
  }

  /**
   * What a leftmost, non-overlapping scan of `s` is, stated without the
   * scanner: a token is a directive that `s` starts with, or a character of
   * `s` at a position where no directive starts.
   */
  ghost predicate IsScan(s: string, toks: seq<Token>)
    decreases toks
  {
    if toks == [] then s == []
    else match toks[0]
      case Lit(c) => s != [] && s[0] == c && NoDirectiveAt(s) && IsScan(s[1..], toks[1..])
      case Dir(d) => d.Valid() && IsPrefix(d.Text(), s) && IsScan(s[|d.Text()|..], toks[1..])
  }

  lemma {:induction false} TokensIsScan(s: string)
    ensures IsScan(s, Tokens(s))
    decreases |s|
  {
    if s != [] {
      match MatchPrefix(s)
      case Some(d) =>
        TokensIsScan(s[|d.Text()|..]);
      case None =>
        forall d: Directive | d.Valid() ensures !IsPrefix(d.Text(), s) {
          if IsPrefix(d.Text(), s) {
            MatchPrefixComplete(s, d);
          }
        }
        TokensIsScan(s[1..]);
    }
  }

  /** A scan covers its text exactly: the matches and the text around them, in order, give back `s`. */
  lemma {:induction false} ScanCoversText(s: string, toks: seq<Token>)
    requires IsScan(s, toks)
    ensures Original(toks) == s
    decreases toks
  {
    if toks != [] {
      match toks[0]
      case Lit(c) =>
        ScanCoversText(s[1..], toks[1..]);
        assert s == [c] + s[1..];
      case Dir(d) =>
        ScanCoversText(s[|d.Text()|..], toks[1..]);
        assert s == s[..|d.Text()|] + s[|d.Text()|..];
    }
  }

  /** There is only one leftmost, non-overlapping scan of a text. */
  lemma {:induction false} ScanUnique(s: string, t1: seq<Token>, t2: seq<Token>)
    requires IsScan(s, t1) && IsScan(s, t2)
    ensures t1 == t2
    decreases t1
  {
    if t1 != [] && t2 != [] {
      match (t1[0], t2[0])
      case (Lit(c1), Lit(c2)) =>
        ScanUnique(s[1..], t1[1..], t2[1..]);
      case (Dir(d1), Dir(d2)) =>
        MatchPrefixComplete(s, d1);
        MatchPrefixComplete(s, d2);
        ScanUnique(s[|d1.Text()|..], t1[1..], t2[1..]);
      case (Lit(c1), Dir(d2)) =>
        assert false;
      case (Dir(d1), Lit(c2)) =>
        assert false;
    } else if t1 != [] || t2 != [] {
      assert false;
    }
  }

  /**
   * `replace_all` against its specification: for the one leftmost scan of
   * `s`, the input is that scan's original text and the output the same
   * sequence with each directive swapped for its resolution, so the text
   * before, between and after the matches is kept verbatim and in order.
   */
  lemma ReplaceAllSpec(s: string, resolve: (string, string) -> string, toks: seq<Token>)
    requires IsScan(s, toks)
    ensures Original(toks) == s
    ensures ReplaceAll(s, resolve) == Replaced(toks, resolve)
  {
    ScanCoversText(s, toks);
    TokensIsScan(s);
    ScanUnique(s, toks, Tokens(s));
  }

  /** A text without a match is left exactly as it is, whatever the resolver. */
  lemma {:induction false} FreeTextUnchanged(s: string, resolve: (string, string) -> string)
    requires Free(s)
    ensures ReplaceAll(s, resolve) == s
    decreases |s|
  {
    if s != [] {
      assert NoDirectiveAt(s[0..]);
      assert s[0..] == s;
      assert MatchPrefix(s).None?;
      assert Free(s[1..]) by {
        forall k | 0 <= k < |s[1..]| ensures NoDirectiveAt(s[1..][k..]) {
          assert s[1..][k..] == s[k + 1..];
        }
      }
      FreeTextUnchanged(s[1..], resolve);
    }
  }

  /** The resolution every unknown command gets. */
  function Erase(cmd: string, arg: string): string {
    ""
  }

  lemma {:induction false} EraseNeverGrows(s: string)
    ensures |ReplaceAll(s, Erase)| <= |s|
    decreases |s|
  {
    if s != [] {
      match MatchPrefix(s)
      case Some(d) => EraseNeverGrows(s[|d.Text()|..]);
      case None => EraseNeverGrows(s[1..]);
    }
  }

  lemma {:induction false} EraseShrinks(s: string)
    requires !Free(s)
    ensures |ReplaceAll(s, Erase)| < |s|
    decreases |s|
  {
    var k :| 0 <= k < |s| && !NoDirectiveAt(s[k..]);
    match MatchPrefix(s)
    case Some(d) =>
      EraseNeverGrows(s[|d.Text()|..]);
    case None =>
      if k == 0 {
        var d: Directive :| d.Valid() && IsPrefix(d.Text(), s[k..]);
        assert s[k..] == s;
        MatchPrefixComplete(s, d);
      } else {
        assert s[1..][k - 1..] == s[k..];
        EraseShrinks(s[1..]);
      }
  }

  /** A text is free of directives exactly when erasing every directive leaves it as it was. */
  lemma FreeIffEraseIdentity(s: string)
    ensures Free(s) <==> ReplaceAll(s, Erase) == s
  {
    if Free(s) {
      FreeTextUnchanged(s, Erase);
    } else {
      EraseShrinks(s);
    }
  }

  /** A directive at the front is replaced once by its resolution, which is never rescanned; the rest of the text is processed on its own. */
  lemma DirectiveFirst(d: Directive, t: string, resolve: (string, string) -> string)
    requires d.Valid()
    ensures ReplaceAll(d.Text() + t, resolve) == resolve(d.cmd, d.arg) + ReplaceAll(t, resolve)
  {
    var s := d.Text() + t;
    assert IsPrefix(d.Text(), s) by {
      assert s[..|d.Text()|] == d.Text();
    }
    MatchPrefixComplete(s, d);
    assert s[|d.Text()|..] == t;
  }

  /** Where no directive starts, the first character is copied and scanning moves on by one. */
  lemma NoMatchFirst(s: string, resolve: (string, string) -> string)
    requires s != [] && MatchPrefix(s) == None
    ensures ReplaceAll(s, resolve) == [s[0]] + ReplaceAll(s[1..], resolve)
  {
    var rest := Tokens(s[1..]);
    assert Tokens(s) == [Lit(s[0])] + rest;
    assert ([Lit(s[0])] + rest)[1..] == rest;
  }

  /** Text without a `$` cannot start a match, so it is copied through and scanning resumes after it. */
  lemma {:induction false} PlainFirst(u: string, t: string, resolve: (string, string) -> string)
    requires forall k :: 0 <= k < |u| ==> u[k] != '$'
    ensures ReplaceAll(u + t, resolve) == u + ReplaceAll(t, resolve)
    decreases |u|
  {
    if u != [] {
      var s := u + t;
      assert s[0] == u[0];
      assert s[1..] == u[1..] + t;
      NoMatchFirst(s, resolve);
      PlainFirst(u[1..], t, resolve);
      calc {
        ReplaceAll(s, resolve);
        [u[0]] + ReplaceAll(u[1..] + t, resolve);
        [u[0]] + (u[1..] + ReplaceAll(t, resolve));
        ([u[0]] + u[1..]) + ReplaceAll(t, resolve);
        { assert [u[0]] + u[1..] == u; }
        u + ReplaceAll(t, resolve);
      }
    } else {
      assert u + t == t;
    }
  }

  /** Two directives with `$`-free text between them: each is resolved in turn and the text between is kept. */
  lemma PairReplaced(first: Directive, mid: string, second: Directive, resolve: (string, string) -> string)
    requires first.Valid() && second.Valid()
    requires forall k :: 0 <= k < |mid| ==> mid[k] != '$'
    ensures ReplaceAll(first.Text() + mid + second.Text(), resolve)
         == resolve(first.cmd, first.arg) + mid + resolve(second.cmd, second.arg)
  {
    var rest := mid + second.Text();
    assert first.Text() + mid + second.Text() == first.Text() + rest;
    DirectiveFirst(first, rest, resolve);
    PlainThenDirective(mid, second, resolve);
  }

  /** `$`-free text and then a directive: the text is kept and the directive resolved. */
  lemma PlainThenDirective(mid: string, d: Directive, resolve: (string, string) -> string)
    requires d.Valid()
    requires forall k :: 0 <= k < |mid| ==> mid[k] != '$'
    ensures ReplaceAll(mid + d.Text(), resolve) == mid + resolve(d.cmd, d.arg)
  {
    PlainFirst(mid, d.Text(), resolve);
    assert d.Text() == d.Text() + "";
    DirectiveFirst(d, "", resolve);
  }

  /** `[^)]` also accepts `(`, so `$a(x(y)` is one directive with argument `x(y`. */
  lemma ArgumentMayHoldOpenParen()
    ensures Tokens("$a(x(y)") == [Dir(Directive("a", "x(y"))]
  {
    var d := Directive("a", "x(y");
    assert d.Text() == "$a(x(y)";
    MatchPrefixComplete("$a(x(y)", d);
    assert "$a(x(y)"[7..] == [];
  }

  /**
   * A second pass can change a text again: when a resolver erases both the
   * inner directive of `$a$b(c)(z)` and `$a(z)`, the first pass joins `$a`
   * and `(z)` into the new directive `$a(z)`, which the second pass erases.
   */
  lemma SecondPassMayChange(cmd: string, inner: Directive, arg: string, resolve: (string, string) -> string)
    requires Directive(cmd, arg).Valid() && inner.Valid()
    requires forall k :: 0 <= k < |arg| ==> arg[k] != '$'
    requires resolve(inner.cmd, inner.arg) == "" && resolve(cmd, arg) == ""
    ensures ReplaceAll("$" + cmd + inner.Text() + "(" + arg + ")", resolve) == Directive(cmd, arg).Text()
    ensures ReplaceAll(Directive(cmd, arg).Text(), resolve) == ""
  {
    var joined := Directive(cmd, arg);
    var tail := "(" + arg + ")";
    assert forall k :: 1 <= k <= |arg| ==> tail[k] == arg[k - 1];
    ErasingJoins(cmd, inner, tail, resolve);
    assert "$" + cmd + inner.Text() + tail == "$" + cmd + inner.Text() + "(" + arg + ")";
    assert "$" + cmd + tail == joined.Text();
    assert joined.Text() == joined.Text() + "";
    DirectiveFirst(joined, "", resolve);
  }

  lemma ErasingJoins(cmd: string, inner: Directive, tail: string, resolve: (string, string) -> string)
    requires |cmd| > 0 && forall k :: 0 <= k < |cmd| ==> IsWordChar(cmd[k])
    requires inner.Valid() && resolve(inner.cmd, inner.arg) == ""
    requires forall k :: 0 <= k < |tail| ==> tail[k] != '$'
    ensures ReplaceAll("$" + cmd + inner.Text() + tail, resolve) == "$" + cmd + tail
  {
    var s := "$" + cmd + inner.Text() + tail;
    var rest := inner.Text() + tail;
    assert s == "$" + (cmd + rest);
    assert s[1 + |cmd|] == '$';
    WordEndAt(s, 1, 1 + |cmd|);
    NoMatchFirst(s, resolve);
    assert s[1..] == cmd + rest;
    PlainFirst(cmd, rest, resolve);
    ErasedBeforePlain(inner, tail, resolve);
    assert ReplaceAll(s[1..], resolve) == cmd + tail;
  }

  /** An erased directive followed by `$`-free text leaves just that text. */
  lemma ErasedBeforePlain(inner: Directive, tail: string, resolve: (string, string) -> string)
    requires inner.Valid() && resolve(inner.cmd, inner.arg) == ""
    requires forall k :: 0 <= k < |tail| ==> tail[k] != '$'
    ensures ReplaceAll(inner.Text() + tail, resolve) == tail
  {
    DirectiveFirst(inner, tail, resolve);
    assert tail == tail + "";
    PlainFirst(tail, "", resolve);
  }
}
