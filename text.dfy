/** Character classes and the string operations of Python's `str` that the
    parser relies on: `strip()`, `split()`, `split('\n')`, `isalpha()`,
    `isupper()`, `replace(" ", "")`, and case-insensitive literal matching.
    Character classes are the ASCII members of Python's Unicode classes. */
module Text {
  import opened Types

  /** `\s` and `str.isspace()`: space, tab, line feed, vertical tab, form
      feed, carriage return and the four ASCII separators 0x1C-0x1F. */
  predicate IsSpace(c: char) {
    c == ' ' || (9 <= c as int <= 13) || (28 <= c as int <= 31)
  }

  predicate IsNonSpace(c: char) { !IsSpace(c) }

  predicate IsNotNewline(c: char) { c != '\n' }

  function Min(a: int, b: int): int { if a <= b then a else b }

  /** `\d` */
  predicate IsDigit(c: char) { '0' <= c <= '9' }

  /** `str.isupper()` on one character */
  predicate IsUpper(c: char) { 'A' <= c <= 'Z' }

  /** `str.isalpha()` on one character */
  predicate IsAlpha(c: char) { IsUpper(c) || 'a' <= c <= 'z' }

  /** `\w` */
  predicate IsWord(c: char) { IsAlpha(c) || IsDigit(c) || c == '_' }

  /** Case folding used by `re.IGNORECASE`. */
  function Lower(c: char): (r: char)
    ensures IsUpper(c) ==> IsAlpha(r) && !IsUpper(r)
    ensures !IsUpper(c) ==> r == c
  {
    if IsUpper(c) then (c as int + 32) as char else c
  }

  /** The literal `lit` (written in lower case) occurs at position `i` of `s`,
      ignoring case. For a literal without letters this is plain equality. */
  predicate MatchesAt(s: string, i: nat, lit: string) {
    i + |lit| <= |s| && forall k :: 0 <= k < |lit| ==> Lower(s[i + k]) == lit[k]
  }

  /** A one-character literal that is not a letter matches exactly itself. */
  lemma MatchesMark(s: string, i: nat, c: char)
    requires !IsAlpha(c)
    ensures MatchesAt(s, i, [c]) <==> i < |s| && s[i] == c
  {
    var lit := [c];
    if i < |s| {
      assert s[i + 0] == s[i] && lit[0] == c;
      assert Lower(s[i]) == c <==> s[i] == c;
    }
  }

  /** End of the longest run of characters satisfying `p` that starts at `i`:
      what a greedy `[...]*` consumes. */
  function RunEnd(s: string, i: nat, p: char -> bool): (e: nat)
    requires i <= |s|
    ensures i <= e <= |s|
    ensures forall k :: i <= k < e ==> p(s[k])
    ensures e < |s| ==> !p(s[e])
    decreases |s| - i
  {
    if i < |s| && p(s[i]) then RunEnd(s, i + 1, p) else i
  }

  /** Python's `str.isalpha()`: non-empty and every character alphabetic. */
  predicate IsAlphaStr(s: string) {
    |s| > 0 && forall k :: 0 <= k < |s| ==> IsAlpha(s[k])
  }

  predicate NoSpace(s: string) {
    forall k :: 0 <= k < |s| ==> !IsSpace(s[k])
  }

  /** Neither the first nor the last character is whitespace. */
  predicate NoEdgeSpace(s: string) {
    |s| > 0 ==> !IsSpace(s[0]) && !IsSpace(s[|s| - 1])
  }

  /** Index after the last non-space character of `s`, at least `a`. */
  function TrailStart(s: string, a: nat): (b: nat)
    requires a <= |s|
    ensures a <= b <= |s|
    ensures forall k :: b <= k < |s| ==> IsSpace(s[k])
    ensures b > a ==> !IsSpace(s[b - 1])
    decreases |s|
  {
    if |s| == a || !IsSpace(s[|s| - 1]) then |s| else TrailStart(s[..|s| - 1], a)
  }

  /** Python's `str.strip()`: `s` without its leading and trailing
      whitespace, returned as the slice `s[a..b]`. */
  function StripBounds(s: string): (ab: (nat, nat))
    ensures ab.0 <= ab.1 <= |s|
    ensures forall k :: 0 <= k < ab.0 ==> IsSpace(s[k])
    ensures forall k :: ab.1 <= k < |s| ==> IsSpace(s[k])
    ensures ab.0 < ab.1 ==> !IsSpace(s[ab.0]) && !IsSpace(s[ab.1 - 1])
    ensures ab.0 == ab.1 ==> forall k :: 0 <= k < |s| ==> IsSpace(s[k])
  {
    var a := RunEnd(s, 0, IsSpace);
    (a, TrailStart(s, a))
  }

  function Strip(s: string): (r: string)
    ensures NoEdgeSpace(r)
    ensures |r| <= |s|
    ensures r == "" <==> forall k :: 0 <= k < |s| ==> IsSpace(s[k])
  {
    var ab := StripBounds(s);
    s[ab.0..ab.1]
  }

  /** Stripping a string that starts with a non-space character and whose
      character at `m - 1` is not a space keeps its first `m` characters. */
  lemma StripKeepsPrefix(s: string, m: nat)
    requires 0 < m <= |s| && !IsSpace(s[0]) && !IsSpace(s[m - 1])
    ensures m <= |Strip(s)| && Strip(s) == s[..|Strip(s)|]
    ensures forall k :: |Strip(s)| <= k < |s| ==> IsSpace(s[k])
  {
    var ab := StripBounds(s);
    assert ab.0 == 0;
    assert m <= ab.1;
  }

  /** Python's `str.split()` with no argument: the maximal runs of
      non-whitespace characters. */
  function Words(s: string): (r: seq<string>)
    ensures forall k :: 0 <= k < |r| ==> |r[k]| > 0 && NoSpace(r[k])
    ensures r == [] <==> forall k :: 0 <= k < |s| ==> IsSpace(s[k])
    decreases |s|
  {
    var a := RunEnd(s, 0, IsSpace);
    if a == |s| then []
    else
      var b := RunEnd(s, a, IsNonSpace);
      [s[a..b]] + Words(s[b..])
  }

  /** Python's `str.split('\n')`: always at least one piece, none holding a
      line feed. */
  function Lines(s: string): (r: seq<string>)
    ensures |r| >= 1
    ensures forall k :: 0 <= k < |r| ==> forall j :: 0 <= j < |r[k]| ==> r[k][j] != '\n'
    decreases |s|
  {
    var n := RunEnd(s, 0, IsNotNewline);
    if n == |s| then [s] else [s[..n]] + Lines(s[n + 1..])
  }

  /** `s` without any of its whitespace characters. */
  function RemoveSpace(s: string): string {
    if s == [] then [] else (if IsSpace(s[0]) then [] else [s[0]]) + RemoveSpace(s[1..])
  }

  /** Removing whitespace deletes a string of whitespace and keeps a string
      without any. */
  lemma {:induction false} RemoveSpaceCases(s: string)
    ensures (forall k :: 0 <= k < |s| ==> IsSpace(s[k])) ==> RemoveSpace(s) == []
    ensures NoSpace(s) ==> RemoveSpace(s) == s
    decreases |s|
  {
    if s != [] {
      RemoveSpaceCases(s[1..]);
      assert s == [s[0]] + s[1..];
    }
  }

  /** A non-empty slice is its first character followed by the rest. */
  lemma SliceCons(s: string, i: nat, j: nat)
    requires i < j <= |s|
    ensures s[i..j] == [s[i]] + s[i + 1..j]
  {
  }

  /** A non-empty suffix is its first character followed by the rest. */
  lemma SuffixCons(s: string, i: nat)
    requires i < |s|
    ensures s[i..] == [s[i]] + s[i + 1..]
  {
  }

  /** Removing whitespace from `s[i..]` looks at `s[i]` and goes on with
      `s[i + 1..]`. */
  lemma RemoveSpaceStep(s: string, i: nat)
    requires i < |s|
    ensures RemoveSpace(s[i..]) == (if IsSpace(s[i]) then [] else [s[i]]) + RemoveSpace(s[i + 1..])
  {
    assert s[i..][1..] == s[i + 1..];
  }

  /** Removing whitespace skips whitespace from `i` up to `j`. */
  lemma {:induction false} RemoveSpaceSkip(s: string, i: nat, j: nat)
    requires i <= j <= |s|
    requires forall k :: i <= k < j ==> IsSpace(s[k])
    ensures RemoveSpace(s[i..]) == RemoveSpace(s[j..])
    decreases j - i
  {
    if i < j {
      RemoveSpaceStep(s, i);
      RemoveSpaceSkip(s, i + 1, j);
    }
  }

  /** Removing whitespace keeps a stretch without whitespace. */
  lemma {:induction false} RemoveSpaceKeep(s: string, i: nat, j: nat)
    requires i <= j <= |s|
    requires forall k :: i <= k < j ==> !IsSpace(s[k])
    ensures RemoveSpace(s[i..]) == s[i..j] + RemoveSpace(s[j..])
    decreases j - i
  {
    if i < j {
      RemoveSpaceStep(s, i);
      RemoveSpaceKeep(s, i + 1, j);
      SliceCons(s, i, j);
    }
  }

  lemma RemoveSpaceSplit(s: string, a: nat, b: nat)
    requires a <= b <= |s|
    requires forall k :: 0 <= k < a ==> IsSpace(s[k])
    requires forall k :: a <= k < b ==> !IsSpace(s[k])
    ensures RemoveSpace(s) == s[a..b] + RemoveSpace(s[b..])
  {
    assert s[0..] == s;
    RemoveSpaceSkip(s, 0, a);
    RemoveSpaceKeep(s, a, b);
  }

  /** The words of `s`, put back together without separators, are `s` with
      its whitespace removed: `split()` drops the whitespace and nothing
      else. */
  lemma {:induction false} WordsJoin(s: string)
    ensures Join("", Words(s)) == RemoveSpace(s)
    decreases |s|
  {
    var a := RunEnd(s, 0, IsSpace);
    if a < |s| {
      var b := RunEnd(s, a, IsNonSpace);
      var w, ws := s[a..b], Words(s[b..]);
      assert Words(s) == [w] + ws;
      WordsJoin(s[b..]);
      JoinFront(w, ws);
      RemoveSpaceSplit(s, a, b);
    } else {
      RemoveSpaceCases(s);
    }
  }

  /** Python's `s.replace(" ", "")`. */
  function RemoveBlanks(s: string): (r: string)
    ensures forall k :: 0 <= k < |r| ==> r[k] != ' '
    ensures |r| <= |s|
  {
    if s == [] then []
    else if s[0] == ' ' then RemoveBlanks(s[1..])
    else [s[0]] + RemoveBlanks(s[1..])
  }

  /** Position of the first occurrence of `c` at or after `i`. */
  function FirstIndex(s: string, c: char, i: nat): (r: Option<nat>)
    requires i <= |s|
    ensures r.Some? ==> i <= r.value < |s| && s[r.value] == c
    ensures r.Some? ==> forall k :: i <= k < r.value ==> s[k] != c
    ensures r.None? ==> forall k :: i <= k < |s| ==> s[k] != c
    decreases |s| - i
  {
    if i == |s| then None
    else if s[i] == c then Some(i)
    else FirstIndex(s, c, i + 1)
  }

  /** Position of the last occurrence of `c` before index `n`. */
  function LastIndex(s: string, c: char, n: nat): (r: Option<nat>)
    requires n <= |s|
    ensures r.Some? ==> r.value < n && s[r.value] == c
    ensures r.Some? ==> forall k :: r.value < k < n ==> s[k] != c
    ensures r.None? ==> forall k :: 0 <= k < n ==> s[k] != c
    decreases n
  {
    if n == 0 then None
    else if s[n - 1] == c then Some(n - 1)
    else LastIndex(s, c, n - 1)
  }

  /** The span of `open ... close` that a greedy search for an opening
      character, at least `inner` arbitrary characters and a closing character
      finds (`\[.*\]` with inner 0, `{[\s\S]+}` with inner 1, both matching
      line feeds too): from the first `open` to the last `close`, when those
      are far enough apart. Returned as the slice bounds `(a, b)`. */
  function Enclosed(s: string, open: char, close: char, inner: nat): (r: Option<(nat, nat)>)
    ensures r.Some? ==> r.value.0 + inner + 2 <= r.value.1 <= |s|
    ensures r.Some? ==> s[r.value.0] == open && s[r.value.1 - 1] == close
    ensures r.Some? ==> (forall k :: 0 <= k < r.value.0 ==> s[k] != open) && (forall k :: r.value.1 <= k < |s| ==> s[k] != close)
    ensures r.None? <==> forall i, j :: 0 <= i && i + inner < j < |s| && s[i] == open ==> s[j] != close
  {
    match FirstIndex(s, open, 0)
    case None => None
    case Some(a) =>
      match LastIndex(s, close, |s|)
      case None => None
      case Some(c) => if a + inner < c then Some((a, c + 1)) else None
  }

  lemma JoinCons(sep: string, x: string, xs: seq<string>)
    requires xs != []
    ensures Join(sep, [x] + xs) == x + sep + Join(sep, xs)
  {
    assert ([x] + xs)[1..] == xs;
  }

  /** Joining without a separator puts the first piece in front. */
  lemma JoinFront(x: string, xs: seq<string>)
    ensures Join("", [x] + xs) == x + Join("", xs)
  {
    if xs == [] {
      assert [x] + xs == [x];
    } else {
      JoinCons("", x, xs);
    }
  }

  /** Joining the pieces of `split('\n')` with line feeds gives back the
      string. */
  lemma {:induction false} LinesJoin(s: string)
    ensures Join("\n", Lines(s)) == s
    decreases |s|
  {
    var n := RunEnd(s, 0, IsNotNewline);
    if n < |s| {
      var line, rest := s[..n], s[n + 1..];
      var ls := Lines(rest);
      assert Lines(s) == [line] + ls;
      LinesJoin(rest);
      JoinCons("\n", line, ls);
      assert s == line + "\n" + rest;
    }
  }

  /** Python's `sep.join(xs)`. */
  function Join(sep: string, xs: seq<string>): (r: string)
    ensures xs == [] ==> r == ""
    ensures |xs| == 1 ==> r == xs[0]
  {
    if xs == [] then ""
    else if |xs| == 1 then xs[0]
    else xs[0] + sep + Join(sep, xs[1..])
  }

  /** Extending a string to the right does not shorten a run, and leaves it
      unchanged when the run ended inside the shorter string. */
  lemma {:induction false} RunEndExtend(r: string, s: string, i: nat, p: char -> bool)
    requires |r| <= |s| && r == s[..|r|] && i <= |r|
    ensures RunEnd(r, i, p) <= RunEnd(s, i, p)
    ensures RunEnd(r, i, p) < |r| ==> RunEnd(r, i, p) == RunEnd(s, i, p)
    decreases |r| - i
  {
    if i < |r| && p(r[i]) {
      assert s[i] == r[i];
      RunEndExtend(r, s, i + 1, p);
    }
  }
}
