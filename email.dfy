/** The e-mail extractor (`ATSParser._extract_email`).

    Four patterns are searched for in a fixed order and the first one found
    in the text wins:
      Plain      `[\w\.-]+@[\w\.-]+\.\w+`
      Bracketed  `[\w\.-]+\s*\[\s*at\s*\]\s*[\w\.-]+\s*\[\s*dot\s*\]\s*\w+`
      Worded     `[\w\.-]+\s+at\s+[\w\.-]+\s+dot\s+\w+`
      Spaced     `[\w\.-]+\s*@\s*[\w\.-]+\s*\.\s*\w+`
    (all case-insensitive). The matched text is then rewritten by six
    substitutions applied one after the other.

    Each pattern is a scanner `...At(s, i)` that answers what Python's regex
    engine answers when it tries the pattern at position `i`: the end of the
    match, or None. Greedy runs whose following item cannot start with a
    character of the run are deterministic; the only backtracking that
    changes an outcome is over the host part of Plain and Spaced (the run
    `[\w\.-]+` also contains the dot that follows it), which `HostTail`
    performs from the longest host down. */
module Email {
  import opened Types
  import opened Text

  /** `[\w\.-]` */
  predicate IsEmailChar(c: char) { IsWord(c) || c == '.' || c == '-' }

  /** A greedy run of at least one character of class `p`. */
  function Plus(s: string, i: nat, p: char -> bool): (r: Option<nat>)
    requires i <= |s|
    ensures r.Some? ==> i < r.value <= |s| && r.value == RunEnd(s, i, p)
    ensures r.None? <==> RunEnd(s, i, p) == i
  {
    var e := RunEnd(s, i, p);
    if e > i then Some(e) else None
  }

  /** A literal, ignoring case. */
  function Lit(s: string, i: nat, lit: string): (r: Option<nat>)
    requires i <= |s|
    ensures r.Some? <==> MatchesAt(s, i, lit)
    ensures r.Some? ==> r.value == i + |lit| <= |s|
  {
    if MatchesAt(s, i, lit) then Some(i + |lit|) else None
  }

  /** `\.\w+`, or `\s*\.\s*\w+` when `spaced`, at position `e`. */
  function TldAt(s: string, e: nat, spaced: bool): (r: Option<nat>)
    requires e <= |s|
    ensures r.Some? ==> e < r.value <= |s|
    ensures r.Some? && !spaced ==> s[e] == '.' && e + 1 < r.value && forall k :: e < k < r.value ==> IsWord(s[k])
  {
    var p := if spaced then RunEnd(s, e, IsSpace) else e;
    MatchesMark(s, p, '.');
    var q :- Lit(s, p, ".");
    Plus(s, if spaced then RunEnd(s, q, IsSpace) else q, IsWord)
  }

  /** The host run `[\w\.-]+` tried with `s[d..e]` and then with every
      shorter non-empty prefix, each followed by the dot and the final word. */
  function HostTail(s: string, d: nat, e: nat, spaced: bool): (r: Option<nat>)
    requires d <= e <= |s|
    ensures r.Some? ==> d < r.value <= |s|
    ensures r.Some? && !spaced && (forall k :: d <= k < e ==> IsEmailChar(s[k])) ==>
              forall k :: d <= k < r.value ==> IsEmailChar(s[k])
    decreases e
  {
    if e <= d then None
    else
      match TldAt(s, e, spaced)
      case Some(t) => Some(t)
      case None => HostTail(s, d, e - 1, spaced)
  }

  /** `[\w\.-]+@[\w\.-]+\.\w+` */
  function PlainAt(s: string, i: nat): (r: Option<nat>)
    requires i <= |s|
    ensures r.Some? ==> i < r.value <= |s|
    ensures r.Some? ==> forall k :: i <= k < r.value ==> IsEmailChar(s[k]) || s[k] == '@'
  {
    var a :- Plus(s, i, IsEmailChar);
    MatchesMark(s, a, '@');
    var d :- Lit(s, a, "@");
    HostTail(s, d, RunEnd(s, d, IsEmailChar), false)
  }

  /** `\s*<lit>` */
  function SpacedLit(s: string, i: nat, lit: string): (r: Option<nat>)
    requires i <= |s|
    ensures r.Some? ==> i + |lit| <= r.value <= |s|
  {
    Lit(s, RunEnd(s, i, IsSpace), lit)
  }

  /** `\s*<mark>\s*` */
  function MarkToken(s: string, i: nat, mark: char): (r: Option<nat>)
    requires i <= |s|
    ensures r.Some? ==> i < r.value <= |s|
    ensures r.Some? && r.value < |s| ==> !IsSpace(s[r.value])
  {
    var m :- SpacedLit(s, i, [mark]);
    Some(RunEnd(s, m, IsSpace))
  }

  /** `\s*\[\s*<word>\s*\]\s*` */
  function BracketToken(s: string, i: nat, word: string): (r: Option<nat>)
    requires i <= |s|
    ensures r.Some? ==> i < r.value <= |s|
  {
    var q :- SpacedLit(s, i, "[");
    var w :- SpacedLit(s, q, word);
    MarkToken(s, w, ']')
  }

  /** `\s+<word>\s+` */
  function WordToken(s: string, i: nat, word: string): (r: Option<nat>)
    requires i <= |s|
    ensures r.Some? ==> i < r.value <= |s|
  {
    var p :- Plus(s, i, IsSpace);
    var w :- Lit(s, p, word);
    Plus(s, w, IsSpace)
  }

  /** `[\w\.-]+\s*\[\s*at\s*\]\s*[\w\.-]+\s*\[\s*dot\s*\]\s*\w+` */
  function BracketedAt(s: string, i: nat): (r: Option<nat>)
    requires i <= |s|
    ensures r.Some? ==> i < r.value <= |s|
  {
    var a :- Plus(s, i, IsEmailChar);
    var b :- BracketToken(s, a, "at");
    var c :- Plus(s, b, IsEmailChar);
    var d :- BracketToken(s, c, "dot");
    Plus(s, d, IsWord)
  }

  /** `[\w\.-]+\s+at\s+[\w\.-]+\s+dot\s+\w+` */
  function WordedAt(s: string, i: nat): (r: Option<nat>)
    requires i <= |s|
    ensures r.Some? ==> i < r.value <= |s|
  {
    var a :- Plus(s, i, IsEmailChar);
    var b :- WordToken(s, a, "at");
    var c :- Plus(s, b, IsEmailChar);
    var d :- WordToken(s, c, "dot");
    Plus(s, d, IsWord)
  }

  /** `[\w\.-]+\s*@\s*[\w\.-]+\s*\.\s*\w+` */
  function SpacedAt(s: string, i: nat): (r: Option<nat>)
    requires i <= |s|
    ensures r.Some? ==> i < r.value <= |s|
  {
    var a :- Plus(s, i, IsEmailChar);
    var d :- MarkToken(s, a, '@');
    HostTail(s, d, RunEnd(s, d, IsEmailChar), true)
  }

  datatype Pattern = Plain | Bracketed | Worded | Spaced

  /** The patterns in the order they are tried. */
  const Patterns: seq<Pattern> := [Plain, Bracketed, Worded, Spaced]

  function PatternAt(p: Pattern, s: string, i: nat): (r: Option<nat>)
    requires i <= |s|
    ensures r.Some? ==> i < r.value <= |s|
  {
    match p
    case Plain => PlainAt(s, i)
    case Bracketed => BracketedAt(s, i)
    case Worded => WordedAt(s, i)
    case Spaced => SpacedAt(s, i)
  }

  /** The outcome of trying the pattern at each position of `s`, the end
      of the text included. */
  function Attempts(p: Pattern, s: string): (r: seq<Option<nat>>)
    ensures |r| == |s| + 1
    ensures forall k :: 0 <= k <= |s| ==> r[k] == PatternAt(p, s, k)
  {
    seq(|s| + 1, k requires 0 <= k <= |s| => PatternAt(p, s, k))
  }

  /** `re.search` from position `i`: the leftmost start at which the pattern
      matches, with the end of that match. */
  function SearchFrom(p: Pattern, s: string, i: nat): (r: Option<(nat, nat)>)
    requires i <= |s|
    ensures r.Some? ==> i <= r.value.0 < r.value.1 <= |s| && PatternAt(p, s, r.value.0) == Some(r.value.1)
  {
    FirstHit(Attempts(p, s), i)
  }

  /** The search is leftmost: the pattern matches at no earlier position,
      and at no position at all when the search finds nothing. */
  lemma SearchLeftmost(p: Pattern, s: string, i: nat)
    requires i <= |s|
    ensures forall k :: i <= k < (if SearchFrom(p, s, i).Some? then SearchFrom(p, s, i).value.0 else |s| + 1) ==>
      PatternAt(p, s, k).None?
  {
    FirstHitLeftmost(Attempts(p, s), i);
  }

  /** The six clean-up substitutions, in the order they are applied:
      `\s*\[\s*at\s*\]\s*` -> `@`, `\s*\[\s*dot\s*\]\s*` -> `.`,
      `\s+at\s+` -> `@`, `\s+dot\s+` -> `.` (these four ignoring case),
      `\s*@\s*` -> `@` and `\s*\.\s*` -> `.`. */
  datatype Rewrite = BracketAt | BracketDot | WordAt | WordDot | MarkAt | MarkDot

  /** The single character each substitution writes. */
  function Mark(w: Rewrite): char {
    match w
    case BracketAt => '@'
    case WordAt => '@'
    case MarkAt => '@'
    case BracketDot => '.'
    case WordDot => '.'
    case MarkDot => '.'
  }

  function RewriteAt(w: Rewrite, s: string, i: nat): (r: Option<nat>)
    requires i <= |s|
    ensures r.Some? ==> i < r.value <= |s|
  {
    match w
    case BracketAt => BracketToken(s, i, "at")
    case BracketDot => BracketToken(s, i, "dot")
    case WordAt => WordToken(s, i, "at")
    case WordDot => WordToken(s, i, "dot")
    case MarkAt => MarkToken(s, i, '@')
    case MarkDot => MarkToken(s, i, '.')
  }

  /** `re.sub` over `s[i..]`: scanning left to right, every match (none of
      these patterns matches the empty string) is replaced by its mark and
      scanning resumes after it. */
  function Substitute(w: Rewrite, s: string, i: nat): (r: string)
    requires i <= |s|
    ensures i == |s| ==> r == []
    ensures i < |s| ==> |r| > 0 && r[0] == (if RewriteAt(w, s, i).Some? then Mark(w) else s[i])
    decreases |s| - i
  {
    if i == |s| then []
    else
      match RewriteAt(w, s, i)
      case Some(e) => [Mark(w)] + Substitute(w, s, e)
      case None => [s[i]] + Substitute(w, s, i + 1)
  }

  /** The clean-up of a matched address: the six substitutions in order. */
  function Normalize(m: string): string {
    var m1 := Substitute(BracketAt, m, 0);
    var m2 := Substitute(BracketDot, m1, 0);
    var m3 := Substitute(WordAt, m2, 0);
    var m4 := Substitute(WordDot, m3, 0);
    var m5 := Substitute(MarkAt, m4, 0);
    Substitute(MarkDot, m5, 0)
  }

  /** The first pattern of `ps` found in the text decides the address. */
  function EmailFrom(text: string, ps: seq<Pattern>): (r: Option<string>)
    ensures r.None? <==> forall k :: 0 <= k < |ps| ==> SearchFrom(ps[k], text, 0).None?
  {
    if ps == [] then None
    else
      match SearchFrom(ps[0], text, 0)
      case Some(be) => Some(Normalize(text[be.0..be.1]))
      case None =>
        NoMatchTail(text, ps);
        EmailFrom(text, ps[1..])
  }

  /** When the first pattern finds nothing, none of `ps` finds anything
      exactly when none of the others does. */
  lemma NoMatchTail(text: string, ps: seq<Pattern>)
    requires ps != [] && SearchFrom(ps[0], text, 0).None?
    ensures (forall k :: 0 <= k < |ps| ==> SearchFrom(ps[k], text, 0).None?) <==>
      (forall k :: 0 <= k < |ps[1..]| ==> SearchFrom(ps[1..][k], text, 0).None?)
  {
    var r := ps[1..];
    if forall k :: 0 <= k < |r| ==> SearchFrom(r[k], text, 0).None? {
      forall k | 0 < k < |ps| ensures SearchFrom(ps[k], text, 0).None? {
        assert ps[k] == r[k - 1];
      }
    }
  }

  /** `_extract_email` as a value. */
  function EmailOf(text: string): Option<string> {
    EmailFrom(text, Patterns)
  }

  /** `_extract_email`: loop over the patterns; on the first match, take the
      matched text and pass it through the six substitutions. */
  method ExtractEmail(text: string) returns (email: Option<string>)
    ensures email == EmailOf(text)
  {
    var i := 0;
    while i < |Patterns|
      invariant 0 <= i <= |Patterns|
      invariant EmailFrom(text, Patterns[i..]) == EmailOf(text)
    {
      assert Patterns[i..][1..] == Patterns[i + 1..];
      var found := SearchFrom(Patterns[i], text, 0);
      if found.Some? {
        var m := text[found.value.0..found.value.1];
        m := Substitute(BracketAt, m, 0);
        m := Substitute(BracketDot, m, 0);
        m := Substitute(WordAt, m, 0);
        m := Substitute(WordDot, m, 0);
        m := Substitute(MarkAt, m, 0);
        m := Substitute(MarkDot, m, 0);
        return Some(m);
      }
      i := i + 1;
    }
    return None;
  }

  // ---------------------------------------------------------------------
  // A plain address passes through the clean-up unchanged.

  /** At a character that is neither whitespace nor `[`, followed by a
      non-space or by the end, only `\s*@\s*` and `\s*\.\s*` can match, and
      only one character: their own mark. */
  lemma RewriteOnPlain(w: Rewrite, s: string, i: nat)
    requires i < |s| && !IsSpace(s[i]) && s[i] != '['
    requires i + 1 < |s| ==> !IsSpace(s[i + 1])
    ensures RewriteAt(w, s, i) == if (w == MarkAt || w == MarkDot) && s[i] == Mark(w) then Some(i + 1) else None
  {
    assert RunEnd(s, i, IsSpace) == i;
    assert RunEnd(s, i + 1, IsSpace) == i + 1;
    MatchesMark(s, i, '[');
    MatchesMark(s, i, Mark(w));
  }

  /** On text without whitespace and without `[`, no substitution changes
      anything: the first four never match, and the last two only match a
      lone mark, which they write back. */
  lemma {:induction false} SubstituteIdentity(w: Rewrite, s: string, i: nat)
    requires i <= |s|
    requires forall k :: i <= k < |s| ==> !IsSpace(s[k]) && s[k] != '['
    ensures Substitute(w, s, i) == s[i..]
    decreases |s| - i
  {
    if i < |s| {
      SubstituteAtPlain(w, s, i);
      SubstituteIdentity(w, s, i + 1);
      SuffixCons(s, i);
    }
  }

  /** A character that is neither whitespace nor `[` is copied. */
  lemma SubstituteAtPlain(w: Rewrite, s: string, i: nat)
    requires i < |s| && !IsSpace(s[i]) && s[i] != '['
    requires i + 1 < |s| ==> !IsSpace(s[i + 1])
    ensures Substitute(w, s, i) == [s[i]] + Substitute(w, s, i + 1)
  {
    RewriteOnPlain(w, s, i);
    if RewriteAt(w, s, i).Some? {
      SubstituteAtMatch(w, s, i, i + 1);
    } else {
      SubstituteAtMiss(w, s, i);
    }
  }

  lemma ConsAppend(x: char, u: string, v: string)
    ensures [x] + (u + v) == ([x] + u) + v
  {
  }

  /** Where no match starts, `re.sub` copies the character. */
  lemma SubstituteAtMiss(w: Rewrite, s: string, i: nat)
    requires i < |s| && RewriteAt(w, s, i).None?
    ensures Substitute(w, s, i) == [s[i]] + Substitute(w, s, i + 1)
  {
  }

  lemma NormalizeIdentity(m: string)
    requires forall k :: 0 <= k < |m| ==> !IsSpace(m[k]) && m[k] != '['
    ensures Normalize(m) == m
  {
    SubstituteIdentity(BracketAt, m, 0);
    SubstituteIdentity(BracketDot, m, 0);
    SubstituteIdentity(WordAt, m, 0);
    SubstituteIdentity(WordDot, m, 0);
    SubstituteIdentity(MarkAt, m, 0);
    SubstituteIdentity(MarkDot, m, 0);
  }

  /** When a plain `local@domain.tld` occurs anywhere in the text, the
      leftmost one is the result, unchanged, whatever obfuscated forms the
      text also holds. */
  lemma PlainAddressWins(text: string)
    requires SearchFrom(Plain, text, 0).Some?
    ensures EmailOf(text) == Some(text[SearchFrom(Plain, text, 0).value.0..SearchFrom(Plain, text, 0).value.1])
  {
    var be := SearchFrom(Plain, text, 0).value;
    var m := text[be.0..be.1];
    PlainMatchIsPlain(text, be.0, be.1);
    NormalizeIdentity(m);
    assert Patterns[0] == Plain;
    assert EmailFrom(text, Patterns) == Some(Normalize(m));
  }

  /** A match of the plain pattern holds no whitespace and no `[`. */
  lemma PlainMatchIsPlain(text: string, b: nat, e: nat)
    requires b <= e <= |text| && PlainAt(text, b) == Some(e)
    ensures forall k :: 0 <= k < e - b ==> !IsSpace(text[b..e][k]) && text[b..e][k] != '['
  {
    forall k | 0 <= k < e - b ensures !IsSpace(text[b..e][k]) && text[b..e][k] != '[' {
      assert text[b..e][k] == text[b + k];
      assert IsEmailChar(text[b + k]) || text[b + k] == '@';
    }
  }

  // ---------------------------------------------------------------------
  // After the clean-up no whitespace stands next to `@` or `.`.

  /** From position `i` on, no whitespace character stands immediately
      before or after `mark`. */
  predicate NoSpaceBesideFrom(t: string, i: nat, mark: char) {
    forall k :: i <= k < |t| - 1 ==>
      (t[k] == mark ==> !IsSpace(t[k + 1])) && (IsSpace(t[k]) ==> t[k + 1] != mark)
  }

  predicate NoSpaceBeside(t: string, mark: char) {
    NoSpaceBesideFrom(t, 0, mark)
  }

  lemma BesideCons(x: char, rest: string, mark: char)
    requires NoSpaceBeside(rest, mark)
    requires |rest| > 0 ==> (x == mark ==> !IsSpace(rest[0])) && (IsSpace(x) ==> rest[0] != mark)
    ensures NoSpaceBeside([x] + rest, mark)
  {
    var t := [x] + rest;
    forall k | 0 <= k < |t| - 1
      ensures (t[k] == mark ==> !IsSpace(t[k + 1])) && (IsSpace(t[k]) ==> t[k + 1] != mark)
    {
      if k > 0 {
        assert t[k] == rest[k - 1] && t[k + 1] == rest[k];
      }
    }
  }

  /** A lone mark is a match of its own `\s*<mark>\s*`. */
  lemma MarkMatchesItself(w: Rewrite, s: string, i: nat)
    requires w == MarkAt || w == MarkDot
    requires i < |s|
    ensures s[i] == Mark(w) ==> RewriteAt(w, s, i).Some?
  {
    MatchesMark(s, i, Mark(w));
    if s[i] == Mark(w) {
      assert RunEnd(s, i, IsSpace) == i;
    }
  }

  /** A match of `\s*<mark>\s*` may start one whitespace character earlier. */
  lemma MarkMatchesEarlier(w: Rewrite, s: string, i: nat)
    requires w == MarkAt || w == MarkDot
    requires i < |s| && IsSpace(s[i])
    ensures RewriteAt(w, s, i) == RewriteAt(w, s, i + 1)
  {
    assert RunEnd(s, i, IsSpace) == RunEnd(s, i + 1, IsSpace);
  }

  /** A character the substitution keeps is not the mark, and when it is
      whitespace the substitution's output does not continue with the mark. */
  lemma KeptBeforeMark(w: Rewrite, s: string, i: nat)
    requires w == MarkAt || w == MarkDot
    requires i < |s| && RewriteAt(w, s, i).None?
    ensures s[i] != Mark(w)
    ensures IsSpace(s[i]) && |Substitute(w, s, i + 1)| > 0 ==> Substitute(w, s, i + 1)[0] != Mark(w)
  {
    MarkMatchesItself(w, s, i);
    if IsSpace(s[i]) && i + 1 < |s| {
      MarkMatchesEarlier(w, s, i);
      MarkMatchesItself(w, s, i + 1);
    }
  }

  /** What the substitution writes after a match does not start with
      whitespace: the match took all the whitespace that followed. */
  lemma AfterMarkMatch(w: Rewrite, s: string, i: nat, e: nat)
    requires w == MarkAt || w == MarkDot
    requires i < |s| && RewriteAt(w, s, i) == Some(e)
    ensures |Substitute(w, s, e)| > 0 ==> !IsSpace(Substitute(w, s, e)[0])
  {
  }

  /** A match keeps the output clean: the mark is followed by output
      that does not start with whitespace. */
  lemma MatchedClean(w: Rewrite, s: string, i: nat, e: nat)
    requires w == MarkAt || w == MarkDot
    requires i < |s| && RewriteAt(w, s, i) == Some(e)
    requires NoSpaceBeside(Substitute(w, s, e), Mark(w))
    ensures NoSpaceBeside(Substitute(w, s, i), Mark(w))
  {
    AfterMarkMatch(w, s, i, e);
    BesideCons(Mark(w), Substitute(w, s, e), Mark(w));
    assert Substitute(w, s, i) == [Mark(w)] + Substitute(w, s, e);
  }

  /** A kept character keeps the output clean. */
  lemma KeptClean(w: Rewrite, s: string, i: nat)
    requires w == MarkAt || w == MarkDot
    requires i < |s| && RewriteAt(w, s, i).None?
    requires NoSpaceBeside(Substitute(w, s, i + 1), Mark(w))
    ensures NoSpaceBeside(Substitute(w, s, i), Mark(w))
  {
    KeptBeforeMark(w, s, i);
    BesideCons(s[i], Substitute(w, s, i + 1), Mark(w));
    assert Substitute(w, s, i) == [s[i]] + Substitute(w, s, i + 1);
  }

  /** `\s*<mark>\s*` -> `<mark>` leaves no whitespace next to the mark. */
  lemma {:induction false} MarkRewriteClean(w: Rewrite, s: string, i: nat)
    requires w == MarkAt || w == MarkDot
    requires i <= |s|
    ensures NoSpaceBeside(Substitute(w, s, i), Mark(w))
    decreases |s| - i
  {
    if i < |s| {
      var m := RewriteAt(w, s, i);
      if m.Some? {
        MarkRewriteClean(w, s, m.value);
        MatchedClean(w, s, i, m.value);
      } else {
        MarkRewriteClean(w, s, i + 1);
        KeptClean(w, s, i);
      }
    }
  }

  /** `\s*\.\s*` -> `.` keeps the absence of whitespace next to `@`: it
      deletes only whitespace around dots and writes only dots. */
  lemma {:induction false} DotRewriteKeepsAt(s: string, i: nat)
    requires i <= |s|
    requires NoSpaceBesideFrom(s, i, '@')
    ensures NoSpaceBeside(Substitute(MarkDot, s, i), '@')
    decreases |s| - i
  {
    if i < |s| {
      match RewriteAt(MarkDot, s, i)
      case Some(e) =>
        DotRewriteKeepsAt(s, e);
        BesideCons('.', Substitute(MarkDot, s, e), '@');
      case None =>
        DotRewriteKeepsAt(s, i + 1);
        BesideCons(s[i], Substitute(MarkDot, s, i + 1), '@');
    }
  }

  /** The clean-up of any matched text leaves no whitespace next to `@` or
      `.`: the fifth substitution clears it around every `@`, the sixth
      around every `.` without bringing any back next to an `@`. */
  lemma NormalizeClean(m: string)
    ensures NoSpaceBeside(Normalize(m), '@') && NoSpaceBeside(Normalize(m), '.')
  {
    var m4 := Substitute(WordDot, Substitute(WordAt, Substitute(BracketDot, Substitute(BracketAt, m, 0), 0), 0), 0);
    var m5 := Substitute(MarkAt, m4, 0);
    MarkRewriteClean(MarkAt, m4, 0);
    DotRewriteKeepsAt(m5, 0);
    MarkRewriteClean(MarkDot, m5, 0);
  }

  lemma {:induction false} EmailFromClean(text: string, ps: seq<Pattern>)
    requires EmailFrom(text, ps).Some?
    ensures NoSpaceBeside(EmailFrom(text, ps).value, '@')
    ensures NoSpaceBeside(EmailFrom(text, ps).value, '.')
  {
    match SearchFrom(ps[0], text, 0)
    case Some(be) => NormalizeClean(text[be.0..be.1]);
    case None => EmailFromClean(text, ps[1..]);
  }

  /** Whatever was matched, the extracted address has no whitespace next to
      any `@` or `.`. */
  lemma EmailNormalForm(text: string)
    requires EmailOf(text).Some?
    ensures NoSpaceBeside(EmailOf(text).value, '@')
    ensures NoSpaceBeside(EmailOf(text).value, '.')
  {
    EmailFromClean(text, Patterns);
  }

  // ---------------------------------------------------------------------
  // The shape of an address.

  /** `m` is `local@host.tld` with the `@` at `a` and the dot before the
      final word at `d`: a non-empty local part and host of `[\w\.-]`, and
      a non-empty final word of `\w`. */
  predicate ShapedAt(m: string, a: nat, d: nat) {
    0 < a && a + 1 < d && d + 1 < |m| && m[a] == '@' && m[d] == '.' &&
    (forall k :: 0 <= k < a ==> IsEmailChar(m[k])) &&
    (forall k :: a < k < d ==> IsEmailChar(m[k])) &&
    (forall k :: d < k < |m| ==> IsWord(m[k]))
  }

  predicate EmailShape(m: string) {
    exists a: nat, d: nat :: a < |m| && d < |m| && ShapedAt(m, a, d)
  }

  /** `local@host.tld` assembled from its three parts has the shape, and
      holds neither whitespace nor `[`. */
  lemma AddressParts(local: string, host: string, tld: string)
    requires |local| > 0 && |host| > 0 && |tld| > 0
    requires forall k :: 0 <= k < |local| ==> IsEmailChar(local[k])
    requires forall k :: 0 <= k < |host| ==> IsEmailChar(host[k])
    requires forall k :: 0 <= k < |tld| ==> IsWord(tld[k])
    ensures EmailShape(local + "@" + host + "." + tld)
    ensures forall k :: 0 <= k < |local + "@" + host + "." + tld| ==>
      !IsSpace((local + "@" + host + "." + tld)[k]) && (local + "@" + host + "." + tld)[k] != '['
  {
    var m := local + "@" + host + "." + tld;
    var a, d := |local|, |local| + 1 + |host|;
    forall k | 0 <= k < |m|
      ensures (k < a ==> m[k] == local[k]) && (a < k < d ==> m[k] == host[k - a - 1]) && (d < k ==> m[k] == tld[k - d - 1])
    {
    }
    assert m[a] == '@' && m[d] == '.';
    assert ShapedAt(m, a, d);
  }

  /** The host run backtracks to a position `h` from which the dot and the
      final word match. */
  lemma {:induction false} HostTailWitness(s: string, d: nat, e: nat, spaced: bool) returns (h: nat)
    requires d <= e <= |s| && HostTail(s, d, e, spaced).Some?
    ensures d < h <= e && TldAt(s, h, spaced) == HostTail(s, d, e, spaced)
    decreases e
  {
    if TldAt(s, e, spaced).Some? {
      h := e;
    } else {
      h := HostTailWitness(s, d, e - 1, spaced);
    }
  }

  /** A match of the plain pattern is an address `local@host.tld`. */
  lemma PlainMatchShape(s: string, i: nat)
    requires i <= |s| && PlainAt(s, i).Some?
    ensures EmailShape(s[i..PlainAt(s, i).value])
  {
    var r := PlainAt(s, i).value;
    var a := RunEnd(s, i, IsEmailChar);
    MatchesMark(s, a, '@');
    var h := HostTailWitness(s, a + 1, RunEnd(s, a + 1, IsEmailChar), false);
    var m := s[i..r];
    assert forall k :: 0 <= k < r - i ==> m[k] == s[i + k];
    assert ShapedAt(m, a - i, h - i);
  }

  /** When a plain address occurs in the text, the result is one. */
  lemma PlainAddressShape(text: string)
    requires SearchFrom(Plain, text, 0).Some?
    ensures EmailOf(text).Some? && EmailShape(EmailOf(text).value)
  {
    var be := SearchFrom(Plain, text, 0).value;
    PlainAddressWins(text);
    PlainMatchShape(text, be.0);
  }

  // ---------------------------------------------------------------------
  // An obfuscated address becomes `local@host.tld`.

  /** Where no match starts between `i` and `j`, `re.sub` copies that
      stretch. */
  lemma {:induction false} SubstituteSkip(w: Rewrite, s: string, i: nat, j: nat)
    requires i <= j <= |s|
    requires forall k :: i <= k < j ==> RewriteAt(w, s, k).None?
    ensures Substitute(w, s, i) == s[i..j] + Substitute(w, s, j)
    decreases j - i
  {
    if i < j {
      SubstituteSkip(w, s, i + 1, j);
      SubstituteAtMiss(w, s, i);
      ConsAppend(s[i], s[i + 1..j], Substitute(w, s, j));
      SliceCons(s, i, j);
    }
  }

  /** Exactly one match from `i` on, `s[a..b]`: it becomes the mark. */
  lemma SubstituteOnce(w: Rewrite, s: string, i: nat, a: nat, b: nat)
    requires i <= a < b <= |s|
    requires RewriteAt(w, s, a) == Some(b)
    requires forall k :: i <= k < a ==> RewriteAt(w, s, k).None?
    requires forall k :: b <= k < |s| ==> RewriteAt(w, s, k).None?
    ensures Substitute(w, s, i) == s[i..a] + [Mark(w)] + s[b..]
  {
    SubstituteSkip(w, s, i, a);
    SubstituteAtMatch(w, s, a, b);
    SubstituteSkip(w, s, b, |s|);
    WholeSuffix(s, b, Substitute(w, s, |s|));
    AppendAssoc(s[i..a], [Mark(w)], s[b..]);
  }

  /** A suffix followed by nothing is the suffix. */
  lemma WholeSuffix(s: string, b: nat, rest: string)
    requires b <= |s| && rest == []
    ensures s[b..|s|] + rest == s[b..]
  {
  }

  lemma AppendAssoc(u: string, v: string, z: string)
    ensures u + (v + z) == u + v + z
  {
  }

  /** A match at `a` is replaced by its mark. */
  lemma SubstituteAtMatch(w: Rewrite, s: string, a: nat, b: nat)
    requires a < |s| && RewriteAt(w, s, a) == Some(b)
    ensures Substitute(w, s, a) == [Mark(w)] + Substitute(w, s, b)
  {
  }

  /** The four word rewrites need whitespace or `[` where they start. */
  lemma NoTokenAt(w: Rewrite, s: string, k: nat)
    requires w != MarkAt && w != MarkDot
    requires k < |s| && !IsSpace(s[k]) && s[k] != '['
    ensures RewriteAt(w, s, k).None?
  {
    assert RunEnd(s, k, IsSpace) == k;
    MatchesMark(s, k, '[');
  }

  /** Without any `[` the bracket rewrites never match. */
  lemma NoBracketToken(s: string, k: nat, word: string)
    requires k <= |s|
    requires forall j :: 0 <= j < |s| ==> s[j] != '['
    ensures BracketToken(s, k, word).None?
  {
    MatchesMark(s, RunEnd(s, k, IsSpace), '[');
  }

  /** A character the case-insensitive literal `at` or `dot` accepts is a
      letter. */
  lemma LetterOfWord(c: char, l: char)
    requires Lower(c) == l && 'a' <= l <= 'z'
    ensures IsAlpha(c) && !IsSpace(c) && c != '['
  {
  }

  /** A bracket token needs a `[` after the leading whitespace. */
  lemma BracketTokenNoOpen(s: string, k: nat, r: nat, word: string)
    requires Blank(s, k, r) && (r < |s| ==> !IsSpace(s[r]) && s[r] != '[')
    ensures BracketToken(s, k, word).None?
  {
    BlankRun(s, k, r);
    MatchesMark(s, r, '[');
  }

  /** A bracket token needs its word after the `[` and the whitespace
      that follows it. */
  lemma BracketTokenNoWord(s: string, k: nat, p: nat, q: nat, word: string)
    requires Blank(s, k, p) && p < |s| && s[p] == '[' && Blank(s, p + 1, q)
    requires q < |s| && !IsSpace(s[q]) && |word| > 0 && Lower(s[q]) != word[0]
    ensures BracketToken(s, k, word).None?
  {
    MatchesMark(s, p, '[');
    SpacedLitFound(s, k, p, "[");
    BlankRun(s, p + 1, q);
  }

  /** Inside a `[dot]` token no `[at]` token starts, when the text after
      the token does not start with whitespace or `[`: from every position
      the first `[` reachable over whitespace is the token's own, and it is
      followed by `dot`. */
  lemma BracketDotHidesAt(s: string, c: nat, p: nat, q: nat, t: nat, d: nat, k: nat)
    requires BracketSpan(s, c, p, q, t, d, "dot")
    requires c <= k < d
    requires d < |s| ==> !IsSpace(s[d]) && s[d] != '['
    ensures BracketToken(s, k, "at").None?
  {
    KeywordLetters(s, q, "dot");
    if k <= p {
      assert Lower(s[q + 0]) == "dot"[0];
      BracketTokenNoWord(s, k, p, q, "at");
    } else {
      var r := if k <= q then q else if k < q + 3 then k else if k <= t then t else d;
      BracketTokenNoOpen(s, k, r, "at");
    }
  }

  /** A word token needs whitespace where it starts. */
  lemma WordTokenNoSpace(s: string, k: nat, word: string)
    requires k <= |s| && (k < |s| ==> !IsSpace(s[k]))
    ensures WordToken(s, k, word).None?
  {
  }

  /** A word token needs its word after the leading whitespace. */
  lemma WordTokenNoWord(s: string, k: nat, p: nat, word: string)
    requires k < p && Blank(s, k, p) && p < |s| && !IsSpace(s[p])
    requires |word| > 0 && Lower(s[p]) != word[0]
    ensures WordToken(s, k, word).None?
  {
    BlankRun(s, k, p);
    assert !MatchesAt(s, p, word);
  }

  /** A word token needs whitespace after its word. */
  lemma WordTokenNoTrail(s: string, k: nat, r: nat, word: string)
    requires k < r && Blank(s, k, r)
    requires forall j :: r <= j < |s| ==> !IsSpace(s[j])
    ensures WordToken(s, k, word).None?
  {
    BlankRun(s, k, r);
    if MatchesAt(s, r, word) && r + |word| < |s| {
      assert !IsSpace(s[r + |word|]);
    }
  }

  /** Inside an ` dot ` token no ` at ` token starts, when no whitespace
      follows the token. */
  lemma WordDotHidesAt(s: string, c: nat, p: nat, d: nat, k: nat)
    requires WordSpan(s, c, p, d, "dot")
    requires c <= k < d
    requires forall j :: d <= j < |s| ==> !IsSpace(s[j])
    ensures WordToken(s, k, "at").None?
  {
    KeywordLetters(s, p, "dot");
    if k < p {
      assert Lower(s[p + 0]) == "dot"[0];
      WordTokenNoWord(s, k, p, "at");
    } else if k < p + 3 {
      WordTokenNoSpace(s, k, "at");
    } else {
      WordTokenNoTrail(s, k, d, "at");
    }
  }

  /** A ` word ` token holds whitespace and letters only. */
  lemma WordTokenChars(s: string, a: nat, b: nat, word: string)
    requires a <= |s| && WordToken(s, a, word) == Some(b)
    requires forall j :: 0 <= j < |word| ==> 'a' <= word[j] <= 'z'
    ensures forall k :: a <= k < b ==> s[k] != '['
  {
    var p := RunEnd(s, a, IsSpace);
    forall k | p <= k < p + |word| ensures s[k] != '[' {
      assert Lower(s[p + (k - p)]) == word[k - p];
      LetterOfWord(s[k], word[k - p]);
    }
  }

  /** `s[i..j]` is whitespace. */
  predicate Blank(s: string, i: nat, j: nat) {
    i <= j <= |s| && forall k :: i <= k < j ==> IsSpace(s[k])
  }

  /** `s[a..b]` is the token `\s*\[\s*<word>\s*\]\s*`, with the `[` at
      `p`, the word at `q` and the `]` at `t`. */
  predicate BracketSpan(s: string, a: nat, p: nat, q: nat, t: nat, b: nat, word: string) {
    a <= p < q && q + |word| <= t < b <= |s| &&
    Blank(s, a, p) && s[p] == '[' && Blank(s, p + 1, q) && MatchesAt(s, q, word) &&
    Blank(s, q + |word|, t) && s[t] == ']' && Blank(s, t + 1, b)
  }

  ghost predicate IsBracketToken(s: string, a: nat, b: nat, word: string) {
    exists p: nat, q: nat, t: nat :: BracketSpan(s, a, p, q, t, b, word)
  }

  /** `s[a..b]` is the token `\s+<word>\s+`, with the word at `p`. */
  predicate WordSpan(s: string, a: nat, p: nat, b: nat, word: string) {
    a < p && p + |word| < b <= |s| &&
    Blank(s, a, p) && MatchesAt(s, p, word) && Blank(s, p + |word|, b)
  }

  ghost predicate IsWordToken(s: string, a: nat, b: nat, word: string) {
    exists p: nat :: WordSpan(s, a, p, b, word)
  }

  /** A lower-case keyword such as `at` or `dot`. */
  predicate Keyword(word: string) {
    |word| > 0 && forall j :: 0 <= j < |word| ==> 'a' <= word[j] <= 'z'
  }

  /** Where a keyword matches, the text holds letters. */
  lemma KeywordLetters(s: string, q: nat, word: string)
    requires Keyword(word) && MatchesAt(s, q, word)
    ensures forall k :: q <= k < q + |word| ==> IsAlpha(s[k]) && !IsSpace(s[k]) && s[k] != '['
  {
    forall k | q <= k < q + |word| ensures IsAlpha(s[k]) && !IsSpace(s[k]) && s[k] != '[' {
      assert Lower(s[q + (k - q)]) == word[k - q];
      LetterOfWord(s[k], word[k - q]);
    }
  }

  /** A run of whitespace ending at a non-space character. */
  lemma BlankRun(s: string, i: nat, j: nat)
    requires Blank(s, i, j) && (j < |s| ==> !IsSpace(s[j]))
    ensures RunEnd(s, i, IsSpace) == j
  {
  }

  /** `\s*<lit>` over whitespace up to `j` and the literal at `j`. */
  lemma SpacedLitFound(s: string, i: nat, j: nat, lit: string)
    requires Blank(s, i, j) && j < |s| && !IsSpace(s[j]) && MatchesAt(s, j, lit)
    ensures SpacedLit(s, i, lit) == Some(j + |lit|)
  {
    BlankRun(s, i, j);
  }

  /** The scanner finds a bracket token given by its characters, provided
      no whitespace follows it. */
  lemma BracketSpanToken(s: string, a: nat, p: nat, q: nat, t: nat, b: nat, word: string)
    requires Keyword(word) && BracketSpan(s, a, p, q, t, b, word)
    requires b < |s| ==> !IsSpace(s[b])
    ensures BracketToken(s, a, word) == Some(b)
  {
    BracketSpanSteps(s, a, p, q, t, b, word);
    BracketTokenOf(s, a, p + 1, q + |word|, t, b, word);
  }

  /** The three steps of the bracket token scanner over a bracket span. */
  lemma BracketSpanSteps(s: string, a: nat, p: nat, q: nat, t: nat, b: nat, word: string)
    requires Keyword(word) && BracketSpan(s, a, p, q, t, b, word)
    requires b < |s| ==> !IsSpace(s[b])
    ensures SpacedLit(s, a, "[") == Some(p + 1) && SpacedLit(s, p + 1, word) == Some(q + |word|)
  {
    MarkFound(s, a, p, p + 1, '[', "[");
    KeywordStart(s, q, word);
    SpacedLitFound(s, p + 1, q, word);
  }

  /** The bracket token scanner through its three steps. */
  lemma BracketTokenOf(s: string, a: nat, o: nat, w: nat, t: nat, b: nat, word: string)
    requires a <= |s| && SpacedLit(s, a, "[") == Some(o) && SpacedLit(s, o, word) == Some(w)
    requires Blank(s, w, t) && t < |s| && s[t] == ']' && t < b
    requires Blank(s, t + 1, b) && (b < |s| ==> !IsSpace(s[b]))
    ensures BracketToken(s, a, word) == Some(b)
  {
    MarkTokenFound(s, w, t, b, ']');
  }

  /** A keyword that matches starts with a character that is not
      whitespace. */
  lemma KeywordStart(s: string, q: nat, word: string)
    requires Keyword(word) && MatchesAt(s, q, word)
    ensures q < |s| && !IsSpace(s[q])
  {
    KeywordLetters(s, q, word);
  }

  /** `\s*<mark>` over whitespace up to the mark at `t`. */
  lemma MarkFound(s: string, i: nat, t: nat, e: nat, mark: char, lit: string)
    requires mark == '[' || mark == ']' || mark == '@' || mark == '.'
    requires lit == [mark]
    requires Blank(s, i, t) && t < |s| && s[t] == mark && e == t + 1
    ensures SpacedLit(s, i, lit) == Some(e)
  {
    MatchesMark(s, t, mark);
    SpacedLitFound(s, i, t, lit);
  }

  /** `\s*<mark>\s*` over whitespace, the mark at `t`, and whitespace up
      to `b`, where no whitespace follows. */
  lemma MarkTokenFound(s: string, i: nat, t: nat, b: nat, mark: char)
    requires mark == '[' || mark == ']' || mark == '@' || mark == '.'
    requires Blank(s, i, t) && t < |s| && s[t] == mark && t < b
    requires Blank(s, t + 1, b) && (b < |s| ==> !IsSpace(s[b]))
    ensures MarkToken(s, i, mark) == Some(b)
  {
    MarkFound(s, i, t, t + 1, mark, [mark]);
    BlankRun(s, t + 1, b);
  }

  /** What `\s*<lit>` matches: whitespace, then the literal. */
  lemma SpacedLitShape(s: string, i: nat, lit: string)
    requires i <= |s| && SpacedLit(s, i, lit).Some?
    ensures Blank(s, i, RunEnd(s, i, IsSpace)) && MatchesAt(s, RunEnd(s, i, IsSpace), lit)
    ensures SpacedLit(s, i, lit).value == RunEnd(s, i, IsSpace) + |lit|
  {
  }

  /** The three steps of a bracket token found by the scanner. */
  lemma BracketTokenSteps(s: string, a: nat, word: string) returns (o: nat, w: nat)
    requires a <= |s| && BracketToken(s, a, word).Some?
    ensures SpacedLit(s, a, "[") == Some(o) && SpacedLit(s, o, word) == Some(w)
    ensures MarkToken(s, w, ']') == BracketToken(s, a, word)
  {
    o := SpacedLit(s, a, "[").value;
    w := SpacedLit(s, o, word).value;
  }

  /** Conversely, what the scanner finds is a bracket token. */
  lemma BracketTokenSpan(s: string, a: nat, word: string) returns (p: nat, q: nat, t: nat)
    requires a <= |s| && BracketToken(s, a, word).Some?
    ensures BracketSpan(s, a, p, q, t, BracketToken(s, a, word).value, word)
  {
    var o, w := BracketTokenSteps(s, a, word);
    var b := BracketToken(s, a, word).value;
    SpacedLitShape(s, a, "[");
    p := RunEnd(s, a, IsSpace);
    MatchesMark(s, p, '[');
    SpacedLitShape(s, o, word);
    q := RunEnd(s, o, IsSpace);
    SpacedLitShape(s, w, "]");
    t := RunEnd(s, w, IsSpace);
    MatchesMark(s, t, ']');
    assert b == RunEnd(s, t + 1, IsSpace);
    assert BracketSpan(s, a, p, q, t, b, word);
  }

  lemma WordSpanToken(s: string, a: nat, p: nat, b: nat, word: string)
    requires Keyword(word) && WordSpan(s, a, p, b, word)
    requires b < |s| ==> !IsSpace(s[b])
    ensures WordToken(s, a, word) == Some(b)
  {
    KeywordLetters(s, p, word);
    BlankRun(s, a, p);
    BlankRun(s, p + |word|, b);
  }

  lemma WordTokenSpan(s: string, a: nat, word: string) returns (p: nat)
    requires a <= |s| && WordToken(s, a, word).Some?
    ensures WordSpan(s, a, p, WordToken(s, a, word).value, word)
  {
    p := RunEnd(s, a, IsSpace);
  }

  /** A bracket token keeps its shape when the text around it moves: `s2`
      holds, `delta` positions earlier, the characters of `s` from `c` up
      to `d`. */
  lemma BracketSpanMoves(s: string, s2: string, delta: nat, c: nat, p: nat, q: nat, t: nat, d: nat, word: string)
    requires BracketSpan(s, c, p, q, t, d, word)
    requires delta <= c && d <= |s2| + delta
    requires forall x :: c - delta <= x < d - delta ==> s2[x] == s[x + delta]
    ensures BracketSpan(s2, c - delta, p - delta, q - delta, t - delta, d - delta, word)
  {
    forall k | 0 <= k < |word| ensures Lower(s2[q - delta + k]) == word[k] {
      assert s2[q - delta + k] == s[q + k];
    }
  }

  lemma WordSpanMoves(s: string, s2: string, delta: nat, c: nat, p: nat, d: nat, word: string)
    requires WordSpan(s, c, p, d, word)
    requires delta <= c && d <= |s2| + delta
    requires forall x :: c - delta <= x < d - delta ==> s2[x] == s[x + delta]
    ensures WordSpan(s2, c - delta, p - delta, d - delta, word)
  {
    forall k | 0 <= k < |word| ensures Lower(s2[p - delta + k]) == word[k] {
      assert s2[p - delta + k] == s[p + k];
    }
  }

  /** `m` with `m[a..b]` replaced by one character. */
  function Splice(m: string, a: nat, b: nat, mark: char): (r: string)
    requires a < b <= |m|
    ensures |r| + (b - a - 1) == |m|
  {
    m[..a] + [mark] + m[b..]
  }

  /** The last four substitutions leave a text without whitespace and
      without `[` as it is. */
  lemma NormalizeAfterBrackets(m: string, x: string)
    requires Substitute(BracketDot, Substitute(BracketAt, m, 0), 0) == x
    requires forall k :: 0 <= k < |x| ==> !IsSpace(x[k]) && x[k] != '['
    ensures Normalize(m) == x
  {
    SubstituteIdentity(WordAt, x, 0);
    SubstituteIdentity(WordDot, x, 0);
    SubstituteIdentity(MarkAt, x, 0);
    SubstituteIdentity(MarkDot, x, 0);
  }

  /** When the bracket substitutions change nothing, the word
      substitutions decide, and the last two leave a text without
      whitespace and without `[` as it is. */
  lemma NormalizeAfterWords(m: string, x: string)
    requires Substitute(BracketDot, Substitute(BracketAt, m, 0), 0) == m
    requires Substitute(WordDot, Substitute(WordAt, m, 0), 0) == x
    requires forall k :: 0 <= k < |x| ==> !IsSpace(x[k]) && x[k] != '['
    ensures Normalize(m) == x
  {
    SubstituteIdentity(MarkAt, x, 0);
    SubstituteIdentity(MarkDot, x, 0);
  }

  /** The characters of `local <token> host <token> tld` outside its two
      tokens `s[a..b]` and `s[c..d]`: a local part `s[i..a]` and a host
      `s[b..c]` of `[\w\.-]`, and a final word `s[d..e]` of `\w`. */
  predicate AddressChars(s: string, i: nat, a: nat, b: nat, c: nat, d: nat, e: nat) {
    i < a <= b < c <= d < e <= |s| &&
    (forall k :: i <= k < a ==> IsEmailChar(s[k])) &&
    (forall k :: b <= k < c ==> IsEmailChar(s[k])) &&
    (forall k :: d <= k < e ==> IsWord(s[k]))
  }

  /** `s[i..e]` is `local [at] host [dot] tld`. */
  ghost predicate BracketedForm(s: string, i: nat, a: nat, b: nat, c: nat, d: nat, e: nat) {
    AddressChars(s, i, a, b, c, d, e) && IsBracketToken(s, a, b, "at") && IsBracketToken(s, c, d, "dot")
  }

  /** `s[i..e]` is `local at host dot tld`. */
  ghost predicate WordedForm(s: string, i: nat, a: nat, b: nat, c: nat, d: nat, e: nat) {
    AddressChars(s, i, a, b, c, d, e) && IsWordToken(s, a, b, "at") && IsWordToken(s, c, d, "dot")
  }

  /** Outside its tokens an address holds neither whitespace nor `[`. */
  lemma OutsideTokens(s: string, i: nat, a: nat, b: nat, c: nat, d: nat, e: nat, k: nat)
    requires AddressChars(s, i, a, b, c, d, e)
    requires i <= k < a || b <= k < c || d <= k < e
    ensures !IsSpace(s[k]) && s[k] != '['
  {
  }

  /** `\s*\[\s*at\s*\]\s*` does not match at `k`, outside the `[at]`
      token of `local [at] host [dot] tld`. */
  lemma BracketAtMisses(m: string, a: nat, b: nat, c: nat, p: nat, q: nat, t: nat, d: nat, k: nat)
    requires AddressChars(m, 0, a, b, c, d, |m|) && BracketSpan(m, c, p, q, t, d, "dot")
    requires 0 <= k < a || b <= k < |m|
    ensures BracketToken(m, k, "at").None?
  {
    if c <= k < d {
      BracketDotHidesAt(m, c, p, q, t, d, k);
    } else {
      OutsideTokens(m, 0, a, b, c, d, |m|, k);
      NoTokenAt(BracketAt, m, k);
    }
  }

  /** In `local [at] host [dot] tld` `\s*\[\s*at\s*\]\s*` matches only
      at the `[at]` token: the `[dot]` token hides none. */
  lemma BracketAtOnce(m: string, a: nat, b: nat, c: nat, d: nat)
    requires BracketedForm(m, 0, a, b, c, d, |m|)
    ensures RewriteAt(BracketAt, m, a) == Some(b)
    ensures forall k :: 0 <= k < a || b <= k < |m| ==> RewriteAt(BracketAt, m, k).None?
  {
    var p1: nat, q1: nat, t1: nat :| BracketSpan(m, a, p1, q1, t1, b, "at");
    BracketSpanToken(m, a, p1, q1, t1, b, "at");
    var p2: nat, q2: nat, t2: nat :| BracketSpan(m, c, p2, q2, t2, d, "dot");
    forall k | 0 <= k < a || b <= k < |m| ensures RewriteAt(BracketAt, m, k).None? {
      BracketAtMisses(m, a, b, c, p2, q2, t2, d, k);
    }
  }

  /** `m1` is `m` with `m[a..b]` replaced by `@`. */
  predicate Spliced(m: string, m1: string, a: nat, b: nat) {
    a < b <= |m| && |m1| + (b - a - 1) == |m| && a < |m1| && m1[a] == '@' &&
    (forall x :: 0 <= x < a ==> m1[x] == m[x]) &&
    (forall x :: a < x < |m1| ==> m1[x] == m[x + (b - a - 1)])
  }

  /** Once the `[at]` token of `local [at] host [dot] tld` is replaced by
      `@`, the text outside the `[dot]` token, which has moved
      `b - a - 1` places to the left, holds neither whitespace nor `[`. */
  lemma SplicedChars(m: string, m1: string, a: nat, b: nat, c: nat, d: nat, k: nat)
    requires AddressChars(m, 0, a, b, c, d, |m|) && Spliced(m, m1, a, b) && b <= c <= d
    requires 0 <= k < c - (b - a - 1) || d - (b - a - 1) <= k < |m1|
    ensures !IsSpace(m1[k]) && m1[k] != '['
  {
    if k < a {
      OutsideTokens(m, 0, a, b, c, d, |m|, k);
    } else if k > a {
      OutsideTokens(m, 0, a, b, c, d, |m|, k + (b - a - 1));
    }
  }

  /** Outside `s[c..d]`, `s` holds neither whitespace nor `[`. */
  predicate Unbracketed(s: string, c: nat, d: nat) {
    forall k :: 0 <= k < |s| && (k < c || d <= k) ==> !IsSpace(s[k]) && s[k] != '['
  }

  /** Outside `s[c..d]`, `s` holds no whitespace. */
  predicate Unspaced(s: string, c: nat, d: nat) {
    forall k :: 0 <= k < |s| && (k < c || d <= k) ==> !IsSpace(s[k])
  }

  /** A bracket token surrounded by text without whitespace and without
      `[` is the only place its rewrite matches, so `re.sub` replaces just
      that token. */
  lemma BracketTokenAlone(w: Rewrite, s: string, c: nat, p: nat, q: nat, t: nat, d: nat, word: string)
    requires (w == BracketAt && word == "at") || (w == BracketDot && word == "dot")
    requires BracketSpan(s, c, p, q, t, d, word) && Unbracketed(s, c, d)
    ensures Substitute(w, s, 0) == s[..c] + [Mark(w)] + s[d..]
  {
    BracketSpanToken(s, c, p, q, t, d, word);
    forall k | 0 <= k < c || d <= k < |s| ensures RewriteAt(w, s, k).None? {
      NoTokenAt(w, s, k);
    }
    SubstituteOnce(w, s, 0, c, d);
    assert s[0..c] == s[..c];
  }

  /** `Splice` replaces `m[a..b]` by `@`. */
  lemma SpliceIsSpliced(m: string, a: nat, b: nat)
    requires a < b <= |m|
    ensures Spliced(m, Splice(m, a, b, '@'), a, b)
  {
  }

  /** Once the `[at]` token of `local [at] host [dot] tld` is replaced by
      `@`, the `[dot]` token sits `b - a - 1` places further left, amid
      text without whitespace and without `[`. */
  lemma SplicedDotToken(m: string, a: nat, b: nat, c: nat, p: nat, q: nat, t: nat, d: nat)
      returns (c1: nat, p1: nat, q1: nat, t1: nat, d1: nat)
    requires AddressChars(m, 0, a, b, c, d, |m|) && BracketSpan(m, c, p, q, t, d, "dot") && a < b
    ensures c1 == c - (b - a - 1) && p1 == p - (b - a - 1) && q1 == q - (b - a - 1)
    ensures t1 == t - (b - a - 1) && d1 == d - (b - a - 1)
    ensures BracketSpan(Splice(m, a, b, '@'), c1, p1, q1, t1, d1, "dot") && Unbracketed(Splice(m, a, b, '@'), c1, d1)
  {
    var m1 := Splice(m, a, b, '@');
    var delta := b - a - 1;
    SpliceIsSpliced(m, a, b);
    BracketSpanMoves(m, m1, delta, c, p, q, t, d, "dot");
    c1, p1, q1, t1, d1 := c - delta, p - delta, q - delta, t - delta, d - delta;
    forall k | 0 <= k < c1 || d1 <= k < |m1| ensures !IsSpace(m1[k]) && m1[k] != '[' {
      SplicedChars(m, m1, a, b, c, d, k);
    }
  }

  /** The first substitution replaces just the `[at]` token. */
  lemma BracketAtSubstitution(m: string, a: nat, b: nat, c: nat, d: nat)
    requires BracketedForm(m, 0, a, b, c, d, |m|)
    ensures Substitute(BracketAt, m, 0) == Splice(m, a, b, '@')
  {
    BracketAtOnce(m, a, b, c, d);
    SubstituteOnce(BracketAt, m, 0, a, b);
    assert m[0..a] == m[..a];
  }

  /** Replacing the `[at]` token and then the moved `[dot]` token leaves
      the local part, `@`, the host, `.` and the final word. */
  lemma SpliceTwice(m: string, a: nat, b: nat, c: nat, d: nat, c1: nat, d1: nat)
    requires a < b <= c < d <= |m| && c1 == c - (b - a - 1) && d1 == d - (b - a - 1)
    ensures Splice(m, a, b, '@')[..c1] + "." + Splice(m, a, b, '@')[d1..] == m[..a] + "@" + m[b..c] + "." + m[d..]
  {
    var m1 := Splice(m, a, b, '@');
    assert m1[..c1] == m[..a] + "@" + m[b..c];
    assert m1[d1..] == m[d..];
  }

  /** Both dot rewrites put a `.` in place of their token. */
  lemma DotMark(w: Rewrite, x: string, y: string)
    requires w == BracketDot || w == WordDot
    ensures x + [Mark(w)] + y == x + "." + y
  {
  }

  /** A lone `[dot]` token becomes `.`. */
  lemma DotTokenAlone(s: string, c: nat, p: nat, q: nat, t: nat, d: nat)
    requires BracketSpan(s, c, p, q, t, d, "dot") && Unbracketed(s, c, d)
    ensures Substitute(BracketDot, s, 0) == s[..c] + "." + s[d..]
  {
    BracketTokenAlone(BracketDot, s, c, p, q, t, d, "dot");
    DotMark(BracketDot, s[..c], s[d..]);
  }

  /** A lone ` dot ` token becomes `.`. */
  lemma WordDotAlone(s: string, c: nat, p: nat, d: nat)
    requires WordSpan(s, c, p, d, "dot") && Unspaced(s, c, d)
    ensures Substitute(WordDot, s, 0) == s[..c] + "." + s[d..]
  {
    WordTokenAlone(WordDot, s, c, p, d, "dot");
    DotMark(WordDot, s[..c], s[d..]);
  }


  /** The second substitution, applied after the first, then replaces
      just the moved `[dot]` token. */
  lemma BracketDotSubstitution(m: string, a: nat, b: nat, c: nat, d: nat)
    requires BracketedForm(m, 0, a, b, c, d, |m|)
    ensures Substitute(BracketDot, Splice(m, a, b, '@'), 0) == m[..a] + "@" + m[b..c] + "." + m[d..]
  {
    var p0: nat, q0: nat, t0: nat :| BracketSpan(m, a, p0, q0, t0, b, "at");
    var p: nat, q: nat, t: nat :| BracketSpan(m, c, p, q, t, d, "dot");
    var c1, p1, q1, t1, d1 := SplicedDotToken(m, a, b, c, p, q, t, d);
    DotTokenAlone(Splice(m, a, b, '@'), c1, p1, q1, t1, d1);
    SpliceTwice(m, a, b, c, d, c1, d1);
  }

  /** The three parts of an address with its tokens removed make
      `local@host.tld`. */
  lemma JoinedParts(m: string, a: nat, b: nat, c: nat, d: nat)
    requires AddressChars(m, 0, a, b, c, d, |m|)
    ensures EmailShape(m[..a] + "@" + m[b..c] + "." + m[d..])
    ensures forall k :: 0 <= k < |m[..a] + "@" + m[b..c] + "." + m[d..]| ==>
      !IsSpace((m[..a] + "@" + m[b..c] + "." + m[d..])[k]) && (m[..a] + "@" + m[b..c] + "." + m[d..])[k] != '['
  {
    AddressParts(m[..a], m[b..c], m[d..]);
  }

  /** The clean-up turns `local [at] host [dot] tld` into
      `local@host.tld`: the first substitution replaces the `[at]` token,
      the second the `[dot]` token, and the other four find nothing left to
      change. */
  lemma NormalizeBracketed(m: string, a: nat, b: nat, c: nat, d: nat)
    requires BracketedForm(m, 0, a, b, c, d, |m|)
    ensures Normalize(m) == m[..a] + "@" + m[b..c] + "." + m[d..]
  {
    BracketAtSubstitution(m, a, b, c, d);
    BracketDotSubstitution(m, a, b, c, d);
    JoinedParts(m, a, b, c, d);
    NormalizeAfterBrackets(m, m[..a] + "@" + m[b..c] + "." + m[d..]);
  }

  /** Inside an address `local at host dot tld` there is no `[`. */
  lemma WordedChar(m: string, a: nat, p1: nat, b: nat, c: nat, p2: nat, d: nat, k: nat)
    requires AddressChars(m, 0, a, b, c, d, |m|)
    requires WordSpan(m, a, p1, b, "at") && WordSpan(m, c, p2, d, "dot")
    requires k < |m|
    ensures m[k] != '['
  {
    if a <= k < b {
      KeywordLetters(m, p1, "at");
    } else if c <= k < d {
      KeywordLetters(m, p2, "dot");
    } else {
      OutsideTokens(m, 0, a, b, c, d, |m|, k);
    }
  }

  /** Without any `[` the bracket substitutions change nothing. */
  lemma BracketFree(w: Rewrite, s: string)
    requires w == BracketAt || w == BracketDot
    requires forall k :: 0 <= k < |s| ==> s[k] != '['
    ensures Substitute(w, s, 0) == s
  {
    forall k | 0 <= k < |s| ensures RewriteAt(w, s, k).None? {
      NoBracketToken(s, k, if w == BracketAt then "at" else "dot");
    }
    SubstituteSkip(w, s, 0, |s|);
    assert s[0..|s|] == s;
  }

  /** `\s+at\s+` does not match at `k`, outside the ` at ` token of
      `local at host dot tld`. */
  lemma WordAtMisses(m: string, a: nat, b: nat, c: nat, p: nat, d: nat, k: nat)
    requires AddressChars(m, 0, a, b, c, d, |m|) && WordSpan(m, c, p, d, "dot")
    requires 0 <= k < a || b <= k < |m|
    ensures WordToken(m, k, "at").None?
  {
    if c <= k < d {
      WordDotHidesAt(m, c, p, d, k);
    } else {
      OutsideTokens(m, 0, a, b, c, d, |m|, k);
      WordTokenNoSpace(m, k, "at");
    }
  }

  /** The third substitution replaces just the ` at ` token. */
  lemma WordAtSubstitution(m: string, a: nat, p1: nat, b: nat, c: nat, p2: nat, d: nat)
    requires AddressChars(m, 0, a, b, c, d, |m|)
    requires WordSpan(m, a, p1, b, "at") && WordSpan(m, c, p2, d, "dot")
    ensures Substitute(WordAt, m, 0) == Splice(m, a, b, '@')
  {
    WordSpanToken(m, a, p1, b, "at");
    forall k | 0 <= k < a || b <= k < |m| ensures RewriteAt(WordAt, m, k).None? {
      WordAtMisses(m, a, b, c, p2, d, k);
    }
    SubstituteOnce(WordAt, m, 0, a, b);
    assert m[0..a] == m[..a];
  }

  /** A word token surrounded by text without whitespace is the only
      place its rewrite matches, so `re.sub` replaces just that token. */
  lemma WordTokenAlone(w: Rewrite, s: string, c: nat, p: nat, d: nat, word: string)
    requires (w == WordAt && word == "at") || (w == WordDot && word == "dot")
    requires WordSpan(s, c, p, d, word) && Unspaced(s, c, d)
    ensures Substitute(w, s, 0) == s[..c] + [Mark(w)] + s[d..]
  {
    WordSpanToken(s, c, p, d, word);
    forall k | 0 <= k < c || d <= k < |s| ensures RewriteAt(w, s, k).None? {
      WordTokenNoSpace(s, k, word);
    }
    SubstituteOnce(w, s, 0, c, d);
    assert s[0..c] == s[..c];
  }

  /** Once the ` at ` token of `local at host dot tld` is replaced by
      `@`, the ` dot ` token sits `b - a - 1` places further left, amid
      text without whitespace. */
  lemma SplicedWordToken(m: string, a: nat, b: nat, c: nat, p: nat, d: nat) returns (c1: nat, p1: nat, d1: nat)
    requires AddressChars(m, 0, a, b, c, d, |m|) && WordSpan(m, c, p, d, "dot") && a < b
    ensures c1 == c - (b - a - 1) && p1 == p - (b - a - 1) && d1 == d - (b - a - 1)
    ensures WordSpan(Splice(m, a, b, '@'), c1, p1, d1, "dot") && Unspaced(Splice(m, a, b, '@'), c1, d1)
  {
    var m1 := Splice(m, a, b, '@');
    var delta := b - a - 1;
    SpliceIsSpliced(m, a, b);
    WordSpanMoves(m, m1, delta, c, p, d, "dot");
    c1, p1, d1 := c - delta, p - delta, d - delta;
    forall k | 0 <= k < c1 || d1 <= k < |m1| ensures !IsSpace(m1[k]) {
      SplicedChars(m, m1, a, b, c, d, k);
    }
  }


  /** The word substitutions turn `local at host dot tld` into
      `local@host.tld`. */
  lemma WordSubstitutions(m: string, a: nat, b: nat, c: nat, d: nat)
    requires WordedForm(m, 0, a, b, c, d, |m|)
    ensures Substitute(WordDot, Substitute(WordAt, m, 0), 0) == m[..a] + "@" + m[b..c] + "." + m[d..]
  {
    var p1: nat :| WordSpan(m, a, p1, b, "at");
    var p2: nat :| WordSpan(m, c, p2, d, "dot");
    WordAtSubstitution(m, a, p1, b, c, p2, d);
    var c1, q2, d1 := SplicedWordToken(m, a, b, c, p2, d);
    WordDotAlone(Splice(m, a, b, '@'), c1, q2, d1);
    SpliceTwice(m, a, b, c, d, c1, d1);
  }

  /** Nothing in `local at host dot tld` is a bracket token. */
  lemma WordedBracketFree(m: string, a: nat, b: nat, c: nat, d: nat)
    requires WordedForm(m, 0, a, b, c, d, |m|)
    ensures Substitute(BracketDot, Substitute(BracketAt, m, 0), 0) == m
  {
    var p1: nat :| WordSpan(m, a, p1, b, "at");
    var p2: nat :| WordSpan(m, c, p2, d, "dot");
    forall k | 0 <= k < |m| ensures m[k] != '[' {
      WordedChar(m, a, p1, b, c, p2, d, k);
    }
    BracketFree(BracketAt, m);
    BracketFree(BracketDot, m);
  }

  /** The clean-up turns `local at host dot tld` into `local@host.tld`:
      the bracket substitutions find nothing, the third replaces the ` at `
      token, the fourth the ` dot ` token, and the last two find nothing
      left to change. */
  lemma NormalizeWorded(m: string, a: nat, b: nat, c: nat, d: nat)
    requires WordedForm(m, 0, a, b, c, d, |m|)
    ensures Normalize(m) == m[..a] + "@" + m[b..c] + "." + m[d..]
  {
    WordedBracketFree(m, a, b, c, d);
    WordSubstitutions(m, a, b, c, d);
    JoinedParts(m, a, b, c, d);
    NormalizeAfterWords(m, m[..a] + "@" + m[b..c] + "." + m[d..]);
  }

  // ---------------------------------------------------------------------
  // What the text yields when an obfuscated address is found first.

  /** The first pattern that finds something decides the result. */
  lemma {:induction false} EmailFromFirst(text: string, ps: seq<Pattern>, n: nat)
    requires n < |ps| && SearchFrom(ps[n], text, 0).Some?
    requires forall j :: 0 <= j < n ==> SearchFrom(ps[j], text, 0).None?
    ensures EmailFrom(text, ps) ==
      Some(Normalize(text[SearchFrom(ps[n], text, 0).value.0..SearchFrom(ps[n], text, 0).value.1]))
    decreases n
  {
    if n > 0 {
      assert SearchFrom(ps[0], text, 0).None?;
      forall j | 0 <= j < n - 1 ensures SearchFrom(ps[1..][j], text, 0).None? {
        assert ps[1..][j] == ps[j + 1];
      }
      assert ps[1..][n - 1] == ps[n];
      EmailFromFirst(text, ps[1..], n - 1);
    }
  }

  /** The parts of a bracketed match, in the order the pattern reads them. */
  lemma BracketedSteps(s: string, i: nat) returns (a: nat, b: nat, c: nat, d: nat)
    requires i <= |s| && BracketedAt(s, i).Some?
    ensures Plus(s, i, IsEmailChar) == Some(a) && BracketToken(s, a, "at") == Some(b)
    ensures Plus(s, b, IsEmailChar) == Some(c) && BracketToken(s, c, "dot") == Some(d)
    ensures Plus(s, d, IsWord) == BracketedAt(s, i)
  {
    a := Plus(s, i, IsEmailChar).value;
    b := BracketToken(s, a, "at").value;
    c := Plus(s, b, IsEmailChar).value;
    d := BracketToken(s, c, "dot").value;
  }

  /** What `[\w\.-]+\s*\[\s*at\s*\]\s*[\w\.-]+\s*\[\s*dot\s*\]\s*\w+`
      matches is `local [at] host [dot] tld`. */
  lemma BracketedMatchForm(s: string, i: nat, e: nat)
    returns (a: nat, p1: nat, q1: nat, t1: nat, b: nat, c: nat, p2: nat, q2: nat, t2: nat, d: nat)
    requires i <= |s| && BracketedAt(s, i) == Some(e)
    ensures AddressChars(s, i, a, b, c, d, e)
    ensures BracketSpan(s, a, p1, q1, t1, b, "at") && BracketSpan(s, c, p2, q2, t2, d, "dot")
  {
    a, b, c, d := BracketedSteps(s, i);
    p1, q1, t1 := BracketTokenSpan(s, a, "at");
    p2, q2, t2 := BracketTokenSpan(s, c, "dot");
  }

  /** The parts of a worded match, in the order the pattern reads them. */
  lemma WordedSteps(s: string, i: nat) returns (a: nat, b: nat, c: nat, d: nat)
    requires i <= |s| && WordedAt(s, i).Some?
    ensures Plus(s, i, IsEmailChar) == Some(a) && WordToken(s, a, "at") == Some(b)
    ensures Plus(s, b, IsEmailChar) == Some(c) && WordToken(s, c, "dot") == Some(d)
    ensures Plus(s, d, IsWord) == WordedAt(s, i)
  {
    a := Plus(s, i, IsEmailChar).value;
    b := WordToken(s, a, "at").value;
    c := Plus(s, b, IsEmailChar).value;
    d := WordToken(s, c, "dot").value;
  }

  /** What `[\w\.-]+\s+at\s+[\w\.-]+\s+dot\s+\w+` matches is
      `local at host dot tld`. */
  lemma WordedMatchForm(s: string, i: nat, e: nat) returns (a: nat, p1: nat, b: nat, c: nat, p2: nat, d: nat)
    requires i <= |s| && WordedAt(s, i) == Some(e)
    ensures AddressChars(s, i, a, b, c, d, e)
    ensures WordSpan(s, a, p1, b, "at") && WordSpan(s, c, p2, d, "dot")
  {
    a, b, c, d := WordedSteps(s, i);
    p1 := WordTokenSpan(s, a, "at");
    p2 := WordTokenSpan(s, c, "dot");
  }

  /** The characters of an address keep their roles in the matched text. */
  lemma AddressCharsMove(s: string, i: nat, a: nat, b: nat, c: nat, d: nat, e: nat)
    requires AddressChars(s, i, a, b, c, d, e)
    ensures AddressChars(s[i..e], 0, a - i, b - i, c - i, d - i, e - i)
  {
    var m := s[i..e];
    forall k | 0 <= k < e - i ensures m[k] == s[k + i] {
    }
  }

  /** The characters of `s[i..e]` are those of `s` from `i` on. */
  lemma SliceChars(s: string, i: nat, e: nat)
    requires i <= e <= |s|
    ensures forall x :: 0 <= x < e - i ==> s[i..e][x] == s[x + i]
  {
  }

  /** A bracketed match is cleaned up to `local@host.tld`. */
  lemma BracketedMatchNormal(m: string, a: nat, b: nat, c: nat, d: nat)
    requires BracketedForm(m, 0, a, b, c, d, |m|)
    ensures Normalize(m) == m[..a] + "@" + m[b..c] + "." + m[d..]
    ensures EmailShape(m[..a] + "@" + m[b..c] + "." + m[d..])
  {
    NormalizeBracketed(m, a, b, c, d);
    JoinedParts(m, a, b, c, d);
  }

  /** A worded match is cleaned up to `local@host.tld`. */
  lemma WordedMatchNormal(m: string, a: nat, b: nat, c: nat, d: nat)
    requires WordedForm(m, 0, a, b, c, d, |m|)
    ensures Normalize(m) == m[..a] + "@" + m[b..c] + "." + m[d..]
    ensures EmailShape(m[..a] + "@" + m[b..c] + "." + m[d..])
  {
    NormalizeWorded(m, a, b, c, d);
    JoinedParts(m, a, b, c, d);
  }

  /** A pattern that finds nothing passes the decision on. */
  lemma EmailFromMiss(text: string, ps: seq<Pattern>)
    requires ps != [] && SearchFrom(ps[0], text, 0).None?
    ensures EmailFrom(text, ps) == EmailFrom(text, ps[1..])
  {
  }

  /** A pattern that finds something decides. */
  lemma EmailFromHit(text: string, ps: seq<Pattern>)
    requires ps != [] && SearchFrom(ps[0], text, 0).Some?
    ensures EmailFrom(text, ps) ==
      Some(Normalize(text[SearchFrom(ps[0], text, 0).value.0..SearchFrom(ps[0], text, 0).value.1]))
  {
  }

  /** With no plain address in the text, a bracketed match decides. */
  lemma BracketedDecides(text: string)
    requires SearchFrom(Plain, text, 0).None? && SearchFrom(Bracketed, text, 0).Some?
    ensures EmailOf(text) ==
      Some(Normalize(text[SearchFrom(Bracketed, text, 0).value.0..SearchFrom(Bracketed, text, 0).value.1]))
  {
    var rest := Patterns[1..];
    assert Patterns[0] == Plain && rest[0] == Bracketed;
    EmailFromMiss(text, Patterns);
    EmailFromHit(text, rest);
  }

  /** With neither a plain nor a bracketed address in the text, a worded
      match decides. */
  lemma WordedDecides(text: string)
    requires SearchFrom(Plain, text, 0).None? && SearchFrom(Bracketed, text, 0).None?
    requires SearchFrom(Worded, text, 0).Some?
    ensures EmailOf(text) ==
      Some(Normalize(text[SearchFrom(Worded, text, 0).value.0..SearchFrom(Worded, text, 0).value.1]))
  {
    var rest := Patterns[1..];
    var last := rest[1..];
    assert Patterns[0] == Plain && rest[0] == Bracketed && last[0] == Worded;
    EmailFromMiss(text, Patterns);
    EmailFromMiss(text, rest);
    EmailFromHit(text, last);
  }

  /** With no plain address in the text, the leftmost bracketed match
      `text[i..e]`, which is `local [at] host [dot] tld`, becomes
      `local@host.tld`. */
  lemma BracketedAddress(text: string, i: nat, e: nat, a: nat, b: nat, c: nat, d: nat)
    requires SearchFrom(Plain, text, 0).None? && SearchFrom(Bracketed, text, 0) == Some((i, e))
    requires BracketedForm(text[i..e], 0, a, b, c, d, e - i)
    ensures EmailOf(text) == Some(text[i..e][..a] + "@" + text[i..e][b..c] + "." + text[i..e][d..])
    ensures EmailShape(EmailOf(text).value)
  {
    BracketedDecides(text);
    BracketedMatchNormal(text[i..e], a, b, c, d);
  }

  /** With neither a plain nor a bracketed address in the text, the
      leftmost worded match `text[i..e]`, which is
      `local at host dot tld`, becomes `local@host.tld`. */
  lemma WordedAddress(text: string, i: nat, e: nat, a: nat, b: nat, c: nat, d: nat)
    requires SearchFrom(Plain, text, 0).None? && SearchFrom(Bracketed, text, 0).None?
    requires SearchFrom(Worded, text, 0) == Some((i, e))
    requires WordedForm(text[i..e], 0, a, b, c, d, e - i)
    ensures EmailOf(text) == Some(text[i..e][..a] + "@" + text[i..e][b..c] + "." + text[i..e][d..])
    ensures EmailShape(EmailOf(text).value)
  {
    WordedDecides(text);
    WordedMatchNormal(text[i..e], a, b, c, d);
  }

  /** `local [at] host [dot] tld` found in the text is the same in the
      matched text. */
  lemma BracketedMoves(s: string, i: nat, e: nat,
                       a0: nat, p1: nat, q1: nat, t1: nat, b0: nat, c0: nat, p2: nat, q2: nat, t2: nat, d0: nat)
    returns (a: nat, b: nat, c: nat, d: nat)
    requires AddressChars(s, i, a0, b0, c0, d0, e)
    requires BracketSpan(s, a0, p1, q1, t1, b0, "at") && BracketSpan(s, c0, p2, q2, t2, d0, "dot")
    ensures BracketedForm(s[i..e], 0, a, b, c, d, e - i)
  {
    var m := s[i..e];
    SliceChars(s, i, e);
    BracketSpanMoves(s, m, i, a0, p1, q1, t1, b0, "at");
    BracketSpanMoves(s, m, i, c0, p2, q2, t2, d0, "dot");
    AddressCharsMove(s, i, a0, b0, c0, d0, e);
    a, b, c, d := a0 - i, b0 - i, c0 - i, d0 - i;
    assert BracketSpan(m, a, p1 - i, q1 - i, t1 - i, b, "at");
    assert BracketSpan(m, c, p2 - i, q2 - i, t2 - i, d, "dot");
  }

  /** `local at host dot tld` found in the text is the same in the
      matched text. */
  lemma WordedMoves(s: string, i: nat, e: nat, a0: nat, p1: nat, b0: nat, c0: nat, p2: nat, d0: nat)
    returns (a: nat, b: nat, c: nat, d: nat)
    requires AddressChars(s, i, a0, b0, c0, d0, e)
    requires WordSpan(s, a0, p1, b0, "at") && WordSpan(s, c0, p2, d0, "dot")
    ensures WordedForm(s[i..e], 0, a, b, c, d, e - i)
  {
    var m := s[i..e];
    SliceChars(s, i, e);
    WordSpanMoves(s, m, i, a0, p1, b0, "at");
    WordSpanMoves(s, m, i, c0, p2, d0, "dot");
    AddressCharsMove(s, i, a0, b0, c0, d0, e);
    a, b, c, d := a0 - i, b0 - i, c0 - i, d0 - i;
    assert WordSpan(m, a, p1 - i, b, "at");
    assert WordSpan(m, c, p2 - i, d, "dot");
  }

  /** The text a bracketed search finds is `local [at] host [dot] tld`. */
  lemma BracketedMatch(text: string, i: nat, e: nat) returns (a: nat, b: nat, c: nat, d: nat)
    requires i < e <= |text| && PatternAt(Bracketed, text, i) == Some(e)
    ensures BracketedForm(text[i..e], 0, a, b, c, d, e - i)
  {
    var a0, p1, q1, t1, b0, c0, p2, q2, t2, d0 := BracketedMatchForm(text, i, e);
    a, b, c, d := BracketedMoves(text, i, e, a0, p1, q1, t1, b0, c0, p2, q2, t2, d0);
  }

  /** The text a worded search finds is `local at host dot tld`. */
  lemma WordedMatch(text: string, i: nat, e: nat) returns (a: nat, b: nat, c: nat, d: nat)
    requires i < e <= |text| && PatternAt(Worded, text, i) == Some(e)
    ensures WordedForm(text[i..e], 0, a, b, c, d, e - i)
  {
    var a0, p1, b0, c0, p2, d0 := WordedMatchForm(text, i, e);
    a, b, c, d := WordedMoves(text, i, e, a0, p1, b0, c0, p2, d0);
  }

  /** Where a search succeeds, and what the pattern matches there. */
  lemma SearchHit(p: Pattern, text: string) returns (i: nat, e: nat)
    requires SearchFrom(p, text, 0).Some?
    ensures SearchFrom(p, text, 0) == Some((i, e)) && i < e <= |text| && PatternAt(p, text, i) == Some(e)
  {
    i, e := SearchFrom(p, text, 0).value.0, SearchFrom(p, text, 0).value.1;
  }

  /** Whenever the bracketed pattern decides, the result is an address
      `local@host.tld`. */
  lemma BracketedAddressShape(text: string)
    requires SearchFrom(Plain, text, 0).None? && SearchFrom(Bracketed, text, 0).Some?
    ensures EmailOf(text).Some? && EmailShape(EmailOf(text).value)
  {
    var i, e := SearchHit(Bracketed, text);
    var a, b, c, d := BracketedMatch(text, i, e);
    BracketedAddress(text, i, e, a, b, c, d);
  }

  /** Whenever the worded pattern decides, the result is an address
      `local@host.tld`. */
  lemma WordedAddressShape(text: string)
    requires SearchFrom(Plain, text, 0).None? && SearchFrom(Bracketed, text, 0).None?
    requires SearchFrom(Worded, text, 0).Some?
    ensures EmailOf(text).Some? && EmailShape(EmailOf(text).value)
  {
    var i, e := SearchHit(Worded, text);
    var a, b, c, d := WordedMatch(text, i, e);
    WordedAddress(text, i, e, a, b, c, d);
  }
}
