/** The experience resolver (`ATSParser._extract_experience`).

    With an API key configured, the generative answer is taken, stripped,
    when it has more than 10 words; a call that raises, an empty answer or a
    short one falls through. The rule-based path then searches, ignoring
    case and in this order, for "work experience", "professional experience"
    and "experience"; the first keyword found is captured with up to 2000
    following characters (`(<keyword>[\s\S]{0,2000})`). The capture is cut
    where `\n\s*(education|skills|projects|certifications|summary|contact)\s*[\n:]`
    first matches and stripped. */
module Experience {
  import opened Types
  import opened Text

  /** The number of characters captured after the keyword. */
  const Window: nat := 2000

  const Keywords: seq<string> := ["work experience", "professional experience", "experience"]

  /** The section headers that end an excerpt. */
  const Headers: seq<string> := ["education", "skills", "projects", "certifications", "summary", "contact"]

  /** Leftmost case-insensitive occurrence of `lit` at or after `i`. */
  function FindLit(s: string, lit: string, i: nat): (r: Option<nat>)
    requires i <= |s|
    ensures r.Some? ==> i <= r.value && MatchesAt(s, r.value, lit)
    ensures r.Some? ==> forall k :: i <= k < r.value ==> !MatchesAt(s, k, lit)
    ensures r.None? ==> forall k :: i <= k <= |s| ==> !MatchesAt(s, k, lit)
    decreases |s| - i
  {
    if MatchesAt(s, i, lit) then Some(i)
    else if i == |s| then None
    else FindLit(s, lit, i + 1)
  }

  /** The first keyword, in the order of `Keywords` from index `ki` on, that
      occurs in the text, with the position of its leftmost occurrence. */
  function KeywordMatch(text: string, ki: nat): (r: Option<(nat, nat)>)
    requires ki <= |Keywords|
    ensures r.Some? ==> ki <= r.value.0 < |Keywords| && FindLit(text, Keywords[r.value.0], 0) == Some(r.value.1)
    ensures r.Some? ==> forall j :: ki <= j < r.value.0 ==> FindLit(text, Keywords[j], 0).None?
    ensures r.None? <==> forall j :: ki <= j < |Keywords| ==> FindLit(text, Keywords[j], 0).None?
    decreases |Keywords| - ki
  {
    if ki == |Keywords| then None
    else
      match FindLit(text, Keywords[ki], 0)
      case Some(b) => Some((ki, b))
      case None => KeywordMatch(text, ki + 1)
  }

  /** `(<keyword>[\s\S]{0,2000})` matched at `b`: the keyword and up to
      `Window` following characters. */
  function Capture(text: string, b: nat, kw: string): (cap: string)
    requires MatchesAt(text, b, kw)
    ensures |kw| <= |cap| <= |kw| + Window && b + |cap| <= |text|
    ensures cap == text[b..b + |cap|]
  {
    text[b..Min(b + |kw| + Window, |text|)]
  }

  /** End of the whitespace run at `i`: `RunEnd(s, i, IsSpace)` (see
      `SpaceEndIsRun`), stated without the run's properties so that the
      stop pattern stays cheap to reason about. */
  function SpaceEnd(s: string, i: nat): (e: nat)
    requires i <= |s|
    ensures i <= e <= |s|
    decreases |s| - i
  {
    if i < |s| && IsSpace(s[i]) then SpaceEnd(s, i + 1) else i
  }

  lemma {:induction false} SpaceEndIsRun(s: string, i: nat)
    requires i <= |s|
    ensures SpaceEnd(s, i) == RunEnd(s, i, IsSpace)
    decreases |s| - i
  {
    if i < |s| && IsSpace(s[i]) {
      SpaceEndIsRun(s, i + 1);
    }
  }

  /** Extending a string to the right does not shorten a whitespace run,
      and leaves it unchanged when it ended inside the shorter string. */
  lemma {:induction false} SpaceEndExtend(r: string, s: string, i: nat)
    requires |r| <= |s| && r == s[..|r|] && i <= |r|
    ensures SpaceEnd(r, i) <= SpaceEnd(s, i)
    ensures SpaceEnd(r, i) < |r| ==> SpaceEnd(r, i) == SpaceEnd(s, i)
    decreases |r| - i
  {
    if i < |r| {
      assert s[i] == r[i];
      if IsSpace(r[i]) {
        SpaceEndExtend(r, s, i + 1);
      }
    }
  }

  /** `\s*[\n:]` at `q`: the greedy whitespace run holds a line feed, or is
      followed by a colon. */
  predicate TailAt(s: string, q: nat)
    requires q <= |s|
  {
    var w := SpaceEnd(s, q);
    (exists t :: q <= t < w && s[t] == '\n') || (w < |s| && s[w] == ':')
  }

  /** One of the headers from index `h` on, then `\s*[\n:]`, at `p`. */
  predicate HeaderFrom(s: string, p: nat, h: nat)
    decreases |Headers| - h
  {
    h < |Headers| &&
    ((MatchesAt(s, p, Headers[h]) && TailAt(s, p + |Headers[h]|)) || HeaderFrom(s, p, h + 1))
  }

  /** The stop pattern matches at `k`: a line feed, whitespace, one of the
      headers (ignoring case), then `\s*[\n:]`. */
  predicate StopAt(s: string, k: nat) {
    k < |s| && s[k] == '\n' && HeaderFrom(s, SpaceEnd(s, k + 1), 0)
  }

  /** The leftmost position at or after `k` where the stop pattern matches
      (see `FindStopFinds` and `FindStopLeftmost`). */
  function FindStop(s: string, k: nat): (r: Option<nat>)
    requires k <= |s|
    ensures r.Some? ==> k <= r.value < |s|
    decreases |s| - k
  {
    if k == |s| then None
    else if StopAt(s, k) then Some(k)
    else FindStop(s, k + 1)
  }

  /** What the search finds is a stop match. */
  lemma {:induction false} FindStopFinds(s: string, k: nat)
    requires k <= |s|
    ensures FindStop(s, k).Some? ==> StopAt(s, FindStop(s, k).value)
    decreases |s| - k
  {
    if k < |s| && !StopAt(s, k) {
      FindStopFinds(s, k + 1);
    }
  }

  /** No stop match lies before what the search finds, nor anywhere when it
      finds nothing. */
  lemma {:induction false} FindStopLeftmost(s: string, k: nat)
    requires k <= |s|
    ensures forall j :: k <= j < (if FindStop(s, k).Some? then FindStop(s, k).value else |s|) ==> !StopAt(s, j)
    decreases |s| - k
  {
    if k < |s| && !StopAt(s, k) {
      FindStopLeftmost(s, k + 1);
    }
  }

  /** The capture cut before its first stop match, then stripped. */
  function Truncate(cap: string): (r: string)
    ensures |r| <= |cap| && NoEdgeSpace(r)
  {
    match FindStop(cap, 0)
    case Some(k) => Strip(cap[..k])
    case None => Strip(cap)
  }

  /** The rule-based path. */
  function RuleExperience(text: string): (r: Option<string>)
    ensures r.Some? ==> NoEdgeSpace(r.value)
  {
    match KeywordMatch(text, 0)
    case None => None
    case Some(m) => Some(Truncate(Capture(text, m.1, Keywords[m.0])))
  }

  /** The generative answer, stripped, taken exactly when an API key is
      set, the call answered, the answer is not empty and it has more than
      10 words. */
  function AiExperience(svc: Services): (r: Option<string>)
    ensures r.Some? ==> svc.keySet && NoEdgeSpace(r.value) && |Words(r.value)| > 10
    ensures r.Some? ==> svc.complete(ExperienceTask).Some? && svc.complete(ExperienceTask).value != "" &&
                        r.value == Strip(svc.complete(ExperienceTask).value)
    ensures (svc.keySet && svc.complete(ExperienceTask).Some? && svc.complete(ExperienceTask).value != "" &&
             |Words(Strip(svc.complete(ExperienceTask).value))| > 10) ==> r.Some?
  {
    if !svc.keySet then None
    else
      match svc.complete(ExperienceTask)
      case None => None
      case Some(response) =>
        if response != "" && |Words(Strip(response))| > 10 then Some(Strip(response)) else None
  }

  /** `_extract_experience` as a value. */
  function ExperienceOf(svc: Services, text: string): Option<string> {
    if AiExperience(svc).Some? then AiExperience(svc) else RuleExperience(text)
  }

  /** `_extract_experience`: the generative step, then the loop over the
      keyword patterns. */
  method ExtractExperience(svc: Services, text: string) returns (r: Option<string>)
    ensures r == ExperienceOf(svc, text)
  {
    var answer: Option<string> := None;
    if svc.keySet {
      var response := svc.complete(ExperienceTask);
      if response.Some? && response.value != "" {
        if |Words(Strip(response.value))| > 10 {
          answer := Some(Strip(response.value));
        }
      }
    }
    assert answer == AiExperience(svc);
    if answer.Some? {
      return answer;
    }
    var i := 0;
    while i < |Keywords|
      invariant 0 <= i <= |Keywords|
      invariant KeywordMatch(text, i) == KeywordMatch(text, 0)
    {
      var found := FindLit(text, Keywords[i], 0);
      if found.Some? {
        var cap := Capture(text, found.value, Keywords[i]);
        var stop := FindStop(cap, 0);
        if stop.Some? {
          return Some(Strip(cap[..stop.value]));
        } else {
          return Some(Strip(cap));
        }
      }
      i := i + 1;
    }
    return None;
  }

  // ---------------------------------------------------------------------
  // Properties of the rule-based excerpt.

  /** A tail match in a prefix is a tail match in the whole string. */
  lemma TailExtend(r: string, s: string, q: nat)
    requires |r| <= |s| && r == s[..|r|] && q <= |r|
    ensures TailAt(r, q) ==> TailAt(s, q)
  {
    SpaceEndExtend(r, s, q);
    var w := SpaceEnd(r, q);
    if t :| q <= t < w && r[t] == '\n' {
      assert s[t] == r[t];
    } else if w < |r| {
      assert s[w] == r[w];
    }
  }

  /** A header matched in a prefix is matched in the whole string. */
  lemma MatchesExtend(r: string, s: string, p: nat, lit: string)
    requires |r| <= |s| && r == s[..|r|] && MatchesAt(r, p, lit)
    ensures MatchesAt(s, p, lit)
  {
    forall j | 0 <= j < |lit| ensures Lower(s[p + j]) == lit[j] {
      assert s[p + j] == r[p + j];
    }
  }

  /** A literal matched at `p` is matched at the start of a slice taken at
      `p` that is long enough to hold it. */
  lemma MatchesSlice(s: string, p: nat, t: string, lit: string)
    requires p + |t| <= |s| && t == s[p..p + |t|] && |lit| <= |t| && MatchesAt(s, p, lit)
    ensures MatchesAt(t, 0, lit)
  {
    forall j | 0 <= j < |lit| ensures Lower(t[0 + j]) == lit[j] {
      assert t[j] == s[p + j];
    }
  }

  /** A header match in a prefix, ending before the prefix does, is one in
      the whole string. */
  lemma {:induction false} HeaderExtend(r: string, s: string, p: nat, h: nat)
    requires |r| <= |s| && r == s[..|r|]
    ensures HeaderFrom(r, p, h) ==> HeaderFrom(s, p, h) && p < |r|
    decreases |Headers| - h
  {
    if HeaderFrom(r, p, h) {
      if MatchesAt(r, p, Headers[h]) && TailAt(r, p + |Headers[h]|) {
        assert |Headers[h]| > 0;
        MatchesExtend(r, s, p, Headers[h]);
        TailExtend(r, s, p + |Headers[h]|);
      } else {
        HeaderExtend(r, s, p, h + 1);
      }
    }
  }

  /** A stop match in a prefix is a stop match in the whole string: the
      prefix can only cut whitespace runs shorter. */
  lemma StopExtend(r: string, s: string, k: nat)
    requires |r| <= |s| && r == s[..|r|]
    ensures StopAt(r, k) ==> StopAt(s, k)
  {
    if k < |r| {
      var p := SpaceEnd(r, k + 1);
      var q := SpaceEnd(s, k + 1);
      assert s[k] == r[k];
      HeaderExtend(r, s, p, 0);
      SpaceEndExtend(r, s, k + 1);
      if HeaderFrom(r, p, 0) {
        assert q == p;
        assert HeaderFrom(s, q, 0);
      }
    }
  }

  /** The keywords are written in lower-case letters and blanks, beginning
      and ending with a letter. */
  lemma KeywordLetters(ki: nat)
    requires ki < |Keywords|
    ensures var kw := Keywords[ki]; |kw| > 0 && IsAlpha(kw[0]) && IsAlpha(kw[|kw| - 1])
    ensures forall j :: 0 <= j < |Keywords[ki]| ==> Keywords[ki][j] == ' ' || ('a' <= Keywords[ki][j] <= 'z')
  {
  }

  /** A character that folds to a letter is a letter; one that folds to a
      blank is a blank. */
  lemma FoldedChar(c: char, x: char)
    requires Lower(c) == x && (x == ' ' || 'a' <= x <= 'z')
    ensures x == ' ' ==> c == ' '
    ensures x != ' ' ==> IsAlpha(c)
  {
  }

  /** Literals written like the keywords: lower-case letters and blanks,
      beginning and ending with a letter. */
  predicate KeywordForm(kw: string) {
    |kw| > 0 && IsAlpha(kw[0]) && IsAlpha(kw[|kw| - 1]) &&
    forall j :: 0 <= j < |kw| ==> kw[j] == ' ' || ('a' <= kw[j] <= 'z')
  }

  /** Text matching such a literal holds no line feed and has letters at
      both ends. */
  lemma MatchedChars(cap: string, kw: string)
    requires KeywordForm(kw) && MatchesAt(cap, 0, kw)
    ensures !IsSpace(cap[0]) && !IsSpace(cap[|kw| - 1])
    ensures forall j :: 0 <= j < |kw| ==> cap[j] != '\n'
  {
    forall j | 0 <= j < |kw| ensures cap[j] != '\n' && (kw[j] != ' ' ==> !IsSpace(cap[j])) {
      FoldedChar(cap[0 + j], kw[j]);
    }
  }

  /** Where a capture is cut: at its first stop match, or at its end when
      there is none. */
  function Cut(cap: string): (c: nat)
    ensures c <= |cap|
  {
    match FindStop(cap, 0)
    case Some(k) => k
    case None => |cap|
  }

  /** Cutting and stripping a capture that starts with a keyword gives a
      prefix of the capture, still holding the keyword, with no whitespace
      at either end and no stop match. It ends at or before the cut, and
      only whitespace lies between its end and the cut. */
  lemma TruncateShape(cap: string, kw: string)
    requires KeywordForm(kw) && MatchesAt(cap, 0, kw)
    ensures var r := Truncate(cap);
      |kw| <= |r| <= |cap| && r == cap[..|r|] && NoEdgeSpace(r) &&
      forall k :: 0 <= k < |r| ==> !StopAt(r, k)
    ensures var r := Truncate(cap);
      |r| <= Cut(cap) && forall k :: |r| <= k < Cut(cap) ==> IsSpace(cap[k])
  {
    MatchedChars(cap, kw);
    FindStopFinds(cap, 0);
    FindStopLeftmost(cap, 0);
    var u := match FindStop(cap, 0) case Some(k) => cap[..k] case None => cap;
    assert |kw| <= |u| && u == cap[..|u|];
    StripKeepsPrefix(u, |kw|);
    var r := Strip(u);
    assert r == Truncate(cap);
    assert r == cap[..|r|];
    forall k | 0 <= k < |r| ensures !StopAt(r, k) {
      StopExtend(r, cap, k);
    }
    assert |u| == Cut(cap);
    assert forall k :: |r| <= k < |u| ==> cap[k] == u[k];
  }

  /** The keyword found decides the excerpt. */
  lemma RuleIsTruncate(text: string, ki: nat, b: nat)
    requires KeywordMatch(text, 0) == Some((ki, b))
    ensures ki < |Keywords| && MatchesAt(text, b, Keywords[ki])
    ensures RuleExperience(text) == Some(Truncate(Capture(text, b, Keywords[ki])))
  {
  }

  /** The excerpt of a capture taken at a keyword match. */
  lemma CaptureShape(text: string, b: nat, kw: string)
    requires KeywordForm(kw) && MatchesAt(text, b, kw)
    ensures var r := Truncate(Capture(text, b, kw));
      MatchesAt(r, 0, kw) && |kw| <= |r| && b + |r| <= |text| && r == text[b..b + |r|] &&
      |r| <= |kw| + Window && NoEdgeSpace(r) &&
      forall k :: 0 <= k < |r| ==> !StopAt(r, k)
    ensures var cap := Capture(text, b, kw); var r := Truncate(cap);
      |r| <= Cut(cap) && forall k :: |r| <= k < Cut(cap) ==> IsSpace(cap[k])
  {
    var cap := Capture(text, b, kw);
    MatchesSlice(text, b, cap, kw);
    TruncateShape(cap, kw);
    var r := Truncate(cap);
    MatchesSlice(cap, 0, r, kw);
    PrefixOfSlice(text, b, cap, r, |r|);
  }

  /** A prefix of a prefix of `text[b..]` is a slice of `text`. */
  lemma PrefixOfSlice(text: string, b: nat, cap: string, r: string, n: nat)
    requires b + |cap| <= |text| && cap == text[b..b + |cap|]
    requires n <= |r| <= |cap| && r == cap[..|r|]
    ensures r[..n] == text[b..b + n]
  {
    assert forall j :: 0 <= j < n ==> r[j] == text[b + j];
  }

  /** The excerpt is the slice of the text that begins with the keyword
      that was found (ignoring case); it is at most the keyword plus 2000
      characters long, has no whitespace at either end, and contains no
      match of the stop pattern. It ends at or before the first stop match
      of the capture, and only whitespace lies between its end and there. */
  lemma RuleExcerptShape(text: string, ki: nat, b: nat)
    requires KeywordMatch(text, 0) == Some((ki, b))
    ensures RuleExperience(text).Some?
    ensures var kw := Keywords[ki]; var r := RuleExperience(text).value;
      MatchesAt(r, 0, kw) && |kw| <= |r| && b + |r| <= |text| && r == text[b..b + |r|] &&
      |r| <= |kw| + Window && NoEdgeSpace(r) &&
      forall k :: 0 <= k < |r| ==> !StopAt(r, k)
    ensures var cap := Capture(text, b, Keywords[ki]); var r := RuleExperience(text).value;
      |r| <= Cut(cap) && forall k :: |r| <= k < Cut(cap) ==> IsSpace(cap[k])
  {
    RuleIsTruncate(text, ki, b);
    KeywordLetters(ki);
    CaptureShape(text, b, Keywords[ki]);
  }

  /** "experience" ends both longer keywords. */
  lemma ExperienceInside(text: string, ki: nat, b: nat)
    requires ki < |Keywords| && MatchesAt(text, b, Keywords[ki])
    ensures MatchesAt(text, b + |Keywords[ki]| - 10, "experience")
  {
    var kw := Keywords[ki];
    var off := |kw| - 10;
    assert kw[off..] == "experience";
    forall j | 0 <= j < 10 ensures Lower(text[b + off + j]) == "experience"[j] {
      assert Lower(text[b + (off + j)]) == kw[off + j];
    }
  }

  /** The rule-based path finds nothing exactly when "experience" occurs
      nowhere in the text, ignoring case. */
  lemma RuleNoneIff(text: string)
    ensures RuleExperience(text).None? <==> forall k :: 0 <= k <= |text| ==> !MatchesAt(text, k, "experience")
  {
    if KeywordMatch(text, 0).Some? {
      var m := KeywordMatch(text, 0).value;
      ExperienceInside(text, m.0, m.1);
    } else {
      assert FindLit(text, Keywords[2], 0).None?;
    }
  }

  /** Whichever path produced it, an excerpt has no whitespace at either end. */
  lemma ExperienceTrimmed(svc: Services, text: string)
    requires ExperienceOf(svc, text).Some?
    ensures NoEdgeSpace(ExperienceOf(svc, text).value)
  {
    if AiExperience(svc).None? {
      var m := KeywordMatch(text, 0).value;
      RuleExcerptShape(text, m.0, m.1);
    }
  }
}
