/** The phone extractor (`ATSParser._extract_phone`): the leftmost match of
    `\+?\d[\d\s\-\(\)]{8,20}\d`, or None.

    Tried at one position, the optional `+` is taken when present (without
    it the following `\d` would have to match the `+`), the bounded run is
    greedy and gives characters back, from 20 down to 8, until a digit
    follows it. */
module Phone {
  import opened Types
  import opened Text

  /** `[\d\s\-\(\)]` */
  predicate IsPhoneChar(c: char) {
    IsDigit(c) || IsSpace(c) || c == '-' || c == '(' || c == ')'
  }

  /** The whole of `p` matches the pattern: an optional `+`, a digit, 8 to 20
      digits, spaces, hyphens or parentheses, and a closing digit. */
  predicate PhoneShape(p: string)
    ensures PhoneShape(p) ==> 10 <= |p| <= 23 && IsDigit(p[|p| - 1])
  {
    var j := if |p| > 0 && p[0] == '+' then 1 else 0;
    j + 10 <= |p| <= j + 22 && IsDigit(p[j]) && IsDigit(p[|p| - 1]) &&
    forall k :: j < k < |p| - 1 ==> IsPhoneChar(p[k])
  }

  /** `{8,20}\d` after the leading digit: the run `s[b..b+m]` followed by a
      digit, for the largest such `m` not above the given one and not below 8. */
  function Closing(s: string, b: nat, m: nat): (r: Option<nat>)
    requires b + m <= |s|
    ensures r.Some? ==> b + 9 <= r.value <= b + m + 1 && r.value <= |s| && IsDigit(s[r.value - 1])
    decreases m
  {
    if m < 8 then None
    else if b + m < |s| && IsDigit(s[b + m]) then Some(b + m + 1)
    else Closing(s, b, m - 1)
  }

  /** Closing finds every digit that ends a long enough run, or a later one. */
  lemma {:induction false} ClosingFindsDigit(s: string, b: nat, m: nat, n: nat)
    requires b + m <= |s| && 8 <= n <= m && b + n < |s| && IsDigit(s[b + n])
    ensures Closing(s, b, m).Some? && b + n + 1 <= Closing(s, b, m).value
    decreases m
  {
    if !(b + m < |s| && IsDigit(s[b + m])) {
      ClosingFindsDigit(s, b, m - 1, n);
    }
  }

  /** `s[i..e]` is of phone shape, stated on the indices of `s`. */
  predicate ShapeAt(s: string, i: nat, e: nat) {
    i < e <= |s| &&
    var j := if s[i] == '+' then i + 1 else i;
    j + 10 <= e <= j + 22 && IsDigit(s[j]) && IsDigit(s[e - 1]) &&
    forall k :: j < k < e - 1 ==> IsPhoneChar(s[k])
  }

  lemma ShapeSlice(s: string, i: nat, e: nat)
    requires i < e <= |s|
    ensures ShapeAt(s, i, e) <==> PhoneShape(s[i..e])
  {
    var p := s[i..e];
    assert forall k :: 0 <= k < |p| ==> p[k] == s[i + k];
    var j := if s[i] == '+' then 1 else 0;
    if PhoneShape(p) {
      forall k | i + j < k < e - 1 ensures IsPhoneChar(s[k]) {
        assert s[k] == p[k - i];
      }
    }
  }

  /** The pattern tried at position `i`: the end of the match, which is the
      longest prefix of `s[i..]` of phone shape. */
  function PhoneAt(s: string, i: nat): (r: Option<nat>)
    requires i <= |s|
    ensures r.Some? ==> ShapeAt(s, i, r.value)
    ensures forall e: nat :: ShapeAt(s, i, e) ==> r.Some? && e <= r.value
  {
    var j := if i < |s| && s[i] == '+' then i + 1 else i;
    if j < |s| && IsDigit(s[j]) then
      var run := RunEnd(s, j + 1, IsPhoneChar);
      var r := Closing(s, j + 1, Min(20, run - (j + 1)));
      PhoneAtComplete(s, i, j, run);
      r
    else
      None
  }

  lemma PhoneAtComplete(s: string, i: nat, j: nat, run: nat)
    requires i <= j < |s| && j == (if s[i] == '+' then i + 1 else i) && IsDigit(s[j])
    requires run == RunEnd(s, j + 1, IsPhoneChar)
    ensures forall e: nat :: ShapeAt(s, i, e) ==>
      var r := Closing(s, j + 1, Min(20, run - (j + 1)));
      r.Some? && e <= r.value
  {
    var top := Min(20, run - (j + 1));
    forall e: nat | ShapeAt(s, i, e) ensures Closing(s, j + 1, top).Some? && e <= Closing(s, j + 1, top).value {
      RunCovers(s, j + 1, e);
      ClosingFindsDigit(s, j + 1, top, e - j - 2);
    }
  }

  /** A run of class characters reaching to `e` makes the greedy run at
      least that long. */
  lemma {:induction false} RunCovers(s: string, b: nat, e: nat)
    requires b <= e <= |s|
    requires forall k :: b <= k < e ==> IsPhoneChar(s[k])
    ensures e <= RunEnd(s, b, IsPhoneChar)
    decreases e - b
  {
    if b < e {
      RunCovers(s, b + 1, e);
    }
  }

  /** The outcome of trying the pattern at each position of `s`, the end
      of the text included. */
  function Attempts(s: string): (r: seq<Option<nat>>)
    ensures |r| == |s| + 1
    ensures forall k :: 0 <= k <= |s| ==> r[k] == PhoneAt(s, k)
  {
    seq(|s| + 1, k requires 0 <= k <= |s| => PhoneAt(s, k))
  }

  /** `re.search`: the leftmost position at which the pattern matches. */
  function FindPhone(s: string, i: nat): (r: Option<(nat, nat)>)
    requires i <= |s|
    ensures r.Some? ==> i <= r.value.0 < r.value.1 <= |s| && PhoneAt(s, r.value.0) == Some(r.value.1)
  {
    FirstHit(Attempts(s), i)
  }

  /** The search is leftmost: the pattern matches at no earlier position,
      and at no position at all when the search finds nothing. */
  lemma FindPhoneLeftmost(s: string, i: nat)
    requires i <= |s|
    ensures forall k :: i <= k < (if FindPhone(s, i).Some? then FindPhone(s, i).value.0 else |s| + 1) ==>
      PhoneAt(s, k).None?
  {
    FirstHitLeftmost(Attempts(s), i);
  }

  /** `_extract_phone`: the matched text, unchanged. */
  function PhoneOf(text: string): (r: Option<string>)
    ensures r.Some? ==> PhoneShape(r.value)
    ensures r.None? <==> forall b, e :: 0 <= b < e <= |text| ==> !PhoneShape(text[b..e])
  {
    match FindPhone(text, 0)
    case Some(be) =>
      ShapeSlice(text, be.0, be.1);
      Some(text[be.0..be.1])
    case None =>
      NoShapeAnywhere(text);
      None
  }

  lemma NoShapeAnywhere(text: string)
    requires FindPhone(text, 0).None?
    ensures forall b, e :: 0 <= b < e <= |text| ==> !PhoneShape(text[b..e])
  {
    FindPhoneLeftmost(text, 0);
    forall b, e | 0 <= b < e <= |text| ensures !PhoneShape(text[b..e]) {
      ShapeSlice(text, b, e);
      assert PhoneAt(text, b).None?;
    }
  }

  /** The result is the leftmost of all substrings of phone shape, and the
      longest of those starting there. */
  lemma PhoneLeftmostLongest(text: string, b: nat, e: nat)
    requires FindPhone(text, 0) == Some((b, e))
    ensures PhoneOf(text) == Some(text[b..e])
    ensures forall b', e' :: 0 <= b' < b && b' < e' <= |text| ==> !PhoneShape(text[b'..e'])
    ensures forall e' :: b < e' <= |text| && PhoneShape(text[b..e']) ==> e' <= e
  {
    FindPhoneLeftmost(text, 0);
    forall b', e' | 0 <= b' < b && b' < e' <= |text| ensures !PhoneShape(text[b'..e']) {
      ShapeSlice(text, b', e');
      assert PhoneAt(text, b').None?;
    }
    forall e' | b < e' <= |text| && PhoneShape(text[b..e']) ensures e' <= e {
      ShapeSlice(text, b, e');
    }
  }
}
