/** The skills resolver (`ATSParser._extract_skills`): the generative
    service is asked for a JSON array of skill strings. Without an API key
    the resolver raises; otherwise every failure — the call raising, an
    answer that does not parse, a parsed value that is not a list — gives the
    empty set. The members are the string elements of the list, stripped;
    other elements are dropped. Duplicates are removed by exact equality and
    an element that strips to the empty string is kept. */
module Skills {
  import opened Types
  import opened Text

  /** `[s.strip() for s in skills if isinstance(s, str)]` */
  function StrippedStrings(items: seq<Json>): (r: seq<string>)
    ensures forall x :: x in r <==> exists k :: 0 <= k < |items| && items[k].JString? && Strip(items[k].s) == x
  {
    if items == [] then []
    else
      var rest := StrippedStrings(items[1..]);
      assert forall k :: 1 <= k < |items| ==> items[k] == items[1..][k - 1];
      (if items[0].JString? then [Strip(items[0].s)] else []) + rest
  }

  /** The members of a Python set built from `xs`, in the order of their first
      occurrence (the order the model chooses for iterating the set). */
  function Dedup(xs: seq<string>): (r: seq<string>)
    ensures forall x :: x in r <==> x in xs
    ensures forall i, j :: 0 <= i < j < |r| ==> r[i] != r[j]
  {
    if xs == [] then []
    else
      var rest := Dedup(xs[..|xs| - 1]);
      assert xs == xs[..|xs| - 1] + [xs[|xs| - 1]];
      if xs[|xs| - 1] in rest then rest else rest + [xs[|xs| - 1]]
  }

  /** What the parse of the answer yields: the direct `json.loads`, else
      the loads of the span from the first `[` to the last `]`, else an
      empty list when there is no such span. None is the exception of the
      second loads. */
  function ParseAnswer(response: string, decode: string -> Option<Json>): (r: Option<Json>)
    ensures decode(response).Some? ==> r == decode(response)
    ensures r.Some? ==>
      (r == Some(JArray([])) || exists a, b :: 0 <= a <= b <= |response| && decode(response[a..b]) == r)
  {
    assert response[0..|response|] == response;
    match decode(response)
    case Some(j) => Some(j)
    case None =>
      match Enclosed(response, '[', ']', 0)
      case None => Some(JArray([]))
      case Some(ab) => decode(response[ab.0..ab.1])
  }

  /** The list the answer holds, if the parse gives one. */
  function AnswerItems(svc: Services): Option<seq<Json>> {
    match svc.complete(SkillsTask)
    case None => None
    case Some(response) =>
      match ParseAnswer(response, svc.decode)
      case Some(JArray(items)) => Some(items)
      case _ => None
  }

  /** `_extract_skills`, its set given as a duplicate-free sequence. */
  function SkillsOf(svc: Services): (r: Result<seq<string>>)
    ensures r.Err? <==> !svc.keySet
    ensures r.Err? ==> r.error == MissingApiKey
    ensures r.Ok? ==> forall i, j :: 0 <= i < j < |r.value| ==> r.value[i] != r.value[j]
    ensures r.Ok? && AnswerItems(svc).None? ==> r.value == []
    ensures r.Ok? && AnswerItems(svc).Some? ==>
      forall x :: x in r.value <==>
        exists k :: 0 <= k < |AnswerItems(svc).value| && AnswerItems(svc).value[k].JString? && Strip(AnswerItems(svc).value[k].s) == x
  {
    if !svc.keySet then Err(MissingApiKey)
    else
      match AnswerItems(svc)
      case None => Ok([])
      case Some(items) => Ok(Dedup(StrippedStrings(items)))
  }

  /** `", ".join(skills) if skills else None` */
  function JoinSkills(skills: seq<string>): (r: Option<string>)
    ensures r.None? <==> skills == []
  {
    if skills == [] then None else Some(Join(", ", skills))
  }
}
