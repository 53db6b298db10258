/** The full generative re-parse (`ATSParser.process_resume_ai`) and its
    answer salvage (`ATSParser.clean_and_parse_json`). */
module AiParse {
  import opened Types
  import opened Text

  /** `clean_and_parse_json`: the answer decoded as it is; failing that, the
      span `{[\s\S]+}` decoded, which runs from the first `{` to the last `}`
      with at least one character between them; failing that, the empty
      object. */
  function CleanAndParse(response: string, decode: string -> Option<Json>): (r: Json)
    ensures decode(response).Some? ==> r == decode(response).value
    ensures r == JObject(map[]) ||
      exists a, b :: 0 <= a <= b <= |response| && decode(response[a..b]) == Some(r)
  {
    assert response[0..|response|] == response;
    match decode(response)
    case Some(j) => j
    case None =>
      match Enclosed(response, '{', '}', 1)
      case None => JObject(map[])
      case Some(ab) =>
        match decode(response[ab.0..ab.1])
        case Some(j) => j
        case None => JObject(map[])
  }

  /** The salvage recovers an object wrapped in prose or a code fence: when
      the answer does not decode as a whole but is `before + body + after`,
      with no `{` before the body, no `}` after it, and a body of the form
      `{...}` that decodes, the result is the body's value. */
  lemma SalvageWrapped(before: string, body: string, after: string, decode: string -> Option<Json>)
    requires decode(before + body + after).None?
    requires |body| >= 3 && body[0] == '{' && body[|body| - 1] == '}'
    requires forall k :: 0 <= k < |before| ==> before[k] != '{'
    requires forall k :: 0 <= k < |after| ==> after[k] != '}'
    requires decode(body).Some?
    ensures CleanAndParse(before + body + after, decode) == decode(body).value
  {
    var s := before + body + after;
    var a := |before|;
    var c := |before| + |body| - 1;
    assert s[a] == '{' && s[c] == '}';
    assert Enclosed(s, '{', '}', 1).Some?;
    var ab := Enclosed(s, '{', '}', 1).value;
    assert forall k :: 0 <= k < a ==> s[k] == before[k];
    assert forall k :: c < k < |s| ==> s[k] == after[k - c - 1];
    assert ab.0 == a && ab.1 == c + 1;
    assert s[ab.0..ab.1] == body;
  }

  /** An answer that does not decode and holds no `{...}` span yields the
      empty object, whatever else it says. */
  lemma SalvageNothing(response: string, decode: string -> Option<Json>)
    requires decode(response).None?
    requires forall i, j :: 0 <= i && i + 1 < j < |response| && response[i] == '{' ==> response[j] != '}'
    ensures CleanAndParse(response, decode) == JObject(map[])
  {
  }

  /** `process_resume_ai`: without an API key, the `ValueError`; a call
      that raises, or a salvaged value that is falsy, is the `RuntimeError`;
      otherwise the salvaged value, which need not be an object. */
  function ProcessResumeAi(svc: Services): (r: Result<Json>)
    ensures !svc.keySet ==> r == Err(MissingApiKey)
    ensures svc.keySet && r.Err? ==> r.error == AiProcessingFailed
    ensures r.Ok? ==> svc.keySet && Truthy(r.value)
    ensures r.Ok? <==> svc.keySet && svc.complete(RecordTask).Some? && Truthy(CleanAndParse(svc.complete(RecordTask).value, svc.decode))
  {
    if !svc.keySet then Err(MissingApiKey)
    else
      match svc.complete(RecordTask)
      case None => Err(AiProcessingFailed)
      case Some(response) =>
        var j := CleanAndParse(response, svc.decode);
        if Truthy(j) then Ok(j) else Err(AiProcessingFailed)
  }

  /** An answer from which nothing can be salvaged makes the re-parse fail. */
  lemma UnparsableAnswerFails(svc: Services, response: string)
    requires svc.keySet && svc.complete(RecordTask) == Some(response)
    requires svc.decode(response).None?
    requires forall i, j :: 0 <= i && i + 1 < j < |response| && response[i] == '{' ==> response[j] != '}'
    ensures ProcessResumeAi(svc) == Err(AiProcessingFailed)
  {
    SalvageNothing(response, svc.decode);
  }
}
