/** Shared value types of the resume parser: optional values, results with the
    parser's failure kinds, the JSON values the JSON decoder produces, and the
    collaborators (generative completion, named-entity recognition, JSON
    decoding) that the parser consults but does not implement. */
module Types {

  /** An optional value (Python's `None` or a value). */
  datatype Option<T> = None | Some(value: T) {
    predicate IsFailure() { None? }

    function PropagateFailure<U>(): Option<U>
      requires None?
    {
      None
    }

    function Extract(): T
      requires Some?
    {
      value
    }
  }

  /** The first present value of `xs` at or after `i`: a chain of
      fall-backs where the first one that yields a value decides. */
  function FirstSome<T>(xs: seq<Option<T>>, i: nat): Option<T>
    requires i <= |xs|
    decreases |xs| - i
  {
    if i == |xs| then None
    else if xs[i].Some? then xs[i]
    else FirstSome(xs, i + 1)
  }

  /** Nothing is found exactly when every entry from `i` on is absent. */
  lemma {:induction false} FirstSomeNone<T>(xs: seq<Option<T>>, i: nat)
    requires i <= |xs|
    ensures FirstSome(xs, i).None? <==> forall j :: i <= j < |xs| ==> xs[j].None?
    decreases |xs| - i
  {
    if i < |xs| && xs[i].None? {
      FirstSomeNone(xs, i + 1);
    }
  }

  /** What is found is the entry at some index `k`, every entry between `i`
      and `k` being absent. */
  lemma {:induction false} FirstSomeFirst<T>(xs: seq<Option<T>>, i: nat)
    requires i <= |xs|
    ensures FirstSome(xs, i).Some? ==>
      exists k :: i <= k < |xs| && xs[k] == FirstSome(xs, i) && forall j :: i <= j < k ==> xs[j].None?
    decreases |xs| - i
  {
    if i < |xs| && xs[i].None? {
      FirstSomeFirst(xs, i + 1);
    }
  }

  /** The first index at or after `i` whose entry is present, with that
      entry: a leftmost search over the outcomes of trying every position. */
  function FirstHit<T>(xs: seq<Option<T>>, i: nat): (r: Option<(nat, T)>)
    requires i <= |xs|
    ensures r.Some? ==> i <= r.value.0 < |xs| && xs[r.value.0] == Some(r.value.1)
    decreases |xs| - i
  {
    if i == |xs| then None
    else if xs[i].Some? then Some((i, xs[i].value))
    else FirstHit(xs, i + 1)
  }

  /** Every entry before the hit, or every entry at all when there is none,
      is absent. */
  lemma {:induction false} FirstHitLeftmost<T>(xs: seq<Option<T>>, i: nat)
    requires i <= |xs|
    ensures forall k :: i <= k < (if FirstHit(xs, i).Some? then FirstHit(xs, i).value.0 else |xs|) ==> xs[k].None?
    decreases |xs| - i
  {
    if i < |xs| && xs[i].None? {
      FirstHitLeftmost(xs, i + 1);
    }
  }

  /** The failures the parser reports to its caller. Each is an exception of
      the Python code:
      - MissingApiKey: the `ValueError` raised when no API key is configured;
      - NoTextFound: the `ValueError` raised for a document without text;
      - AiProcessingFailed: the `RuntimeError` wrapping any failure of the
        full generative re-parse;
      - NotAnObject: the `AttributeError` raised when a re-parsed record that
        is not a JSON object is read with `.get`;
      - UnsupportedValue: a re-parsed field that is neither a string nor null. */
  datatype Error =
    | MissingApiKey
    | NoTextFound
    | AiProcessingFailed
    | NotAnObject
    | UnsupportedValue

  datatype Result<T> = Ok(value: T) | Err(error: Error) {
    predicate IsFailure() { Err? }

    function PropagateFailure<U>(): Result<U>
      requires Err?
    {
      Err(error)
    }

    function Extract(): T
      requires Ok?
    {
      value
    }
  }

  /** A decoded JSON value. Numbers are integers here; the only thing the
      parser asks of a number is whether it is zero. */
  datatype Json =
    | JNull
    | JBool(b: bool)
    | JNumber(n: int)
    | JString(s: string)
    | JArray(items: seq<Json>)
    | JObject(fields: map<string, Json>)

  /** Python truthiness of a decoded value (`if not result`). */
  predicate Truthy(j: Json) {
    match j
    case JNull => false
    case JBool(b) => b
    case JNumber(n) => n != 0
    case JString(s) => s != ""
    case JArray(items) => items != []
    case JObject(fields) => fields != map[]
  }

  /** The candidate record `extract_info` assembles and the store keeps:
      name, email, phone, the joined skills and the experience excerpt, each
      possibly None (SQL NULL). */
  datatype Record = Record(
    name: Option<string>,
    email: Option<string>,
    phone: Option<string>,
    skills: Option<string>,
    experience: Option<string>)

  /** One named entity found by the recogniser: its text and its category (spaCy's `label_`). */
  datatype Entity = Entity(text: string, category: string)

  /** The four requests the parser sends to the generative service. */
  datatype Task = NameTask | SkillsTask | ExperienceTask | RecordTask

  /** The collaborators, passed in explicitly:
      - keySet: whether an API key is configured;
      - complete: the service's answer for one document and task, or None
        when the call raises;
      - ner: the entities the recogniser finds in a text;
      - decode: `json.loads`, None when it raises. */
  datatype Services = Services(
    keySet: bool,
    complete: Task -> Option<string>,
    ner: string -> seq<Entity>,
    decode: string -> Option<Json>)
}
