/** The name resolver (`ATSParser._extract_name`). Precedence, first success
    wins:
      1. the generative service's answer, when an API key is configured, the
         call does not raise, and the first line of the stripped answer is
         2 to 4 whitespace-separated alphabetic words;
      2. the heading heuristic over the first (at most) five lines of the
         stripped text: a stripped line of 2 to 4 words that is alphabetic
         once blanks are removed gives its first PERSON entity, or else the
         line itself when it starts with an upper-case letter;
      3. the first PERSON entity of the whole text;
      4. None. */
module Name {
  import opened Types
  import opened Text

  const Person := "PERSON"

  /** Index of the first PERSON entity at or after `i`. */
  function PersonFrom(ents: seq<Entity>, i: nat): (r: Option<nat>)
    requires i <= |ents|
    ensures r.Some? ==> i <= r.value < |ents| && ents[r.value].category == Person
    ensures r.Some? ==> forall j :: i <= j < r.value ==> ents[j].category != Person
    ensures r.None? ==> forall j :: i <= j < |ents| ==> ents[j].category != Person
    decreases |ents| - i
  {
    if i == |ents| then None
    else if ents[i].category == Person then Some(i)
    else PersonFrom(ents, i + 1)
  }

  /** `for ent in doc.ents: if ent.label_ == "PERSON": return ent.text` */
  function FirstPerson(ents: seq<Entity>): (r: Option<string>)
    ensures r.None? <==> forall j :: 0 <= j < |ents| ==> ents[j].category != Person
    ensures r.Some? ==> exists j :: 0 <= j < |ents| && ents[j].category == Person && ents[j].text == r.value &&
                                    forall i :: 0 <= i < j ==> ents[i].category != Person
  {
    match PersonFrom(ents, 0)
    case Some(j) => Some(ents[j].text)
    case None => None
  }

  /** The answer check: 2 to 4 words, each alphabetic. */
  predicate NameLike(name: string) {
    var ws := Words(name);
    2 <= |ws| <= 4 && forall k :: 0 <= k < |ws| ==> IsAlphaStr(ws[k])
  }

  /** The heading check: 2 to 4 words, and the line alphabetic as it is or
      with its blanks removed. */
  predicate HeadingLike(line: string) {
    2 <= |Words(line)| <= 4 && (IsAlphaStr(line) || IsAlphaStr(RemoveBlanks(line)))
  }

  /** Step 1: the generative answer, when accepted: the first line of the
      stripped answer, taken exactly when an API key is set, the call
      answered, the answer is not empty and that line looks like a name. */
  function AiName(svc: Services): (r: Option<string>)
    ensures r.Some? ==> NameLike(r.value) && svc.keySet && svc.complete(NameTask).Some?
    ensures r.Some? ==> svc.complete(NameTask).value != "" && r.value == Lines(Strip(svc.complete(NameTask).value))[0]
    ensures (svc.keySet && svc.complete(NameTask).Some? && svc.complete(NameTask).value != "" &&
             NameLike(Lines(Strip(svc.complete(NameTask).value))[0])) ==> r.Some?
  {
    if !svc.keySet then None
    else
      match svc.complete(NameTask)
      case None => None
      case Some(response) =>
        if response == "" then None
        else
          var name := Lines(Strip(response))[0];
          if NameLike(name) then Some(name) else None
  }

  /** Number of heading lines looked at. */
  function HeadingCount(lines: seq<string>): nat { Min(5, |lines|) }

  /** What one stripped heading line offers: on a line of heading shape, its
      first PERSON entity, or else the line itself when it starts with an
      upper-case letter. */
  function Offer(line: string, ner: string -> seq<Entity>): Option<string> {
    if HeadingLike(line) then
      match FirstPerson(ner(line))
      case Some(p) => Some(p)
      case None => if |line| > 0 && IsUpper(line[0]) then Some(line) else None
    else None
  }

  /** A line offers a name only when it has heading shape. The name is then
      the first PERSON entity recognised in the line; when there is none, it
      is the line itself, exactly when the line starts with an upper-case
      letter. */
  lemma OfferProvenance(line: string, ner: string -> seq<Entity>)
    ensures Offer(line, ner).Some? ==> HeadingLike(line)
    ensures HeadingLike(line) && FirstPerson(ner(line)).Some? ==> Offer(line, ner) == FirstPerson(ner(line))
    ensures HeadingLike(line) && FirstPerson(ner(line)).None? ==>
      (Offer(line, ner).Some? <==> |line| > 0 && IsUpper(line[0])) &&
      (Offer(line, ner).Some? ==> Offer(line, ner).value == line)
  {
  }

  /** What each of the first (at most) five lines offers, stripped. */
  function Offers(lines: seq<string>, ner: string -> seq<Entity>): (r: seq<Option<string>>)
    ensures |r| == HeadingCount(lines)
    ensures forall k :: 0 <= k < |r| ==> r[k] == Offer(Strip(lines[k]), ner)
  {
    seq(HeadingCount(lines), k requires 0 <= k < HeadingCount(lines) => Offer(Strip(lines[k]), ner))
  }

  /** Step 2: the first heading line that offers a name decides. */
  function HeadingName(lines: seq<string>, ner: string -> seq<Entity>): Option<string> {
    FirstSome(Offers(lines, ner), 0)
  }

  /** `_extract_name` as a value. */
  function NameOf(svc: Services, text: string): (r: Option<string>)
    ensures AiName(svc).Some? ==> r == AiName(svc)
    ensures r.None? ==> forall j :: 0 <= j < |svc.ner(text)| ==> svc.ner(text)[j].category != Person
  {
    match AiName(svc)
    case Some(n) => Some(n)
    case None =>
      match HeadingName(Lines(Strip(text)), svc.ner)
      case Some(n) => Some(n)
      case None => FirstPerson(svc.ner(text))
  }

  /** Where a resolved name comes from, in order of precedence: an accepted
      generative answer; otherwise the offer of one of the first five
      heading lines, every earlier one offering nothing; otherwise the first
      PERSON entity of the whole text. None exactly when all three fail. */
  lemma NameProvenance(svc: Services, text: string)
    ensures var r := NameOf(svc, text); var lines := Lines(Strip(text));
      r.Some? ==>
        AiName(svc) == r ||
        (AiName(svc).None? &&
         exists k :: 0 <= k < HeadingCount(lines) && Offer(Strip(lines[k]), svc.ner) == r &&
                     forall j :: 0 <= j < k ==> Offer(Strip(lines[j]), svc.ner).None?) ||
        (AiName(svc).None? && HeadingName(lines, svc.ner).None? && r == FirstPerson(svc.ner(text)))
    ensures var r := NameOf(svc, text); var lines := Lines(Strip(text));
      r.None? <==>
        AiName(svc).None? &&
        (forall j :: 0 <= j < HeadingCount(lines) ==> Offer(Strip(lines[j]), svc.ner).None?) &&
        (forall j :: 0 <= j < |svc.ner(text)| ==> svc.ner(text)[j].category != Person)
  {
    var offers := Offers(Lines(Strip(text)), svc.ner);
    FirstSomeFirst(offers, 0);
    FirstSomeNone(offers, 0);
  }

  /** `_extract_name`: the generative step, then the loop over the heading
      lines with its early returns, then the whole-text recogniser. */
  method ExtractName(svc: Services, text: string) returns (name: Option<string>)
    ensures name == NameOf(svc, text)
  {
    var answer: Option<string> := None;
    if svc.keySet {
      var response := svc.complete(NameTask);
      if response.Some? && response.value != "" {
        var candidate := Lines(Strip(response.value))[0];
        if NameLike(candidate) {
          answer := Some(candidate);
        }
      }
    }
    assert answer == AiName(svc);
    if answer.Some? {
      return answer;
    }
    var lines := Lines(Strip(text));
    var i := 0;
    while i < HeadingCount(lines)
      invariant 0 <= i <= HeadingCount(lines)
      invariant FirstSome(Offers(lines, svc.ner), i) == HeadingName(lines, svc.ner)
    {
      var line := Strip(lines[i]);
      if HeadingLike(line) {
        var person := FirstPerson(svc.ner(line));
        if person.Some? {
          assert Offer(line, svc.ner) == person;
          return person;
        }
        if |line| > 0 && IsUpper(line[0]) {
          assert Offer(line, svc.ner) == Some(line);
          return Some(line);
        }
      }
      assert Offer(line, svc.ner).None?;
      i := i + 1;
    }
    assert HeadingName(lines, svc.ner).None?;
    return FirstPerson(svc.ner(text));
  }
}
