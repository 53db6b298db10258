/** The parser's entry points: `ATSParser.extract_info`, which runs the five
    field extractors over one text, and `ATSParser.parse_pdf`, which joins the
    pages' text, rejects a document without text, escalates to the full
    generative re-parse when no skills were found, and saves the result. */
module Pipeline {
  import opened Types
  import opened Text
  import Email
  import Phone
  import Name
  import Skills
  import Experience
  import AiParse
  import Store

  /** `extract_info`: the only extractor that can fail is the skills
      resolver, which needs an API key. */
  function ExtractInfo(svc: Services, text: string): (r: Result<Record>)
    ensures r.Err? <==> !svc.keySet
    ensures r.Err? ==> r.error == MissingApiKey
  {
    var skills :- Skills.SkillsOf(svc);
    Ok(Record(Name.NameOf(svc, text), Email.EmailOf(text), Phone.PhoneOf(text),
              Skills.JoinSkills(skills), Experience.ExperienceOf(svc, text)))
  }

  /** What each field of an extracted record satisfies: the email has no
      whitespace beside `@` or `.`, the phone has the phone shape, the
      experience excerpt is stripped, and skills are None exactly when the
      resolver found none. */
  lemma InfoFields(svc: Services, text: string)
    requires ExtractInfo(svc, text).Ok?
    ensures var info := ExtractInfo(svc, text).value;
      (info.email.Some? ==> Email.NoSpaceBeside(info.email.value, '@') && Email.NoSpaceBeside(info.email.value, '.')) &&
      (info.phone.Some? ==> Phone.PhoneShape(info.phone.value)) &&
      (info.experience.Some? ==> NoEdgeSpace(info.experience.value)) &&
      (info.skills.None? <==> Skills.SkillsOf(svc).value == [])
  {
    var info := ExtractInfo(svc, text).value;
    if info.email.Some? {
      Email.EmailNormalForm(text);
    }
    if info.experience.Some? {
      Experience.ExperienceTrimmed(svc, text);
    }
  }

  /** A re-parsed record field holds the value `v`: a string is kept, and
      a missing key or a null gives None. */
  predicate Reads(fields: map<string, Json>, key: string, v: Option<string>) {
    match v
    case Some(s) => key in fields && fields[key] == JString(s)
    case None => key !in fields || fields[key] == JNull
  }

  /** `data.get(key)` on a re-parsed record. */
  function Field(fields: map<string, Json>, key: string): (r: Result<Option<string>>)
    ensures r.Ok? <==> Storable(fields, key)
    ensures r.Ok? ==> Reads(fields, key, r.value)
    ensures r.Err? ==> r.error == UnsupportedValue
  {
    if key !in fields then Ok(None)
    else
      match fields[key]
      case JNull => Ok(None)
      case JString(s) => Ok(Some(s))
      case _ => Err(UnsupportedValue)
  }

  /** A value `save_to_db` can store under `key`: missing, null or a string. */
  predicate Storable(fields: map<string, Json>, key: string) {
    key !in fields || fields[key].JNull? || fields[key].JString?
  }

  /** The five values that `save_to_db` reads from a re-parsed record. */
  function RecordOfJson(j: Json): (r: Result<Record>)
    ensures !j.JObject? ==> r == Err(NotAnObject)
    ensures j.JObject? ==>
      (r.Ok? <==> Storable(j.fields, "name") && Storable(j.fields, "email") && Storable(j.fields, "phone") &&
                  Storable(j.fields, "skills") && Storable(j.fields, "experience"))
    ensures r.Ok? ==> j.JObject?
    ensures r.Ok? ==>
      (Reads(j.fields, "name", r.value.name) && Reads(j.fields, "email", r.value.email) &&
       Reads(j.fields, "phone", r.value.phone) && Reads(j.fields, "skills", r.value.skills) &&
       Reads(j.fields, "experience", r.value.experience))
    ensures j.JObject? && r.Err? ==> r.error == UnsupportedValue
  {
    if !j.JObject? then Err(NotAnObject)
    else
      var name :- Field(j.fields, "name");
      var email :- Field(j.fields, "email");
      var phone :- Field(j.fields, "phone");
      var skills :- Field(j.fields, "skills");
      var experience :- Field(j.fields, "experience");
      Ok(Record(name, email, phone, skills, experience))
  }

  /** `page.extract_text() or ""` */
  function PageText(page: Option<string>): string {
    match page
    case Some(s) => s
    case None => ""
  }

  /** The document's text: the pages' text joined in order. */
  function Concat(pages: seq<Option<string>>): (text: string)
    ensures pages == [] ==> text == ""
  {
    if pages == [] then "" else Concat(pages[..|pages| - 1]) + PageText(pages[|pages| - 1])
  }

  /** `parse_pdf` from the page texts on, without the save: no text is
      an error; otherwise the extracted record, or, when it has no skills,
      the re-parsed one. */
  function ParseDocument(svc: Services, text: string): (r: Result<Record>)
    ensures r.Ok? ==> svc.keySet
  {
    if Strip(text) == "" then Err(NoTextFound)
    else
      var info :- ExtractInfo(svc, text);
      if info.skills.Some? then Ok(info)
      else
        var j :- AiParse.ProcessResumeAi(svc);
        RecordOfJson(j)
  }

  /** The outcomes of `parse_pdf`: a text of whitespace only is rejected; a
      missing API key fails in the skills resolver, before any escalation;
      an extracted record with skills is the result; one without skills is
      replaced by the re-parsed record, whose failures are the result's. */
  lemma ParseOutcomes(svc: Services, text: string)
    ensures (forall k :: 0 <= k < |text| ==> IsSpace(text[k])) ==> ParseDocument(svc, text) == Err(NoTextFound)
    ensures !(forall k :: 0 <= k < |text| ==> IsSpace(text[k])) && !svc.keySet ==>
      ParseDocument(svc, text) == Err(MissingApiKey)
    ensures Strip(text) != "" && svc.keySet && Skills.SkillsOf(svc).value != [] ==>
      ParseDocument(svc, text) == ExtractInfo(svc, text) && ParseDocument(svc, text).value.skills.Some?
    ensures Strip(text) != "" && svc.keySet && Skills.SkillsOf(svc).value == [] ==>
      ParseDocument(svc, text) ==
        match AiParse.ProcessResumeAi(svc)
        case Err(e) => Err(e)
        case Ok(j) => RecordOfJson(j)
  {
    if Strip(text) != "" && svc.keySet {
      InfoFields(svc, text);
    }
  }

  /** Pages without text, or with whitespace only, make a document without
      text, which is rejected. */
  lemma {:induction false} BlankPagesRejected(svc: Services, pages: seq<Option<string>>)
    requires forall i :: 0 <= i < |pages| ==> forall k :: 0 <= k < |PageText(pages[i])| ==> IsSpace(PageText(pages[i])[k])
    ensures forall k :: 0 <= k < |Concat(pages)| ==> IsSpace(Concat(pages)[k])
    ensures ParseDocument(svc, Concat(pages)) == Err(NoTextFound)
    decreases |pages|
  {
    if pages != [] {
      var init := pages[..|pages| - 1];
      assert forall i :: 0 <= i < |init| ==> init[i] == pages[i];
      BlankPagesRejected(svc, init);
      var last := PageText(pages[|pages| - 1]);
      var text := Concat(init) + last;
      assert Concat(pages) == text;
      forall k | 0 <= k < |text| ensures IsSpace(text[k]) {
        if k >= |Concat(init)| {
          assert text[k] == last[k - |Concat(init)|];
        }
      }
    }
  }

  /** The page loop of `parse_pdf`. */
  method ReadPages(pages: seq<Option<string>>) returns (text: string)
    ensures text == Concat(pages)
  {
    text := "";
    var i := 0;
    while i < |pages|
      invariant 0 <= i <= |pages|
      invariant text == Concat(pages[..i])
    {
      assert pages[..i + 1][..i] == pages[..i];
      text := text + PageText(pages[i]);
      i := i + 1;
    }
    assert pages[..|pages|] == pages;
  }

  /** `parse_pdf` for a document that exists: joins the pages, extracts,
      escalates when no skills were found, and saves the record. A failure
      leaves the database as it was. */
  method ParsePdf(db: Store.Database, svc: Services, pages: seq<Option<string>>) returns (r: Result<Record>)
    requires Store.Valid(db.State())
    modifies db
    ensures r == ParseDocument(svc, Concat(pages))
    ensures Store.Valid(db.State())
    ensures r.Ok? ==> db.State() == Store.Upsert(old(db.State()), r.value)
    ensures r.Err? ==> db.State() == old(db.State())
  {
    var text := ReadPages(pages);
    if Strip(text) == "" {
      return Err(NoTextFound);
    }
    var email := Email.ExtractEmail(text);
    var phone := Phone.PhoneOf(text);
    var name := Name.ExtractName(svc, text);
    var skills := Skills.SkillsOf(svc);
    if skills.Err? {
      return Err(skills.error);
    }
    var experience := Experience.ExtractExperience(svc, text);
    var info := Record(name, email, phone, Skills.JoinSkills(skills.value), experience);
    assert ExtractInfo(svc, text) == Ok(info);
    if info.skills.None? {
      var ai := AiParse.ProcessResumeAi(svc);
      if ai.Err? {
        return Err(ai.error);
      }
      var parsed := RecordOfJson(ai.value);
      if parsed.Err? {
        return parsed;
      }
      info := parsed.value;
    }
    db.Save(info);
    return Ok(info);
  }
}
