# ATS resume parser — a verified model

This project models the core of the `ATSParser` class of the ATS scanner
(`ats/ats_parser.py`). The parser takes the text of a resume and extracts
five fields: name, email, phone, skills and experience. Each field has its
own strategy:

- **email** — four regular expressions, tried in order, then six clean-up
  substitutions;
- **phone** — one regular expression;
- **name** — an AI answer, then a heading heuristic over the first lines,
  then a named-entity fallback;
- **skills** — an AI answer that must parse as a JSON array;
- **experience** — an AI answer, then a keyword capture cut at the next
  section header.

When no skills come out, `parse_pdf` escalates to a full AI re-parse. That
re-parse salvages a JSON object from the answer. The record is then saved
with an upsert: a row matching it by email or phone is merged, and
otherwise a new row is inserted.

The modules follow the parser's structure:

| module | file | models |
|---|---|---|
| `Types` | types.dfy | Option/Result, the errors the parser raises, JSON values, the extracted record, the collaborators (`Services`), the leftmost-search helpers |
| `Text` | text.dfy | the `str` operations the code uses (`strip`, `split`, `split('\n')`, `isalpha`, `replace`, `join`), case-insensitive literals, greedy runs |
| `Email` | email.dfy | `_extract_email`: the four patterns as position scanners, `re.search`, `re.sub` and the clean-up |
| `Phone` | phone.dfy | `_extract_phone` |
| `Name` | name.dfy | `_extract_name` |
| `Skills` | skills.dfy | `_extract_skills`, and the join in `extract_info` |
| `Experience` | experience.dfy | `_extract_experience` |
| `AiParse` | aiparse.dfy | `clean_and_parse_json`, `process_resume_ai` |
| `Store` | store.dfy | the `resumes` table; `save_to_db`, `_find_existing_record`, `_update_existing_record`, `_insert_new_record` as a class `Database` with a pure specification `Upsert` |
| `Pipeline` | pipeline.dfy | `extract_info`, and `parse_pdf` from the page texts on |

### How the collaborators are modelled

The code calls other systems (the language model, spaCy, the JSON decoder).
The model turns each of them into a parameter, bundled in `Services`:

- `keySet` says whether `GOOGLE_API_KEY` is set;
- `complete(task)` is the language model's answer to one of the four
  prompts for this document, or None when the call raises;
- `ner(text)` gives spaCy's entities;
- `decode` is `json.loads`, or None when it raises.

### How the regular expressions are modelled

Each regular expression is a scanner `XAt(s, i)`. The scanner returns
where the match tried at position `i` ends, or None. It works out Python's
backtracking by hand (the doc comments say where it matters). `re.search`
is the leftmost position where the scanner succeeds.

### Methods and the functions that specify them

Where the source loops, the model has a method with a loop:

- the e-mail pattern loop and the experience keyword loop;
- the heading loop of `_extract_name`;
- the page loop of `parse_pdf`.

Each method is proved equal to a function. The properties are proved about
those functions.

The store is a class with the fields `rows` and `nextId`. Each of its
methods is proved against the pure `Upsert` on a `Table`. `Upsert` is
proved to do the following:

- keep ids increasing;
- update the first matching row in place, or append a fresh row;
- be idempotent for a record that has an email or a phone.

### Behaviour worth knowing

- **Skills keyword fallback.** The skills resolver has no keyword
  fallback. Without an API key it raises, so `extract_info` and
  `parse_pdf` fail before any escalation (`Pipeline.ParseOutcomes`).
- **Skills normalisation.** Duplicates are removed by exact equality, not
  ignoring case. A skill that strips to the empty string is kept.
- **Phone length.** The phone pattern counts 8 to 20 characters between
  the first and last digit, separators included. It does not count 8 to 20
  digits.
- **Re-saving a record.** Saving the same record twice stores it once only
  when it has an email or a phone (`Store.UpsertIdempotent`). A record
  with neither never matches (`WHERE NULL = NULL` is not true), so it is
  inserted again on every save (`Store.KeylessAlwaysInserts`).
- **The salvaged AI span.** It runs from the first `{` to the last `}` (a
  greedy `{[\s\S]+}`). It is not the first balanced block.
- **Obfuscated addresses.** `name [at] host [dot] tld` and
  `name at host dot tld` come out as `name@host.tld`
  (`Email.BracketedAddress`, `Email.WordedAddress`).
- **A host called `at` or `dot`.** The third and fourth clean-up
  substitutions also fire inside an address found by the spaced pattern.
  So `x @ dot . com` is matched whole and comes out as `x@..com`, which is
  not of the form `local@host.tld`. Only the absence of whitespace next to
  `@` and `.` holds for every result (`Email.EmailNormalForm`).

## Model

| member | source | states |
|---|---|---|
| Text.Strip | ats/ats_parser.py:108 | the stripped string has no whitespace at either end, is no longer than the input, and is empty exactly when the input is all whitespace |
| Text.Words | ats/ats_parser.py:100 | every word of `split()` is non-empty and holds no whitespace; there are no words exactly when the string is all whitespace |
| Text.WordsJoin | ats/ats_parser.py:100 | the words put back together without separators are the string with its whitespace removed |
| Text.Lines | ats/ats_parser.py:106 | `split('\n')` gives at least one piece, and no piece holds a line feed |
| Text.LinesJoin | ats/ats_parser.py:106 | joining the pieces of `split('\n')` with line feeds gives back the string |
| Text.Enclosed | ats/ats_parser.py:262 | the greedy `open ... close` span starts at the first `open` and ends at the last `close`; it is None exactly when no `open` is followed, far enough on, by a `close` |
| Email.PlainAt | ats/ats_parser.py:58 | a match of the plain pattern consists of `[\w.-]` characters and `@` only |
| Email.PlainMatchShape | ats/ats_parser.py:58 | a match of the plain pattern is `local@host.tld`: a non-empty local part and host of `[\w.-]`, then a dot and a non-empty final word of `\w` |
| Email.BracketedAt | ats/ats_parser.py:59 | a match of the bracketed pattern is non-empty and lies inside the text |
| Email.BracketedMatch | ats/ats_parser.py:59 | what the bracketed pattern matches is `local [at] host [dot] tld`, the tokens allowing whitespace around and inside the brackets |
| Email.WordedAt | ats/ats_parser.py:60 | a match of the worded pattern is non-empty and lies inside the text |
| Email.WordedMatch | ats/ats_parser.py:60 | what the worded pattern matches is `local at host dot tld`, with whitespace on both sides of each keyword |
| Email.SpacedAt | ats/ats_parser.py:61 | a match of the spaced pattern is non-empty and lies inside the text |
| Email.SearchFrom | ats/ats_parser.py:64 | `re.search` returns a start and an end at which the pattern matches |
| Email.SearchLeftmost | ats/ats_parser.py:64 | the pattern matches at no position before the one found, and at no position at all when nothing is found |
| Email.EmailFrom | ats/ats_parser.py:63-75 | no address is returned exactly when none of the patterns occurs in the text |
| Email.ExtractEmail | ats/ats_parser.py:55-75 | the pattern loop with its early return computes `EmailOf` |
| Email.Substitute | ats/ats_parser.py:68-73 | `re.sub` of one clean-up pattern gives nothing on an empty rest, and otherwise starts with the mark where a match starts and with the character itself where none does |
| Email.SubstituteSkip | ats/ats_parser.py:68-73 | a stretch where no match starts is copied unchanged |
| Email.SubstituteOnce | ats/ats_parser.py:68-73 | with exactly one match `s[a..b]`, the substitution is `s[..a]`, the mark, then `s[b..]` |
| Email.SubstituteIdentity | ats/ats_parser.py:68-73 | on text without whitespace and without `[`, every one of the six substitutions leaves the text unchanged |
| Email.NormalizeIdentity | ats/ats_parser.py:68-73 | the clean-up leaves a text without whitespace and without `[` unchanged |
| Email.NormalizeClean | ats/ats_parser.py:72-73 | after the clean-up no whitespace stands next to any `@` or `.` |
| Email.BracketDotHidesAt | ats/ats_parser.py:68 | no `[at]` token starts inside a `[dot]` token that is followed by neither whitespace nor `[` |
| Email.WordDotHidesAt | ats/ats_parser.py:70 | no ` at ` token starts inside a ` dot ` token that no whitespace follows |
| Email.NormalizeBracketed | ats/ats_parser.py:68-73 | the clean-up turns `local [at] host [dot] tld` into `local@host.tld` |
| Email.NormalizeWorded | ats/ats_parser.py:68-73 | the clean-up turns `local at host dot tld` into `local@host.tld` |
| Email.PlainAddressWins | ats/ats_parser.py:57-74 | when a plain `local@domain.tld` occurs, the result is the leftmost such match, unchanged by the clean-up, whatever obfuscated forms the text holds |
| Email.MarkRewriteClean | ats/ats_parser.py:72-73 | after `\s*@\s*` -> `@` (or the same for `.`), no whitespace stands next to that mark |
| Email.DotRewriteKeepsAt | ats/ats_parser.py:73 | the last substitution never puts whitespace back next to an `@` |
| Email.EmailNormalForm | ats/ats_parser.py:66-74 | every extracted address has no whitespace next to any `@` or `.` |
| Email.PlainAddressShape | ats/ats_parser.py:57-74 | when a plain address occurs in the text, an address `local@host.tld` is extracted |
| Email.BracketedAddress | ats/ats_parser.py:57-74 | with no plain address in the text, the leftmost bracketed match `local [at] host [dot] tld` is extracted as exactly `local@host.tld` |
| Email.WordedAddress | ats/ats_parser.py:57-74 | with neither a plain nor a bracketed address in the text, the leftmost worded match `local at host dot tld` is extracted as exactly `local@host.tld` |
| Email.BracketedAddressShape | ats/ats_parser.py:57-74 | whenever the bracketed pattern decides, the extracted address has the form `local@host.tld` |
| Email.WordedAddressShape | ats/ats_parser.py:57-74 | whenever the worded pattern decides, the extracted address has the form `local@host.tld` |
| Phone.PhoneShape | ats/ats_parser.py:78 | a phone of the pattern's shape is 10 to 23 characters long and ends with a digit |
| Phone.PhoneAt | ats/ats_parser.py:78 | tried at one position, the pattern ends at the longest prefix there of phone shape, and it fails only when no prefix has that shape |
| Phone.FindPhone | ats/ats_parser.py:78 | the search returns a start and an end at which the pattern matches |
| Phone.FindPhoneLeftmost | ats/ats_parser.py:78 | the pattern matches at no position before the one found, and nowhere when nothing is found |
| Phone.PhoneOf | ats/ats_parser.py:77-79 | a returned phone has phone shape; None exactly when no substring of the text has phone shape |
| Phone.PhoneLeftmostLongest | ats/ats_parser.py:78-79 | the returned phone is the leftmost substring of phone shape, and the longest of those that start there |
| Name.FirstPerson | ats/ats_parser.py:120-124 | None exactly when no entity is a PERSON; otherwise the text of the first PERSON entity, no earlier entity being one |
| Name.AiName | ats/ats_parser.py:83-103 | the AI answer is accepted exactly when an API key is set, the call answered, the answer is not empty and the first line of the stripped answer is 2 to 4 alphabetic words; the name is then that line |
| Name.OfferProvenance | ats/ats_parser.py:107-117 | a heading line offers a name only when it has heading shape; the name is then its first PERSON entity; when it has none, the line itself is offered exactly when it starts with a capital |
| Name.Offers | ats/ats_parser.py:106-108 | at most five stripped lines of the stripped text are looked at, each for what it offers |
| Name.NameOf | ats/ats_parser.py:81-124 | an accepted AI answer takes precedence; no name is found only when the text has no PERSON entity |
| Name.NameProvenance | ats/ats_parser.py:81-124 | the name comes from the AI answer, else from the first heading line that offers one, else from the first PERSON entity of the whole text; None exactly when all three fail |
| Name.ExtractName | ats/ats_parser.py:81-124 | the method with its loop and early returns computes `NameOf` |
| Skills.ParseAnswer | ats/ats_parser.py:148-154 | a direct decode is taken as it is; any other result is the empty list or the decode of a part of the answer |
| Skills.StrippedStrings | ats/ats_parser.py:156 | the list holds exactly the stripped string elements of the parsed array |
| Skills.Dedup | ats/ats_parser.py:156 | the set has the same members as the list, and none twice |
| Skills.SkillsOf | ats/ats_parser.py:126-160 | raises exactly when there is no API key; otherwise duplicate-free, empty when the call or the parse fails or gives no list, and otherwise exactly the stripped string elements of the answer |
| Skills.JoinSkills | ats/ats_parser.py:51 | the joined skills are None exactly when the set is empty |
| Experience.FindLit | ats/ats_parser.py:195 | a keyword search ignoring case returns its leftmost occurrence, or None when there is no occurrence |
| Experience.KeywordMatch | ats/ats_parser.py:189-196 | the first keyword in order that occurs is taken; None exactly when none occurs |
| Experience.Capture | ats/ats_parser.py:190-197 | the capture is the keyword plus at most 2000 following characters of the text |
| Experience.FindStopFinds | ats/ats_parser.py:198-201 | what the stop search finds is a match of `\n\s*(header)\s*[\n:]` |
| Experience.FindStopLeftmost | ats/ats_parser.py:198-201 | no stop match lies before the one found, nor anywhere when none is found |
| Experience.AiExperience | ats/ats_parser.py:167-186 | the AI excerpt is accepted exactly when an API key is set, the call answered, the answer is not empty and its stripped form has more than 10 words; the excerpt is then the stripped answer |
| Experience.Truncate | ats/ats_parser.py:202-205 | the cut and stripped capture is no longer than the capture and has no whitespace at either end |
| Experience.TruncateShape | ats/ats_parser.py:202-205 | cutting at the first stop match and stripping gives a prefix of the capture that still holds the keyword, has no edge whitespace and no stop match; it ends at or before the first stop match (`Cut`), with only whitespace between its end and there |
| Experience.RuleExcerptShape | ats/ats_parser.py:189-205 | the rule-based excerpt is the slice of the text that starts at the keyword found (ignoring case); it is at most the keyword plus 2000 characters, is stripped, has no stop match, and ends at or before the capture's first stop match with only whitespace between |
| Experience.RuleExperience | ats/ats_parser.py:189-206 | a rule-based excerpt has no whitespace at either end |
| Experience.RuleNoneIff | ats/ats_parser.py:189-206 | the rule-based path finds nothing exactly when "experience" occurs nowhere in the text, ignoring case |
| Experience.ExperienceTrimmed | ats/ats_parser.py:162-206 | whichever path produced it, the excerpt has no whitespace at either end |
| Experience.ExtractExperience | ats/ats_parser.py:162-206 | the method with its keyword loop computes `ExperienceOf` |
| AiParse.CleanAndParse | ats/ats_parser.py:258-268 | an answer that decodes is taken as it is; any other result is the empty object or the decode of a part of the answer |
| AiParse.SalvageWrapped | ats/ats_parser.py:258-268 | an object wrapped in prose (no `{` before it, no `}` after it) is recovered when the whole answer does not decode |
| AiParse.SalvageNothing | ats/ats_parser.py:261-268 | an answer that does not decode and has no `{...}` span gives the empty object |
| AiParse.ProcessResumeAi | ats/ats_parser.py:271-290 | no key raises `ValueError`; any other failure is the `RuntimeError`; success needs a key, an answer, and a truthy salvaged value, and these suffice |
| AiParse.UnparsableAnswerFails | ats/ats_parser.py:282-290 | an answer from which nothing can be salvaged makes the re-parse fail |
| Store.FirstMatch | ats/ats_parser.py:219-223 | the first row matching by email or phone is found, and None exactly when no row matches |
| Store.Merged | ats/ats_parser.py:225-243 | the merged row keeps its id and phone, keeps its email whenever the stored one is present or the new one is not, and takes name, skills and experience from the record |
| Store.UpdateWhere | ats/ats_parser.py:239-243 | the UPDATE merges the rows with the given id and leaves every other row as it was |
| Store.Upsert | ats/ats_parser.py:208-256 | the table grows by one row exactly when no row matches; existing rows keep their ids and phones; the next id grows by at most one; some row then carries the record's name, skills and experience |
| Store.UpsertUpdates | ats/ats_parser.py:225-243 | an update keeps the row's id, phone and position; it replaces name, skills and experience; it fills in the email only when the stored one is empty and the new one is not; no other row and not the next id change |
| Store.UpsertInserts | ats/ats_parser.py:245-256 | with no match, the record is appended under the next id, which is larger than every earlier id |
| Store.UpsertValid | ats/ats_parser.py:28-29 | the upsert keeps the ids increasing and below the next AUTOINCREMENT id |
| Store.KeylessAlwaysInserts | ats/ats_parser.py:219-223 | a record with neither email nor phone matches no row and is always inserted |
| Store.MergeTwice | ats/ats_parser.py:229-237 | merging the same record into a row twice is merging it once |
| Store.UpsertIdempotent | ats/ats_parser.py:208-217 | saving a record with an email or a phone twice leaves the table as saving it once |
| Store.SetListMerges | ats/ats_parser.py:227-243 | the assembled SET list applied by id is the merge: the email first, and only when the stored one is empty and the new one is not, then name, skills and experience |
| Store.TailWrites | ats/ats_parser.py:232-237 | the fixed part of the SET list writes name, skills and experience and nothing else |
| Store.Database.constructor | ats/ats_parser.py:24-38 | a new database has no rows and a first id of 1 |
| Store.Database.FindExisting | ats/ats_parser.py:219-223 | the id and email of the first matching row; None exactly when no row matches |
| Store.Database.UpdateExisting | ats/ats_parser.py:225-243 | the rows become their merge by id, and the next id is unchanged |
| Store.Database.InsertNew | ats/ats_parser.py:245-256 | the record is appended under the next id, and the next id increases by one |
| Store.Database.Save | ats/ats_parser.py:208-217 | the new state is the upsert of the old state with the record, and increasing ids below the next id are kept |
| Pipeline.ExtractInfo | ats/ats_parser.py:41-53 | extraction fails exactly when there is no API key, with `MissingApiKey` |
| Pipeline.InfoFields | ats/ats_parser.py:41-53 | in an extracted record, the email has no whitespace next to `@` or `.`, the phone has phone shape, the experience is stripped, and skills are None exactly when the set is empty |
| Pipeline.Field | ats/ats_parser.py:250-254 | `data.get(key)` reads a string or None; any other JSON value cannot be stored |
| Pipeline.RecordOfJson | ats/ats_parser.py:307-309 | a non-object re-parse result cannot be saved; an object is accepted exactly when each of its five keys is missing, null or a string, and then carries exactly those values; any other refusal is `UnsupportedValue` |
| Pipeline.ReadPages | ats/ats_parser.py:297-300 | the page loop joins the pages' text in order, with a missing text read as "" |
| Pipeline.BlankPagesRejected | ats/ats_parser.py:297-303 | pages with no text or only whitespace make a document that is rejected with `NoTextFound` |
| Pipeline.ParseDocument | ats/ats_parser.py:302-310 | a parsed record needs an API key |
| Pipeline.ParseOutcomes | ats/ats_parser.py:302-310 | a whitespace-only text is rejected; a missing key fails before any escalation; a record with skills is the result; one without skills is replaced by the re-parse, whose failures are the result's |
| Pipeline.ParsePdf | ats/ats_parser.py:293-310 | the result is `ParseDocument` of the joined pages; on success the database holds the upsert of the result, and on failure it is unchanged; the id invariant is kept |

## Left out

- File existence and PDF reading (`os.path.exists`, `pdfplumber`) are I/O. `ParsePdf` takes the page texts as its input.
- SQLite connections, cursors, commits and the `CREATE TABLE IF NOT EXISTS` of an already existing file are left out. The database is the class `Store.Database`, which starts empty.
- Store.Database.FindExisting: `fetchone` without `ORDER BY` returns an unspecified row. The model takes the matching row with the lowest id.
- The language model is an oracle. `Services.complete` gives one answer per prompt kind and document; model names, temperature, prompt texts, `ats/ai_prompt.py` and the LangChain chain are left out.
- spaCy is left out; `Services.ner` stands for `self.nlp(...).ents`. JSON decoding is the parameter `Services.decode`.
- Character classes (`\s`, `\d`, `\w`, `isalpha`, `isupper`) and `re.IGNORECASE` are their ASCII parts. Unicode letters, digits and case folding are not modelled.
- Skills.Dedup: Python's set iteration order is unspecified. The model joins skills in the order of first occurrence.
- Pipeline.RecordOfJson: JSON numbers and booleans in a re-parsed record are refused as `UnsupportedValue`, although SQLite would store them. A list or object is refused too: as the email or the phone it already makes the lookup's SELECT fail, and in the other fields it makes the INSERT or UPDATE fail.
- Pipeline.ParsePdf: the exception raised when the file does not exist is not modelled, because the file system is not modelled.
- The `__main__` block and `data_loader.py` are callers, not part of the core.
- Concurrency, i.e. two saves racing on the same email or phone, is not modelled. The model is sequential, as the parser is.
