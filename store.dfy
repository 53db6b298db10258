/** The `resumes` table and the upsert of `ATSParser.save_to_db`.

    A row is looked up by `WHERE email = ? OR phone = ?` and the first row
    returned is updated; otherwise a new row is inserted with the next
    AUTOINCREMENT id. SQL equality never holds for NULL, so a record without
    an email only matches by phone, and one with neither matches nothing.
    Rows are kept in id order, and the first row returned is taken to be the
    matching row with the lowest id. */
module Store {
  import opened Types

  /** One row of `resumes`. */
  datatype Row = Row(
    id: nat,
    name: Option<string>,
    email: Option<string>,
    phone: Option<string>,
    skills: Option<string>,
    experience: Option<string>)

  /** The table's contents and the next AUTOINCREMENT id. */
  datatype Table = Table(rows: seq<Row>, nextId: nat)

  /** Python truthiness of a stored or submitted text value. */
  predicate Present(v: Option<string>) { v.Some? && v.value != "" }

  /** Ids strictly increase along the rows and are all below the next id. */
  predicate Valid(t: Table) {
    (forall i, j :: 0 <= i < j < |t.rows| ==> t.rows[i].id < t.rows[j].id) &&
    (forall i :: 0 <= i < |t.rows| ==> t.rows[i].id < t.nextId)
  }

  /** `WHERE email = ? OR phone = ?` for one row. */
  predicate Matches(row: Row, rec: Record) {
    (rec.email.Some? && row.email == rec.email) || (rec.phone.Some? && row.phone == rec.phone)
  }

  /** Index of the first matching row at or after `i`. */
  function FirstMatch(rows: seq<Row>, rec: Record, i: nat): (r: Option<nat>)
    requires i <= |rows|
    ensures r.Some? ==> i <= r.value < |rows| && Matches(rows[r.value], rec)
    ensures r.Some? ==> forall j :: i <= j < r.value ==> !Matches(rows[j], rec)
    ensures r.None? <==> forall j :: i <= j < |rows| ==> !Matches(rows[j], rec)
    decreases |rows| - i
  {
    if i == |rows| then None
    else if Matches(rows[i], rec) then Some(i)
    else FirstMatch(rows, rec, i + 1)
  }

  /** The row `_update_existing_record` writes: the email is filled in only
      when the stored one (`existingEmail`) is empty and the submitted one is
      not; name, skills and experience are overwritten, even with None; the
      id and the phone are kept. */
  function Merged(row: Row, existingEmail: Option<string>, rec: Record): (r: Row)
    ensures r.id == row.id && r.phone == row.phone
    ensures Present(existingEmail) || !Present(rec.email) ==> r.email == row.email
    ensures r.name == rec.name && r.skills == rec.skills && r.experience == rec.experience
  {
    Row(row.id, rec.name,
        if !Present(existingEmail) && Present(rec.email) then rec.email else row.email,
        row.phone, rec.skills, rec.experience)
  }

  /** The row `_insert_new_record` adds. */
  function Fresh(id: nat, rec: Record): Row {
    Row(id, rec.name, rec.email, rec.phone, rec.skills, rec.experience)
  }

  /** `UPDATE resumes SET ... WHERE id = ?` */
  function UpdateWhere(rows: seq<Row>, id: nat, existingEmail: Option<string>, rec: Record): (r: seq<Row>)
    ensures |r| == |rows|
    ensures forall k :: 0 <= k < |rows| ==> r[k] == if rows[k].id == id then Merged(rows[k], existingEmail, rec) else rows[k]
  {
    if rows == [] then []
    else
      [if rows[0].id == id then Merged(rows[0], existingEmail, rec) else rows[0]]
      + UpdateWhere(rows[1..], id, existingEmail, rec)
  }

  /** `save_to_db` as a value: update the first matching row, or insert. */
  function Upsert(t: Table, rec: Record): (r: Table)
    ensures |r.rows| == |t.rows| + (if FirstMatch(t.rows, rec, 0).Some? then 0 else 1)
    ensures forall k :: 0 <= k < |t.rows| ==> r.rows[k].id == t.rows[k].id && r.rows[k].phone == t.rows[k].phone
    ensures t.nextId <= r.nextId <= t.nextId + 1
    ensures exists k :: 0 <= k < |r.rows| && r.rows[k].name == rec.name &&
                        r.rows[k].skills == rec.skills && r.rows[k].experience == rec.experience
  {
    match FirstMatch(t.rows, rec, 0)
    case Some(i) =>
      var rows := UpdateWhere(t.rows, t.rows[i].id, t.rows[i].email, rec);
      assert rows[i] == Merged(t.rows[i], t.rows[i].email, rec);
      Table(rows, t.nextId)
    case None =>
      var rows := t.rows + [Fresh(t.nextId, rec)];
      assert rows[|t.rows|] == Fresh(t.nextId, rec);
      Table(rows, t.nextId + 1)
  }

  // ---------------------------------------------------------------------
  // Properties of the upsert.

  /** With distinct ids, an update touches exactly the row it was aimed at. */
  lemma UpdateOneRow(t: Table, i: nat, rec: Record)
    requires Valid(t) && i < |t.rows|
    ensures var r := UpdateWhere(t.rows, t.rows[i].id, t.rows[i].email, rec);
      r == t.rows[i := Merged(t.rows[i], t.rows[i].email, rec)]
  {
    var r := UpdateWhere(t.rows, t.rows[i].id, t.rows[i].email, rec);
    forall k | 0 <= k < |t.rows| && k != i ensures t.rows[k].id != t.rows[i].id {
      if k < i {
        assert t.rows[k].id < t.rows[i].id;
      } else {
        assert t.rows[i].id < t.rows[k].id;
      }
    }
  }

  /** A matching record updates its first matching row in place: the row
      count and the next id stay, every other row stays, the id and phone
      stay, name, skills and experience become the record's, and the email
      is replaced only when the stored one is empty and the new one is not. */
  lemma UpsertUpdates(t: Table, rec: Record, i: nat)
    requires Valid(t) && FirstMatch(t.rows, rec, 0) == Some(i)
    ensures var u := Upsert(t, rec); var old_row := t.rows[i];
      u.nextId == t.nextId && |u.rows| == |t.rows| &&
      (forall k :: 0 <= k < |t.rows| && k != i ==> u.rows[k] == t.rows[k]) &&
      u.rows[i].id == old_row.id && u.rows[i].phone == old_row.phone &&
      u.rows[i].name == rec.name && u.rows[i].skills == rec.skills && u.rows[i].experience == rec.experience &&
      u.rows[i].email == (if !Present(old_row.email) && Present(rec.email) then rec.email else old_row.email)
  {
    UpdateOneRow(t, i, rec);
  }

  /** A record matching no row is appended with the next id, larger than
      every id already used. */
  lemma UpsertInserts(t: Table, rec: Record)
    requires Valid(t) && FirstMatch(t.rows, rec, 0).None?
    ensures var u := Upsert(t, rec);
      u.rows == t.rows + [Fresh(t.nextId, rec)] && u.nextId == t.nextId + 1 &&
      forall k :: 0 <= k < |t.rows| ==> t.rows[k].id < u.rows[|t.rows|].id
  {
  }

  /** The upsert keeps ids increasing and below the next id. */
  lemma UpsertValid(t: Table, rec: Record)
    requires Valid(t)
    ensures Valid(Upsert(t, rec))
  {
    match FirstMatch(t.rows, rec, 0)
    case Some(i) =>
      UpsertAt(t, rec, i);
      var rows := t.rows[i := Merged(t.rows[i], t.rows[i].email, rec)];
      assert forall k :: 0 <= k < |rows| ==> rows[k].id == t.rows[k].id;
    case None =>
      var rows := t.rows + [Fresh(t.nextId, rec)];
      assert forall k :: 0 <= k < |t.rows| ==> rows[k] == t.rows[k];
      assert rows[|t.rows|].id == t.nextId;
  }

  /** A record with neither email nor phone never matches: each save of it
      adds a row. */
  lemma KeylessAlwaysInserts(t: Table, rec: Record)
    requires rec.email.None? && rec.phone.None?
    ensures Upsert(t, rec) == Table(t.rows + [Fresh(t.nextId, rec)], t.nextId + 1)
  {
  }

  /** The merged row still matches the record it was merged with. */
  lemma MergedMatches(row: Row, rec: Record)
    requires Matches(row, rec)
    ensures Matches(Merged(row, row.email, rec), rec)
  {
  }

  /** Merging the same record twice is merging it once. */
  lemma MergeTwice(row: Row, rec: Record)
    ensures var m := Merged(row, row.email, rec); Merged(m, m.email, rec) == m
  {
  }

  /** An upsert whose first match is row `i` replaces that row by its
      merge. */
  lemma UpsertAt(t: Table, rec: Record, i: nat)
    requires Valid(t) && FirstMatch(t.rows, rec, 0) == Some(i)
    ensures Upsert(t, rec) == Table(t.rows[i := Merged(t.rows[i], t.rows[i].email, rec)], t.nextId)
  {
    UpdateOneRow(t, i, rec);
  }

  /** Changing rows from `i` on leaves a first match at `i` in place, as
      long as row `i` still matches. */
  lemma FirstMatchKept(rows: seq<Row>, rows': seq<Row>, rec: Record, i: nat)
    requires FirstMatch(rows, rec, 0) == Some(i)
    requires |rows'| == |rows| && rows'[..i] == rows[..i] && Matches(rows'[i], rec)
    ensures FirstMatch(rows', rec, 0) == Some(i)
  {
    assert forall j :: 0 <= j < i ==> rows'[j] == rows[..i][j];
    var f := FirstMatch(rows', rec, 0);
    assert f.Some?;
    assert !(f.value < i);
  }

  /** A second save after an update hits the same row and changes nothing. */
  lemma IdempotentAfterUpdate(t: Table, rec: Record, i: nat)
    requires Valid(t) && FirstMatch(t.rows, rec, 0) == Some(i)
    ensures Upsert(Upsert(t, rec), rec) == Upsert(t, rec)
  {
    var m := Merged(t.rows[i], t.rows[i].email, rec);
    var u := Table(t.rows[i := m], t.nextId);
    UpsertAt(t, rec, i);
    UpsertValid(t, rec);
    MergedMatches(t.rows[i], rec);
    assert u.rows[..i] == t.rows[..i];
    FirstMatchKept(t.rows, u.rows, rec, i);
    UpsertAt(u, rec, i);
    MergeTwice(t.rows[i], rec);
    UpdateSame(u.rows, i, Merged(u.rows[i], u.rows[i].email, rec));
  }

  /** Writing a row's own value back leaves the rows as they are. */
  lemma UpdateSame(rows: seq<Row>, i: nat, r: Row)
    requires i < |rows| && rows[i] == r
    ensures rows[i := r] == rows
  {
  }

  /** A second save after an insert hits the inserted row and changes
      nothing, when the record has a key the row can match on. */
  lemma IdempotentAfterInsert(t: Table, rec: Record)
    requires Valid(t) && FirstMatch(t.rows, rec, 0).None? && (rec.email.Some? || rec.phone.Some?)
    ensures Upsert(Upsert(t, rec), rec) == Upsert(t, rec)
  {
    var u := Upsert(t, rec);
    var n := |t.rows|;
    UpsertValid(t, rec);
    assert u.rows == t.rows + [Fresh(t.nextId, rec)];
    assert Matches(u.rows[n], rec);
    assert forall j :: 0 <= j < n ==> u.rows[j] == t.rows[j];
    assert FirstMatch(u.rows, rec, 0) == Some(n);
    UpdateOneRow(u, n, rec);
    assert Merged(u.rows[n], u.rows[n].email, rec) == u.rows[n];
  }

  /** Saving a record with an email or a phone twice leaves the table as
      saving it once. */
  lemma UpsertIdempotent(t: Table, rec: Record)
    requires Valid(t) && (rec.email.Some? || rec.phone.Some?)
    ensures Upsert(Upsert(t, rec), rec) == Upsert(t, rec)
  {
    match FirstMatch(t.rows, rec, 0)
    case Some(i) => IdempotentAfterUpdate(t, rec, i);
    case None => IdempotentAfterInsert(t, rec);
  }

  /** The database: the table's rows in id order and the AUTOINCREMENT
      counter, changed in place by the store operations. */
  class Database {
    var rows: seq<Row>
    var nextId: nat

    function State(): Table
      reads this
    {
      Table(rows, nextId)
    }

    /** `init_db` on a new database: an empty table whose first id is 1. */
    constructor ()
      ensures rows == [] && nextId == 1
      ensures Valid(State())
    {
      rows := [];
      nextId := 1;
    }

    /** `_find_existing_record`: the id and the email of the first matching
      row, or None. */
    function FindExisting(rec: Record): (r: Option<(nat, Option<string>)>)
      reads this
      ensures r.None? <==> forall j :: 0 <= j < |rows| ==> !Matches(rows[j], rec)
      ensures r.Some? ==> exists i :: 0 <= i < |rows| && Matches(rows[i], rec) && r.value == (rows[i].id, rows[i].email)
                            && forall j :: 0 <= j < i ==> !Matches(rows[j], rec)
    {
      match FirstMatch(rows, rec, 0)
      case Some(i) => Some((rows[i].id, rows[i].email))
      case None => None
    }

    /** `_update_existing_record`: assembles the SET list, the email first
      and only when the stored one is empty and the new one is not, then
      applies it to the row with the given id. */
    method UpdateExisting(found: (nat, Option<string>), rec: Record)
      modifies this
      ensures rows == UpdateWhere(old(rows), found.0, found.1, rec)
      ensures nextId == old(nextId)
    {
      var (recordId, existingEmail) := found;
      var updates: seq<Assignment> := [];
      if !Present(existingEmail) && Present(rec.email) {
        updates := updates + [Assign(EmailColumn, rec.email)];
      }
      updates := updates + [Assign(NameColumn, rec.name), Assign(SkillsColumn, rec.skills), Assign(ExperienceColumn, rec.experience)];
      SetListMerges(existingEmail, rec, updates);
      rows := ApplyWhere(rows, recordId, updates);
    }

    /** `_insert_new_record` */
    method InsertNew(rec: Record)
      modifies this
      ensures rows == old(rows) + [Fresh(old(nextId), rec)]
      ensures nextId == old(nextId) + 1
    {
      rows := rows + [Fresh(nextId, rec)];
      nextId := nextId + 1;
    }

    /** `save_to_db` */
    method Save(rec: Record)
      requires Valid(State())
      modifies this
      ensures State() == Upsert(old(State()), rec)
      ensures Valid(State())
    {
      UpsertValid(State(), rec);
      var found := FindExisting(rec);
      if found.Some? {
        UpdateExisting(found.value, rec);
      } else {
        InsertNew(rec);
      }
    }
  }

  // ---------------------------------------------------------------------
  // The SET list of the UPDATE statement.

  datatype Column = EmailColumn | NameColumn | SkillsColumn | ExperienceColumn

  /** One `column = ?` of the SET list with its bound value. */
  datatype Assignment = Assign(column: Column, value: Option<string>)

  function Apply(row: Row, a: Assignment): Row {
    match a.column
    case EmailColumn => row.(email := a.value)
    case NameColumn => row.(name := a.value)
    case SkillsColumn => row.(skills := a.value)
    case ExperienceColumn => row.(experience := a.value)
  }

  /** The assignments applied left to right. */
  function ApplyAll(row: Row, updates: seq<Assignment>): Row
    decreases |updates|
  {
    if updates == [] then row else ApplyAll(Apply(row, updates[0]), updates[1..])
  }

  /** The UPDATE applied to every row with the given id. */
  function ApplyWhere(rows: seq<Row>, id: nat, updates: seq<Assignment>): (r: seq<Row>)
    ensures |r| == |rows|
    ensures forall k :: 0 <= k < |rows| ==> r[k] == if rows[k].id == id then ApplyAll(rows[k], updates) else rows[k]
  {
    if rows == [] then []
    else
      [if rows[0].id == id then ApplyAll(rows[0], updates) else rows[0]]
      + ApplyWhere(rows[1..], id, updates)
  }

  /** The fixed part of the SET list overwrites name, skills and experience. */
  lemma TailWrites(row: Row, rec: Record)
    ensures ApplyAll(row, [Assign(NameColumn, rec.name), Assign(SkillsColumn, rec.skills), Assign(ExperienceColumn, rec.experience)])
      == row.(name := rec.name, skills := rec.skills, experience := rec.experience)
  {
    var tail := [Assign(NameColumn, rec.name), Assign(SkillsColumn, rec.skills), Assign(ExperienceColumn, rec.experience)];
    var r1 := row.(name := rec.name);
    var r2 := r1.(skills := rec.skills);
    var r3 := r2.(experience := rec.experience);
    assert tail[1..] == [Assign(SkillsColumn, rec.skills), Assign(ExperienceColumn, rec.experience)];
    assert tail[1..][1..] == [Assign(ExperienceColumn, rec.experience)];
    assert tail[1..][1..][1..] == [];
    assert ApplyAll(r3, []) == r3;
    assert ApplyAll(r2, tail[1..][1..]) == r3;
    assert ApplyAll(r1, tail[1..]) == r3;
  }

  /** The SET list that `_update_existing_record` builds writes exactly the
      merged row. */
  lemma SetListMerges(existingEmail: Option<string>, rec: Record, updates: seq<Assignment>)
    requires updates ==
      (if !Present(existingEmail) && Present(rec.email) then [Assign(EmailColumn, rec.email)] else [])
      + [Assign(NameColumn, rec.name), Assign(SkillsColumn, rec.skills), Assign(ExperienceColumn, rec.experience)]
    ensures forall rows: seq<Row>, id: nat :: ApplyWhere(rows, id, updates) == UpdateWhere(rows, id, existingEmail, rec)
  {
    var tail := [Assign(NameColumn, rec.name), Assign(SkillsColumn, rec.skills), Assign(ExperienceColumn, rec.experience)];
    forall row: Row ensures ApplyAll(row, updates) == Merged(row, existingEmail, rec) {
      var start := if !Present(existingEmail) && Present(rec.email) then row.(email := rec.email) else row;
      assert ApplyAll(row, updates) == ApplyAll(start, tail) by {
        if !Present(existingEmail) && Present(rec.email) {
          assert updates[0] == Assign(EmailColumn, rec.email);
          assert updates[1..] == tail;
        } else {
          assert updates == tail;
        }
      }
      TailWrites(start, rec);
    }
    forall rows: seq<Row>, id: nat ensures ApplyWhere(rows, id, updates) == UpdateWhere(rows, id, existingEmail, rec) {
      var a := ApplyWhere(rows, id, updates);
      var b := UpdateWhere(rows, id, existingEmail, rec);
      assert |a| == |b|;
      forall k | 0 <= k < |a| ensures a[k] == b[k] {
      }
    }
  }
}
