/** The `contract_templates` table and the four handlers that use it: upload a
    template (deactivate every active row, insert the new one as active),
    activate an existing template, fetch the active one, and list all
    versions newest first.

    The table is an in-memory sequence of rows and `nextId` is its SERIAL id
    sequence; each handler runs as one sequential step. */
module Templates {
  import opened Outcomes
  import opened Documents

  datatype Template = Template(
    id: nat,
    pdf: Blob,
    filename: string,
    createdAt: int,      // the database clock at insertion, in seconds
    isActive: bool,
    note: string)

  /** One entry of the version list: the row without its PDF bytes and note. */
  datatype VersionSummary = VersionSummary(id: nat, filename: string, createdAt: int, isActive: bool)

  // ---------------------------------------------------------------------------
  // Filename check
  // ---------------------------------------------------------------------------

  function LowerChar(c: char): char
  {
    if 'A' <= c <= 'Z' then (c as int + 32) as char else c
  }

  /** Lower-cases the ASCII letters of `s`: no upper-case letter remains,
      and every other character is kept. */
  function Lower(s: string): (r: string)
    ensures |r| == |s|
    ensures forall i :: 0 <= i < |r| ==> !('A' <= r[i] <= 'Z')
    ensures forall i :: 0 <= i < |s| && !('A' <= s[i] <= 'Z') ==> r[i] == s[i]
    ensures forall i :: 0 <= i < |s| && 'A' <= s[i] <= 'Z' ==> r[i] as int == s[i] as int + 32
  {
    seq(|s|, i requires 0 <= i < |s| => LowerChar(s[i]))
  }

  /** Lower-casing an already lower-cased name changes nothing. */
  lemma LowerIdempotent(s: string)
    ensures Lower(Lower(s)) == Lower(s)
  {
  }

  predicate EndsWith(s: string, suffix: string)
  {
    |suffix| <= |s| && s[|s| - |suffix|..] == suffix
  }

  /** An upload is accepted when its lower-cased filename ends in ".pdf". */
  predicate IsPdfName(filename: string)
  {
    EndsWith(Lower(filename), ".pdf")
  }

  /** The extension test is case-insensitive in each of its four characters
      and looks at nothing else of the name. */
  lemma PdfNameIff(filename: string)
    ensures IsPdfName(filename) <==>
              var n := |filename|;
              && n >= 4
              && filename[n - 4] == '.'
              && filename[n - 3] in "pP"
              && filename[n - 2] in "dD"
              && filename[n - 1] in "fF"
  {
  }

  // ---------------------------------------------------------------------------
  // Table predicates
  // ---------------------------------------------------------------------------

  /** The primary key: no two rows share an id. */
  predicate UniqueIds(rows: seq<Template>)
  {
    forall i, j :: 0 <= i < j < |rows| ==> rows[i].id != rows[j].id
  }

  predicate HasId(rows: seq<Template>, id: int)
  {
    exists i :: 0 <= i < |rows| && rows[i].id == id
  }

  /** The single-active invariant. */
  predicate AtMostOneActive(rows: seq<Template>)
  {
    forall i, j :: 0 <= i < j < |rows| && rows[i].isActive ==> !rows[j].isActive
  }

  /** The row with `id` is active and no other row is. */
  predicate OnlyActive(rows: seq<Template>, id: int)
  {
    forall i :: 0 <= i < |rows| ==> (rows[i].isActive <==> rows[i].id == id)
  }

  /** `after` holds the rows of `before`, in order, with at most their flags changed. */
  predicate SameExceptFlags(before: seq<Template>, after: seq<Template>)
  {
    |after| == |before| &&
    forall i :: 0 <= i < |before| ==> after[i].(isActive := false) == before[i].(isActive := false)
  }

  /** The number of active rows. */
  function CountActive(rows: seq<Template>): nat
  {
    if rows == [] then 0 else (if rows[0].isActive then 1 else 0) + CountActive(rows[1..])
  }

  // ---------------------------------------------------------------------------
  // The two UPDATE statements
  // ---------------------------------------------------------------------------

  /** The first UPDATE: clears the active flag of every row; nothing else changes. */
  function DeactivateAll(rows: seq<Template>): (after: seq<Template>)
    ensures SameExceptFlags(rows, after)
    ensures forall i :: 0 <= i < |after| ==> !after[i].isActive
  {
    seq(|rows|, i requires 0 <= i < |rows| =>
      if rows[i].isActive then rows[i].(isActive := false) else rows[i])
  }

  /** The second UPDATE: sets the active flag of every row with the given id;
      every other flag and every other column stays as it was. */
  function SetActiveById(rows: seq<Template>, templateId: int): (after: seq<Template>)
    ensures SameExceptFlags(rows, after)
    ensures forall i :: 0 <= i < |after| ==> (after[i].isActive <==> rows[i].isActive || rows[i].id == templateId)
  {
    seq(|rows|, i requires 0 <= i < |rows| =>
      if rows[i].id == templateId then rows[i].(isActive := true) else rows[i])
  }

  /** The row an upload inserts: lower-cased name, active, and a note naming the upload time. */
  function NewTemplate(id: nat, pdf: Blob, filename: string, createdAt: int, uploadedAt: string): (row: Template)
    ensures row.isActive
    ensures |row.filename| == |filename| && Lower(row.filename) == row.filename
    ensures IsPdfName(row.filename) <==> IsPdfName(filename)
  {
    LowerIdempotent(filename);
    Template(id, pdf, Lower(filename), createdAt, true, "Uploaded at " + uploadedAt)
  }

  // ---------------------------------------------------------------------------
  // Reading the active row
  // ---------------------------------------------------------------------------

  /** Reads the active template: some active row, if there is one. The query
      has no ORDER BY, so which active row is not fixed. */
  function FindActive(rows: seq<Template>): (r: Option<Template>)
    ensures r.Some? <==> exists i :: 0 <= i < |rows| && rows[i].isActive
    ensures r.Some? ==> r.value.isActive && r.value in rows
  {
    if rows == [] then None
    else if rows[0].isActive then Some(rows[0])
    else
      var r := FindActive(rows[1..]);
      assert forall i :: 1 <= i < |rows| ==> rows[i] == rows[1..][i - 1];
      r
  }

  /** Under the single-active invariant the row found is THE active row. */
  lemma FindActiveIsTheActive(rows: seq<Template>, k: nat)
    requires AtMostOneActive(rows)
    requires k < |rows| && rows[k].isActive
    ensures FindActive(rows) == Some(rows[k])
  {
  }

  // ---------------------------------------------------------------------------
  // Counting active rows
  // ---------------------------------------------------------------------------

  lemma {:induction false} CountActiveZero(rows: seq<Template>)
    ensures CountActive(rows) == 0 <==> forall i :: 0 <= i < |rows| ==> !rows[i].isActive
  {
    if rows != [] {
      CountActiveZero(rows[1..]);
      assert forall i :: 1 <= i < |rows| ==> rows[i] == rows[1..][i - 1];
    }
  }

  /** The single-active invariant says exactly that at most one row is active. */
  lemma {:induction false} AtMostOneActiveIffCount(rows: seq<Template>)
    ensures AtMostOneActive(rows) <==> CountActive(rows) <= 1
  {
    if rows != [] {
      var tail := rows[1..];
      AtMostOneActiveIffCount(tail);
      CountActiveZero(tail);
      assert forall i :: 1 <= i < |rows| ==> rows[i] == tail[i - 1];
      if AtMostOneActive(rows) {
        assert AtMostOneActive(tail) by {
          forall i, j | 0 <= i < j < |tail| && tail[i].isActive
            ensures !tail[j].isActive
          {
            assert rows[i + 1] == tail[i] && rows[j + 1] == tail[j];
          }
        }
      }
      if CountActive(rows) <= 1 {
        forall i, j | 0 <= i < j < |rows| && rows[i].isActive
          ensures !rows[j].isActive
        {
          if i > 0 {
            assert tail[i - 1].isActive;
          }
        }
      }
    }
  }

  /** When only the row with `id` is active and ids are unique, exactly one row is active. */
  lemma {:induction false} OnlyActiveCountsOne(rows: seq<Template>, id: int)
    requires UniqueIds(rows) && HasId(rows, id) && OnlyActive(rows, id)
    ensures CountActive(rows) == 1
  {
    var tail := rows[1..];
    assert forall i :: 1 <= i < |rows| ==> rows[i] == tail[i - 1];
    if rows[0].id == id {
      CountActiveZero(tail);
      forall i | 0 <= i < |tail| ensures !tail[i].isActive {
        assert rows[i + 1].id != rows[0].id;
      }
    } else {
      var k :| 0 <= k < |rows| && rows[k].id == id;
      assert tail[k - 1].id == id;
      OnlyActiveCountsOne(tail, id);
    }
  }

  /** An upload leaves the new row as the one active row of a table that grew by that row. */
  lemma UploadLeavesOnlyNew(rows: seq<Template>, t: Template)
    requires UniqueIds(rows) && !HasId(rows, t.id) && t.isActive
    ensures var after := DeactivateAll(rows) + [t];
            && |after| == |rows| + 1
            && SameExceptFlags(rows, after[..|rows|])
            && after[|rows|] == t
            && UniqueIds(after)
            && OnlyActive(after, t.id)
            && CountActive(after) == 1
  {
    var after := DeactivateAll(rows) + [t];
    assert after[..|rows|] == DeactivateAll(rows);
    assert HasId(after, t.id) by { assert after[|rows|].id == t.id; }
    OnlyActiveCountsOne(after, t.id);
  }

  /** Activating an existing id leaves that row as the one active row, flags aside nothing changes. */
  lemma ActivateLeavesOnlyTarget(rows: seq<Template>, id: int)
    requires UniqueIds(rows) && HasId(rows, id)
    ensures var after := SetActiveById(DeactivateAll(rows), id);
            && SameExceptFlags(rows, after)
            && UniqueIds(after)
            && OnlyActive(after, id)
            && CountActive(after) == 1
  {
    var after := SetActiveById(DeactivateAll(rows), id);
    var k :| 0 <= k < |rows| && rows[k].id == id;
    assert after[k].id == id;
    OnlyActiveCountsOne(after, id);
  }

  // ---------------------------------------------------------------------------
  // Listing versions, newest first
  // ---------------------------------------------------------------------------

  function Summary(t: Template): VersionSummary
  {
    VersionSummary(t.id, t.filename, t.createdAt, t.isActive)
  }

  function Summaries(rows: seq<Template>): (s: seq<VersionSummary>)
    ensures |s| == |rows|
    ensures forall i :: 0 <= i < |rows| ==> s[i] == Summary(rows[i])
  {
    if rows == [] then [] else [Summary(rows[0])] + Summaries(rows[1..])
  }

  /** ORDER BY created_at DESC. Rows with equal timestamps may come in any order. */
  predicate NewestFirst(s: seq<VersionSummary>)
  {
    forall i, j :: 0 <= i < j < |s| ==> s[i].createdAt >= s[j].createdAt
  }

  function InsertByDate(v: VersionSummary, s: seq<VersionSummary>): (r: seq<VersionSummary>)
    requires NewestFirst(s)
    ensures NewestFirst(r)
    ensures multiset(r) == multiset(s) + multiset{v}
    ensures r[0] == v || (s != [] && r[0] == s[0])
  {
    if s == [] || v.createdAt >= s[0].createdAt then
      [v] + s
    else
      var rest := InsertByDate(v, s[1..]);
      assert s == [s[0]] + s[1..];
      [s[0]] + rest
  }

  function SortNewestFirst(s: seq<VersionSummary>): (r: seq<VersionSummary>)
    ensures NewestFirst(r)
    ensures multiset(r) == multiset(s)
  {
    if s == [] then []
    else
      assert s == [s[0]] + s[1..];
      InsertByDate(s[0], SortNewestFirst(s[1..]))
  }

  /** The version list: every row's summary exactly once, newest first. */
  function ListVersions(rows: seq<Template>): (versions: seq<VersionSummary>)
    ensures NewestFirst(versions)
    ensures multiset(versions) == multiset(Summaries(rows))
    ensures |versions| == |rows|
  {
    var versions := SortNewestFirst(Summaries(rows));
    assert |versions| == |multiset(versions)| == |multiset(Summaries(rows))|;
    versions
  }

  /** Every template is listed, and the list holds nothing else. */
  lemma ListVersionsComplete(rows: seq<Template>, v: VersionSummary)
    ensures v in ListVersions(rows) <==> exists i :: 0 <= i < |rows| && Summary(rows[i]) == v
  {
    var versions := ListVersions(rows);
    assert v in versions <==> v in multiset(versions);
    assert v in Summaries(rows) <==> v in multiset(Summaries(rows));
  }

  // ---------------------------------------------------------------------------
  // The table and its handlers
  // ---------------------------------------------------------------------------

  class TemplateStore {
    var rows: seq<Template>
    var nextId: nat

    ghost predicate Valid()
      reads this
    {
      && UniqueIds(rows)
      && AtMostOneActive(rows)
      && forall i :: 0 <= i < |rows| ==> rows[i].id < nextId
    }

    /** An empty table whose SERIAL sequence starts at 1. */
    constructor ()
      ensures Valid() && rows == [] && nextId == 1
    {
      rows := [];
      nextId := 1;
    }

    /** Stores an uploaded PDF as the new active template and returns its id. */
    method UploadContract(pdf: Blob, filename: string, createdAt: int, uploadedAt: string) returns (r: Result<nat>)
      requires Valid()
      modifies this
      ensures Valid()
      ensures !IsPdfName(filename) ==>
                r == Failure(InvalidFormat) && rows == old(rows) && nextId == old(nextId)
      ensures IsPdfName(filename) ==>
                && r == Success(old(nextId))
                && nextId == old(nextId) + 1
                && rows == DeactivateAll(old(rows)) + [NewTemplate(old(nextId), pdf, filename, createdAt, uploadedAt)]
                && OnlyActive(rows, old(nextId))
                && CountActive(rows) == 1
    {
      var name := Lower(filename);
      if !EndsWith(name, ".pdf") {
        return Failure(InvalidFormat);
      }
      var t := NewTemplate(nextId, pdf, filename, createdAt, uploadedAt);
      UploadLeavesOnlyNew(rows, t);
      rows := DeactivateAll(rows);
      rows := rows + [t];
      nextId := nextId + 1;
      AtMostOneActiveIffCount(rows);
      r := Success(t.id);
    }

    /** Makes the template with `templateId` the one active template. */
    method ActivateContract(templateId: int) returns (r: Result<int>)
      requires Valid()
      modifies this
      ensures Valid()
      ensures nextId == old(nextId)
      ensures !HasId(old(rows), templateId) ==>
                r == Failure(TemplateNotFound) && rows == old(rows)
      ensures HasId(old(rows), templateId) ==>
                && r == Success(templateId)
                && rows == SetActiveById(DeactivateAll(old(rows)), templateId)
                && OnlyActive(rows, templateId)
                && CountActive(rows) == 1
    {
      if !(exists i :: 0 <= i < |rows| && rows[i].id == templateId) {
        return Failure(TemplateNotFound);
      }
      ActivateLeavesOnlyTarget(rows, templateId);
      rows := DeactivateAll(rows);
      rows := SetActiveById(rows, templateId);
      AtMostOneActiveIffCount(rows);
      r := Success(templateId);
    }

    /** The id and filename of the active template. */
    method ActiveContract() returns (r: Result<(nat, string)>)
      requires Valid()
      ensures r.Failure? <==> forall i :: 0 <= i < |rows| ==> !rows[i].isActive
      ensures r.Failure? ==> r.error == NoActiveTemplate
      ensures forall i :: 0 <= i < |rows| && rows[i].isActive ==> r == Success((rows[i].id, rows[i].filename))
    {
      var found := FindActive(rows);
      if found.None? {
        return Failure(NoActiveTemplate);
      }
      forall i | 0 <= i < |rows| && rows[i].isActive
        ensures found == Some(rows[i])
      {
        FindActiveIsTheActive(rows, i);
      }
      r := Success((found.value.id, found.value.filename));
    }

    /** All templates, newest first. */
    method ListContractVersions() returns (versions: seq<VersionSummary>)
      ensures NewestFirst(versions)
      ensures multiset(versions) == multiset(Summaries(rows))
    {
      versions := ListVersions(rows);
    }
  }
}
