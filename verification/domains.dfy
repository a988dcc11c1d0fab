/** The domain-list upload of chatter/domainmaintenance.py: CSV rows of
    `domain_set, domain, subset` are stripped, incomplete ones skipped, and
    the rest upserted; a reset empties the table first. The CSV reader is
    modelled by the rows it yields, the table by the set of records it
    holds. */
module Domains {
  import opened Common
  import opened Strings

  /** `(domain_set, domain, subset)` as stored. */
  datatype DomainRecord = DomainRecord(domainSet: string, domain: string, subset: string)

  /** The stored subset when the row gives none. */
  const NoSubset: string := "None"

  /** A row reaching `strip()` with fewer than three fields: the missing
      field reads as `None` and `None.strip()` raises. */
  datatype RowError = MissingField(row: nat)

  /** A field as the upload sees it: stripped, and never blank when stored. */
  predicate Clean(s: string) {
    |s| > 0 && !IsSpace(s[0]) && !IsSpace(s[|s| - 1])
  }

  /** What one complete row contributes: a record when both the set and
      the domain are non-blank. */
  function RecordOf(row: seq<string>): (r: Option<DomainRecord>)
    requires |row| >= 3
    ensures r.Some? <==> Strip(row[0]) != "" && Strip(row[1]) != ""
    ensures r.Some? ==> Clean(r.value.domainSet) && Clean(r.value.domain) && Clean(r.value.subset)
    ensures r.Some? ==> r.value.subset == (if Strip(row[2]) == "" then NoSubset else Strip(row[2]))
  {
    var ds := Strip(row[0]);
    var d := Strip(row[1]);
    var s := Strip(row[2]);
    if ds != "" && d != "" then Some(DomainRecord(ds, d, if s != "" then s else NoSubset))
    else None
  }

  /** A row the reader yields with fewer than three fields. */
  predicate IsShort(row: seq<string>) {
    0 < |row| < 3
  }

  /** The first short row from index `from`, if any. */
  function FirstShort(rows: seq<seq<string>>, from: nat): Option<nat>
    requires from <= |rows|
    decreases |rows| - from
  {
    if from == |rows| then None
    else if IsShort(rows[from]) then Some(from)
    else FirstShort(rows, from + 1)
  }

  /** The first short row is short, and only complete or empty rows come
      before it; with none, every row is complete or empty. */
  lemma {:induction false} FirstShortIsFirst(rows: seq<seq<string>>, from: nat)
    requires from <= |rows|
    decreases |rows| - from
    ensures FirstShort(rows, from).Some? ==>
              && from <= FirstShort(rows, from).value < |rows| && IsShort(rows[FirstShort(rows, from).value])
              && forall i :: from <= i < FirstShort(rows, from).value ==> !IsShort(rows[i])
    ensures FirstShort(rows, from).None? ==> forall i :: from <= i < |rows| ==> !IsShort(rows[i])
  {
    if from < |rows| && !IsShort(rows[from]) {
      FirstShortIsFirst(rows, from + 1);
    }
  }

  /** The loop of `update_domains` over the rows from index `from`: rows
      with no fields are not yielded by the reader; a short row aborts the
      upload; a complete row adds its record, if any, in order. */
  function CollectFrom(rows: seq<seq<string>>, from: nat): (r: Result<seq<DomainRecord>, RowError>)
    requires from <= |rows|
    decreases |rows| - from
    ensures r.Ok? ==> |r.value| <= |rows| - from
    ensures r.Ok? ==> forall k :: 0 <= k < |r.value| ==>
              Clean(r.value[k].domainSet) && Clean(r.value[k].domain) && Clean(r.value[k].subset)
  {
    if from == |rows| then Ok([]) else Step(rows[from], from, CollectFrom(rows, from + 1))
  }

  /** One iteration of the loop: row `row` at index `at`, in front of what
      the later rows give. */
  function Step(row: seq<string>, at: nat, later: Result<seq<DomainRecord>, RowError>): Result<seq<DomainRecord>, RowError>
  {
    if |row| == 0 then later
    else if |row| < 3 then Err(MissingField(at))
    else
      match later
      case Err(e) => Err(e)
      case Ok(rest) =>
        match RecordOf(row)
        case Some(rec) => Ok([rec] + rest)
        case None => Ok(rest)
  }

  /** The upload fails exactly when some row is short, and names the first
      one. */
  lemma {:induction false} CollectFromFails(rows: seq<seq<string>>, from: nat)
    requires from <= |rows|
    decreases |rows| - from
    ensures CollectFrom(rows, from).Err? <==> FirstShort(rows, from).Some?
    ensures CollectFrom(rows, from).Err? ==> CollectFrom(rows, from).error.row == FirstShort(rows, from).value
  {
    if from < |rows| && !IsShort(rows[from]) {
      CollectFromFails(rows, from + 1);
    }
  }

  /** Some complete row from index `from` makes the record `rec`. */
  predicate Yields(rows: seq<seq<string>>, from: nat, rec: DomainRecord) {
    exists i :: from <= i < |rows| && |rows[i]| >= 3 && RecordOf(rows[i]) == Some(rec)
  }

  /** A successful upload holds exactly the records its complete rows make:
      each row's fields stripped, an empty subset stored as `None`. */
  lemma {:induction false} CollectFromYields(rows: seq<seq<string>>, from: nat, rec: DomainRecord)
    requires from <= |rows|
    requires CollectFrom(rows, from).Ok?
    ensures rec in CollectFrom(rows, from).value <==> Yields(rows, from, rec)
    decreases |rows| - from
  {
    if from < |rows| {
      var row := rows[from];
      assert CollectFrom(rows, from) == Step(row, from, CollectFrom(rows, from + 1));
      assert CollectFrom(rows, from + 1).Ok?;
      CollectFromYields(rows, from + 1, rec);
      if rec in CollectFrom(rows, from).value && !(|row| >= 3 && RecordOf(row) == Some(rec)) {
        assert rec in CollectFrom(rows, from + 1).value;
      }
      if Yields(rows, from, rec) {
        var i :| from <= i < |rows| && |rows[i]| >= 3 && RecordOf(rows[i]) == Some(rec);
        if i > from {
          assert Yields(rows, from + 1, rec);
        }
      }
    }
  }

  /** A CSV of one complete row stores that row's record, if any. */
  lemma OneRow(row: seq<string>)
    requires |row| >= 3
    ensures UpdateDomains([row]) == if RecordOf(row).Some? then Ok([RecordOf(row).value]) else Ok([])
  {
    var rows := [row];
    assert rows[0] == row;
    assert CollectFrom(rows, 1) == Ok([]);
    assert CollectFrom(rows, 0) == Step(row, 0, Ok([]));
    assert UpdateDomains(rows) == CollectFrom(rows, 0);
    if RecordOf(row).Some? {
      var rec := RecordOf(row).value;
      assert [rec] + [] == [rec];
      assert Step(row, 0, Ok([])) == Ok([rec]);
    }
  }

  /** A complete row with a blank subset stores its stripped set and
      domain with the subset `None`. */
  lemma RecordOfBlankSubset(row: seq<string>, domainSet: string, domain: string)
    requires |row| >= 3
    requires Strip(row[0]) == domainSet != "" && Strip(row[1]) == domain != "" && Strip(row[2]) == ""
    ensures RecordOf(row) == Some(DomainRecord(domainSet, domain, NoSubset))
  {
  }

  /** The fields of the row `" news , cnn.com , "`, stripped. */
  lemma PaddedFields()
    ensures Strip(" news ") == "news" && Strip(" cnn.com ") == "cnn.com" && Strip(" ") == ""
  {
    StripPadded("news");
    assert " news " == " " + "news" + " ";
    StripPadded("cnn.com");
    assert " cnn.com " == " " + "cnn.com" + " ";
    assert LeadingSpaces(" ") == 1;
    assert " "[1..] == "";
  }

  /** The row `" news , cnn.com , "` is stored as `("news", "cnn.com", "None")`. */
  lemma UnstrippedRowExample()
    ensures UpdateDomains([[" news ", " cnn.com ", " "]]) == Ok([DomainRecord("news", "cnn.com", NoSubset)])
  {
    var row := [" news ", " cnn.com ", " "];
    PaddedFields();
    RecordOfBlankSubset(row, "news", "cnn.com");
    OneRow(row);
  }

  /** `CollectFromYields` for every record at once. */
  lemma CollectedRecords(rows: seq<seq<string>>)
    requires CollectFrom(rows, 0).Ok?
    ensures forall rec :: rec in CollectFrom(rows, 0).value <==> Yields(rows, 0, rec)
  {
    forall rec
      ensures rec in CollectFrom(rows, 0).value <==> Yields(rows, 0, rec)
    {
      CollectFromYields(rows, 0, rec);
    }
  }

  /** The records `update_domains` upserts, or the error it stops at: it
      fails exactly when some row is short, at the first such row. */
  function UpdateDomains(rows: seq<seq<string>>): (r: Result<seq<DomainRecord>, RowError>)
    ensures r.Err? <==> FirstShort(rows, 0).Some?
    ensures r.Err? ==> r.error.row == FirstShort(rows, 0).value
    ensures r.Ok? ==> |r.value| <= |rows|
    ensures r.Ok? ==> forall rec :: rec in r.value <==> Yields(rows, 0, rec)
  {
    CollectFromFails(rows, 0);
    var r := CollectFrom(rows, 0);
    if r.Ok? then CollectedRecords(rows); r else r
  }

  /** A complete row whose domain set and domain are not blank. */
  predicate Counts(row: seq<string>) {
    |row| >= 3 && Strip(row[0]) != "" && Strip(row[1]) != ""
  }

  /** How many rows from index `from` make a record. */
  function CountRecords(rows: seq<seq<string>>, from: nat): nat
    requires from <= |rows|
    decreases |rows| - from
  {
    if from == |rows| then 0 else (if Counts(rows[from]) then 1 else 0) + CountRecords(rows, from + 1)
  }

  /** A successful upload holds one record per row that makes one. */
  lemma {:induction false} CollectFromCount(rows: seq<seq<string>>, from: nat)
    requires from <= |rows|
    decreases |rows| - from
    ensures CollectFrom(rows, from).Ok? ==> |CollectFrom(rows, from).value| == CountRecords(rows, from)
  {
    if from < |rows| {
      CollectFromCount(rows, from + 1);
    }
  }

  /** A complete row of three clean fields. */
  predicate CleanRow(row: seq<string>) {
    |row| == 3 && Clean(row[0]) && Clean(row[1]) && Clean(row[2])
  }

  /** A clean row in front of a successful upload is stored as it is, ahead
      of the later records. */
  lemma CleanRowStep(rows: seq<seq<string>>, from: nat)
    requires from < |rows| && CleanRow(rows[from]) && CollectFrom(rows, from + 1).Ok?
    ensures CollectFrom(rows, from)
            == Ok([DomainRecord(rows[from][0], rows[from][1], rows[from][2])] + CollectFrom(rows, from + 1).value)
  {
    CleanRowRecord(rows[from]);
    assert CollectFrom(rows, from) == Step(rows[from], from, CollectFrom(rows, from + 1));
  }

  /** The records holding the fields of rows `from..` as they are. */
  function AsIsRecords(rows: seq<seq<string>>, from: nat): (r: seq<DomainRecord>)
    requires from <= |rows| && forall i :: from <= i < |rows| ==> |rows[i]| >= 3
    ensures |r| == |rows| - from
    ensures forall k :: 0 <= k < |r| ==> r[k] == DomainRecord(rows[from + k][0], rows[from + k][1], rows[from + k][2])
  {
    seq(|rows| - from, k requires 0 <= k < |rows| - from => DomainRecord(rows[from + k][0], rows[from + k][1], rows[from + k][2]))
  }

  /** `AsIsRecords` with its first record taken off. */
  lemma AsIsRecordsCons(rows: seq<seq<string>>, from: nat)
    requires from < |rows| && forall i :: from <= i < |rows| ==> |rows[i]| >= 3
    ensures AsIsRecords(rows, from) == [DomainRecord(rows[from][0], rows[from][1], rows[from][2])] + AsIsRecords(rows, from + 1)
  {
    var a := AsIsRecords(rows, from);
    var b := [DomainRecord(rows[from][0], rows[from][1], rows[from][2])] + AsIsRecords(rows, from + 1);
    forall k | 0 <= k < |a|
      ensures a[k] == b[k]
    {
      if k > 0 {
        assert b[k] == AsIsRecords(rows, from + 1)[k - 1];
        assert from + k == from + 1 + (k - 1);
      }
    }
  }

  /** Rows whose three fields are already clean come through unchanged,
      one record per row, in order. */
  lemma {:induction false} CleanRowsKept(rows: seq<seq<string>>, from: nat)
    requires from <= |rows|
    requires forall i :: 0 <= i < |rows| ==> |rows[i]| == 3 && CleanRow(rows[i])
    ensures CollectFrom(rows, from) == Ok(AsIsRecords(rows, from))
    ensures |CollectFrom(rows, from).value| == |rows| - from
    ensures forall k :: 0 <= k < |rows| - from ==>
              CollectFrom(rows, from).value[k] == DomainRecord(rows[from + k][0], rows[from + k][1], rows[from + k][2])
    decreases |rows| - from
  {
    if from < |rows| {
      CleanRowsKept(rows, from + 1);
      CleanRowStep(rows, from);
      AsIsRecordsCons(rows, from);
    } else {
      assert AsIsRecords(rows, from) == [];
    }
  }

  /** A clean complete row is stored as it is. */
  lemma CleanRowRecord(row: seq<string>)
    requires CleanRow(row)
    ensures RecordOf(row) == Some(DomainRecord(row[0], row[1], row[2]))
  {
    StripNoSpaces(row[0]);
    StripNoSpaces(row[1]);
    StripNoSpaces(row[2]);
  }

  /** A row with a blank domain set or domain adds nothing, wherever it
      stands. */
  lemma {:induction false} BlankRowSkipped(rows: seq<seq<string>>, row: seq<string>, from: nat)
    requires from <= |rows|
    requires |row| >= 3 && (Strip(row[0]) == "" || Strip(row[1]) == "")
    ensures CollectFrom(rows + [row], from) == CollectFrom(rows, from)
    decreases |rows| - from
  {
    var rows' := rows + [row];
    if from < |rows| {
      assert rows'[from] == rows[from];
      BlankRowSkipped(rows, row, from + 1);
      assert CollectFrom(rows', from) == Step(rows[from], from, CollectFrom(rows, from + 1));
    } else {
      assert rows'[from] == row && RecordOf(row).None?;
      assert CollectFrom(rows', from + 1) == Ok([]);
    }
  }

  /** The number `update_domains` prints after a successful upload: the
      rows with a non-blank domain set and domain. Nothing is printed when
      a short row aborts the upload. */
  function ReportedCount(rows: seq<seq<string>>): (r: Option<nat>)
    ensures r.None? <==> FirstShort(rows, 0).Some?
    ensures r.Some? ==> r.value == CountRecords(rows, 0) && r.value <= |rows|
  {
    var u := UpdateDomains(rows);
    CollectFromCount(rows, 0);
    if u.Ok? then Some(|u.value|) else None
  }

  /** The table after `update_domains`: the records are added (an existing
      record is left as it is); after an error nothing is added. */
  function ApplyUpdate(table: set<DomainRecord>, rows: seq<seq<string>>): (r: set<DomainRecord>)
    ensures UpdateDomains(rows).Err? ==> r == table
    ensures UpdateDomains(rows).Ok? ==>
              forall rec :: rec in r <==> rec in table || rec in UpdateDomains(rows).value
    ensures UpdateDomains(rows).Ok? ==> forall rec :: rec in r <==> rec in table || Yields(rows, 0, rec)
  {
    match UpdateDomains(rows)
    case Err(_) => table
    case Ok(records) => table + set k | 0 <= k < |records| :: records[k]
  }

  /** `reset_domains`: the table is emptied first, so afterwards it holds
      exactly the uploaded records, or nothing if the upload failed. */
  function ResetDomains(table: set<DomainRecord>, rows: seq<seq<string>>): (r: set<DomainRecord>)
    ensures UpdateDomains(rows).Err? ==> r == {}
    ensures UpdateDomains(rows).Ok? ==> forall rec :: rec in r <==> rec in UpdateDomains(rows).value
    ensures UpdateDomains(rows).Ok? ==> forall rec :: rec in r <==> Yields(rows, 0, rec)
  {
    ApplyUpdate({}, rows)
  }
}
