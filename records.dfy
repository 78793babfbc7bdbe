/**
 * `fetchUserData`: the per-user scan over every data sheet, keeping from each
 * sheet the first row whose column-0 key matches, as a header-to-cell record.
 */
module Records {
  import opened Wrappers
  import opened Grid
  import Text

  /** One matched row: header name to cell. */
  type Record = map<string, string>

  /** Sheet name to the record found in that sheet. */
  type Results = map<string, Record>

  /** A data row (index 1 or more) whose normalized key equals `target`. */
  predicate RowMatches(rows: seq<Row>, target: string, i: int) {
    1 <= i < |rows| && Text.Normalize(Cell(rows[i], 0)) == target
  }

  /** The first matching row at or after index `i`. */
  function FirstMatchFrom(rows: seq<Row>, target: string, i: nat): (r: Option<nat>)
    requires 1 <= i <= |rows|
    ensures r.Some? ==> i <= r.value < |rows| && RowMatches(rows, target, r.value)
    ensures forall j :: i <= j && (r.None? || j < r.value) ==> !RowMatches(rows, target, j)
    decreases |rows| - i
  {
    if i == |rows| then None
    else if Text.Normalize(Cell(rows[i], 0)) == target then Some(i)
    else FirstMatchFrom(rows, target, i + 1)
  }

  /** The first data row whose key matches; the header row is never a candidate. */
  function FirstMatch(rows: seq<Row>, target: string): Option<nat>
    requires |rows| >= 1
  {
    FirstMatchFrom(rows, target, 1)
  }

  /** `rowData` after the first `n` header columns: a non-empty header maps
      to the cell below it, and a later duplicate header overwrites. */
  function RecordUpTo(headers: Row, row: Row, n: nat): Record
    requires n <= |headers|
  {
    if n == 0 then map[]
    else
      var m := RecordUpTo(headers, row, n - 1);
      if headers[n - 1] != "" then m[headers[n - 1] := Cell(row, n - 1)] else m
  }

  function BuildRecord(headers: Row, row: Row): Record {
    RecordUpTo(headers, row, |headers|)
  }

  /** What one sheet contributes: nothing when it is excluded, has fewer than
      two rows, or has no matching data row. */
  function SheetRecord(sheet: Sheet, target: string, excluded: seq<string>): Option<Record> {
    if sheet.name in excluded || |sheet.rows| < 2 then None
    else
      match FirstMatch(sheet.rows, target)
      case None => None
      case Some(i) => Some(BuildRecord(sheet.rows[0], sheet.rows[i]))
  }

  /** The `results` object after visiting the sheets in order. */
  function Collect(sheets: seq<Sheet>, target: string, excluded: seq<string>): Results
    decreases |sheets|
  {
    if sheets == [] then map[]
    else
      var before := Collect(sheets[..|sheets| - 1], target, excluded);
      var last := sheets[|sheets| - 1];
      match SheetRecord(last, target, excluded)
      case None => before
      case Some(rec) => before[last.name := rec]
  }

  /** The lookup result: None instead of an empty object. */
  function Lookup(idKey: string, sheets: seq<Sheet>, excluded: seq<string>): Option<Results> {
    var results := Collect(sheets, Text.Normalize(idKey), excluded);
    if |results| > 0 then Some(results) else None
  }

  /** The row loop of `fetchUserData`: the first data row whose key matches,
      stopping at the first hit. */
  method FindRow(data: seq<Row>, target: string) returns (found: Option<nat>)
    requires |data| >= 1
    ensures found == FirstMatch(data, target)
    ensures found.Some? ==> 1 <= found.value < |data|
  {
    var i := 1;
    while i < |data|
      invariant 1 <= i <= |data|
      invariant FirstMatch(data, target) == FirstMatchFrom(data, target, i)
    {
      var rowKey := Text.Normalize(Cell(data[i], 0));
      if rowKey == target {
        return Some(i);
      }
      i := i + 1;
    }
    return None;
  }

  /** The column loop of `fetchUserData`: `rowData[headers[j]] = row[j]` for
      every non-empty header, left to right. */
  method BuildRowData(headers: Row, row: Row) returns (rowData: Record)
    ensures rowData == BuildRecord(headers, row)
  {
    rowData := map[];
    var j := 0;
    while j < |headers|
      invariant 0 <= j <= |headers|
      invariant rowData == RecordUpTo(headers, row, j)
    {
      if headers[j] != "" {
        rowData := rowData[headers[j] := Cell(row, j)];
      }
      j := j + 1;
    }
  }

  /** `fetchUserData(idKey, config)` over the sheets of the spreadsheet, in
      order; `excluded` is `config.EXCLUDED_SHEETS`. */
  method FetchUserData(idKey: string, sheets: seq<Sheet>, excluded: seq<string>) returns (r: Option<Results>)
    ensures r == Lookup(idKey, sheets, excluded)
    ensures r != Some(map[])
    ensures r.Some? ==> forall name :: name in r.value ==> name !in excluded
  {
    var target := Text.Normalize(idKey);
    var results: Results := map[];
    var s := 0;
    while s < |sheets|
      invariant 0 <= s <= |sheets|
      invariant results == Collect(sheets[..s], target, excluded)
    {
      var sheet := sheets[s];
      CollectStep(sheets, s, target, excluded);
      if sheet.name !in excluded && |sheet.rows| >= 2 {
        var data := sheet.rows;
        var found := FindRow(data, target);
        if found.Some? {
          var rowData := BuildRowData(data[0], data[found.value]);
          results := results[sheet.name := rowData];
        }
      }
      s := s + 1;
    }
    assert sheets[..s] == sheets;
    r := if |results| > 0 then Some(results) else None;
    ExcludedNeverReturned(sheets, target, excluded);
  }

  /** An excluded sheet never contributes, whatever it holds. */
  lemma {:induction false} ExcludedNeverReturned(sheets: seq<Sheet>, target: string, excluded: seq<string>)
    ensures forall name :: name in Collect(sheets, target, excluded) ==> name !in excluded
    decreases |sheets|
  {
    if sheets != [] {
      ExcludedNeverReturned(sheets[..|sheets| - 1], target, excluded);
    }
  }

  /** Visiting one more sheet adds its record, if any, under its name. */
  lemma CollectStep(sheets: seq<Sheet>, s: nat, target: string, excluded: seq<string>)
    requires s < |sheets|
    ensures Collect(sheets[..s + 1], target, excluded) ==
      match SheetRecord(sheets[s], target, excluded)
      case None => Collect(sheets[..s], target, excluded)
      case Some(rec) => Collect(sheets[..s], target, excluded)[sheets[s].name := rec]
  {
    assert sheets[..s + 1][..s] == sheets[..s];
  }

  /** A sheet name is in the results exactly when some sheet of that name
      contributes a record. */
  lemma {:induction false} CollectKeys(sheets: seq<Sheet>, target: string, excluded: seq<string>, name: string)
    ensures name in Collect(sheets, target, excluded) <==>
      exists k :: 0 <= k < |sheets| && sheets[k].name == name && SheetRecord(sheets[k], target, excluded).Some?
    decreases |sheets|
  {
    if sheets != [] {
      var init := sheets[..|sheets| - 1];
      var last := |sheets| - 1;
      CollectKeys(init, target, excluded, name);
      if name in Collect(sheets, target, excluded) {
        if sheets[last].name == name && SheetRecord(sheets[last], target, excluded).Some? {
        } else {
          var k :| 0 <= k < |init| && init[k].name == name && SheetRecord(init[k], target, excluded).Some?;
          assert sheets[k] == init[k];
        }
      } else {
        forall k | 0 <= k < |sheets| && sheets[k].name == name
          ensures SheetRecord(sheets[k], target, excluded).None?
        {
          if k < last {
            assert sheets[k] == init[k];
          }
        }
      }
    }
  }

  /** The record kept under a name is that of the last sheet of that name
      that contributes one. */
  lemma {:induction false} CollectValue(sheets: seq<Sheet>, target: string, excluded: seq<string>, k: nat)
    requires k < |sheets| && SheetRecord(sheets[k], target, excluded).Some?
    requires forall j :: k < j < |sheets| && sheets[j].name == sheets[k].name ==>
      SheetRecord(sheets[j], target, excluded).None?
    ensures sheets[k].name in Collect(sheets, target, excluded)
    ensures Collect(sheets, target, excluded)[sheets[k].name] == SheetRecord(sheets[k], target, excluded).value
    decreases |sheets|
  {
    var init := sheets[..|sheets| - 1];
    if k < |sheets| - 1 {
      assert init[k] == sheets[k];
      CollectValue(init, target, excluded, k);
    }
  }

  /** The lookup is null, never an empty object, and it is null exactly when
      no sheet contributes a record. */
  lemma NullWhenNothingMatched(idKey: string, sheets: seq<Sheet>, excluded: seq<string>)
    ensures Lookup(idKey, sheets, excluded) != Some(map[])
    ensures Lookup(idKey, sheets, excluded).None? <==>
      forall k :: 0 <= k < |sheets| ==> SheetRecord(sheets[k], Text.Normalize(idKey), excluded).None?
  {
    var target := Text.Normalize(idKey);
    var results := Collect(sheets, target, excluded);
    if |results| == 0 {
      forall k | 0 <= k < |sheets|
        ensures SheetRecord(sheets[k], target, excluded).None?
      {
        CollectKeys(sheets, target, excluded, sheets[k].name);
        assert sheets[k].name !in results;
      }
    } else {
      var name :| name in results;
      CollectKeys(sheets, target, excluded, name);
    }
  }

  /** A sheet's record comes from its first data row whose trimmed,
      lower-cased key equals the trimmed, lower-cased lookup key; the header
      row and later matching rows are never used. */
  lemma FirstMatchWins(sheet: Sheet, target: string, excluded: seq<string>, i: nat)
    requires sheet.name !in excluded
    requires 1 <= i < |sheet.rows| && Text.Normalize(Cell(sheet.rows[i], 0)) == target
    requires forall j :: 1 <= j < i ==> Text.Normalize(Cell(sheet.rows[j], 0)) != target
    ensures SheetRecord(sheet, target, excluded) == Some(BuildRecord(sheet.rows[0], sheet.rows[i]))
  {
    assert RowMatches(sheet.rows, target, i);
    assert forall j :: 1 <= j < i ==> !RowMatches(sheet.rows, target, j);
  }

  /** A sheet without a matching data row contributes nothing. */
  lemma NoMatchNoRecord(sheet: Sheet, target: string, excluded: seq<string>)
    requires forall j :: 1 <= j < |sheet.rows| ==> Text.Normalize(Cell(sheet.rows[j], 0)) != target
    ensures SheetRecord(sheet, target, excluded).None?
  {
    assert forall j :: !RowMatches(sheet.rows, target, j);
  }

  /** A record's keys are exactly the non-empty header cells. */
  lemma {:induction false} RecordKeys(headers: Row, row: Row, n: nat)
    requires n <= |headers|
    ensures forall h :: h in RecordUpTo(headers, row, n) <==> h != "" && h in headers[..n]
    decreases n
  {
    if n > 0 {
      RecordKeys(headers, row, n - 1);
      assert headers[..n] == headers[..n - 1] + [headers[n - 1]];
    }
  }

  /** Each header maps to the cell in the last column carrying that header. */
  lemma {:induction false} RecordValue(headers: Row, row: Row, n: nat, j: nat)
    requires j < n <= |headers| && headers[j] != ""
    requires forall l :: j < l < n ==> headers[l] != headers[j]
    ensures headers[j] in RecordUpTo(headers, row, n)
    ensures RecordUpTo(headers, row, n)[headers[j]] == Cell(row, j)
    decreases n
  {
    if j < n - 1 {
      RecordValue(headers, row, n - 1, j);
    }
  }
}
