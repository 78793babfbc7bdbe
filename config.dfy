/**
 * The system configuration: defaults overridden by the key/value rows of the
 * `環境設定` sheet, followed by the constants the scripts always inject.
 */
module Config {
  import opened Wrappers
  import opened Grid
  import Text

  const CONFIG_SHEET_NAME := "環境設定"
  const DEFAULT_EXCLUDED: seq<string> := ["環境設定", "Log", "Draft", "Sheet1"]
  const OPENID_ENDPOINT := "https://openid.ntpc.edu.tw/OpenId/Provider"
  const RESTRICTION_MESSAGE := "本系統僅限本校教職員使用。"

  /** The keys recognised in column 0 of the configuration sheet. */
  const KEY_SCHOOL_NAME := "學校名稱"
  const KEY_PAGE_TITLE := "網站標題"
  const KEY_LOGO_LEFT_LINK := "左側Logo連結"
  const KEY_LOGO_LEFT_FILE := "左側Logo檔案ID"
  const KEY_LOGO_RIGHT_LINK := "右側Logo連結"
  const KEY_LOGO_RIGHT_FILE := "右側Logo檔案ID"
  const KEY_EXCLUDED := "排除工作表"

  /** The fields the configuration rows may change. */
  datatype Settings = Settings(
    schoolName: string,
    logoLeftId: string,
    logoRightId: string,
    pageTitle: string,
    excludedSheets: seq<string>)

  /** The access restriction injected after the rows are read. */
  datatype Restriction = Restriction(enabled: bool, keyword: string, errorMessage: string)

  /** The configuration object every request handler receives. */
  datatype SystemConfig = SystemConfig(
    schoolName: string,
    logoLeftId: string,
    logoRightId: string,
    pageTitle: string,
    excludedSheets: seq<string>,
    openIdEndpoint: string,
    restriction: Restriction)

  const DEFAULTS := Settings("測試學校", "", "", "查詢系統", DEFAULT_EXCLUDED)

  predicate NoDuplicates<T(==)>(s: seq<T>) {
    forall i, j :: 0 <= i < j < |s| ==> s[i] != s[j]
  }

  /** `[...new Set(s)]`: the elements of `s`, each at its first occurrence. */
  function Dedupe(s: seq<string>): seq<string> {
    if s == [] then []
    else
      var d := Dedupe(s[..|s| - 1]);
      if s[|s| - 1] in d then d else d + [s[|s| - 1]]
  }

  /** De-duplicating leaves no name twice and loses none. */
  lemma {:induction false} DedupeSpec(s: seq<string>)
    ensures NoDuplicates(Dedupe(s))
    ensures forall x :: x in Dedupe(s) <==> x in s
    decreases |s|
  {
    if s != [] {
      var p := s[..|s| - 1];
      DedupeSpec(p);
      assert s == p + [s[|s| - 1]];
    }
  }

  /** De-duplicating keeps a duplicate-free prefix as it is. */
  lemma {:induction false} DedupeKeepsPrefix(s: seq<string>, m: nat)
    requires m <= |s| && NoDuplicates(s[..m])
    ensures |Dedupe(s)| >= m && Dedupe(s)[..m] == s[..m]
    decreases |s|
  {
    if |s| == m {
      DedupeFixed(s);
    } else {
      assert s[..|s| - 1][..m] == s[..m];
      DedupeKeepsPrefix(s[..|s| - 1], m);
    }
  }

  /** A duplicate-free sequence is its own de-duplication. */
  lemma {:induction false} DedupeFixed(s: seq<string>)
    requires NoDuplicates(s)
    ensures Dedupe(s) == s
    decreases |s|
  {
    if s != [] {
      var p := s[..|s| - 1];
      DedupeFixed(p);
      assert s[|s| - 1] !in p;
      assert p + [s[|s| - 1]] == s;
    }
  }

  /** `String(value).split(',').map(s => s.trim())`. */
  function ExcludedParts(value: string): seq<string> {
    var raw := Text.Split(value, ',');
    seq(|raw|, k requires 0 <= k < |raw| => Text.Trim(raw[k]))
  }

  /** The column-0 key of a configuration row, trimmed. */
  function RowKey(row: Row): string {
    Text.Trim(Cell(row, 0))
  }

  /** The four single-valued settings a row can set. */
  datatype Field = SchoolName | PageTitle | LogoLeft | LogoRight

  /** What a key does: set one field, add excluded sheets, or nothing. */
  datatype KeyKind = SetField(field: Field) | AddExcluded | Unrecognised

  /** The key comparisons, in the order the scripts make them; each logo has
      two aliases. */
  function Classify(key: string): KeyKind {
    if key == KEY_SCHOOL_NAME then SetField(SchoolName)
    else if key == KEY_PAGE_TITLE then SetField(PageTitle)
    else if key == KEY_LOGO_LEFT_LINK || key == KEY_LOGO_LEFT_FILE then SetField(LogoLeft)
    else if key == KEY_LOGO_RIGHT_LINK || key == KEY_LOGO_RIGHT_FILE then SetField(LogoRight)
    else if key == KEY_EXCLUDED then AddExcluded
    else Unrecognised
  }

  function Get(s: Settings, f: Field): string {
    match f
    case SchoolName => s.schoolName
    case PageTitle => s.pageTitle
    case LogoLeft => s.logoLeftId
    case LogoRight => s.logoRightId
  }

  function Set(s: Settings, f: Field, value: string): Settings {
    match f
    case SchoolName => s.(schoolName := value)
    case PageTitle => s.(pageTitle := value)
    case LogoLeft => s.(logoLeftId := value)
    case LogoRight => s.(logoRightId := value)
  }

  /** A key sets field `f`. */
  predicate Sets(key: string, f: Field) {
    Classify(key) == SetField(f)
  }

  /** The effect of a row of the given kind and column-1 value. */
  function ApplyKind(s: Settings, kind: KeyKind, value: string): Settings {
    match kind
    case SetField(f) => Set(s, f, value)
    case AddExcluded =>
      if value != "" then s.(excludedSheets := Dedupe(s.excludedSheets + ExcludedParts(value))) else s
    case Unrecognised => s
  }

  /** The effect of one configuration row. */
  function ApplyRow(s: Settings, row: Row): Settings {
    ApplyKind(s, Classify(RowKey(row)), Cell(row, 1))
  }

  /** The rows applied one after another, first row first. */
  function ApplyRows(s: Settings, rows: seq<Row>): Settings
    decreases |rows|
  {
    if rows == [] then s else ApplyRow(ApplyRows(s, rows[..|rows| - 1]), rows[|rows| - 1])
  }

  /** Applying one more row to a prefix of the rows. */
  lemma ApplyRowsStep(s0: Settings, rows: seq<Row>, i: nat)
    requires i < |rows|
    ensures ApplyRows(s0, rows[..i + 1]) == ApplyRow(ApplyRows(s0, rows[..i]), rows[i])
  {
    assert rows[..i + 1][..i] == rows[..i];
  }

  /** The constants injected after the rows: the provider endpoint and an
      always-enabled restriction to the final school name. */
  function Inject(s: Settings): SystemConfig {
    SystemConfig(s.schoolName, s.logoLeftId, s.logoRightId, s.pageTitle, s.excludedSheets,
                 OPENID_ENDPOINT, Restriction(true, s.schoolName, RESTRICTION_MESSAGE))
  }

  /** The configuration for a configuration sheet that may be missing. */
  function Configure(sheet: Option<seq<Row>>): SystemConfig {
    match sheet
    case None => Inject(DEFAULTS)
    case Some(rows) => Inject(ApplyRows(DEFAULTS, rows))
  }

  /** `getSystemConfig`: copies the defaults and reassigns their fields row by
      row; `sheet` is None when the configuration sheet does not exist. */
  method GetSystemConfig(sheet: Option<seq<Row>>) returns (config: SystemConfig)
    ensures config == Configure(sheet)
    ensures config.restriction.enabled && config.restriction.keyword == config.schoolName
    ensures config.openIdEndpoint == OPENID_ENDPOINT
    ensures NoDuplicates(config.excludedSheets)
    ensures |config.excludedSheets| >= |DEFAULT_EXCLUDED|
    ensures config.excludedSheets[..|DEFAULT_EXCLUDED|] == DEFAULT_EXCLUDED
  {
    var s := DEFAULTS;
    if sheet.Some? {
      var data := sheet.value;
      var i := 0;
      while i < |data|
        invariant 0 <= i <= |data|
        invariant s == ApplyRows(DEFAULTS, data[..i])
      {
        var row := data[i];
        var key := Text.Trim(Cell(row, 0));
        var value := Cell(row, 1);
        ApplyRowsStep(DEFAULTS, data, i);
        ghost var before := s;
        match Classify(key) {
          case SetField(f) =>
            s := Set(s, f, value);
          case AddExcluded =>
            if value != "" {
              var extra := ExcludedParts(value);
              s := s.(excludedSheets := Dedupe(s.excludedSheets + extra));
            }
          case Unrecognised =>
        }
        assert s == ApplyKind(before, Classify(key), value);
        i := i + 1;
      }
      assert data[..i] == data;
    }
    config := Inject(s);
    ExcludedInvariant(sheet);
  }

  /** The excluded-sheet list never holds a name twice and always starts with
      the default list, so the configuration sheet itself is always excluded. */
  lemma ExcludedInvariant(sheet: Option<seq<Row>>)
    ensures NoDuplicates(Configure(sheet).excludedSheets)
    ensures |Configure(sheet).excludedSheets| >= |DEFAULT_EXCLUDED|
    ensures Configure(sheet).excludedSheets[..|DEFAULT_EXCLUDED|] == DEFAULT_EXCLUDED
    ensures CONFIG_SHEET_NAME in Configure(sheet).excludedSheets
  {
    assert NoDuplicates(DEFAULT_EXCLUDED);
    if sheet.Some? {
      ExcludedRows(DEFAULTS, sheet.value);
    }
    var e := Configure(sheet).excludedSheets;
    assert e[..|DEFAULT_EXCLUDED|][0] == CONFIG_SHEET_NAME;
  }

  lemma {:induction false} ExcludedRows(s0: Settings, rows: seq<Row>)
    requires NoDuplicates(s0.excludedSheets)
    ensures NoDuplicates(ApplyRows(s0, rows).excludedSheets)
    ensures |ApplyRows(s0, rows).excludedSheets| >= |s0.excludedSheets|
    ensures ApplyRows(s0, rows).excludedSheets[..|s0.excludedSheets|] == s0.excludedSheets
    decreases |rows|
  {
    if rows != [] {
      var prev := ApplyRows(s0, rows[..|rows| - 1]);
      ExcludedRows(s0, rows[..|rows| - 1]);
      var row := rows[|rows| - 1];
      if Classify(RowKey(row)) == AddExcluded {
        ExcludedRowMerge(prev, row);
        var e := ApplyRows(s0, rows).excludedSheets;
        assert e[..|s0.excludedSheets|] == e[..|prev.excludedSheets|][..|s0.excludedSheets|];
      } else {
        ApplyRowField(prev, row, SchoolName);
      }
    }
  }

  /** With no configuration sheet, or none of whose rows is recognised, the
      configuration is the defaults plus the injected constants. */
  lemma {:induction false} UnrecognisedRowsKeepDefaults(rows: seq<Row>)
    requires forall k :: 0 <= k < |rows| ==> Classify(RowKey(rows[k])).Unrecognised?
    ensures Configure(Some(rows)) == Configure(None)
    ensures Configure(None) == SystemConfig("測試學校", "", "", "查詢系統", DEFAULT_EXCLUDED,
      OPENID_ENDPOINT, Restriction(true, "測試學校", RESTRICTION_MESSAGE))
    decreases |rows|
  {
    if rows != [] {
      UnrecognisedRowsKeepDefaults(rows[..|rows| - 1]);
    }
  }

  /** One row changes a field exactly when its trimmed key sets that field,
      and then to the row's column-1 value as it stands; a row that sets a
      field leaves the excluded sheets alone. */
  lemma ApplyRowField(s: Settings, row: Row, f: Field)
    ensures Get(ApplyRow(s, row), f) == if Sets(RowKey(row), f) then Cell(row, 1) else Get(s, f)
    ensures Classify(RowKey(row)) != AddExcluded ==> ApplyRow(s, row).excludedSheets == s.excludedSheets
  {
    ApplyKindField(s, Classify(RowKey(row)), Cell(row, 1), f);
  }

  lemma ApplyKindField(s: Settings, kind: KeyKind, value: string, f: Field)
    ensures Get(ApplyKind(s, kind, value), f) == if kind == SetField(f) then value else Get(s, f)
    ensures kind != AddExcluded ==> ApplyKind(s, kind, value).excludedSheets == s.excludedSheets
  {
  }

  /** A field that no row sets keeps its starting value. */
  lemma {:induction false} UnsetFieldKept(s0: Settings, rows: seq<Row>, f: Field)
    requires forall j :: 0 <= j < |rows| ==> !Sets(RowKey(rows[j]), f)
    ensures Get(ApplyRows(s0, rows), f) == Get(s0, f)
    decreases |rows|
  {
    if rows != [] {
      UnsetFieldKept(s0, rows[..|rows| - 1], f);
      ApplyRowField(ApplyRows(s0, rows[..|rows| - 1]), rows[|rows| - 1], f);
    }
  }

  /** For a repeated key the last row wins: a field holds the column-1 value
      of the last row that sets it. */
  lemma {:induction false} LastRowWins(s0: Settings, rows: seq<Row>, f: Field, k: nat)
    requires k < |rows| && Sets(RowKey(rows[k]), f)
    requires forall j :: k < j < |rows| ==> !Sets(RowKey(rows[j]), f)
    ensures Get(ApplyRows(s0, rows), f) == Cell(rows[k], 1)
    decreases |rows|
  {
    var init := rows[..|rows| - 1];
    ApplyRowField(ApplyRows(s0, init), rows[|rows| - 1], f);
    if k < |rows| - 1 {
      LastRowWins(s0, init, f, k);
    }
  }

  /** The school-name restriction is always enabled, and its keyword is the
      school name left by the last `學校名稱` row. */
  lemma KeywordIsFinalSchoolName(rows: seq<Row>, k: nat)
    requires k < |rows| && Sets(RowKey(rows[k]), SchoolName)
    requires forall j :: k < j < |rows| ==> !Sets(RowKey(rows[j]), SchoolName)
    ensures Configure(Some(rows)).restriction == Restriction(true, Cell(rows[k], 1), RESTRICTION_MESSAGE)
  {
    LastRowWins(DEFAULTS, rows, SchoolName, k);
  }

  /** A truthy `排除工作表` row appends its trimmed comma-separated parts to the
      list, keeping the first occurrence of each name; a falsy one is ignored. */
  lemma ExcludedRowMerge(s: Settings, row: Row)
    requires NoDuplicates(s.excludedSheets)
    requires Classify(RowKey(row)) == AddExcluded
    ensures Cell(row, 1) == "" ==> ApplyRow(s, row) == s
    ensures Cell(row, 1) != "" ==>
      var e := ApplyRow(s, row).excludedSheets;
      && |e| >= |s.excludedSheets| && e[..|s.excludedSheets|] == s.excludedSheets
      && (forall x :: x in e <==> x in s.excludedSheets || x in ExcludedParts(Cell(row, 1)))
      && NoDuplicates(e)
  {
    if Cell(row, 1) != "" {
      var joined := s.excludedSheets + ExcludedParts(Cell(row, 1));
      assert joined[..|s.excludedSheets|] == s.excludedSheets;
      DedupeKeepsPrefix(joined, |s.excludedSheets|);
      DedupeSpec(joined);
    }
  }

  /** Exclusion rows accumulate: every trimmed part of every truthy
      `排除工作表` row ends up excluded, as do all the defaults. */
  lemma {:induction false} ExcludedAccumulate(s0: Settings, rows: seq<Row>, k: nat)
    requires NoDuplicates(s0.excludedSheets)
    requires k < |rows| && Classify(RowKey(rows[k])) == AddExcluded && Cell(rows[k], 1) != ""
    ensures forall x :: x in s0.excludedSheets ==> x in ApplyRows(s0, rows).excludedSheets
    ensures forall x :: x in ExcludedParts(Cell(rows[k], 1)) ==> x in ApplyRows(s0, rows).excludedSheets
    decreases |rows|
  {
    var init := rows[..|rows| - 1];
    var prev := ApplyRows(s0, init);
    var row := rows[|rows| - 1];
    ExcludedRows(s0, init);
    ExcludedRows(s0, rows);
    var e := ApplyRows(s0, rows).excludedSheets;
    assert forall x :: x in s0.excludedSheets ==> x in e[..|s0.excludedSheets|];
    if k < |rows| - 1 {
      ExcludedAccumulate(s0, init, k);
    }
    if Classify(RowKey(row)) == AddExcluded {
      ExcludedRowMerge(prev, row);
    } else {
      ApplyRowField(prev, row, SchoolName);
    }
  }

  /** Which settings the recognised keys address: both logo aliases set the
      same field, and only the exact key `排除工作表` adds excluded sheets. */
  lemma KeyTable()
    ensures Sets(KEY_SCHOOL_NAME, SchoolName) && Sets(KEY_PAGE_TITLE, PageTitle)
    ensures Sets(KEY_LOGO_LEFT_LINK, LogoLeft) && Sets(KEY_LOGO_LEFT_FILE, LogoLeft)
    ensures Sets(KEY_LOGO_RIGHT_LINK, LogoRight) && Sets(KEY_LOGO_RIGHT_FILE, LogoRight)
    ensures Classify(KEY_EXCLUDED) == AddExcluded
    ensures Classify("學校") == Unrecognised
  {
    assert KEY_SCHOOL_NAME != KEY_PAGE_TITLE by { assert KEY_SCHOOL_NAME[0] != KEY_PAGE_TITLE[0]; }
  }
}
