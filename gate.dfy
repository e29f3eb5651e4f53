/** One page load of the demo gate: the entered code is checked against the
    allow-list; a demo code has its use recorded and its trial status shown;
    the administrator's code shows a table of every code and can run one
    action (reset, force-expire, clear) on a chosen demo code.

    The page widgets are parameters: the text field is `input`, the admin's
    selection and button press are `request`, and the table is returned. */
module Gate {
  import opened Text
  import opened Trials

  /** The character of decimal digit `d`. */
  function DigitChar(d: nat): (c: char)
    requires d < 10
    ensures '0' <= c <= '9' && c as int - '0' as int == d
  {
    "0123456789"[d]
  }

  /** The number a string of decimal digits spells, most significant first. */
  function DigitsValue(s: string): nat
    requires forall i :: 0 <= i < |s| ==> '0' <= s[i] <= '9'
  {
    if |s| == 0 then 0
    else DigitsValue(s[..|s| - 1]) * 10 + (s[|s| - 1] as int - '0' as int)
  }

  /** `str(n)` for a natural number: decimal digits that spell `n`, with a
      leading zero only for `n == 0` itself. */
  function Decimal(n: nat): (s: string)
    ensures |s| >= 1
    ensures forall i :: 0 <= i < |s| ==> '0' <= s[i] <= '9'
    ensures DigitsValue(s) == n
    ensures s[0] == '0' <==> n == 0
    ensures |s| > 1 ==> s[0] != '0'
  {
    if n < 10 then [DigitChar(n)]
    else
      var high := Decimal(n / 10);
      var s := high + [DigitChar(n % 10)];
      assert s[..|s| - 1] == high;
      s
  }

  /** `f"demo{i}"` */
  function DemoCode(i: nat): string {
    "demo" + Decimal(i)
  }

  /** `[f"demo{i}" for i in range(1, n + 1)]` */
  function DemoCodesUpTo(n: nat): (codes: seq<string>)
    ensures |codes| == n
    ensures forall i :: 0 <= i < n ==> codes[i] == DemoCode(i + 1)
  {
    seq(n, i requires 0 <= i < n => DemoCode(i + 1))
  }

  /** How many demo codes there are. */
  const DemoCount: nat := 50

  /** `[f"demo{i}" for i in range(1, 51)]`: the codes handed to demo users. */
  const DemoCodes: seq<string> := DemoCodesUpTo(DemoCount)

  /** `VALID_DEMOS`: the administrator's code followed by the demo codes. */
  const ValidDemos: seq<string> := [ExemptCode] + DemoCodes

  /** The codes of the admin table, in the order it lists them. */
  const TableCodes: seq<string> := DemoCodes + [ExemptCode]

  lemma ExemptIsKey()
    ensures Lower(ExemptCode) == ExemptCode
  {
    LowerOfLower(ExemptCode);
  }

  /** A demo code is already lower case and is not the administrator's code,
      so the store keeps it under its own name and its trial can expire. */
  lemma DemoCodeIsKey(c: string)
    requires c in DemoCodes
    ensures Lower(c) == c && c != ExemptCode
  {
    var i :| 0 <= i < |DemoCodes| && DemoCodes[i] == c;
    var digits := Decimal(i + 1);
    assert c == "demo" + digits;
    forall j | 0 <= j < |c| ensures !('A' <= c[j] <= 'Z') {
      if j >= 4 {
        assert c[j] == digits[j - 4];
      }
    }
    LowerOfLower(c);
    assert c[0] != ExemptCode[0];
  }

  /** The administrator's code is not one of the demo codes. */
  lemma ExemptNotDemo()
    ensures ExemptCode !in DemoCodes
  {
    if ExemptCode in DemoCodes {
      DemoCodeIsKey(ExemptCode);
    }
  }

  /** `code_input.strip().lower()`: no longer than the input, and without
      upper-case letters. */
  function Normalize(input: string): (code: string)
    ensures |code| <= |input|
    ensures forall i :: 0 <= i < |code| ==> !('A' <= code[i] <= 'Z')
  {
    Lower(Strip(input))
  }

  // ---------------------------------------------------------------------
  // The admin table

  /** One line of the admin table. */
  datatype Row = Row(code: string, firstUse: FirstUse, daysPassed: Option<int>,
                     remaining: Option<int>, active: bool, uses: int)

  /** The line the table shows for `code` when the store holds `db`. */
  function RowOf(db: Db, code: string, today: int): Row {
    var entry := if code in db then db[code] else Fresh;
    Row(code, entry.firstUse, DaysSince(db, code, today), RemainingDays(db, code, today),
        IsActive(db, code, today), UseCount(entry))
  }

  /** `rows` holds the row of each of `codes` for the store `db`, in order. */
  ghost predicate ListsRows(rows: seq<Row>, codes: seq<string>, db: Db, today: int) {
    && |rows| == |codes|
    && forall j :: 0 <= j < |rows| ==> rows[j] == RowOf(db, codes[j], today)
  }

  /** One more row, for one more code. */
  lemma ListsRowsAppend(rows: seq<Row>, codes: seq<string>, db: Db, today: int, code: string, row: Row)
    requires ListsRows(rows, codes, db, today) && row == RowOf(db, code, today)
    ensures ListsRows(rows + [row], codes + [code], db, today)
  {
  }

  /** `rows` is the admin table for the store `db`. */
  ghost predicate IsTableOf(rows: seq<Row>, db: Db, today: int) {
    ListsRows(rows, TableCodes, db, today)
  }

  /** `ensure_entry` applied to each of `codes` in turn: the missing ones get
      fresh records, and every record already there stays. */
  function WithEntries(db: Db, codes: seq<string>): (r: Db)
    ensures FreshExtension(db, r)
    ensures forall i :: 0 <= i < |codes| ==> Lower(codes[i]) in r
    decreases |codes|
  {
    if |codes| == 0 then db
    else
      var before := WithEntries(db, codes[..|codes| - 1]);
      var r := WithEntry(before, codes[|codes| - 1]);
      assert forall i :: 0 <= i < |codes| - 1 ==> codes[..|codes| - 1][i] == codes[i];
      r
  }

  /** `ensure_entry` over `codes` adds no key but the codes' own, lower-cased. */
  lemma {:induction false} WithEntriesKeys(db: Db, codes: seq<string>, k: string)
    requires k in WithEntries(db, codes) && k !in db
    ensures exists i :: 0 <= i < |codes| && k == Lower(codes[i])
    decreases |codes|
  {
    var n := |codes|;
    if k != Lower(codes[n - 1]) {
      WithEntriesKeys(db, codes[..n - 1], k);
      var i :| 0 <= i < n - 1 && k == Lower(codes[..n - 1][i]);
      assert k == Lower(codes[i]);
    }
  }

  /** A row reads the same whether or not missing records were created first. */
  lemma RowIgnoresFreshEntries(db: Db, more: Db, code: string, today: int)
    requires FreshExtension(db, more)
    ensures RowOf(more, code, today) == RowOf(db, code, today)
  {
    PolicyIgnoresFreshEntries(db, more, code, today);
  }

  /** Lines 171-183: one row of the admin table, for code `d`. */
  method TableRow(store: TrialStore, d: string, today: int) returns (row: Row)
    modifies store
    ensures row == RowOf(old(store.db), d, today)
    ensures store.db == WithEntry(old(store.db), d) && store.file == old(store.file)
  {
    var entry := if d in store.db then store.db[d] else Fresh;
    var days := store.DaysSinceFirstUse(d, today);
    ghost var entered := store.db;
    var remaining := store.TrialRemainingDays(d, today);
    var active := store.TrialActive(d, today);
    PolicyIgnoresFreshEntries(old(store.db), entered, d, today);
    row := Row(d, entry.firstUse, days, remaining, active, UseCount(entry));
  }

  /** The loop of lines 170-183 over `codes`: one row per code, and because
      every row asks the policy about its code, every code gets a record (in
      memory only). The rows show the store as it was before the loop. */
  method ListRows(store: TrialStore, codes: seq<string>, today: int) returns (rows: seq<Row>)
    modifies store
    ensures ListsRows(rows, codes, old(store.db), today)
    ensures store.db == WithEntries(old(store.db), codes) && store.file == old(store.file)
  {
    ghost var db0 := store.db;
    rows := [];
    var i := 0;
    while i < |codes|
      invariant 0 <= i <= |codes|
      invariant store.db == WithEntries(db0, codes[..i]) && store.file == old(store.file)
      invariant ListsRows(rows, codes[..i], db0, today)
    {
      assert codes[..i + 1][..i] == codes[..i];
      ghost var before := store.db;
      var row := TableRow(store, codes[i], today);
      RowIgnoresFreshEntries(db0, before, codes[i], today);
      ListsRowsAppend(rows, codes[..i], db0, today, codes[i], row);
      assert codes[..i] + [codes[i]] == codes[..i + 1];
      assert store.db == WithEntries(db0, codes[..i + 1]);
      rows := rows + [row];
      i := i + 1;
    }
    assert codes[..i] == codes;
  }

  /** Lines 169-184: the admin table over every demo code and `test123`. */
  method AdminTable(store: TrialStore, today: int) returns (rows: seq<Row>)
    modifies store
    ensures IsTableOf(rows, old(store.db), today)
    ensures store.db == WithEntries(old(store.db), TableCodes) && store.file == old(store.file)
  {
    rows := ListRows(store, TableCodes, today);
  }

  // ---------------------------------------------------------------------
  // Admin actions

  datatype AdminAction = ResetToToday | ForceExpire | ClearRecord

  /** The admin's selection and button press on this page load, if any. */
  datatype AdminRequest = NoRequest | Request(sel: string, action: AdminAction)

  /** The day force-expire writes: `TRIAL_DAYS + 1` days before today. */
  function ExpiredDay(today: int): int {
    today - (TrialDays + 1)
  }

  /** The mapping an admin action saves, or None when it saves nothing
      (clearing a code that has no record). */
  function ActionSaves(db: Db, sel: string, action: AdminAction, today: int): Option<Db> {
    match action
    case ResetToToday => Some(WithFirstUse(db, sel, Day(today)))
    case ForceExpire => Some(WithFirstUse(db, sel, Day(ExpiredDay(today))))
    case ClearRecord => if sel in db then Some(db[sel := Fresh]) else None
  }

  /** Force-expire ends the trial of any non-exempt code on the spot and for
      every later day, with no days remaining, keeping its use count. */
  lemma ForceExpireExpires(db: Db, sel: string, today: int, later: int)
    requires Lower(sel) != ExemptCode && today <= later
    ensures var saved := ActionSaves(db, sel, ForceExpire, today);
      && saved.Some?
      && !IsActive(saved.value, sel, later)
      && RemainingDays(saved.value, sel, later) == Some(0)
      && saved.value[Lower(sel)].uses == (if Lower(sel) in db then db[Lower(sel)].uses else Some(0))
  {
    var saved := WithFirstUse(db, sel, Day(ExpiredDay(today)));
    assert DaysSince(saved, sel, later) == Some(later - ExpiredDay(today));
  }

  /** Reset starts a full seven-day trial today, keeping the use count. */
  lemma ResetRestartsTrial(db: Db, sel: string, today: int)
    requires Lower(sel) != ExemptCode
    ensures var saved := ActionSaves(db, sel, ResetToToday, today);
      && saved.Some?
      && IsActive(saved.value, sel, today)
      && RemainingDays(saved.value, sel, today) == Some(TrialDays)
      && saved.value[Lower(sel)].uses == (if Lower(sel) in db then db[Lower(sel)].uses else Some(0))
  {
    var saved := WithFirstUse(db, sel, Day(today));
    assert DaysSince(saved, sel, today) == Some(0);
  }

  /** Clear never creates a record: an absent code leaves nothing to save;
      a present one is reset to the never-used default, which the policy
      then reads as a full, unused trial. */
  lemma ClearOnlyExisting(db: Db, sel: string, today: int)
    ensures sel !in db ==> ActionSaves(db, sel, ClearRecord, today) == None
    ensures sel in db ==>
      var saved := ActionSaves(db, sel, ClearRecord, today);
      && saved.Some? && saved.value.Keys == db.Keys && saved.value[sel] == Fresh
      && (forall k :: k in db && k != sel ==> saved.value[k] == db[k])
      && (Lower(sel) == sel && sel != ExemptCode ==>
            DaysSince(saved.value, sel, today) == None
            && IsActive(saved.value, sel, today)
            && RemainingDays(saved.value, sel, today) == Some(TrialDays))
  {
  }

  /** Lines 194-208: run the chosen action, then reload the store from the file. */
  method RunAdminAction(store: TrialStore, sel: string, action: AdminAction, today: int)
    modifies store
    ensures store.file == (match ActionSaves(old(store.db), sel, action, today)
                           case Some(saved) => Stored(saved)
                           case None => old(store.file))
    ensures store.db == Loaded(store.file)
  {
    match action
    case ResetToToday =>
      store.SetFirstUse(sel, Day(today));
    case ForceExpire =>
      store.SetFirstUse(sel, Day(ExpiredDay(today)));
    case ClearRecord =>
      if sel in store.db {
        store.db := store.db[sel := Fresh];
        store.Save();
      }
    store.Load();
  }

  // ---------------------------------------------------------------------
  // The administrator's page

  /** Lines 161-163: the admin record is created if needed and counted once;
      its first use and every other record stay as they were. */
  function AdminUse(db: Db): (r: Db)
    ensures ExemptCode in r
    ensures r.Keys == db.Keys + {ExemptCode}
    ensures var before := if ExemptCode in db then db[ExemptCode] else Fresh;
      && r[ExemptCode].uses.Some?
      && UseCount(r[ExemptCode]) == UseCount(before) + 1
      && r[ExemptCode].firstUse == before.firstUse
    ensures forall k :: k in db && k != ExemptCode ==> r[k] == db[k]
  {
    ExemptIsKey();
    Bumped(WithEntry(db, ExemptCode), ExemptCode)
  }

  /** The store and file the admin panel (lines 161-208) leaves behind. */
  function PanelResult(db: Db, request: AdminRequest, today: int): (Db, StoredFile) {
    var used := AdminUse(db);
    var listed := WithEntries(used, TableCodes);
    match request
    case NoRequest => (listed, Stored(used))
    case Request(sel, action) =>
      match ActionSaves(listed, sel, action, today)
      case Some(saved) => (saved, Stored(saved))
      case None => (used, Stored(used))
  }

  /** After the panel the admin record is exactly the one counted once on
      entry: the table and the actions on demo codes never touch it. */
  lemma PanelKeepsAdminRecord(db: Db, request: AdminRequest, today: int)
    requires request.Request? ==> request.sel in DemoCodes
    ensures ExemptCode in PanelResult(db, request, today).0
    ensures PanelResult(db, request, today).0[ExemptCode] == AdminUse(db)[ExemptCode]
  {
    var used := AdminUse(db);
    var listed := WithEntries(used, TableCodes);
    ExemptIsKey();
    if request.Request? {
      DemoCodeIsKey(request.sel);
    }
  }

  /** On the admin page the guard of line 203 always holds: the table has
      just created a record for every demo code, so clearing one always saves,
      and the file then receives a record for every code of the table. */
  lemma ClearAfterTableAlwaysSaves(db: Db, sel: string, today: int)
    requires sel in DemoCodes
    ensures var listed := WithEntries(AdminUse(db), TableCodes);
      && ActionSaves(listed, sel, ClearRecord, today).Some?
      && forall c :: c in TableCodes ==> Lower(c) in ActionSaves(listed, sel, ClearRecord, today).value
  {
    var listed := WithEntries(AdminUse(db), TableCodes);
    DemoCodeIsKey(sel);
    var i :| 0 <= i < |DemoCodes| && DemoCodes[i] == sel;
    assert TableCodes[i] == sel;
    forall c | c in TableCodes ensures Lower(c) in listed {
      var j :| 0 <= j < |TableCodes| && TableCodes[j] == c;
    }
  }

  /** The panel only ever adds records for codes on the allow-list. */
  lemma PanelKeys(db: Db, request: AdminRequest, today: int)
    requires request.Request? ==> request.sel in DemoCodes
    ensures forall k :: k in PanelResult(db, request, today).0 ==> k in db || k in ValidDemos
  {
    var used := AdminUse(db);
    var listed := WithEntries(used, TableCodes);
    ExemptIsKey();
    forall i | 0 <= i < |TableCodes| ensures Lower(TableCodes[i]) in ValidDemos {
      if i < |DemoCodes| {
        DemoCodeIsKey(TableCodes[i]);
        assert TableCodes[i] == ValidDemos[i + 1];
      }
    }
    forall k | k in listed && k !in used ensures k in ValidDemos {
      WithEntriesKeys(used, TableCodes, k);
    }
    if request.Request? {
      DemoCodeIsKey(request.sel);
      assert request.sel in ValidDemos;
    }
  }

  /** Lines 161-208: count the admin's use, build the table, run the
      requested action (which reloads the store). */
  method AdminPanel(store: TrialStore, request: AdminRequest, today: int) returns (rows: seq<Row>)
    modifies store
    ensures IsTableOf(rows, AdminUse(old(store.db)), today)
    ensures (store.db, store.file) == PanelResult(old(store.db), request, today)
  {
    ExemptIsKey();
    store.EnsureEntry(ExemptCode);
    store.BumpAndSave(ExemptCode);
    rows := AdminTable(store, today);
    match request
    case NoRequest =>
    case Request(sel, action) =>
      RunAdminAction(store, sel, action, today);
  }

  // ---------------------------------------------------------------------
  // Recording a visit and reporting the trial status

  /** Lines 222-227: stamp the first use if there is none, and count the use.
      Both branches amount to `register_use`. */
  method RecordVisit(store: TrialStore, code: string, today: int)
    requires code in store.db && Lower(code) == code
    modifies store
    ensures store.db == WithUse(old(store.db), code, today) && store.file == Stored(store.db)
  {
    if store.db[code].firstUse == NoDate {
      store.RegisterUse(code, today);
    } else {
      store.BumpAndSave(code);
    }
  }

  datatype Outcome = NoInput | Rejected | Expired(code: string) | Admitted(code: string, remaining: Option<int>)

  /** What lines 230-240 report for `code` when the store holds `db`. */
  function StatusOf(db: Db, code: string, today: int): Outcome {
    if !IsActive(db, code, today) then Expired(code)
    else Admitted(code, RemainingDays(db, code, today))
  }

  /** Lines 230-240: ask the policy whether the trial is still on. */
  method CheckStatus(store: TrialStore, code: string, today: int) returns (outcome: Outcome)
    requires Lower(code) == code && (code != ExemptCode ==> code in store.db)
    modifies store
    ensures outcome == StatusOf(old(store.db), code, today)
    ensures store.db == old(store.db) && store.file == old(store.file)
  {
    var active := store.TrialActive(code, today);
    if !active {
      outcome := Expired(code);
    } else {
      var rem := store.TrialRemainingDays(code, today);
      outcome := Admitted(code, rem);
    }
  }

  /** A demo user's visit ends in "expired" exactly when the first use was
      seven or more days ago; a first visit always grants the full trial. */
  lemma DemoVisitOutcome(db: Db, code: string, today: int)
    requires code in DemoCodes
    ensures var outcome := StatusOf(WithUse(db, code, today), code, today);
      && (outcome.Expired? <==>
            code in db && db[code].firstUse.Day? && today - db[code].firstUse.day >= TrialDays)
      && (code !in db || db[code].firstUse == NoDate ==> outcome == Admitted(code, Some(TrialDays)))
  {
    DemoCodeIsKey(code);
    var after := WithUse(db, code, today);
    if code !in db || db[code].firstUse == NoDate {
      assert after[code].firstUse == Day(today);
      assert DaysSince(after, code, today) == Some(0);
    }
  }

  // ---------------------------------------------------------------------
  // One page load

  /** Lines 220-240 for a demo code: create the record if needed, record
      the visit, and report the trial status. */
  method DemoVisit(store: TrialStore, code: string, today: int) returns (outcome: Outcome)
    requires code in DemoCodes
    modifies store
    ensures store.db == WithUse(old(store.db), code, today) && store.file == Stored(store.db)
    ensures outcome == StatusOf(store.db, code, today)
  {
    DemoCodeIsKey(code);
    store.EnsureEntry(code);
    ghost var entered := store.db;
    RecordVisit(store, code, today);
    assert WithUse(entered, code, today) == WithUse(old(store.db), code, today);
    outcome := CheckStatus(store, code, today);
  }

  /** Lines 159-240 for the administrator's code as written: after the panel
      the shared block (222-227) records a visit of `test123` once more. */
  method AdminVisitAsWritten(store: TrialStore, request: AdminRequest, today: int)
    returns (outcome: Outcome, rows: seq<Row>)
    requires request.Request? ==> request.sel in DemoCodes
    modifies store
    ensures store.db == WithUse(PanelResult(old(store.db), request, today).0, ExemptCode, today)
    ensures store.file == Stored(store.db)
    ensures outcome == Admitted(ExemptCode, None)
    ensures IsTableOf(rows, AdminUse(old(store.db)), today)
  {
    rows := AdminPanel(store, request, today);
    PanelKeepsAdminRecord(old(store.db), request, today);
    ExemptIsKey();
    RecordVisit(store, ExemptCode, today);
    outcome := CheckStatus(store, ExemptCode, today);
  }

  /** Lines 159-216 and 230-240 for the administrator's code, without the
      shared block: the panel alone, then the (always active) status. */
  method AdminVisit(store: TrialStore, request: AdminRequest, today: int)
    returns (outcome: Outcome, rows: seq<Row>)
    requires request.Request? ==> request.sel in DemoCodes
    modifies store
    ensures (store.db, store.file) == PanelResult(old(store.db), request, today)
    ensures outcome == Admitted(ExemptCode, None)
    ensures IsTableOf(rows, AdminUse(old(store.db)), today)
  {
    rows := AdminPanel(store, request, today);
    ExemptIsKey();
    outcome := CheckStatus(store, ExemptCode, today);
  }

  /** Lines 153-240 as written: the first-use/count block (222-227) sits
      after the admin branch instead of inside the demo branch, so it runs
      for the administrator's code too. */
  method LoginAsWritten(store: TrialStore, input: string, today: int, request: AdminRequest)
    returns (outcome: Outcome, rows: seq<Row>)
    requires request.Request? ==> request.sel in DemoCodes
    modifies store
    ensures input == "" ==> outcome == NoInput && rows == [] && store.db == old(store.db) && store.file == old(store.file)
    ensures input != "" && Normalize(input) !in ValidDemos ==>
      outcome == Rejected && rows == [] && store.db == old(store.db) && store.file == old(store.file)
    ensures input != "" && Normalize(input) in DemoCodes ==>
      var code := Normalize(input);
      && store.db == WithUse(old(store.db), code, today) && store.file == Stored(store.db)
      && outcome == StatusOf(store.db, code, today) && rows == []
    ensures input != "" && Normalize(input) == ExemptCode ==>
      && store.db == WithUse(PanelResult(old(store.db), request, today).0, ExemptCode, today)
      && store.file == Stored(store.db)
      && outcome == Admitted(ExemptCode, None)
      && IsTableOf(rows, AdminUse(old(store.db)), today)
  {
    rows := [];
    if input == "" {
      return NoInput, rows;
    }
    var code := Normalize(input);
    if code !in ValidDemos {
      return Rejected, rows;
    }
    if code == ExemptCode {
      ExemptNotDemo();
      outcome, rows := AdminVisitAsWritten(store, request, today);
    } else {
      outcome := DemoVisit(store, code, today);
    }
  }

  /** Lines 153-240 with the first-use/count block inside the demo branch,
      as the comments on lines 160 and 218-221 describe: the administrator's
      visit is counted once and never stamps a first use. Records are only
      ever added for codes on the allow-list. */
  method Login(store: TrialStore, input: string, today: int, request: AdminRequest)
    returns (outcome: Outcome, rows: seq<Row>)
    requires request.Request? ==> request.sel in DemoCodes
    modifies store
    ensures input == "" ==> outcome == NoInput && rows == [] && store.db == old(store.db) && store.file == old(store.file)
    ensures input != "" && Normalize(input) !in ValidDemos ==>
      outcome == Rejected && rows == [] && store.db == old(store.db) && store.file == old(store.file)
    ensures input != "" && Normalize(input) in DemoCodes ==>
      var code := Normalize(input);
      && store.db == WithUse(old(store.db), code, today) && store.file == Stored(store.db)
      && outcome == StatusOf(store.db, code, today) && rows == []
    ensures input != "" && Normalize(input) == ExemptCode ==>
      && (store.db, store.file) == PanelResult(old(store.db), request, today)
      && outcome == Admitted(ExemptCode, None)
      && IsTableOf(rows, AdminUse(old(store.db)), today)
    ensures forall k :: k in store.db ==> k in old(store.db) || k in ValidDemos
  {
    rows := [];
    if input == "" {
      return NoInput, rows;
    }
    var code := Normalize(input);
    if code !in ValidDemos {
      return Rejected, rows;
    }
    if code == ExemptCode {
      ExemptNotDemo();
      outcome, rows := AdminVisit(store, request, today);
      PanelKeys(old(store.db), request, today);
    } else {
      outcome := DemoVisit(store, code, today);
      DemoCodeIsKey(code);
    }
  }

  /** As written, every administrator visit adds two to the admin's use count
      and stamps a first use on the first visit. */
  lemma AdminCountedTwiceAsWritten(db: Db, request: AdminRequest, today: int)
    requires request.Request? ==> request.sel in DemoCodes
    ensures var before := if ExemptCode in db then db[ExemptCode] else Fresh;
      var after := WithUse(PanelResult(db, request, today).0, ExemptCode, today)[ExemptCode];
      && UseCount(after) == UseCount(before) + 2
      && after.firstUse == (if before.firstUse == NoDate then Day(today) else before.firstUse)
  {
    PanelKeepsAdminRecord(db, request, today);
    ExemptIsKey();
  }

  /** The smallest case: the administrator's first visit on an empty store
      leaves a record with a first use and two uses instead of none and one. */
  lemma AdminFirstVisitAsWritten(today: int)
    ensures WithUse(PanelResult(map[], NoRequest, today).0, ExemptCode, today)[ExemptCode]
      == TrialRecord(Day(today), Some(2))
    ensures PanelResult(map[], NoRequest, today).0[ExemptCode] == TrialRecord(NoDate, Some(1))
  {
    AdminCountedTwiceAsWritten(map[], NoRequest, today);
    AdminCountedOnce(map[], NoRequest, today);
  }

  /** With the block in the demo branch, an administrator visit counts once
      and leaves the admin's first use as it was. */
  lemma AdminCountedOnce(db: Db, request: AdminRequest, today: int)
    requires request.Request? ==> request.sel in DemoCodes
    ensures var before := if ExemptCode in db then db[ExemptCode] else Fresh;
      var after := PanelResult(db, request, today).0[ExemptCode];
      && UseCount(after) == UseCount(before) + 1
      && after.firstUse == before.firstUse
  {
    PanelKeepsAdminRecord(db, request, today);
    ExemptIsKey();
  }
}
