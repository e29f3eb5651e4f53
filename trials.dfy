/** The trial bookkeeping: a record store keyed by lower-cased demo code, each
    record holding the day of first use and a use counter, and the policy that
    turns the day of first use into "active" and "days remaining".

    Calendar dates are day numbers (`int`) and "today" is a parameter; the
    flat JSON file is the `file` field of the store. */
module Trials {
  import opened Text

  datatype Option<T> = None | Some(value: T)

  /** Length of the trial window in days. */
  const TrialDays: int := 7

  /** The administrator's code, which never expires. */
  const ExemptCode: string := "test123"

  /** The `first_use` field: JSON null, a parsable ISO date (its day number),
      or anything the date parser rejects, the empty string included. */
  datatype FirstUse = NoDate | Day(day: int) | Invalid

  /** One trial record; `uses == None` is a record whose "uses" key is missing. */
  datatype TrialRecord = TrialRecord(firstUse: FirstUse, uses: Option<int>)

  /** The record `ensure_entry` creates for an unknown code. */
  const Fresh: TrialRecord := TrialRecord(NoDate, Some(0))

  /** `record.get("uses", 0)` */
  function UseCount(r: TrialRecord): int {
    match r.uses
    case Some(n) => n
    case None => 0
  }

  type Db = map<string, TrialRecord>

  /** `ensure_entry(db, code)`: a fresh record under the lower-cased code
      when, and only when, that key is missing; every existing record stays. */
  function WithEntry(db: Db, code: string): (r: Db)
    ensures Lower(code) in r
    ensures r.Keys == db.Keys + {Lower(code)}
    ensures Lower(code) !in db ==> r[Lower(code)] == Fresh
    ensures forall k :: k in db ==> r[k] == db[k]
  {
    var key := Lower(code);
    if key in db then db else db[key := Fresh]
  }

  /** `register_use(db, code)` on day `today`: the record is created if
      needed, stamped with `today` only when it had no first use, and its
      counter (a missing one read as 0) goes up by one; nothing else changes. */
  function WithUse(db: Db, code: string, today: int): (r: Db)
    ensures Lower(code) in r
    ensures r.Keys == db.Keys + {Lower(code)}
    ensures var key := Lower(code);
      && r[key].firstUse == (if key in db && db[key].firstUse != NoDate then db[key].firstUse else Day(today))
      && UseCount(r[key]) == (if key in db then UseCount(db[key]) else 0) + 1
      && r[key].uses.Some?
    ensures forall k :: k in db && k != Lower(code) ==> r[k] == db[k]
  {
    var key := Lower(code);
    var entered := WithEntry(db, code);
    var e := entered[key];
    var stamped := if e.firstUse == NoDate then Day(today) else e.firstUse;
    entered[key := TrialRecord(stamped, Some(UseCount(e) + 1))]
  }

  /** `set_first_use(db, code, date)`: only the first use of the lower-cased
      code changes; its counter and every other record stay. */
  function WithFirstUse(db: Db, code: string, fu: FirstUse): (r: Db)
    ensures Lower(code) in r
    ensures r.Keys == db.Keys + {Lower(code)}
    ensures r[Lower(code)].firstUse == fu
    ensures r[Lower(code)].uses == (if Lower(code) in db then db[Lower(code)].uses else Some(0))
    ensures forall k :: k in db && k != Lower(code) ==> r[k] == db[k]
  {
    var key := Lower(code);
    var entered := WithEntry(db, code);
    entered[key := entered[key].(firstUse := fu)]
  }

  /** `db[key]["uses"] = db[key].get("uses", 0) + 1` (no lower-casing, key must exist). */
  function Bumped(db: Db, key: string): (r: Db)
    requires key in db
    ensures r.Keys == db.Keys
    ensures r[key].firstUse == db[key].firstUse && r[key].uses == Some(UseCount(db[key]) + 1)
    ensures forall k :: k in db && k != key ==> r[k] == db[k]
  {
    db[key := db[key].(uses := Some(UseCount(db[key]) + 1))]
  }

  /** The value `days_since_first_use(db, code)` returns: None unless the
      record has a usable date, else `today - first_use`, negative for a
      date in the future. */
  function DaysSince(db: Db, code: string, today: int): (r: Option<int>)
    ensures r.Some? <==> Lower(code) in db && db[Lower(code)].firstUse.Day?
    ensures r.Some? ==> r.value == today - db[Lower(code)].firstUse.day
  {
    match WithEntry(db, code)[Lower(code)].firstUse
    case Day(d) => Some(today - d)
    case _ => None
  }

  /** The value `trial_active(db, code)` returns. */
  function IsActive(db: Db, code: string, today: int): bool {
    if Lower(code) == ExemptCode then true
    else
      match DaysSince(db, code, today)
      case None => true
      case Some(ds) => ds < TrialDays
  }

  function Max(a: int, b: int): int {
    if a < b then b else a
  }

  /** The value `trial_remaining_days(db, code)` returns. */
  function RemainingDays(db: Db, code: string, today: int): (r: Option<int>)
    ensures r.None? <==> Lower(code) == ExemptCode
    ensures r.Some? ==> r.value >= 0
  {
    if Lower(code) == ExemptCode then None
    else
      match DaysSince(db, code, today)
      case None => Some(TrialDays)
      case Some(ds) => Some(Max(0, TrialDays - ds))
  }

  /** The active window: the exempt code (in any case) is always active;
      any other code is active with no usable first use, and otherwise
      exactly when fewer than seven days have passed. */
  lemma ActiveWindow(db: Db, code: string, today: int)
    ensures Lower(code) == ExemptCode ==> IsActive(db, code, today)
    ensures Lower(code) != ExemptCode ==>
      (IsActive(db, code, today) <==>
        || Lower(code) !in db
        || !db[Lower(code)].firstUse.Day?
        || today - db[Lower(code)].firstUse.day < TrialDays)
  {
  }

  /** Remaining days: 7 with no usable first use, 0 from day 7 on, and
      `7 - days` in between (more than 7 for a first use in the future). */
  lemma RemainingWindow(db: Db, code: string, today: int)
    requires Lower(code) != ExemptCode
    ensures DaysSince(db, code, today).None? ==> RemainingDays(db, code, today) == Some(TrialDays)
    ensures var ds := DaysSince(db, code, today);
      ds.Some? ==>
        (ds.value >= TrialDays ==> RemainingDays(db, code, today) == Some(0))
        && (ds.value < TrialDays ==> RemainingDays(db, code, today) == Some(TrialDays - ds.value))
  {
  }

  /** The two policy functions agree: a non-exempt code is active exactly
      when it has days remaining. */
  lemma ActiveIffDaysRemain(db: Db, code: string, today: int)
    requires Lower(code) != ExemptCode
    ensures IsActive(db, code, today) <==> RemainingDays(db, code, today).value > 0
  {
  }

  /** Using a code never changes a first use that is already set. */
  lemma UseKeepsFirstUse(db: Db, code: string, today: int)
    requires Lower(code) in db && db[Lower(code)].firstUse != NoDate
    ensures WithUse(db, code, today)[Lower(code)].firstUse == db[Lower(code)].firstUse
  {
  }

  /** `register_use` called once per day of `days`, in order. */
  function UsedOn(db: Db, code: string, days: seq<int>): Db
    decreases |days|
  {
    if |days| == 0 then db
    else UsedOn(WithUse(db, code, days[0]), code, days[1..])
  }

  /** Repeated use keeps the first date ever stamped and counts every call. */
  lemma {:induction false} RepeatedUse(db: Db, code: string, days: seq<int>)
    requires |days| > 0
    decreases |days|
    ensures var key, r := Lower(code), UsedOn(db, code, days);
      && key in r
      && r[key].firstUse == (if key in db && db[key].firstUse != NoDate then db[key].firstUse else Day(days[0]))
      && UseCount(r[key]) == (if key in db then UseCount(db[key]) else 0) + |days|
      && forall k :: k in db && k != key ==> k in r && r[k] == db[k]
  {
    var key := Lower(code);
    var once := WithUse(db, code, days[0]);
    if |days| > 1 {
      RepeatedUse(once, code, days[1..]);
      assert once[key].firstUse != NoDate;
    }
  }

  /** Normal use never brings an expired trial back: once inactive, a code
      stays inactive on every later day, however often it is used. */
  lemma ExpiryIsPermanent(db: Db, code: string, today: int, useDay: int, later: int)
    requires !IsActive(db, code, today) && today <= later
    ensures !IsActive(WithUse(db, code, useDay), code, later)
  {
    var key := Lower(code);
    assert db[key].firstUse.Day?;
    UseKeepsFirstUse(db, code, useDay);
  }

  /** `more` is `db` with some fresh records added and nothing else changed. */
  ghost predicate FreshExtension(db: Db, more: Db) {
    && (forall k :: k in db ==> k in more && more[k] == db[k])
    && (forall k :: k in more && k !in db ==> more[k] == Fresh)
  }

  /** Creating missing entries changes none of the policy answers: a fresh
      record and a missing one both mean "no first use". */
  lemma PolicyIgnoresFreshEntries(db: Db, more: Db, code: string, today: int)
    requires FreshExtension(db, more)
    ensures DaysSince(more, code, today) == DaysSince(db, code, today)
    ensures IsActive(more, code, today) == IsActive(db, code, today)
    ensures RemainingDays(more, code, today) == RemainingDays(db, code, today)
  {
    var key := Lower(code);
    if key in more && key !in db {
      assert more[key] == Fresh;
    }
  }

  /** The flat file `trials.json`. */
  datatype StoredFile = Absent | Unreadable | Stored(contents: Db)

  /** `load_db()`: the stored mapping, or an empty one when the file is
      missing or does not parse. */
  function Loaded(f: StoredFile): (db: Db)
    ensures f.Stored? ==> db == f.contents
    ensures !f.Stored? ==> db == map[]
  {
    if f.Stored? then f.contents else map[]
  }

  /** The in-memory `db` dictionary together with the file it is saved to. */
  class TrialStore {
    var db: Db
    var file: StoredFile

    /** `db = load_db()` */
    constructor Open(f: StoredFile)
      ensures file == f && db == Loaded(f)
    {
      file := f;
      db := Loaded(f);
    }

    /** `db = load_db()` on an open store. */
    method Load()
      modifies this
      ensures file == old(file) && db == Loaded(file)
    {
      db := Loaded(file);
    }

    /** `save_db(db)` */
    method Save()
      modifies this
      ensures db == old(db) && file == Stored(db)
    {
      file := Stored(db);
    }

    /** `ensure_entry(db, code)` */
    method EnsureEntry(code: string)
      modifies this
      ensures db == WithEntry(old(db), code) && file == old(file)
    {
      var key := Lower(code);
      if key !in db {
        db := db[key := Fresh];
      }
    }

    /** `register_use(db, code)`, which also saves. */
    method RegisterUse(code: string, today: int)
      modifies this
      ensures db == WithUse(old(db), code, today) && file == Stored(db)
    {
      var key := Lower(code);
      LowerIdempotent(code);
      EnsureEntry(key);
      if db[key].firstUse == NoDate {
        db := db[key := db[key].(firstUse := Day(today))];
      }
      db := db[key := db[key].(uses := Some(UseCount(db[key]) + 1))];
      Save();
    }

    /** `set_first_use(db, code, date)`, which also saves. */
    method SetFirstUse(code: string, fu: FirstUse)
      modifies this
      ensures db == WithFirstUse(old(db), code, fu) && file == Stored(db)
    {
      var key := Lower(code);
      LowerIdempotent(code);
      EnsureEntry(key);
      db := db[key := db[key].(firstUse := fu)];
      Save();
    }

    /** `db[key]["uses"] = db[key].get("uses", 0) + 1` followed by `save_db(db)`. */
    method BumpAndSave(key: string)
      requires key in db
      modifies this
      ensures db == Bumped(old(db), key) && file == Stored(db)
    {
      db := db[key := db[key].(uses := Some(UseCount(db[key]) + 1))];
      Save();
    }

    /** `days_since_first_use(db, code)`: a query that also inserts the entry. */
    method DaysSinceFirstUse(code: string, today: int) returns (days: Option<int>)
      modifies this
      ensures days == DaysSince(old(db), code, today)
      ensures db == WithEntry(old(db), code) && file == old(file)
    {
      var key := Lower(code);
      LowerIdempotent(code);
      EnsureEntry(key);
      match db[key].firstUse
      case Day(d) => days := Some(today - d);
      case _ => days := None;
    }

    /** `trial_active(db, code)`; only a non-exempt code gets an entry inserted. */
    method TrialActive(code: string, today: int) returns (active: bool)
      modifies this
      ensures active == IsActive(old(db), code, today)
      ensures db == (if Lower(code) == ExemptCode then old(db) else WithEntry(old(db), code))
      ensures file == old(file)
    {
      var key := Lower(code);
      if key == ExemptCode {
        return true;
      }
      var ds := DaysSinceFirstUse(key, today);
      LowerIdempotent(code);
      match ds
      case None => active := true;
      case Some(d) => active := d < TrialDays;
    }

    /** `trial_remaining_days(db, code)`; only a non-exempt code gets an entry inserted. */
    method TrialRemainingDays(code: string, today: int) returns (remaining: Option<int>)
      modifies this
      ensures remaining == RemainingDays(old(db), code, today)
      ensures db == (if Lower(code) == ExemptCode then old(db) else WithEntry(old(db), code))
      ensures file == old(file)
    {
      if Lower(code) == ExemptCode {
        return None;
      }
      var ds := DaysSinceFirstUse(code, today);
      match ds
      case None => remaining := Some(TrialDays);
      case Some(d) =>
        var rem := TrialDays - d;
        remaining := Some(if rem < 0 then 0 else rem);
    }
  }
}
