# IntellimaKG demo gate — a Dafny model

IntellimaKG's demo page (`intellimaKG_demo2.py`) lets a visitor in only with a
demo code from a fixed allow-list: `test123` (the administrator) and `demo1` …
`demo50`. Each code gets a seven-day trial. The trial starts on the code's
first use and is tracked in a flat file, `trials.json`. Each record holds the
date of first use and a use counter. The administrator sees a table of all
codes and can reset, force-expire or clear a demo code. A logged-in visitor
can generate a hashtag line from a category and a comma-separated list of
keywords.

The model has four modules:

- `Text` holds the Python string operations the page relies on: `strip()`,
  `lower()`, `split(sep)`, `sep.join(...)` and `replace(c, "")`. Each is
  stated by what it guarantees.
- `Trials` holds the record store and the trial policy. It has pure
  functions on the mapping (`WithEntry`, `WithUse`, `WithFirstUse`,
  `DaysSince`, `IsActive`, `RemainingDays`). It also has the class
  `TrialStore`, whose fields are the in-memory `db` dictionary and the file
  it is saved to. The methods `EnsureEntry`, `RegisterUse`, `SetFirstUse`,
  `DaysSinceFirstUse`, `TrialActive` and `TrialRemainingDays` update those
  fields as the Python helpers do. For example, the query
  `days_since_first_use` inserts a record as a side effect.
- `Gate` covers one page load:
  - normalising and checking the entered code;
  - recording a demo user's visit and reporting the trial status;
  - the admin panel: counting the admin's visit, building the table, and
    running one action followed by a reload from the file.

  It has the page as written (`LoginAsWritten`) and as evidently intended
  (`Login`); see "Findings".
- `Hashtags` covers the hashtag line: the category tag, then one tag per
  non-blank keyword, at most fifteen, joined with spaces.

Calendar dates are day numbers. "Today" is a parameter of every operation
that reads the clock. The page widgets are parameters too: the entered text,
the admin's selection and button press (`AdminRequest`), and the table,
which is returned as rows.

## Model

| member | source | states |
|---|---|---|
| Text.Strip | intellimaKG_demo2.py:154 | `strip()` as the slice between the first and the last non-whitespace character (the empty string when there is none); `StripIsSlice`, `StripCutsOnlySpace`, `StripTrimmed` and `StripEmptyIff` state what that slice is |
| Text.StripIsSlice | intellimaKG_demo2.py:154 | `strip()` returns the slice of its input that begins at the first non-space character |
| Text.StripCutsOnlySpace | intellimaKG_demo2.py:154 | every character `strip()` removes, before or after the kept slice, is whitespace |
| Text.StripTrimmed | intellimaKG_demo2.py:266 | a stripped string neither starts nor ends with whitespace |
| Text.StripEmptyIff | intellimaKG_demo2.py:266 | a string strips to nothing if and only if all of it is whitespace (the `if s.strip()` filter) |
| Text.LowerChar | intellimaKG_demo2.py:154 | upper-case ASCII letters move to lower case; every other character stays; no upper-case letter remains |
| Text.Lower | intellimaKG_demo2.py:154 | `lower()` keeps the length and lower-cases character by character |
| Text.LowerIdempotent | intellimaKG_demo2.py:48-50 | lower-casing twice equals lower-casing once, so `register_use` lower-casing before `ensure_entry` changes nothing |
| Text.LowerOfLower | intellimaKG_demo2.py:15 | a string without upper-case letters is its own lower case |
| Text.Split | intellimaKG_demo2.py:266 | `split(sep)` gives at least one piece, and no piece contains the separator |
| Text.Join | intellimaKG_demo2.py:269 | `sep.join(pieces)`: the pieces in order with one separator between neighbours; `JoinSplit` and `SplitJoin` relate it to `Split` |
| Text.JoinSplit | intellimaKG_demo2.py:266 | joining the pieces of a split on the same separator gives back the input |
| Text.SplitJoin | intellimaKG_demo2.py:269 | splitting a join of separator-free pieces gives back the pieces |
| Text.RemoveAll | intellimaKG_demo2.py:267-268 | `replace(c, "")` leaves no `c`, keeps exactly the other characters that occur, and keeps a non-`c` first character first |
| Text.RemoveAllCounts | intellimaKG_demo2.py:267-268 | `replace(c, "")` keeps every other character as often as it occurs and drops every `c` |
| Text.RemoveAllOne | intellimaKG_demo2.py:267-268 | a single character is dropped if it is `c` and kept otherwise |
| Text.RemoveAllAppend | intellimaKG_demo2.py:267-268 | removing from a concatenation is removing from each part, in order; with `RemoveAllOne` this fixes both the order and the count of the kept characters |
| Trials.UseCount | intellimaKG_demo2.py:53 | `get("uses", 0)`: the stored counter, or 0 when the key is missing; `WithUse`, `Bumped` and `RepeatedUse` state how it grows |
| Trials.WithEntry | intellimaKG_demo2.py:39-46 | `ensure_entry` adds a fresh record (no first use, 0 uses) under the lower-cased code only when it is missing; existing records are untouched |
| Trials.WithUse | intellimaKG_demo2.py:48-55 | `register_use` keeps an existing first use or stamps today, counts one more use (a missing counter reads as 0), and changes no other record |
| Trials.WithFirstUse | intellimaKG_demo2.py:57-62 | `set_first_use` changes only the first use of the lower-cased code; its counter and all other records stay |
| Trials.Bumped | intellimaKG_demo2.py:226 | the in-place counter bump adds one use and leaves the first use and all other records unchanged |
| Trials.DaysSince | intellimaKG_demo2.py:64-74 | a number of days exactly when the record exists and holds a parsable date, and it is today minus that date |
| Trials.RemainingDays | intellimaKG_demo2.py:85-92 | no value exactly for `test123` (any case); otherwise a value that is never negative |
| Trials.IsActive | intellimaKG_demo2.py:76-83 | `trial_active` on a mapping; `ActiveWindow`, `ActiveIffDaysRemain` and `ExpiryIsPermanent` state its window |
| Trials.ActiveWindow | intellimaKG_demo2.py:76-83 | `test123` is always active; any other code is active exactly when it has no usable first use or fewer than 7 days have passed |
| Trials.RemainingWindow | intellimaKG_demo2.py:85-92 | 7 days with no usable first use, 0 from day 7 on, otherwise 7 minus the days passed |
| Trials.ActiveIffDaysRemain | intellimaKG_demo2.py:76-92 | for a non-exempt code, `trial_active` holds if and only if `trial_remaining_days` is positive |
| Trials.UseKeepsFirstUse | intellimaKG_demo2.py:51-52 | using a code never overwrites a first use that is already set |
| Trials.RepeatedUse | intellimaKG_demo2.py:48-55 | any number of uses keeps the first date ever stamped and adds exactly one per use |
| Trials.ExpiryIsPermanent | intellimaKG_demo2.py:76-83 | a code that has expired stays expired on every later day, however often it is used |
| Trials.PolicyIgnoresFreshEntries | intellimaKG_demo2.py:64-92 | adding fresh records for other codes, or for this one, changes none of the three policy answers |
| Trials.Loaded | intellimaKG_demo2.py:23-30 | `load_db` yields the saved mapping, or an empty one when the file is missing or does not parse |
| Trials.TrialStore.Open | intellimaKG_demo2.py:151 | the page starts with the file's contents in memory |
| Trials.TrialStore.Load | intellimaKG_demo2.py:208 | reloading replaces the in-memory mapping with the file's contents |
| Trials.TrialStore.Save | intellimaKG_demo2.py:32-34 | `save_db` writes the in-memory mapping to the file |
| Trials.TrialStore.EnsureEntry | intellimaKG_demo2.py:39-46 | the in-memory mapping becomes `WithEntry` of the old one; the file is unchanged |
| Trials.TrialStore.RegisterUse | intellimaKG_demo2.py:48-55 | the mapping becomes `WithUse` of the old one, and it is saved |
| Trials.TrialStore.SetFirstUse | intellimaKG_demo2.py:57-62 | the mapping becomes `WithFirstUse` of the old one, and it is saved |
| Trials.TrialStore.BumpAndSave | intellimaKG_demo2.py:162-163 | the mapping becomes `Bumped` of the old one, and it is saved |
| Trials.TrialStore.DaysSinceFirstUse | intellimaKG_demo2.py:64-74 | returns `DaysSince` of the store as it was, and leaves the code's entry inserted |
| Trials.TrialStore.TrialActive | intellimaKG_demo2.py:76-83 | returns `IsActive` of the store as it was; inserts an entry for every code except `test123` |
| Trials.TrialStore.TrialRemainingDays | intellimaKG_demo2.py:85-92 | returns `RemainingDays` of the store as it was; inserts an entry for every code except `test123` |
| Gate.DigitChar | intellimaKG_demo2.py:15 | the character of a decimal digit has that digit's value |
| Gate.Decimal | intellimaKG_demo2.py:15 | `str(n)` is a non-empty string of decimal digits whose value (`DigitsValue`) is `n`, with no leading zero unless `n` is 0 |
| Gate.DemoCodesUpTo | intellimaKG_demo2.py:15 | the list holds `demo1` … `demoN`, in order |
| Gate.ExemptIsKey | intellimaKG_demo2.py:78 | `test123` is its own lower case |
| Gate.DemoCodeIsKey | intellimaKG_demo2.py:15 | every demo code is already lower case and differs from `test123` |
| Gate.ExemptNotDemo | intellimaKG_demo2.py:15 | `test123` is not among `demo1` … `demo50` |
| Gate.Normalize | intellimaKG_demo2.py:154 | `code_input.strip().lower()` is no longer than the input and holds no upper-case letter |
| Gate.WithEntries | intellimaKG_demo2.py:169-175 | creating entries for a list of codes adds a record for each of them and keeps every existing record |
| Gate.WithEntriesKeys | intellimaKG_demo2.py:169-175 | those calls add no key other than the codes' own, lower-cased |
| Gate.RowOf | intellimaKG_demo2.py:171-182 | the table row of a code on a mapping; `TableRow` and `RowIgnoresFreshEntries` state what it shows |
| Gate.RowIgnoresFreshEntries | intellimaKG_demo2.py:171-182 | a table row reads the same whether or not missing records were created first |
| Gate.TableRow | intellimaKG_demo2.py:171-183 | the row shows the store as it was before the row was built, and the row's queries leave its code's entry inserted |
| Gate.ListRows | intellimaKG_demo2.py:170-183 | one row per code, in order, each describing the store as it was before the loop; afterwards every listed code has an in-memory record |
| Gate.AdminTable | intellimaKG_demo2.py:169-184 | the table lists `demo1` … `demo50` and then `test123`, and it leaves records for all of them in memory only |
| Gate.ExpiredDay | intellimaKG_demo2.py:199 | `today - timedelta(days=TRIAL_DAYS + 1)`; `ForceExpireExpires` states that it expires the code |
| Gate.ActionSaves | intellimaKG_demo2.py:195-205 | what each admin button saves; `ResetRestartsTrial`, `ForceExpireExpires` and `ClearOnlyExisting` state it for each button |
| Gate.ForceExpireExpires | intellimaKG_demo2.py:198-200 | force-expire saves a mapping in which the code is expired, today and on every later day, with 0 days remaining and its count kept |
| Gate.ResetRestartsTrial | intellimaKG_demo2.py:195-196 | reset saves a mapping in which the code is active with the full 7 days remaining and its count kept |
| Gate.ClearOnlyExisting | intellimaKG_demo2.py:202-205 | clear saves nothing for a code without a record; otherwise only that record is reset, to a full unused trial |
| Gate.RunAdminAction | intellimaKG_demo2.py:194-208 | the file receives what the action saves (or stays as it was), and memory is reloaded from the file |
| Gate.AdminUse | intellimaKG_demo2.py:161-163 | the admin's visit adds `test123` to the keys and nothing else; its counter becomes stored and one higher than before (0 when the record was missing), its first use stays as it was (none for a new record), and every other record is unchanged |
| Gate.PanelKeepsAdminRecord | intellimaKG_demo2.py:161-208 | after the panel, the admin record is exactly the one counted on entry; the table and the actions never touch it |
| Gate.ClearAfterTableAlwaysSaves | intellimaKG_demo2.py:170-205 | on the admin page clearing always saves, because the table has just created every code's record, so every table code reaches the file |
| Gate.PanelResult | intellimaKG_demo2.py:161-208 | memory and file after the admin panel; `PanelKeepsAdminRecord`, `PanelKeys` and `AdminPanel` state what they hold |
| Gate.PanelKeys | intellimaKG_demo2.py:161-208 | the panel adds records only for codes on the allow-list |
| Gate.AdminPanel | intellimaKG_demo2.py:161-208 | the table describes the store just after the admin's use; memory and file end as `PanelResult` |
| Gate.RecordVisit | intellimaKG_demo2.py:222-227 | both branches of the visit block amount to `register_use`: the store becomes `WithUse` of the old one, and it is saved |
| Gate.StatusOf | intellimaKG_demo2.py:230-240 | the message of a demo visit; `CheckStatus` and `DemoVisitOutcome` state when it refuses |
| Gate.CheckStatus | intellimaKG_demo2.py:229-240 | the outcome is "expired" or "admitted with the remaining days" as the policy says, and the store is unchanged |
| Gate.DemoVisitOutcome | intellimaKG_demo2.py:218-240 | a demo visit is refused as expired exactly when its first use was 7 or more days ago; a first visit gets the full 7 days |
| Gate.DemoVisit | intellimaKG_demo2.py:218-240 | a demo visit records one use (stamping today if needed), saves, and reports the resulting status |
| Gate.AdminVisitAsWritten | intellimaKG_demo2.py:159-240 | as written: the panel, then one more `register_use` of `test123`, then "admitted, no limit" |
| Gate.AdminVisit | intellimaKG_demo2.py:159-216 | corrected: the panel alone, then "admitted, no limit" |
| Gate.LoginAsWritten | intellimaKG_demo2.py:153-240 | no input leaves everything unchanged; a code off the list is rejected with nothing changed; demo codes record a use and report the status; `test123` gets the admin visit as written |
| Gate.Login | intellimaKG_demo2.py:153-240 | the same with the corrected admin visit; the store only ever gains records for allow-listed codes |
| Gate.AdminCountedTwiceAsWritten | intellimaKG_demo2.py:222-227 | as written, each admin visit adds two uses and stamps a first use when there was none |
| Gate.AdminFirstVisitAsWritten | intellimaKG_demo2.py:160-227 | on an empty store the admin's first visit leaves first use today and 2 uses, where the intended result is no first use and 1 use |
| Gate.AdminCountedOnce | intellimaKG_demo2.py:160-163 | corrected, each admin visit adds one use and never changes the admin's first use |
| Hashtags.Kept | intellimaKG_demo2.py:266 | `[s.strip() for s in pieces if s.strip()]`: at most as many keywords as pieces are kept; `KeptOne` and `KeptAppend` fix its contents and order |
| Hashtags.KeptOne | intellimaKG_demo2.py:266 | one piece gives its stripped text when that is not empty, and nothing otherwise |
| Hashtags.KeptAppend | intellimaKG_demo2.py:266 | the keywords kept from two runs of pieces are those of the first run followed by those of the second |
| Hashtags.KeepIfNonBlank | intellimaKG_demo2.py:266 | one step of the comprehension appends `Kept` of the one piece |
| Hashtags.KeptNonBlank | intellimaKG_demo2.py:266 | no kept keyword is empty or starts with whitespace |
| Hashtags.Tags | intellimaKG_demo2.py:266-267 | one tag per keyword, in order |
| Hashtags.Take | intellimaKG_demo2.py:269 | `tags[:n]` keeps the first `n` tags, or all of them when there are fewer |
| Hashtags.KeepNonBlank | intellimaKG_demo2.py:266 | the comprehension's loop yields `Kept` of the pieces |
| Hashtags.AppendTags | intellimaKG_demo2.py:266-267 | the loop appends the tags of the kept keywords, in order |
| Hashtags.KeywordTags | intellimaKG_demo2.py:264-267 | the keyword tags are those of the kept comma-separated pieces; an empty field gives none |
| Hashtags.SuggestHashtags | intellimaKG_demo2.py:264-269 | the shown tags are the first fifteen of the category tag followed by the keyword tags, and the line joins them with spaces (the product-name fallback never applies) |
| Hashtags.Tag | intellimaKG_demo2.py:267 | `"#" + s.replace(" ", "")` starts with `#` and holds no space |
| Hashtags.KeywordTagShape | intellimaKG_demo2.py:267 | a keyword tag is `#`, then at least one character, and contains no space |
| Hashtags.ShownTags | intellimaKG_demo2.py:264-269 | the tags the page shows; `ShownTagsShape`, `HashtagLineSplits` and `BlankKeywordsGiveCategoryOnly` state what they are |
| Hashtags.ShownTagsShape | intellimaKG_demo2.py:264-269 | between one and fifteen tags are shown; the first is the category tag without spaces; every other tag is `#` plus a space-free word |
| Hashtags.HashtagLineSplits | intellimaKG_demo2.py:269 | splitting the hashtag line at its spaces gives back exactly the tags shown |
| Hashtags.BlankKeywordsGiveCategoryOnly | intellimaKG_demo2.py:265-268 | keywords that are only commas and whitespace give the category tag alone |

## Left out

- Page rendering is not modelled. This covers the CSS, watermark, logo and header (lines 95-149) and the texts of the success, warning and info messages. It also covers the title and description templates of lines 255-262 and the first-use display of line 233.
- Line 145 lacks a comma before `unsafe_allow_html=True`, so the file as written does not parse. The model describes the program with that comma in place.
- The export and download buttons (lines 210-213) only read the store, so they are not modelled.
- The JSON encoding and the file path (lines 20-34) are not modelled. The file is the value `StoredFile`, and a file that does not parse is `Unreadable`.
- Clock reads and ISO date handling (`date.today()`, `isoformat`, `datetime.fromisoformat`) are not modelled. Dates are day numbers. A `first_use` that is empty or does not parse is `Invalid`, which the policy treats like a missing date, as lines 68-74 do.
- A `trials.json` that holds valid JSON other than an object (`[]`, `null`, a number or a string) is returned by `load_db` as it is, and the first `ensure_entry` then fails with a `TypeError` (lines 41-42). `StoredFile` holds only mappings or `Unreadable`, so this case is not modelled.
- Malformed records are left out: a record without a `first_use` key (a `KeyError` at line 222), a value that is not a dictionary, and a non-integer `uses` (a `TypeError` at line 53). A missing `uses` key is modelled, and reads as 0.
- Text.LowerChar: lower-cases ASCII letters only, while Python's `lower()` covers all of Unicode. No non-ASCII character lowers to a character of an allow-listed code, so acceptance and the stored keys are unaffected.
- Text.Lower: applies `Text.LowerChar` to each character, so it inherits the same ASCII-only restriction.
- The admin's selection box offers only `demo1` … `demo50` (line 190). The admin methods therefore require `sel in DemoCodes`; this is a constraint of the widget, not a precondition the code checks.
- The product-description button and its blank-name check (lines 251-254) are not modelled. The product name reaches the hashtag builder only through the fallback of line 269, which is modelled and never taken.
- Streamlit's re-run of the whole script on every interaction, and two sessions writing `trials.json` at once, are not modelled. Each call is one page load from start to finish.
- Admin actions reach only the demo codes offered by the selection box (line 190), and clear writes only when the code already has a record (line 203), which is always the case on the admin page; see `Gate.ClearAfterTableAlwaysSaves`.

## Findings

| source | as written | input that shows it | evidently intended | confidence | as-written member | corrected member |
|---|---|---|---|---|---|---|
| intellimaKG_demo2.py:222-227 | the block that stamps a first use and counts the visit is indented at the level of `if code == "test123"`, so it also runs after the admin panel | code `test123` on an empty store: the admin record ends with first use today and 2 uses | the block belongs to the demo branch (comments on lines 160 and 218-221): an admin visit counts once and never stamps a first use | high; not executed | Gate.AdminCountedTwiceAsWritten | Gate.AdminCountedOnce |
