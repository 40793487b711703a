# PomodoroApp usage tracker — a Dafny model

This project models the usage-attribution core of PomodoroApp's Python backend.
A tracker polls the foreground window and attributes wall-clock seconds to the app
that was in front. It excludes idle time and debounces short app switches. It keeps
a per-app ledger of seconds and reports the most-used apps in whole minutes.

The model covers:

- **`AppNames.dfy`** (module `AppNames`): the friendly-name table and
  `get_app_name`. The lookup lower-cases its input and falls back to the input
  itself.
- **`ActiveWindow.dfy`** (module `ActiveWindow`): the name-matching rule of
  `get_active_window_process`. It picks the first running process whose name,
  with every ".exe" removed and then lower-cased, occurs in the lower-cased
  window title. Without a match it falls back to the foreground process. The
  first-match loop is a method with loop invariants.
- **`Ledger.dfy`** (module `UsageLedger`): `app_usage` as an insertion-ordered
  dictionary, a key order plus a key-to-seconds map. Python dicts keep insertion
  order, and the top-apps report uses it to break ties. The module also defines
  crediting, clearing, and the `dict.update` merge of `load_usage_from_file`.
- **`TopApps.dfy`** (module `TopApps`): `get_top_apps` as a specification
  function `Report`. It models Python's stable `sorted(..., reverse=True)` as an
  insertion sort, the `[:limit]` slice (negative limits included) and `round`
  (halves go to the even neighbour).
- **`Attribution.dfy`** (module `Attribution`): one call of `track_app_usage` as
  a pure step `Step` over the tracker state, with runs of successive calls. The
  clock reading, the idle seconds and the resolved app are inputs.
- **`UsageTracker.dfy`** (module `UsageTracker`): the module-level globals
  `app_usage`, `last_active_window` and `last_check_time` as one `Tracker` object.
  Its methods change them in place and are proved against `Step`, `Report`,
  `Clear` and `Merge`.

Seconds are `real`s. The clock (`datetime.now()`), the idle probe
(`get_idle_duration`) and the resolved app (`get_active_window_process`) become
parameters of `TrackAppUsage`. `ResolveActiveApp` models the resolution rule
separately, over a given title, foreground name and process list.

A debounced switch still credits the elapsed time to the previous app and moves
`last_check_time` to now (UsageTracker.py:111-126). Only the baseline app stays
the same. `DebounceExample` shows the consequence. The tracker starts at 0 s,
sees a switch at 3 s and another at 10 s. The first app is credited 3 s and then
7 s, 10 s in all.

The front end calls `/api/pause-tracking` (break.js:13) and
`/api/resume-tracking` (pomodoro.js:106). The backend defines neither route, so
pausing and resuming are not modelled.

Two consequences of the code are proved. First, the table keys
"WindowsTerminal.exe" and "ShellExperienceHost.exe" contain upper-case letters,
so a lower-cased lookup can never reach them. Second, a process named exactly
".exe" matches every window title.

## Model

| member | source | states |
|---|---|---|
| AppNames.Table | resources/backend/AppNames.py:1-21 | The 18 entries of the `AppNames` dictionary, keys and friendly names as written |
| AppNames.Lower | resources/backend/AppNames.py:24 | `lower()` keeps the length and folds each character on its own |
| AppNames.LowerKeysReachable | resources/backend/AppNames.py:1-24 | A key written in lower case is reached by its own name and by every casing of it |
| AppNames.GetAppName | resources/backend/AppNames.py:23-24 | Total: the result is a table value or the input itself; any result other than the input is the table entry for the lower-cased input |
| AppNames.LowerChar | resources/backend/AppNames.py:24 | Lower-casing a character leaves no upper-case ASCII letter: upper-case letters move up by 32 to the matching lower-case letter, anything else is kept |
| AppNames.LowerHasNoUpper | resources/backend/AppNames.py:24 | A lower-cased name never contains an upper-case letter |
| AppNames.LowerFixedPoint | resources/backend/AppNames.py:24 | Lower-casing leaves a name unchanged if and only if it has no upper-case letter |
| AppNames.UpperKeyUnreachable | resources/backend/AppNames.py:24 | A key with an upper-case letter never equals the lookup key, whatever the input |
| AppNames.LookupHit | resources/backend/AppNames.py:24 | When the lower-cased input is a key, the result is that key's friendly name |
| AppNames.ChromeUpperCase | resources/backend/AppNames.py:13 | "CHROME.EXE" maps to "Google Chrome" |
| AppNames.LookupMiss | resources/backend/AppNames.py:24 | When the lower-cased input is not a key, the input comes back unchanged, case preserved |
| AppNames.CaseInsensitive | resources/backend/AppNames.py:24 | Two inputs with the same lower-cased form that the table knows get the same friendly name |
| AppNames.WindowsTerminalUnreachable | resources/backend/AppNames.py:7 | "Windows Terminal" comes back only for the input "Windows Terminal"; "WindowsTerminal.exe" comes back unchanged |
| AppNames.ShellExperienceHostUnreachable | resources/backend/AppNames.py:8 | "Windows Shell Experience Host" comes back only for that same string |
| ActiveWindow.StripExe | resources/backend/UsageTracker.py:66 | `replace('.exe', '')` never lengthens a name |
| ActiveWindow.Contains | resources/backend/UsageTracker.py:66 | Python's `in` on strings; a pattern that occurs is no longer than the title |
| ActiveWindow.Matches | resources/backend/UsageTracker.py:66 | The loop's test: a name matches only when it is present and non-empty, and its stripped form is no longer than the title |
| ActiveWindow.ContainsIff | resources/backend/UsageTracker.py:66 | The substring test `in` holds if and only if the pattern occurs at some position of the title |
| ActiveWindow.StripExeIdentity | resources/backend/UsageTracker.py:66 | A name without ".exe" is left unchanged |
| ActiveWindow.StripExeSuffix | resources/backend/UsageTracker.py:66 | A dot-free stem followed by ".exe" is stripped back to the stem |
| ActiveWindow.BareExeMatchesAnyTitle | resources/backend/UsageTracker.py:66 | A process named ".exe" strips to "" and matches every title |
| ActiveWindow.FirstMatch | resources/backend/UsageTracker.py:64-68 | The index found names a matching process and none before it matches; there is no index if and only if no process matches |
| ActiveWindow.ResolveActiveApp | resources/backend/UsageTracker.py:56-76 | Failed OS queries give no app. Otherwise the result is the friendly name of the first matching process, or of the foreground process when none matches |
| UsageLedger.Get | resources/backend/UsageTracker.py:103 | `get(app, 0)`: a key's entry, 0 for a key never written |
| UsageLedger.Credit | resources/backend/UsageTracker.py:103 | `app_usage[app] = get(app, 0) + amount`: the app's entry becomes its old value (0 when absent) plus the amount, and existing keys keep their order |
| UsageLedger.Put | resources/backend/UsageTracker.py:103 | Assignment keeps the ledger well formed, sets that key's value, and keeps existing keys in place |
| UsageLedger.CreditGet | resources/backend/UsageTracker.py:113 | `get(app, 0) + amount` raises that app by exactly the amount (from 0 when absent), leaves every other key alone, and adds only that key, at the end of the key order |
| UsageLedger.CreditGrows | resources/backend/UsageTracker.py:103 | Crediting a non-negative amount loses no key and lowers no entry; non-negative entries stay non-negative |
| UsageLedger.TotalPut | resources/backend/UsageTracker.py:103 | Writing a value changes the ledger's total by the new value minus the old entry |
| UsageLedger.TotalCredit | resources/backend/UsageTracker.py:113 | Crediting raises the ledger's total by exactly the credited amount |
| UsageLedger.Items | resources/backend/UsageTracker.py:167 | `items()` lists every key once, in insertion order, with its seconds |
| UsageLedger.Clear | resources/backend/UsageTracker.py:209 | `clear()` leaves no key |
| UsageLedger.Merge | resources/backend/UsageTracker.py:161 | `update(loaded)` gives a well-formed ledger, and existing keys keep their order in front |
| UsageLedger.MergeKeysSecs | resources/backend/UsageTracker.py:161 | Putting keys one by one: the keys are the old ones plus the new ones, new keys carry their loaded values, and the others keep theirs |
| UsageLedger.MergeSecs | resources/backend/UsageTracker.py:161 | The merged keys are the union of both key sets; loaded keys overwrite, and keys absent from the file keep their values |
| UsageLedger.NewKeys | resources/backend/UsageTracker.py:161 | The loaded keys the ledger did not hold, in loaded order; each is a loaded key and not an existing one |
| UsageLedger.NewKeysSkip | resources/backend/UsageTracker.py:161 | Knowing one more key that the loaded keys do not contain does not change the new keys |
| UsageLedger.PutNewKeys | resources/backend/UsageTracker.py:161 | Putting the first loaded key moves it from the new keys to the end of the key order |
| UsageLedger.MergeKeysOrder | resources/backend/UsageTracker.py:161 | Putting distinct keys one by one: the old keys in their order, then the keys that were new, in loaded order |
| UsageLedger.MergeOrder | resources/backend/UsageTracker.py:161 | After `update(loaded)` the existing keys come first in their order, then the loaded keys that were absent, in loaded order |
| UsageLedger.MergeKeysFresh | resources/backend/UsageTracker.py:161 | Keys that are all new are appended in the loaded order |
| UsageLedger.MergeIntoEmpty | resources/backend/UsageTracker.py:161 | Loading into an empty ledger reproduces the loaded ledger exactly, order included |
| UsageLedger.MergeNonNeg | resources/backend/UsageTracker.py:161 | Merging non-negative ledgers leaves every entry non-negative |
| TopApps.SortDesc | resources/backend/UsageTracker.py:167 | `sorted(..., reverse=True)` as an insertion sort: as many entries as it was given (order, permutation and stability are the lemmas below) |
| TopApps.Insert | resources/backend/UsageTracker.py:167 | Inserting one entry adds exactly that entry (multiset) |
| TopApps.InsertBounded | resources/backend/UsageTracker.py:167 | Inserting keeps every entry under a bound that the inserted entry and the sequence respect |
| TopApps.InsertDescending | resources/backend/UsageTracker.py:167 | Inserting into a descending sequence keeps it descending |
| TopApps.SortDescOrdered | resources/backend/UsageTracker.py:167 | The sort orders by seconds, largest first |
| TopApps.SortDescPermutation | resources/backend/UsageTracker.py:167 | The sort is a permutation of the items |
| TopApps.TiesCons | resources/backend/UsageTracker.py:167 | The entries tying with a value, for a sequence with a known head |
| TopApps.TiesConcat | resources/backend/UsageTracker.py:167 | Taking the entries with a given seconds value distributes over concatenation (used to carry stability through the `[:limit]` slice) |
| TopApps.TiesInsert | resources/backend/UsageTracker.py:167 | Inserting puts the new entry before the later entries it ties with |
| TopApps.SortDescStable | resources/backend/UsageTracker.py:167 | Stability: entries with equal seconds come out in their input (insertion) order |
| TopApps.SortDescDistinct | resources/backend/UsageTracker.py:167 | Sorting entries with distinct names keeps the names distinct |
| TopApps.SortedEntries | resources/backend/UsageTracker.py:167 | Each sorted entry is a ledger key with that key's seconds, and no key appears twice |
| TopApps.RoundHalfEven | resources/backend/UsageTracker.py:172 | `round` gives an integer within 1/2 of its argument, and an exact half goes to the even neighbour |
| TopApps.Minutes | resources/backend/UsageTracker.py:171-172 | `round(time / 60)` is within half a minute of the exact minutes |
| TopApps.Report | resources/backend/UsageTracker.py:166-174 | `get_top_apps(limit)` has no more entries than the ledger, nor than a non-negative limit |
| TopApps.Slice | resources/backend/UsageTracker.py:170 | `[:limit]` is a prefix with min(limit, length) entries; a negative limit drops that many from the end |
| TopApps.ReportLength | resources/backend/UsageTracker.py:166-174 | The report has min(limit, number of apps) entries for limit >= 0, and length + limit (at least 0) for a negative limit |
| TopApps.ReportEntries | resources/backend/UsageTracker.py:166-174 | Every reported name is a ledger key, no name appears twice, and its minutes are its seconds over 60, rounded half to even |
| TopApps.ReportOrdered | resources/backend/UsageTracker.py:166-174 | Reported apps come by seconds, most used first |
| TopApps.ReportKeepsLargest | resources/backend/UsageTracker.py:166-174 | An app left out of the report has no more seconds than any reported app |
| TopApps.ReportTies | resources/backend/UsageTracker.py:166-174 | For every seconds value, the reported apps holding it are the first ledger apps holding it, in insertion order |
| TopApps.ClearedReportEmpty | resources/backend/UsageTracker.py:205-211 | After a reset the report is empty for every limit |
| Attribution.Truthy | resources/backend/UsageTracker.py:101 | The `if last_active_window` test holds only for a present, non-empty name |
| Attribution.Max0 | resources/backend/UsageTracker.py:100 | `max(0, x)` is at least 0 and at least x, and is one of the two |
| Attribution.Credited | resources/backend/UsageTracker.py:91-113 | One call credits between 0 and the elapsed time, and credits anything only when the previous app is truthy |
| Attribution.NextActive | resources/backend/UsageTracker.py:84-126 | The next baseline app is the old one, the resolved one or none. It is none after an idle step. After an active step it changes if and only if the resolved app differs and elapsed >= 5 s |
| Attribution.Step | resources/backend/UsageTracker.py:78-128 | A call keeps the ledger well formed and always ends with `last_check_time` equal to now |
| Attribution.StepInitialises | resources/backend/UsageTracker.py:84-89 | With no previous app, the call only takes the resolved app and now as the baseline; the ledger is unchanged |
| Attribution.StepRebaselines | resources/backend/UsageTracker.py:91-94 | When no time has passed, only `last_check_time` moves to now |
| Attribution.StepIdle | resources/backend/UsageTracker.py:98-108 | While idle, exactly max(0, elapsed - idle) goes to a truthy previous app, and the previous app is dropped. No other entry changes, a key is added only when something is credited, a new key goes to the end of the key order while existing keys keep their places, a step that credits nothing leaves the ledger as it was, and the total rises by the credit |
| Attribution.StepActive | resources/backend/UsageTracker.py:110-126 | While active, the whole elapsed time goes to a truthy previous app. No other entry changes, a key is added only when something is credited, and it goes to the end of the key order while existing keys keep their places. A step that credits nothing leaves the ledger as it was. The app changes if and only if the resolved app differs and elapsed >= 5 s, and then it becomes the resolved app |
| Attribution.StepCreditBounded | resources/backend/UsageTracker.py:100-113 | The total rises by exactly the credit, which lies between 0 and the elapsed time |
| Attribution.StepGrows | resources/backend/UsageTracker.py:100-113 | No entry is lost or lowered by a call; non-negative entries stay non-negative |
| Attribution.IdleThenReinitialises | resources/backend/UsageTracker.py:84-108 | After an idle call the next call takes the initialisation path |
| Attribution.Run | resources/backend/UsageTracker.py:130-135 | Successive calls of `track_app_usage`, one per poll, keep the ledger well formed |
| Attribution.RunCreditBounded | resources/backend/UsageTracker.py:78-128 | Over calls whose clock never goes back, the total credited never exceeds the wall-clock time covered and never falls |
| Attribution.RunGrows | resources/backend/UsageTracker.py:78-128 | Over any sequence of calls no entry is lost or lowered |
| Attribution.RunKeepsNonNeg | resources/backend/UsageTracker.py:78-128 | Over any sequence of calls, non-negative entries stay non-negative |
| Attribution.IdleExample | resources/backend/UsageTracker.py:98-108 | 120 s elapsed with 100 s idle credits exactly 20 s and drops the app |
| Attribution.DebounceExample | resources/backend/UsageTracker.py:119-126 | A switch seen after 3 s is debounced and a later one after 7 s more is taken; the first app gets 10 s in all |
| UsageTracker.Tracker.constructor | resources/backend/UsageTracker.py:29-31 | Start-up state: empty ledger, no app, the clock read at start |
| UsageTracker.Tracker.TrackAppUsage | resources/backend/UsageTracker.py:78-128 | The in-place update leaves exactly the ledger, app and check time that `Step` gives for the old state |
| UsageTracker.Tracker.GetTopApps | resources/backend/UsageTracker.py:166-174 | The loop builds exactly `Report` of the current ledger |
| UsageTracker.Tracker.GetAppUsage | resources/backend/UsageTracker.py:197-199 | The `/api/app-usage` route reports with the default limit TOP_APP_LIMIT and so lists at most 5 apps |
| UsageTracker.Tracker.ResetTracking | resources/backend/UsageTracker.py:205-211 | The ledger becomes empty; the baseline app and check time are untouched |
| UsageTracker.Tracker.LoadUsage | resources/backend/UsageTracker.py:155-164 | A loaded ledger is merged in; with nothing loaded, nothing changes; the baseline is untouched |

## Left out

- The Flask plumbing: `ServerThread`, the `/shutdown` route, the `/api/health` route, the mock route and the `tracking_loop` sleep loop. `/api/app-usage` is modelled as `GetAppUsage`. `/api/reset-app-usage` is modelled as `ResetTracking`, without its JSON reply and logging.
- `threading.Lock` and the `shutting_down` flag: every operation is modelled as sequential.
- `get_idle_duration`: Win32 foreign calls. The idle seconds are a parameter of `TrackAppUsage`.
- The win32gui and psutil queries of `get_active_window_process`: the title, the foreground process name and the process names are inputs of `ResolveActiveApp`. A process that raises while being inspected is modelled as an entry with no name, which is skipped.
- `datetime.now()`: the clock is a `real` parameter. Python floats are modelled as exact reals, so float rounding in the sums is not captured.
- JSON reading and writing, `save_usage_to_file` and archive file names: `LoadUsage` takes the already parsed `"usage"` object, or nothing when the file is missing or unreadable. Non-numeric values in the file are not modelled.
- Exceptions inside `track_app_usage` are not modelled; `get_active_window_process` failing is modelled as no resolved app.
- AppNames.Lower: only ASCII letters are folded. Python's `str.lower` also folds other Unicode letters.
- Pausing and resuming tracking: the front end calls `/api/pause-tracking` and `/api/resume-tracking`, but the backend defines neither route.
