# bot-mbkm change detector, in Dafny

bot-mbkm polls the student-activities API once a minute. It sends a
notification to a Discord webhook whenever an activity's status changes.
This project models the part of it that holds logic:

- `formatNotification`, the change detector. It walks the decoded `data`
  array in order. It skips elements that are not objects and records whose
  status is `PROCESSED`. It compares every other record's status with the
  status remembered for its id. When the id is new or the status differs, it
  appends an Activity / Partner / Status block to the message, takes the
  record's `mitra_logo` as the image (the last one wins) and remembers the
  new status.
- `checkForChanges`, one tick of the loop. The start-up notice goes out on
  the first tick only. A change notice goes out only when the detector
  succeeded and its message is not empty.

Modules:

- `Payload` (payload.dfy): the decoded response. The response either fails to
  decode (it is not JSON, or it is JSON other than an object or null) or has
  a `data` member that is an array or is not; a null body has no `data`. An element either
  is not an object or is a record whose `id`, `status` and `mitra_logo` are
  each absent, of the wrong JSON type, or of the expected type.
- `ChangeDetector` (detector.dfy): `Visit` and `Walk` give the meaning of one
  loop iteration and of the whole loop, and `Detect` gives the meaning of a
  whole call. `LastStatus`, `Known`, `Report` and `LastImage` describe the
  same result without the table the loop threads through.
- `DetectorProperties` (detector_properties.dfy): the lemmas that connect the
  two descriptions and state the detector's rules.
- `Scheduler` (scheduler.dfy): class `Bot`, whose fields are the two
  package-level variables the program changes after start-up
  (`lastResponse`, `firstRun`).
  It has the loop method `FormatNotification`, proved equal to `Detect`, and
  the tick method `CheckForChanges`.

The program's type assertions are modelled as written. A record whose `id`
or `status` is missing or mistyped does not get skipped: the program panics.
So does a changed record whose `mitra_logo` is not a string. The model
returns the outcome `Panic` in both cases. The table keeps the updates made
before the panicking record. So malformed records are not skipped silently;
the model follows the code.

## Model

| member | source | states |
|---|---|---|
| `ChangeDetector.Visit` | main.go:95-114 | one iteration never removes a table key; after a panic nothing changes; a panicking record leaves the table as it was before it |
| `ChangeDetector.Walk` | main.go:95-115 | the loop never removes a table key, and nothing happens after a panic |
| `ChangeDetector.Detect` | main.go:83-118 | a response that is not JSON (or JSON other than an object or null), or whose `data` is not an array, fails with a format error and leaves the table untouched; no call removes a key |
| `DetectorProperties.NonObjectSkipped` | main.go:96-99 | an element that is not an object can be dropped from the input, wherever it is, without changing message, image or table |
| `DetectorProperties.ProcessedSkipped` | main.go:101-106 | a well-typed PROCESSED record can be dropped without changing message, image or table, even when the table holds another status for its id |
| `DetectorProperties.UnchangedSkipped` | main.go:108 | a record whose id already maps to its status can be dropped without changing message, image or table |
| `DetectorProperties.ChangedAppendsBlock` | main.go:108-113 | a record whose id is absent or maps to another status appends its block, makes its logo the image and sets its id's entry to its status |
| `DetectorProperties.MistypedRecordPanics` | main.go:101-112 | a record with a missing or mistyped `id` or `status`, or a changed record with a non-string `mitra_logo`, panics; the rest of the input is not looked at and the table keeps the earlier updates |
| `DetectorProperties.WalkFrame` | main.go:95-115 | an id that no tracked record carries keeps its entry, present or absent, whether or not the call panics |
| `DetectorProperties.WalkMatchesReport` | main.go:94-117 | a call that does not panic returns the blocks of the records that change status, in input order; the image is the logo of the last of them; each id ends up mapped to the status of its last non-PROCESSED record, or keeps its old entry |
| `DetectorProperties.ReportEmptyIff` | main.go:108-113 | the message is empty exactly when every non-PROCESSED record's status is already the remembered one; then the image is empty too |
| `DetectorProperties.DetectOutcome` | main.go:83-118 | a whole call: keys are only added; ids no tracked record carries are untouched; on success the message, image and table are as above, and the message is empty exactly when nothing changed |
| `DetectorProperties.SecondWalkQuiet` | main.go:108-113 | when no id carries two different non-PROCESSED statuses, walking the same records again from the table the first walk left reports nothing and changes nothing |
| `DetectorProperties.DetectTwiceQuiet` | main.go:83-118 | idempotence: under that proviso, a second call on the same response returns an empty message and image and leaves the table as it is |
| `DetectorProperties.IdempotenceNeedsConsistentIds` | main.go:108-113 | without the proviso it fails: one id listed as ACTIVE and then as DONE gives a non-empty message on the second call too |
| `DetectorProperties.FirstPollThenSilence` | main.go:104-117 | one ACTIVE record on an empty table is reported with its logo and remembered; the same poll again is silent; a lone PROCESSED record reports nothing and is not remembered |
| `Scheduler.ChangeNotice` | main.go:142-148 | a change notice is attempted exactly when the detector succeeded with a non-empty message, and it carries that message and image |
| `Scheduler.Bot.constructor` | main.go:22-30 | the table starts empty and the first-run flag starts raised |
| `Scheduler.Bot.FormatNotification` | main.go:83-118 | the loop updates `lastResponse` in place and returns exactly what `Detect` gives for the old table |
| `Scheduler.Bot.CheckForChanges` | main.go:120-149 | after any tick the first-run flag is down; the start-up notice is attempted only if it was up; a fetch error leaves the table alone; otherwise the table is the detector's and the change notice follows `ChangeNotice` |

## Left out

- `fetchData` is an HTTP GET. It is not modelled: a tick takes its result as
  a parameter, either an error or a response.
- `sendDiscordNotification` is JSON marshalling plus an HTTP POST. It is not
  modelled: a tick reports which notices it attempts to post. A failed post
  is only logged, so it changes no state.
- `loadEnvVariables` reads `.env` and the environment. Only its effect on the
  model's state is kept: the table starts empty.
- The `main` loop with its one-minute sleep has no logic beyond calling a tick
  forever, so it is not modelled. A panic ends that loop; the model reports
  the panic and does not model what happens to the process afterwards.
- JSON decoding is not modelled. `Undecodable` stands for any
  `json.Unmarshal` error (a body that is not JSON, or JSON other than an
  object or null); the model starts from the decoded structure.
- The `float64` to `int` conversion of `id` is not modelled. `id` is an
  `int`, so fractional or out-of-range ids that truncate onto the same integer
  are not covered.
- `%s` rendering of non-string `nama_kegiatan` and `mitra_brand_name` values
  (a missing member prints `%!s(<nil>)`) is not modelled. Both are kept as the
  strings they render to.
- Logging is not modelled.
- Go strings are byte sequences. The model uses `seq<char>`; nothing here
  depends on the encoding.
