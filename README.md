# KOS exam sniper: slot acquisition

A Dafny model of the core of the KOS exam sniper. The sniper watches the exam
listing of the CTU student portal for configured courses (targets, each with
acceptable dates in order of preference) and signs the student up for the
first slot that opens. The model covers three parts:

- **Listing parser** (`Utility`, utility.dfy): turning listing rows into
  `AvailableExam` records (`parseAvailableExams`, `parseExamDate`), with
  JavaScript's `String.prototype.trim` written out over its whitespace set.
- **Matchers** (`Utility`): the targets already signed up for
  (`getAlreadySignedExams`) and the sign-up button among the page's primary
  buttons (`getSignUpButton`, over the buttons' labels).
- **Claim executor** (`Client`, client.dfy): the `Sniper` class with the
  fields `loadExams` overwrites, the "fully signed" result of `loadExams`,
  and `snipeExam`.

`snipeExam` is proved against a specification in two layers:

- `Attempts` lists the rows a call opens if every attempt loses the race.
  They are taken target by target and date by date. A target is skipped when
  it is signed (by code) or has no open record. For each date, the first
  open record of that code and date is taken.
- `Play` runs those attempts against the page. It stops at the first one
  that does not lose the race: a claim, or a wait that expires.

`Sniper.SnipeExam` returns exactly `Snipe(...).outcome`. It appends exactly
`Snipe(...).clicks` to the ghost click trace. The lemmas about these two
functions state:

- the attempts are exactly the chosen ones, in priority order;
- the first attempt that does not lose decides the run;
- a claim is the first open slot of a watched date of a target that is not
  yet signed, and the earlier attempts all lost;
- at most one sign-up click happens, and it is the last click of the call.

The page is an oracle (`Client.Oracle`). It gives the page's reaction to
opening the row tried for a (target position, date position) pair. It says
whether the controls appear, what the labels of the primary buttons are,
whether the controls hide again, and whether the submission spinner cycles.
`InPriorityOrder` shows that no pair is tried twice in one call, so the
oracle loses nothing by being indexed this way.

`scenarios.dfy` works through small listings:

- claim priority follows the configuration, not the listing order;
- a signed target is left alone;
- a target without an open record causes no click;
- a claimed slot is secured on the next poll.

The model follows the code in these places:

- A date cell without `" - "` is kept whole as the date. Only an empty
  prefix drops the row: `split(" - ")[0]` is the whole string then
  (src/utility/utility.ts:89-94).
- A row with both the signed-up and the available marker is `AVAILABLE`.
  The available marker is checked second and overwrites the status
  (src/utility/utility.ts:69-75).
- A wait that expires ends the call with an error (`Err(WaitTimeout)`). It
  does not move on to the next date. Puppeteer's `waitForSelector` rejects
  on timeout and `snipeExam` does not catch it (src/client.ts:105-108,
  115-118, 125-130).
- The availability check of `snipeExam` (src/client.ts:80-87) changes no
  click. `AvailabilityShortCut` proves that without it, a target with no
  open record would still yield no attempt.

## Model

| member | source | states |
|---|---|---|
| Utility.DatePart | src/utility/utility.ts:89 | the result is a prefix of the cell with no separator starting inside it, and is the whole cell or stops at a separator |
| Utility.DatePartUnique | src/utility/utility.ts:89 | those three properties determine the result: it is the text before the first `" - "` |
| Utility.ParseExamDate | src/utility/utility.ts:88-97 | null exactly for an empty cell or one starting with the separator; otherwise a non-empty prefix of the cell before its first separator (all of it when there is none), itself free of the separator |
| Utility.WholeCellWithoutSeparator | src/utility/utility.ts:89-96 | a non-empty cell without the separator is returned whole |
| Utility.TrimInfix | src/utility/utility.ts:133 | `trim` removes only whitespace, only at the two ends, and leaves no whitespace at either end |
| Utility.TrimOfPadded | src/utility/utility.ts:133 | trimming a whitespace-padded text that has no whitespace at its ends gives that text back |
| Utility.TrimIdempotent | src/utility/utility.ts:133 | trimming twice is trimming once |
| Utility.ParseRow | src/utility/utility.ts:57-82 | a row is dropped exactly when its code or date cell is missing or empty or its date part is empty; otherwise the record has the row's code, the parsed date and the row as element; the status is AVAILABLE iff the available marker is present, SIGNED iff only the signed-up marker is present, else NOT_AVAILABLE |
| Utility.ParseRowsIsFilter | src/utility/utility.ts:44-85 | the listing is an order-preserving filter of the rows: at most one record per row, no more records than rows, the k-th record is the one the k-th kept row yields |
| Utility.KeptRowsAreAccepted | src/utility/utility.ts:57-67 | a row is kept exactly when the per-row parse accepts it |
| Utility.RecordsWellFormed | src/utility/utility.ts:57-82 | every record has a non-empty code and date and comes from a row of the listing |
| Utility.ParseAvailableExams | src/utility/utility.ts:41-86 | the loop with its two `continue`s and the status overwrite yields exactly the filtered listing |
| Utility.AlreadySignedIsFilter | src/utility/utility.ts:103-123 | the signed targets are an order-preserving subsequence of the targets, each picked at most once, never more than the targets |
| Utility.SecuredPositionsAreSecured | src/utility/utility.ts:105-121 | a target position is picked exactly when some record has its code, status SIGNED and a date among its dates |
| Utility.AlreadySignedMembers | src/utility/utility.ts:107-117 | a target value is in the result exactly when it is configured and secured |
| Utility.AlreadySignedIdempotent | src/utility/utility.ts:99-124 | matching the result against the same listing again gives the same result |
| Utility.AllSignedIffEveryTargetSecured | src/client.ts:67-73 | the secured count equals the target count exactly when every target is secured (so true for no targets, false with one unsecured target) |
| Utility.GetAlreadySignedExams | src/utility/utility.ts:99-124 | the nested scan with `break` returns exactly the secured targets in configuration order |
| Utility.FirstSignUp | src/utility/utility.ts:129-137 | the first position whose trimmed label is "Přihlásit", or none exactly when no label matches |
| Utility.FirstSignUpIsFirstMatch | src/utility/utility.ts:131-137 | a matching position with no match before it is the one found |
| Utility.SignUpLabelPadded | src/utility/utility.ts:132-136 | a label matches exactly when it is "Přihlásit" with only whitespace around it |
| Utility.GetSignUpButton | src/utility/utility.ts:126-138 | the loop with early return finds exactly the first matching button |
| Client.HasSignedCodeIff | src/client.ts:78 | the signed lookup succeeds exactly when some signed target has the code, whatever its dates |
| Client.HasAvailableIff | src/client.ts:80-82 | the availability lookup succeeds exactly when some record of the code is AVAILABLE |
| Client.FindOpen | src/client.ts:90-97 | the first record in listing order with the code and date and status AVAILABLE, or none exactly when there is no such record |
| Client.TryRowLost | src/client.ts:110-121 | opening a row ends with no claim and no error exactly when the controls appeared, no sign-up button was among them and they hid again, and then the row was clicked twice |
| Client.Sniper.constructor | src/client.ts:16-24 | the sniper holds the configured targets, an empty listing, no signed targets and no clicks |
| Client.Sniper.LoadExams | src/client.ts:64-73 | the listing is the parsed rows, the signed set is the matcher's result, and the return value is true exactly when every target is secured |
| Client.Sniper.OpenRow | src/client.ts:104-137 | one opened row: outcome and clicks are those of `TryRow` |
| Client.Sniper.SnipeExam | src/client.ts:76-142 | the call returns `Snipe`'s outcome and appends `Snipe`'s clicks to the trace |
| Client.Sniper.SnipeDates | src/client.ts:89-138 | the inner loop over the dates of one target: either all its opened rows lost and the run goes on, or the call ends with the outcome and clicks of the whole run |
| Client.Sniper.SnipeDate | src/client.ts:90-121 | one date: skipped when no slot is open, otherwise one opened row, lost or ending the run |
| Client.DatesFromShape | src/client.ts:89-97 | the attempts for a target's dates are all for that target, each on the first open record of its date, in date order |
| Client.AttemptsFromShape | src/client.ts:77-97 | every attempt is chosen (target neither signed by code nor without open records, first open record of the date) and the attempts are in (target, date) order |
| Client.AttemptsAreChosen | src/client.ts:77-97 | an attempt is made exactly when it is chosen, and the attempts are in strictly increasing (target, date) order |
| Client.NoOpenSlotNoAttempt | src/client.ts:80-97 | a target without an AVAILABLE record of its code yields no attempt on any date |
| Client.AvailabilityShortCut | src/client.ts:80-87 | the attempts for a target are the same with or without the availability check |
| Client.FirstWon | src/client.ts:89-137 | the position of the first attempt that does not lose the race: every earlier one lost, and it did not |
| Client.PlayIsFirstWon | src/client.ts:104-141 | the run reports the outcome of the first attempt that does not lose, after two row clicks per lost attempt; when all lose, no claim and only those clicks |
| Client.PlayNone | src/client.ts:111-121 | the call reports no claim and no error exactly when every attempt lost the race |
| Client.PlayClaim | src/client.ts:123-137 | the call claims a record exactly when the first attempt that does not lose is on that record, found the sign-up button and saw the submission |
| Client.LostClicksAreRowClicks | src/client.ts:104-118 | lost attempts click rows only, two clicks each |
| Client.ClickDiscipline | src/client.ts:104-137 | only the last click of a call can be on the sign-up button; a claim ends with the row click and the sign-up click; a call reporting no claim clicked rows only, twice per attempt |
| Client.SnipeClaim | src/client.ts:77-137 | a claimed record is in the listing with status AVAILABLE and is the attempt for a watched date of a target not signed by code, with the target's code and that date; its button was found and every earlier attempt lost |
| Scenarios.SignUpIsSecondControl | src/utility/utility.ts:131-137 | among a cancel button and the sign-up button, the second is found |
| Scenarios.PriorityFollowsConfiguration | src/client.ts:77-137 | with two open targets whose slots are listed in reverse order, the first target's row is opened first and claimed with one row click and one sign-up click |
| Scenarios.SecuredTargetIsLeftAlone | src/utility/utility.ts:105-121 | a target signed on a watched date is secured, the listing is not fully signed, and only the other target's row is opened |
| Scenarios.NothingOpenNoClick | src/client.ts:80-87 | a target whose only record is not open is not secured, and the call opens nothing and claims nothing |
| Scenarios.ClaimedSlotIsSecuredNextPoll | src/client.ts:123-137 | a claimed slot that shows as signed on the next listing makes its target secured |

## Left out

- Browser launch, page creation and `destroy` (src/client.ts:26-36, 144-173): process and library plumbing.
- `login` (src/client.ts:38-53): navigation and form filling against the page.
- The navigation and spinner waits of `loadExams` and its read of the listing rows (src/client.ts:56-64): `Sniper.LoadExams` takes the rows as input.
- The page reads of `parseAvailableExams` (src/utility/utility.ts:47-55, 71, 74): a row is a `Row` value, and a missing cell is `None`.
- The page reads of `getSignUpButton` (src/utility/utility.ts:129, 132-134): the method takes the buttons' labels. A button without text content matches nothing, like any label that is not the sign-up label.
- Wait durations (1000 ms, and puppeteer's default for the spinner): only whether each wait was met is modelled.
- Failures of `click()` itself (a detached element): every click is assumed to succeed.
- All logging (src/utility/logger.ts), which depends on the wall clock and makes no decision.
- src/index.ts (console loop, config file, interval timer) and src/main.ts (HTTP adapter): I/O and scheduling around the core.
- The unused public field `exams` of the `Sniper` (src/client.ts:17).
- Runs that overlap in time: the code does not coordinate them.
- The numeric values of `ExamStatus` (src/utility/utility.ts:7-9): only the three cases matter.
- Strings are sequences of Unicode scalar values, not UTF-16 code units. Trimming and comparison agree for all texts without lone surrogates.
- The methods of the `Sniper` change its state. Their contracts tie the new state to the specification functions. The lemmas about those functions carry the properties.
- The inner loop of `snipeExam` and the body of that loop are methods of their own in the model (`SnipeDates`, `SnipeDate`). They issue the same clicks in the same order.
