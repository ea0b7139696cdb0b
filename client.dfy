/**
 * The `Sniper` of src/client.ts: its listing state, the "fully signed" test
 * of `loadExams` and the claim loop of `snipeExam`.
 *
 * The page is not modelled. What `snipeExam` observes after opening a
 * listing row is an injected oracle (`Oracle`), asked once per opened row
 * with the position of the target and of the date being tried. Every click
 * the method issues is recorded in the ghost trace `clicks`.
 *
 * The behaviour of one call is specified in two layers:
 *  - `Attempts` lists, in the order the loops reach them, the rows the
 *    call would open if every attempt lost the race;
 *  - `Play` runs those attempts against the oracle and stops at the first
 *    one that does not lose the race (a claim or a wait that times out).
 */
module Client {
  import opened Wrappers
  import opened Utility

  /**
   * What the page does once a listing row has been opened:
   *  - `controlsShown`: a `button.btn-primary` became visible within the
   *    1000 ms the wait allows (otherwise the wait throws);
   *  - `labels`: the text of every `button.btn-primary`, in page order;
   *  - `controlsHidden`: after the second click on the row, the controls
   *    were hidden within 1000 ms (otherwise the wait throws);
   *  - `submitObserved`: after clicking the sign-up button, the loading
   *    spinner appeared and disappeared again (otherwise the wait throws).
   */
  datatype Reaction = Reaction(controlsShown: bool, labels: seq<string>, controlsHidden: bool, submitObserved: bool)

  /** The page's reaction to opening the row tried for (target position, date position). */
  type Oracle = (nat, nat) -> Reaction

  /** The wait that expired; puppeteer rejects with a timeout error and `snipeExam` rejects with it. */
  datatype WaitTimeout = ControlsNotShown | ControlsNotHidden | SpinnerNotCycled

  /** A click issued on the page: on a listing row, or on the n-th `button.btn-primary`. */
  datatype Click = RowClick(row: RowHandle) | SignUpClick(button: nat)

  /** The record opened for date `date` of target `target` (both positions in the configuration). */
  datatype Attempt = Attempt(target: nat, date: nat, exam: AvailableExam)

  /** The outcome of one `snipeExam` call and the clicks it issued. */
  datatype Run = Run(outcome: Result<Option<AvailableExam>, WaitTimeout>, clicks: seq<Click>)

  // ---------------------------------------------------------------------------
  // The three `find` calls of `snipeExam`
  // ---------------------------------------------------------------------------

  /** `_signedExams.find(e => e.code === code)` finds something. */
  predicate HasSignedCode(signed: seq<SnipeExam>, code: string) {
    signed != [] && (signed[0].code == code || HasSignedCode(signed[1..], code))
  }

  /** `availableExams.find(e => e.code === code && e.status === AVAILABLE)` finds something. */
  predicate HasAvailable(exams: seq<AvailableExam>, code: string) {
    exams != [] && ((exams[0].code == code && exams[0].status == Available) || HasAvailable(exams[1..], code))
  }

  /** The signed lookup succeeds exactly when some secured target has the code. */
  lemma {:induction false} HasSignedCodeIff(signed: seq<SnipeExam>, code: string)
    ensures HasSignedCode(signed, code) <==> exists j :: 0 <= j < |signed| && signed[j].code == code
  {
    if signed != [] {
      HasSignedCodeIff(signed[1..], code);
      if exists j :: 0 <= j < |signed| && signed[j].code == code {
        var j :| 0 <= j < |signed| && signed[j].code == code;
        if j > 0 {
          assert signed[1..][j - 1].code == code;
        }
      }
    }
  }

  /** The availability lookup succeeds exactly when some record of the code is open. */
  lemma {:induction false} HasAvailableIff(exams: seq<AvailableExam>, code: string)
    ensures HasAvailable(exams, code) <==> exists j :: 0 <= j < |exams| && exams[j].code == code && exams[j].status == Available
  {
    if exams != [] {
      HasAvailableIff(exams[1..], code);
      if exists j :: 0 <= j < |exams| && exams[j].code == code && exams[j].status == Available {
        var j :| 0 <= j < |exams| && exams[j].code == code && exams[j].status == Available;
        if j > 0 {
          assert exams[1..][j - 1] == exams[j];
        }
      }
    }
  }

  /** Record `e` is an open slot of course `code` on `date`. */
  predicate OpenOn(e: AvailableExam, code: string, date: string) {
    e.date == date && e.code == code && e.status == Available
  }

  /** The position of the first open slot of `code` on `date` in listing order. */
  function FindOpen(exams: seq<AvailableExam>, code: string, date: string): (r: Option<nat>)
    ensures r.Some? ==> r.value < |exams| && OpenOn(exams[r.value], code, date)
    ensures r.Some? ==> forall j :: 0 <= j < r.value ==> !OpenOn(exams[j], code, date)
    ensures r.None? <==> forall j :: 0 <= j < |exams| ==> !OpenOn(exams[j], code, date)
  {
    if exams == [] then None
    else if OpenOn(exams[0], code, date) then Some(0)
    else match FindOpen(exams[1..], code, date)
      case None => None
      case Some(j) => Some(j + 1)
  }

  // ---------------------------------------------------------------------------
  // The rows one call opens, in order
  // ---------------------------------------------------------------------------

  /** Target `t` is passed over: it is already signed (by code), or none of its slots is open. */
  predicate PassedOver(t: SnipeExam, signed: seq<SnipeExam>, exams: seq<AvailableExam>) {
    HasSignedCode(signed, t.code) || !HasAvailable(exams, t.code)
  }

  /** The attempt for date `j` of target `t`, the `ti`-th target: none when no slot is open on that date. */
  function DateAttempt(ti: nat, t: SnipeExam, exams: seq<AvailableExam>, j: nat): seq<Attempt>
    requires j < |t.dates|
  {
    match FindOpen(exams, t.code, t.dates[j])
    case None => []
    case Some(x) => [Attempt(ti, j, exams[x])]
  }

  /** The attempts for the dates of target `t` from position `j` on. */
  function DatesFrom(ti: nat, t: SnipeExam, exams: seq<AvailableExam>, j: nat): seq<Attempt>
    requires j <= |t.dates|
    decreases |t.dates| - j
  {
    if j == |t.dates| then [] else DateAttempt(ti, t, exams, j) + DatesFrom(ti, t, exams, j + 1)
  }

  /** The attempts for the `ti`-th target `t`. */
  function TargetAttempts(ti: nat, t: SnipeExam, signed: seq<SnipeExam>, exams: seq<AvailableExam>): seq<Attempt> {
    if PassedOver(t, signed, exams) then [] else DatesFrom(ti, t, exams, 0)
  }

  /** The attempts for the targets from position `i` on. */
  function AttemptsFrom(targets: seq<SnipeExam>, signed: seq<SnipeExam>, exams: seq<AvailableExam>, i: nat): seq<Attempt>
    requires i <= |targets|
    decreases |targets| - i
  {
    if i == |targets| then []
    else TargetAttempts(i, targets[i], signed, exams) + AttemptsFrom(targets, signed, exams, i + 1)
  }

  /** Every row `snipeExam` opens when every attempt loses the race, in the order it opens them. */
  function Attempts(targets: seq<SnipeExam>, signed: seq<SnipeExam>, exams: seq<AvailableExam>): seq<Attempt> {
    AttemptsFrom(targets, signed, exams, 0)
  }

  // ---------------------------------------------------------------------------
  // Running the attempts against the page
  // ---------------------------------------------------------------------------

  function ReactionTo(react: Oracle, a: Attempt): Reaction {
    react(a.target, a.date)
  }

  /** The opened row showed the controls, one of which is the sign-up button. */
  predicate FoundButton(re: Reaction) {
    re.controlsShown && FirstSignUp(re.labels).Some?
  }

  /** The race was lost: the controls came, no sign-up button among them, and the row collapsed again. */
  predicate Lost(re: Reaction) {
    re.controlsShown && FirstSignUp(re.labels).None? && re.controlsHidden
  }

  /** Attempt `a` of `atts` lost the race. */
  predicate LostAt(atts: seq<Attempt>, react: Oracle, a: nat) {
    a < |atts| && Lost(ReactionTo(react, atts[a]))
  }

  /**
   * Opening one row whose page reacts as `re`: the outcome is the claimed
   * record, a timeout, or `Ok(None)` when the race was lost and the row was
   * collapsed again.
   */
  function TryRow(e: AvailableExam, re: Reaction): Run {
    var open := RowClick(e.element);
    if !re.controlsShown then Run(Err(ControlsNotShown), [open])
    else match FirstSignUp(re.labels)
      case Some(b) =>
        Run(if re.submitObserved then Ok(Some(e)) else Err(SpinnerNotCycled), [open, SignUpClick(b)])
      case None =>
        Run(if re.controlsHidden then Ok(None) else Err(ControlsNotHidden), [open, open])
  }

  /** An attempt reports no claim and no timeout exactly when the race was lost. */
  lemma TryRowLost(e: AvailableExam, re: Reaction)
    ensures TryRow(e, re).outcome == Ok(None) <==> Lost(re)
    ensures Lost(re) ==> TryRow(e, re).clicks == [RowClick(e.element), RowClick(e.element)]
  {
  }

  /** The outcome and the clicks of trying `atts[k..]` in order, up to the first attempt that does not lose the race. */
  function Play(atts: seq<Attempt>, react: Oracle, k: nat): Run
    requires k <= |atts|
    decreases |atts| - k
  {
    if k == |atts| then Run(Ok(None), [])
    else
      var re := ReactionTo(react, atts[k]);
      var step := TryRow(atts[k].exam, re);
      if Lost(re) then
        var rest := Play(atts, react, k + 1);
        Run(rest.outcome, step.clicks + rest.clicks)
      else step
  }

  /** The clicks of attempts that all lost the race: each row clicked twice, open and collapse. */
  function LostClicks(atts: seq<Attempt>): seq<Click> {
    if atts == [] then []
    else
      var h := atts[|atts| - 1].exam.element;
      LostClicks(atts[..|atts| - 1]) + [RowClick(h), RowClick(h)]
  }

  lemma LostClicksStep(atts: seq<Attempt>, a: Attempt)
    ensures LostClicks(atts + [a]) == LostClicks(atts) + [RowClick(a.exam.element), RowClick(a.exam.element)]
  {
    assert (atts + [a])[..|atts|] == atts;
  }

  /** One `snipeExam` call on the given configuration, secured set and listing. */
  function Snipe(targets: seq<SnipeExam>, signed: seq<SnipeExam>, exams: seq<AvailableExam>, react: Oracle): Run {
    Play(Attempts(targets, signed, exams), react, 0)
  }

  // ---------------------------------------------------------------------------
  // The Sniper
  // ---------------------------------------------------------------------------

  class Sniper {
    /** `_config.targets`, fixed for the sniper's lifetime. */
    const targets: seq<SnipeExam>
    var availableExams: seq<AvailableExam>
    /** `_signedExams`: the targets found already signed by the last `LoadExams`. */
    var signedExams: seq<SnipeExam>
    /** Every click issued on the page so far. */
    ghost var clicks: seq<Click>

    constructor (targets: seq<SnipeExam>)
      ensures this.targets == targets
      ensures availableExams == [] && signedExams == [] && clicks == []
    {
      this.targets := targets;
      availableExams := [];
      signedExams := [];
      clicks := [];
    }

    /**
     * `loadExams` from the point the listing rows are read: parse them,
     * match the targets, and report whether every target is already signed.
     */
    method LoadExams(rows: seq<Row>) returns (allSigned: bool)
      modifies this`availableExams, this`signedExams
      ensures availableExams == ParseRows(rows)
      ensures signedExams == AlreadySigned(targets, availableExams)
      ensures allSigned == (|signedExams| == |targets|)
      ensures allSigned <==> forall j :: 0 <= j < |targets| ==> IsSecured(targets[j], availableExams)
    {
      availableExams := ParseAvailableExams(rows);
      signedExams := GetAlreadySignedExams(targets, availableExams);
      AllSignedIffEveryTargetSecured(targets, availableExams);
      allSigned := |signedExams| == |targets|;
    }

    /**
     * One pass of `snipeExam`'s inner loop body once a row is chosen: open
     * the row, look for the sign-up button, and either click it or click the
     * row again to collapse it.
     */
    method OpenRow(toSnipe: AvailableExam, reaction: Reaction) returns (outcome: Result<Option<AvailableExam>, WaitTimeout>)
      modifies this`clicks
      ensures outcome == TryRow(toSnipe, reaction).outcome
      ensures clicks == old(clicks) + TryRow(toSnipe, reaction).clicks
    {
      clicks := clicks + [RowClick(toSnipe.element)];
      if !reaction.controlsShown {
        return Err(ControlsNotShown);
      }
      var button := GetSignUpButton(reaction.labels);
      if button.None? {
        clicks := clicks + [RowClick(toSnipe.element)];
        if !reaction.controlsHidden {
          return Err(ControlsNotHidden);
        }
        return Ok(None);
      }
      clicks := clicks + [SignUpClick(button.value)];
      if !reaction.submitObserved {
        return Err(SpinnerNotCycled);
      }
      return Ok(Some(toSnipe));
    }

    /** `snipeExam`: try the open slots in priority order and claim the first one whose sign-up button shows. */
    method SnipeExam(react: Oracle) returns (result: Result<Option<AvailableExam>, WaitTimeout>)
      modifies this`clicks
      ensures result == Snipe(targets, signedExams, availableExams, react).outcome
      ensures clicks == old(clicks) + Snipe(targets, signedExams, availableExams, react).clicks
    {
      // none of the three is written during the call
      var targets, signed, exams := this.targets, signedExams, availableExams;
      ghost var all := Attempts(targets, signed, exams);
      ghost var done: seq<Attempt> := [];
      for i := 0 to |targets|
        invariant all == done + AttemptsFrom(targets, signed, exams, i)
        invariant LostSoFar(all, react, done)
        invariant clicks == old(clicks) + LostClicks(done)
      {
        var exam := targets[i];
        ghost var rest := AttemptsFrom(targets, signed, exams, i + 1);
        if HasSignedCode(signed, exam.code) {
          AppendEmpty(done, rest);
          continue;
        }
        if !HasAvailable(exams, exam.code) {
          AppendEmpty(done, rest);
          continue;
        }
        AttemptsAssoc(done, DatesFrom(i, exam, exams, 0), rest);
        var outcome;
        outcome, done := SnipeDates(react, exam, exams, i, rest, all, old(clicks), done);
        if outcome != Ok(None) {
          return outcome;
        }
      }
      SnipeRunsOut(all, react, done);
      return Ok(None);
    }

    /**
     * The inner loop of `snipeExam` for `exam`, the `i`-th target, which is
     * neither signed nor without open slots: try its dates in order.
     * `Ok(None)` means every opened row lost the race and the loop goes on
     * with the next target, whose attempts and those after it are `rest`.
     */
    method SnipeDates(react: Oracle, exam: SnipeExam, exams: seq<AvailableExam>, i: nat, ghost rest: seq<Attempt>,
                      ghost all: seq<Attempt>, ghost start: seq<Click>, ghost done0: seq<Attempt>)
      returns (outcome: Result<Option<AvailableExam>, WaitTimeout>, ghost done: seq<Attempt>)
      requires all == done0 + (DatesFrom(i, exam, exams, 0) + rest)
      requires LostSoFar(all, react, done0)
      requires clicks == start + LostClicks(done0)
      modifies this`clicks
      ensures outcome == Ok(None) ==>
                all == done + rest && LostSoFar(all, react, done) && clicks == start + LostClicks(done)
      ensures outcome != Ok(None) ==>
                outcome == Play(all, react, 0).outcome && clicks == start + Play(all, react, 0).clicks
    {
      done := done0;
      for j := 0 to |exam.dates|
        invariant all == done + (DatesFrom(i, exam, exams, j) + rest)
        invariant LostSoFar(all, react, done)
        invariant clicks == start + LostClicks(done)
      {
        outcome, done := SnipeDate(react, exam, exams, i, j, rest, all, start, done);
        if outcome != Ok(None) {
          return;
        }
      }
      AppendEmpty(done, rest);
      outcome := Ok(None);
    }

    /**
     * One pass of the inner loop of `snipeExam`: date `j` of `exam`, the
     * `i`-th target. A date without an open slot is skipped; otherwise its
     * row is opened, and `Ok(None)` means the race was lost.
     */
    method SnipeDate(react: Oracle, exam: SnipeExam, exams: seq<AvailableExam>, i: nat, j: nat, ghost rest: seq<Attempt>,
                     ghost all: seq<Attempt>, ghost start: seq<Click>, ghost done0: seq<Attempt>)
      returns (outcome: Result<Option<AvailableExam>, WaitTimeout>, ghost done: seq<Attempt>)
      requires j < |exam.dates|
      requires all == done0 + (DatesFrom(i, exam, exams, j) + rest)
      requires LostSoFar(all, react, done0)
      requires clicks == start + LostClicks(done0)
      modifies this`clicks
      ensures outcome == Ok(None) ==>
                all == done + (DatesFrom(i, exam, exams, j + 1) + rest) &&
                LostSoFar(all, react, done) && clicks == start + LostClicks(done)
      ensures outcome != Ok(None) ==>
                outcome == Play(all, react, 0).outcome && clicks == start + Play(all, react, 0).clicks
    {
      done := done0;
      var later := DatesFrom(i, exam, exams, j + 1) + rest;
      AttemptsAssoc(DateAttempt(i, exam, exams, j), DatesFrom(i, exam, exams, j + 1), rest);
      var found := FindOpen(exams, exam.code, exam.dates[j]);
      if found.None? {
        AppendEmpty(done, later);
        return Ok(None), done;
      }
      var toSnipe := exams[found.value];
      ghost var attempt := Attempt(i, j, toSnipe);
      AttemptsAssoc(done, [attempt], later);
      ghost var step := TryRow(toSnipe, react(i, j)).clicks;
      ClicksAssoc(start, LostClicks(done), step);
      outcome := OpenRow(toSnipe, react(i, j));
      if outcome != Ok(None) {
        SnipeStopsAt(all, react, done, attempt, later);
        return;
      }
      LostStep(all, react, done, attempt, later);
      done := done + [attempt];
    }
  }

  /** The state of a call after the attempts `done`: all of them lost the race. */
  ghost predicate LostSoFar(all: seq<Attempt>, react: Oracle, done: seq<Attempt>) {
    forall a :: 0 <= a < |done| ==> LostAt(all, react, a)
  }

  // ---------------------------------------------------------------------------
  // Lemmas the method's proof uses
  // ---------------------------------------------------------------------------

  lemma ClicksAssoc(a: seq<Click>, b: seq<Click>, c: seq<Click>)
    ensures (a + b) + c == a + (b + c)
  {
  }

  lemma AttemptsAssoc(a: seq<Attempt>, b: seq<Attempt>, c: seq<Attempt>)
    ensures (a + b) + c == a + (b + c)
  {
  }

  lemma AppendEmpty(a: seq<Attempt>, b: seq<Attempt>)
    ensures a + ([] + b) == a + b
  {
    assert [] + b == b;
  }

  /** After `k` lost races the run continues as the run from attempt `k`, behind the lost attempts' clicks. */
  lemma {:induction false} PlayAfterLosses(atts: seq<Attempt>, react: Oracle, k: nat)
    requires k <= |atts|
    requires forall a :: 0 <= a < k ==> LostAt(atts, react, a)
    ensures Play(atts, react, 0).outcome == Play(atts, react, k).outcome
    ensures Play(atts, react, 0).clicks == LostClicks(atts[..k]) + Play(atts, react, k).clicks
  {
    if k > 0 {
      PlayAfterLosses(atts, react, k - 1);
      assert LostAt(atts, react, k - 1);
      var h := atts[k - 1].exam.element;
      var rest := Play(atts, react, k);
      assert Play(atts, react, k - 1) == Run(rest.outcome, [RowClick(h), RowClick(h)] + rest.clicks);
      assert atts[..k] == atts[..k - 1] + [atts[k - 1]];
      LostClicksStep(atts[..k - 1], atts[k - 1]);
      ClicksAssoc(LostClicks(atts[..k - 1]), [RowClick(h), RowClick(h)], rest.clicks);
    }
  }

  /** The whole run, when attempt `k` is the first that does not lose the race. */
  lemma PlayAt(atts: seq<Attempt>, react: Oracle, k: nat)
    requires k < |atts|
    requires forall a :: 0 <= a < k ==> LostAt(atts, react, a)
    requires TryRow(atts[k].exam, ReactionTo(react, atts[k])).outcome != Ok(None)
    ensures Play(atts, react, 0).outcome == TryRow(atts[k].exam, ReactionTo(react, atts[k])).outcome
    ensures Play(atts, react, 0).clicks == LostClicks(atts[..k]) + TryRow(atts[k].exam, ReactionTo(react, atts[k])).clicks
  {
    PlayAfterLosses(atts, react, k);
  }

  lemma LostStep(all: seq<Attempt>, react: Oracle, done: seq<Attempt>, a: Attempt, later: seq<Attempt>)
    requires LostSoFar(all, react, done) && all == (done + [a]) + later
    requires TryRow(a.exam, ReactionTo(react, a)).outcome == Ok(None)
    ensures LostSoFar(all, react, done + [a])
    ensures LostClicks(done + [a]) == LostClicks(done) + TryRow(a.exam, ReactionTo(react, a)).clicks
  {
    TryRowLost(a.exam, ReactionTo(react, a));
    LostClicksStep(done, a);
    assert all[|done|] == a;
  }

  lemma SnipeStopsAt(all: seq<Attempt>, react: Oracle, done: seq<Attempt>, a: Attempt, later: seq<Attempt>)
    requires LostSoFar(all, react, done) && all == (done + [a]) + later
    requires TryRow(a.exam, ReactionTo(react, a)).outcome != Ok(None)
    ensures Play(all, react, 0).outcome == TryRow(a.exam, ReactionTo(react, a)).outcome
    ensures Play(all, react, 0).clicks == LostClicks(done) + TryRow(a.exam, ReactionTo(react, a)).clicks
  {
    assert all[|done|] == a && all[..|done|] == done;
    PlayAt(all, react, |done|);
  }

  lemma SnipeRunsOut(all: seq<Attempt>, react: Oracle, done: seq<Attempt>)
    requires LostSoFar(all, react, done) && all == done + []
    ensures Play(all, react, 0) == Run(Ok(None), LostClicks(done))
  {
    assert all[..|all|] == all == done;
    PlayAfterLosses(all, react, |all|);
  }

  // ---------------------------------------------------------------------------
  // Which rows one call opens
  // ---------------------------------------------------------------------------

  /** Attempt `a` opens the first open record, in listing order, of target `t` on its `a.date`-th date. */
  predicate OpensFirstSlot(t: SnipeExam, exams: seq<AvailableExam>, a: Attempt) {
    a.date < |t.dates| &&
    var f := FindOpen(exams, t.code, t.dates[a.date]);
    f.Some? && a.exam == exams[f.value]
  }

  /** Attempt `a` is one `snipeExam` makes: its target is neither signed (by code) nor without open slots. */
  predicate Chosen(targets: seq<SnipeExam>, signed: seq<SnipeExam>, exams: seq<AvailableExam>, a: Attempt) {
    a.target < |targets| && !PassedOver(targets[a.target], signed, exams) && OpensFirstSlot(targets[a.target], exams, a)
  }

  /** Attempt `a` comes before `b` in (target position, date position) order. */
  predicate Precedes(a: Attempt, b: Attempt) {
    a.target < b.target || (a.target == b.target && a.date < b.date)
  }

  predicate InPriorityOrder(atts: seq<Attempt>) {
    forall k, l :: 0 <= k < l < |atts| ==> Precedes(atts[k], atts[l])
  }

  lemma PriorityOrderAppend(a: seq<Attempt>, b: seq<Attempt>)
    requires InPriorityOrder(a) && InPriorityOrder(b)
    requires forall k, l :: 0 <= k < |a| && 0 <= l < |b| ==> Precedes(a[k], b[l])
    ensures InPriorityOrder(a + b)
  {
    forall k, l | 0 <= k < l < |a + b| ensures Precedes((a + b)[k], (a + b)[l]) {
      if l < |a| {
        assert (a + b)[k] == a[k] && (a + b)[l] == a[l];
      } else if k < |a| {
        assert (a + b)[k] == a[k] && (a + b)[l] == b[l - |a|];
      } else {
        assert (a + b)[k] == b[k - |a|] && (a + b)[l] == b[l - |a|];
      }
    }
  }

  /** The attempts for the dates of `t` from `j` on: all for target `ti`, at date `j` or later, each on the first open slot, in date order. */
  lemma {:induction false} DatesFromShape(ti: nat, t: SnipeExam, exams: seq<AvailableExam>, j: nat)
    requires j <= |t.dates|
    ensures forall k :: 0 <= k < |DatesFrom(ti, t, exams, j)| ==>
              DatesFrom(ti, t, exams, j)[k].target == ti && j <= DatesFrom(ti, t, exams, j)[k].date &&
              OpensFirstSlot(t, exams, DatesFrom(ti, t, exams, j)[k])
    ensures InPriorityOrder(DatesFrom(ti, t, exams, j))
    decreases |t.dates| - j
  {
    if j < |t.dates| {
      DatesFromShape(ti, t, exams, j + 1);
      var head, rest := DateAttempt(ti, t, exams, j), DatesFrom(ti, t, exams, j + 1);
      assert forall k :: 0 <= k < |head| ==> head[k].target == ti && head[k].date == j && OpensFirstSlot(t, exams, head[k]);
      PriorityOrderAppend(head, rest);
      forall k | 0 <= k < |head + rest|
        ensures (head + rest)[k].target == ti && j <= (head + rest)[k].date && OpensFirstSlot(t, exams, (head + rest)[k])
      {
        if k >= |head| {
          assert (head + rest)[k] == rest[k - |head|];
        }
      }
    }
  }

  /** The attempts for the targets from `i` on: each is chosen, for target `i` or later, in priority order. */
  lemma {:induction false} AttemptsFromShape(targets: seq<SnipeExam>, signed: seq<SnipeExam>, exams: seq<AvailableExam>, i: nat)
    requires i <= |targets|
    ensures forall k :: 0 <= k < |AttemptsFrom(targets, signed, exams, i)| ==>
              i <= AttemptsFrom(targets, signed, exams, i)[k].target &&
              Chosen(targets, signed, exams, AttemptsFrom(targets, signed, exams, i)[k])
    ensures InPriorityOrder(AttemptsFrom(targets, signed, exams, i))
    decreases |targets| - i
  {
    if i < |targets| {
      AttemptsFromShape(targets, signed, exams, i + 1);
      DatesFromShape(i, targets[i], exams, 0);
      var head, rest := TargetAttempts(i, targets[i], signed, exams), AttemptsFrom(targets, signed, exams, i + 1);
      assert forall k :: 0 <= k < |head| ==> head[k].target == i && Chosen(targets, signed, exams, head[k]);
      PriorityOrderAppend(head, rest);
      forall k | 0 <= k < |head + rest|
        ensures i <= (head + rest)[k].target && Chosen(targets, signed, exams, (head + rest)[k])
      {
        if k >= |head| {
          assert (head + rest)[k] == rest[k - |head|];
        }
      }
    }
  }

  /** A chosen attempt on a date at position `j` or later is among the attempts for the dates from `j` on. */
  lemma {:induction false} DatesFromComplete(t: SnipeExam, exams: seq<AvailableExam>, j: nat, a: Attempt)
    requires j <= a.date && OpensFirstSlot(t, exams, a)
    ensures a in DatesFrom(a.target, t, exams, j)
    decreases |t.dates| - j
  {
    var ti := a.target;
    if j == a.date {
      assert DateAttempt(ti, t, exams, j) == [a];
      assert DatesFrom(ti, t, exams, j)[0] == a;
    } else {
      DatesFromComplete(t, exams, j + 1, a);
      var head := DateAttempt(ti, t, exams, j);
      assert DatesFrom(ti, t, exams, j) == head + DatesFrom(ti, t, exams, j + 1);
    }
  }

  /** A chosen attempt of a target at position `i` or later is among the attempts for the targets from `i` on. */
  lemma {:induction false} AttemptsFromComplete(targets: seq<SnipeExam>, signed: seq<SnipeExam>, exams: seq<AvailableExam>,
                                                i: nat, a: Attempt)
    requires i <= a.target && Chosen(targets, signed, exams, a)
    ensures a in AttemptsFrom(targets, signed, exams, i)
    decreases |targets| - i
  {
    var head := TargetAttempts(i, targets[i], signed, exams);
    assert AttemptsFrom(targets, signed, exams, i) == head + AttemptsFrom(targets, signed, exams, i + 1);
    if i == a.target {
      DatesFromComplete(targets[i], exams, 0, a);
      assert head == DatesFrom(i, targets[i], exams, 0);
    } else {
      AttemptsFromComplete(targets, signed, exams, i + 1, a);
    }
  }

  /**
   * The rows one call opens are exactly the chosen attempts, in priority
   * order: for every target that is not passed over, the first open record
   * of each of its dates that has one, and nothing for a signed target.
   */
  lemma AttemptsAreChosen(targets: seq<SnipeExam>, signed: seq<SnipeExam>, exams: seq<AvailableExam>, a: Attempt)
    ensures a in Attempts(targets, signed, exams) <==> Chosen(targets, signed, exams, a)
    ensures InPriorityOrder(Attempts(targets, signed, exams))
  {
    AttemptsFromShape(targets, signed, exams, 0);
    if Chosen(targets, signed, exams, a) {
      AttemptsFromComplete(targets, signed, exams, 0, a);
    }
  }

  /** No date of a target without open records has an open first slot, so its dates yield no attempt. */
  lemma {:induction false} NoOpenSlotNoAttempt(ti: nat, t: SnipeExam, exams: seq<AvailableExam>, j: nat)
    requires j <= |t.dates| && !HasAvailable(exams, t.code)
    ensures DatesFrom(ti, t, exams, j) == []
    decreases |t.dates| - j
  {
    if j < |t.dates| {
      HasAvailableIff(exams, t.code);
      NoOpenSlotNoAttempt(ti, t, exams, j + 1);
      assert forall m :: 0 <= m < |exams| ==> !OpenOn(exams[m], t.code, t.dates[j]);
      assert DateAttempt(ti, t, exams, j) == [];
    }
  }

  /**
   * The availability short-cut changes which rows are opened in no way: a
   * target is passed over exactly when it is signed, or else has no date
   * with an open slot.
   */
  lemma AvailabilityShortCut(ti: nat, t: SnipeExam, signed: seq<SnipeExam>, exams: seq<AvailableExam>)
    ensures TargetAttempts(ti, t, signed, exams) == if HasSignedCode(signed, t.code) then [] else DatesFrom(ti, t, exams, 0)
  {
    if !HasAvailable(exams, t.code) {
      NoOpenSlotNoAttempt(ti, t, exams, 0);
    }
  }

  // ---------------------------------------------------------------------------
  // How a run ends
  // ---------------------------------------------------------------------------

  /** The position, from `k` on, of the first attempt that does not lose the race; `|atts|` if all lose. */
  function FirstWon(atts: seq<Attempt>, react: Oracle, k: nat): (r: nat)
    requires k <= |atts|
    ensures k <= r <= |atts|
    ensures forall m :: k <= m < r ==> LostAt(atts, react, m)
    ensures r < |atts| ==> !LostAt(atts, react, r)
    decreases |atts| - k
  {
    if k == |atts| || !LostAt(atts, react, k) then k else FirstWon(atts, react, k + 1)
  }

  /**
   * A run is decided by its first attempt that does not lose the race:
   * the run reports that attempt's outcome, after the two clicks of every
   * lost attempt before it; when every attempt loses, it reports no claim.
   */
  lemma PlayIsFirstWon(atts: seq<Attempt>, react: Oracle)
    ensures var k := FirstWon(atts, react, 0);
            Play(atts, react, 0) ==
              if k == |atts| then Run(Ok(None), LostClicks(atts))
              else Run(TryRow(atts[k].exam, ReactionTo(react, atts[k])).outcome,
                       LostClicks(atts[..k]) + TryRow(atts[k].exam, ReactionTo(react, atts[k])).clicks)
  {
    var k := FirstWon(atts, react, 0);
    PlayAfterLosses(atts, react, k);
    if k == |atts| {
      assert atts[..k] == atts;
    }
  }

  /** A run claims nothing and hits no timeout exactly when every attempt loses the race. */
  lemma PlayNone(atts: seq<Attempt>, react: Oracle)
    ensures Play(atts, react, 0).outcome == Ok(None) <==> forall k :: 0 <= k < |atts| ==> LostAt(atts, react, k)
  {
    var k := FirstWon(atts, react, 0);
    PlayIsFirstWon(atts, react);
    if k < |atts| {
      TryRowLost(atts[k].exam, ReactionTo(react, atts[k]));
    }
  }

  /**
   * A run claims `e` exactly when the first attempt that does not lose the
   * race is on `e`, found the sign-up button, and saw the submission.
   */
  lemma PlayClaim(atts: seq<Attempt>, react: Oracle, e: AvailableExam)
    ensures var k := FirstWon(atts, react, 0);
            Play(atts, react, 0).outcome == Ok(Some(e)) <==>
              k < |atts| && atts[k].exam == e &&
              FoundButton(ReactionTo(react, atts[k])) && ReactionTo(react, atts[k]).submitObserved
  {
    PlayIsFirstWon(atts, react);
  }

  lemma {:induction false} LostClicksAreRowClicks(atts: seq<Attempt>)
    ensures |LostClicks(atts)| == 2 * |atts|
    ensures forall n :: 0 <= n < |LostClicks(atts)| ==> LostClicks(atts)[n].RowClick?
  {
    if atts != [] {
      LostClicksAreRowClicks(atts[..|atts| - 1]);
    }
  }

  /**
   * The click discipline of one run: only its last click can be on the
   * sign-up button, a claim always ends with that click, and a run that
   * reports no claim clicked rows only, twice each.
   */
  lemma ClickDiscipline(atts: seq<Attempt>, react: Oracle)
    ensures var r := Play(atts, react, 0);
            forall n :: 0 <= n < |r.clicks| && r.clicks[n].SignUpClick? ==> n == |r.clicks| - 1
    ensures var r := Play(atts, react, 0);
            r.outcome.Ok? && r.outcome.value.Some? ==> |r.clicks| >= 2 && r.clicks[|r.clicks| - 1].SignUpClick? &&
                                                       r.clicks[|r.clicks| - 2] == RowClick(r.outcome.value.value.element)
    ensures var r := Play(atts, react, 0);
            r.outcome == Ok(None) ==> r.clicks == LostClicks(atts) && |r.clicks| == 2 * |atts| &&
                                      forall n :: 0 <= n < |r.clicks| ==> r.clicks[n].RowClick?
  {
    var k := FirstWon(atts, react, 0);
    PlayIsFirstWon(atts, react);
    PlayNone(atts, react);
    if k == |atts| {
      LostClicksAreRowClicks(atts);
    } else {
      var lost: seq<Click>, step: seq<Click> := LostClicks(atts[..k]), TryRow(atts[k].exam, ReactionTo(react, atts[k])).clicks;
      LostClicksAreRowClicks(atts[..k]);
      forall n | 0 <= n < |lost + step| && (lost + step)[n].SignUpClick? ensures n == |lost + step| - 1 {
        if n < |lost| {
          assert (lost + step)[n] == lost[n];
        } else {
          assert (lost + step)[n] == step[n - |lost|];
        }
      }
    }
  }

  /**
   * What a claim is: an `AVAILABLE` record of the listing, the first open
   * slot of one of the dates of a target that is not signed, reached after
   * every earlier attempt lost the race, whose sign-up button was found.
   */
  lemma SnipeClaim(targets: seq<SnipeExam>, signed: seq<SnipeExam>, exams: seq<AvailableExam>, react: Oracle, e: AvailableExam)
    requires Snipe(targets, signed, exams, react).outcome == Ok(Some(e))
    ensures e in exams && e.status == Available
    ensures exists k :: 0 <= k < |Attempts(targets, signed, exams)| &&
              var a := Attempts(targets, signed, exams)[k];
              a.exam == e && a.target < |targets| && a.date < |targets[a.target].dates| &&
              e.code == targets[a.target].code && e.date == targets[a.target].dates[a.date] &&
              !HasSignedCode(signed, e.code) && FoundButton(ReactionTo(react, a)) &&
              forall m :: 0 <= m < k ==> LostAt(Attempts(targets, signed, exams), react, m)
  {
    var all := Attempts(targets, signed, exams);
    var k := FirstWon(all, react, 0);
    PlayClaim(all, react, e);
    AttemptsFromShape(targets, signed, exams, 0);
    var a := all[k];
    assert Chosen(targets, signed, exams, a);
    var t := targets[a.target];
    var x := FindOpen(exams, t.code, t.dates[a.date]).value;
    assert e == exams[x] && OpenOn(e, t.code, t.dates[a.date]);
  }
}
