/**
 * Small listings worked through the model: claim priority across targets,
 * a secured target left alone, and a target without an open slot.
 */
module Scenarios {
  import opened Wrappers
  import opened Utility
  import opened Client

  /** The label of the control that cancels a registration. */
  const CancelLabel := "Zru\U{0161}it"

  /** Among a cancel control and the sign-up control, the second is the sign-up button. */
  lemma SignUpIsSecondControl()
    ensures FirstSignUp([CancelLabel, SignUpLabel]) == Some(1)
  {
    assert Trim(CancelLabel) != SignUpLabel by {
      var _, _ := TrimInfix(CancelLabel);
    }
    assert Trim(SignUpLabel) == SignUpLabel by {
      TrimOfPadded("", SignUpLabel, "");
      assert "" + SignUpLabel + "" == SignUpLabel;
    }
  }

  /**
   * Two targets with an open slot each, the second target's slot listed
   * first: the call opens the first target's row first, and claims it when
   * its sign-up button shows.
   */
  lemma PriorityFollowsConfiguration(react: Oracle)
    requires react(0, 0) == Reaction(true, [CancelLabel, SignUpLabel], true, true)
    ensures var targets := [SnipeExam("B0B01", ["10.01.2025"]), SnipeExam("B0B02", ["09.01.2025"])];
            var exams := [AvailableExam("B0B02", "09.01.2025", 7, Available),
                          AvailableExam("B0B01", "10.01.2025", 8, Available)];
            Attempts(targets, [], exams) ==
              [Attempt(0, 0, exams[1]), Attempt(1, 0, exams[0])] &&
            Snipe(targets, [], exams, react) == Run(Ok(Some(exams[1])), [RowClick(8), SignUpClick(1)])
  {
    var targets := [SnipeExam("B0B01", ["10.01.2025"]), SnipeExam("B0B02", ["09.01.2025"])];
    var exams := [AvailableExam("B0B02", "09.01.2025", 7, Available),
                  AvailableExam("B0B01", "10.01.2025", 8, Available)];
    assert HasAvailable(exams, "B0B01") && HasAvailable(exams, "B0B02");
    assert FindOpen(exams, "B0B01", "10.01.2025") == Some(1);
    assert FindOpen(exams, "B0B02", "09.01.2025") == Some(0);
    SignUpIsSecondControl();
  }

  /**
   * The first target is already signed on a watched date, the second has an
   * open slot: only the first is secured, the listing is not fully signed,
   * and the call opens the second target's row only.
   */
  lemma SecuredTargetIsLeftAlone()
    ensures var t1, t2 := SnipeExam("B0B01", ["10.01.2025"]), SnipeExam("B0B02", ["11.01.2025"]);
            var exams := [AvailableExam("B0B01", "10.01.2025", 3, Signed),
                          AvailableExam("B0B02", "11.01.2025", 4, Available)];
            AlreadySigned([t1, t2], exams) == [t1] &&
            |AlreadySigned([t1, t2], exams)| != 2 &&
            Attempts([t1, t2], [t1], exams) == [Attempt(1, 0, exams[1])]
  {
    var t1, t2 := SnipeExam("B0B01", ["10.01.2025"]), SnipeExam("B0B02", ["11.01.2025"]);
    var exams := [AvailableExam("B0B01", "10.01.2025", 3, Signed),
                  AvailableExam("B0B02", "11.01.2025", 4, Available)];
    assert [t1, t2][..1] == [t1];
    assert SignsTarget(exams[0], t1);
    assert !IsSecured(t2, exams) by {
      assert !SignsTarget(exams[0], t2) && !SignsTarget(exams[1], t2);
    }
    assert HasSignedCode([t1], "B0B01") && !HasSignedCode([t1], "B0B02");
    assert HasAvailable(exams, "B0B02");
    assert FindOpen(exams, "B0B02", "11.01.2025") == Some(1);
    assert [t1][..0] == [];
    assert AlreadySigned([t1], exams) == [t1];
    assert TargetAttempts(0, t1, [t1], exams) == [];
    assert DatesFrom(1, t2, exams, 0) == [Attempt(1, 0, exams[1])] + [];
    assert TargetAttempts(1, t2, [t1], exams) == [Attempt(1, 0, exams[1])];
    assert AttemptsFrom([t1, t2], [t1], exams, 1) == [Attempt(1, 0, exams[1])] + [];
  }

  /**
   * The only target's record is not open: no target is secured, and the
   * call opens nothing and claims nothing, whatever the page would do.
   */
  lemma NothingOpenNoClick(react: Oracle)
    ensures var t := SnipeExam("B0B01", ["10.01.2025"]);
            var exams := [AvailableExam("B0B01", "10.01.2025", 3, NotAvailable)];
            AlreadySigned([t], exams) == [] &&
            Snipe([t], [], exams, react) == Run(Ok(None), [])
  {
    var t := SnipeExam("B0B01", ["10.01.2025"]);
    var exams := [AvailableExam("B0B01", "10.01.2025", 3, NotAvailable)];
    assert !SignsTarget(exams[0], t);
    assert !HasAvailable(exams, "B0B01");
  }

  /**
   * A claimed slot shows as signed on the next poll: the target is then
   * secured and the listing is fully signed.
   */
  lemma ClaimedSlotIsSecuredNextPoll(react: Oracle)
    requires react(0, 0) == Reaction(true, [CancelLabel, SignUpLabel], true, true)
    ensures var t := SnipeExam("X01", ["2024-05-01"]);
            var before := [AvailableExam("X01", "2024-05-01", 0, Available)];
            var after := [AvailableExam("X01", "2024-05-01", 0, Signed)];
            Snipe([t], [], before, react).outcome == Ok(Some(before[0])) &&
            AlreadySigned([t], after) == [t]
  {
    var t := SnipeExam("X01", ["2024-05-01"]);
    var before := [AvailableExam("X01", "2024-05-01", 0, Available)];
    var after := [AvailableExam("X01", "2024-05-01", 0, Signed)];
    assert HasAvailable(before, "X01");
    assert FindOpen(before, "X01", "2024-05-01") == Some(0);
    SignUpIsSecondControl();
    assert SignsTarget(after[0], t);
  }
}
