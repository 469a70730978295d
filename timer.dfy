/** The decision the countdown loop `while now < end and self.run` makes,
    without a real clock: the loop is driven by what each pass observes. */
module Timer {

  /** One pass of the countdown loop: whether the host's event processing
      delivered a key press (whose handler clears the run flag), and the
      clock value read after it. */
  datatype Tick = Tick(keyPressed: bool, now: int)

  /** The loop stops within `ticks`: the clock already reads past the
      deadline, or some pass delivers a key press or reads a clock value at
      or past the deadline. */
  predicate Ends(now: int, deadline: int, ticks: seq<Tick>) {
    now >= deadline
    || exists k :: 0 <= k < |ticks| && (ticks[k].keyPressed || ticks[k].now >= deadline)
  }

  /** Whether the run flag, set when the countdown began, is still set when
      the loop exits. */
  function RunAtExit(now: int, deadline: int, ticks: seq<Tick>): bool
    requires Ends(now, deadline, ticks)
    decreases |ticks|
  {
    if now >= deadline then true
    else if ticks[0].keyPressed then false
    else
      assert Ends(ticks[0].now, deadline, ticks[1..]) by {
        if ticks[0].now < deadline {
          var k :| 0 <= k < |ticks| && (ticks[k].keyPressed || ticks[k].now >= deadline);
          assert ticks[1..][k - 1] == ticks[k];
        }
      }
      RunAtExit(ticks[0].now, deadline, ticks[1..])
  }

  /** A key press arrives while the clock still reads before the deadline. */
  predicate PressedInTime(now: int, deadline: int, ticks: seq<Tick>) {
    now < deadline
    && exists k :: 0 <= k < |ticks| && ticks[k].keyPressed && BeforeDeadline(deadline, ticks[..k])
  }

  predicate BeforeDeadline(deadline: int, ticks: seq<Tick>) {
    forall j :: 0 <= j < |ticks| ==> ticks[j].now < deadline
  }

  /** The run flag survives the loop, and the text is deleted, exactly when
      no key press arrives before the deadline. */
  lemma {:induction false} RunSurvivesIffNoPress(now: int, deadline: int, ticks: seq<Tick>)
    requires Ends(now, deadline, ticks)
    ensures RunAtExit(now, deadline, ticks) <==> !PressedInTime(now, deadline, ticks)
    decreases |ticks|
  {
    if now >= deadline {
    } else if ticks[0].keyPressed {
      assert BeforeDeadline(deadline, ticks[..0]);
    } else {
      var rest := ticks[1..];
      var next := ticks[0].now;
      assert Ends(next, deadline, rest);
      RunSurvivesIffNoPress(next, deadline, rest);
      if PressedInTime(now, deadline, ticks) {
        var k :| 0 <= k < |ticks| && ticks[k].keyPressed && BeforeDeadline(deadline, ticks[..k]);
        assert k >= 1;
        assert ticks[..k][0] == ticks[0];
        assert rest[..k - 1] == ticks[1..k];
        var pre := rest[..k - 1];
        assert BeforeDeadline(deadline, pre) by {
          forall j | 0 <= j < |pre| ensures pre[j].now < deadline {
            assert pre[j] == ticks[..k][j + 1];
          }
        }
        assert rest[k - 1].keyPressed;
        assert PressedInTime(next, deadline, rest);
      }
      if PressedInTime(next, deadline, rest) {
        var k :| 0 <= k < |rest| && rest[k].keyPressed && BeforeDeadline(deadline, rest[..k]);
        assert ticks[..k + 1] == [ticks[0]] + rest[..k];
        var pre := ticks[..k + 1];
        assert BeforeDeadline(deadline, pre) by {
          forall j | 0 <= j < |pre| ensures pre[j].now < deadline {
            if j > 0 { assert pre[j] == rest[..k][j - 1]; }
          }
        }
        assert ticks[k + 1].keyPressed;
      }
    }
  }

  /** With no key press at all, the countdown always ends by deleting. */
  lemma NoPressDeletes(now: int, deadline: int, ticks: seq<Tick>)
    requires Ends(now, deadline, ticks)
    requires forall k :: 0 <= k < |ticks| ==> !ticks[k].keyPressed
    ensures RunAtExit(now, deadline, ticks)
  {
    RunSurvivesIffNoPress(now, deadline, ticks);
  }
}
