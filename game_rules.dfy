/** The state machine of the Clear the Points board as pure functions on a
    snapshot of its seven state cells plus the queue of 300 ms removal
    callbacks that are scheduled but have not fired yet. The class in
    GameBoard updates the same cells in place and is proved against these
    functions; the lemmas here state what a whole run of events does. */
module GameRules {
  import opened PointList

  datatype Status = Idle | Playing | Cleared | GameOver

  /** What the number input holds after parsing: the empty string, NaN, or
      an integer. */
  datatype PointCount = Empty | NotANumber | Num(value: int)

  /** One value of every state cell. `time` counts tenths of a second;
      `pending` holds, oldest first, the ids whose removal callback is
      scheduled and has not fired. */
  datatype Snapshot = Snapshot(
    points: seq<int>,
    pointCount: PointCount,
    isPlaying: bool,
    time: nat,
    nextId: nat,
    status: Status,
    clickedPoints: seq<int>,
    pending: seq<int>)

  /** The smallest round the Play handler accepts. */
  const MIN_POINTS: int := 3

  /** The Play handler's guard: the input holds a number, not NaN, and at
      least MIN_POINTS. */
  predicate Playable(c: PointCount) {
    c.Num? && c.value >= MIN_POINTS
  }

  /** The state before any event: Idle, nothing dealt, nothing scheduled. */
  function Initial(): (r: Snapshot)
    ensures Consistent(r) && r.status == Idle && !r.isPlaying
  {
    Snapshot([], Empty, false, 0, 0, Idle, [], [])
  }

  /** The input change handler, with the parsed value taken as given: only
      the input cell changes. */
  function EnterCount(s: Snapshot, c: PointCount): (r: Snapshot)
    ensures Consistent(s) ==> Consistent(r)
    ensures r.pointCount == c && r.(pointCount := s.pointCount) == s
  {
    s.(pointCount := c)
  }

  /** The Play/Restart handler: a refused count changes nothing; an accepted
      one starts a running round of exactly that many points from any state.
      Pending removal callbacks are not cancelled. */
  function Play(s: Snapshot): (r: Snapshot)
    ensures Consistent(s) ==> Consistent(r)
    ensures !Playable(s.pointCount) ==> r == s
    ensures Playable(s.pointCount) ==>
      && r.status == Playing && r.isPlaying
      && |r.points| == s.pointCount.value
      && r.pending == s.pending && r.pointCount == s.pointCount
  {
    if !Playable(s.pointCount) then s
    else s.(time := 0, nextId := 0, status := Playing,
            points := DealtIds(s.pointCount.value), clickedPoints := [],
            isPlaying := true)
  }

  /** The point click handler: ignored unless playing; the expected id is
      recorded and its removal scheduled; any other id ends the round. A click
      never touches the board, the expected id or the clock, and it loses the
      round exactly when a round is being played and the id is not the
      expected one. */
  function Click(s: Snapshot, id: int): (r: Snapshot)
    ensures Consistent(s) ==> Consistent(r)
    ensures r.points == s.points && r.nextId == s.nextId && r.time == s.time
    ensures r.status == GameOver <==>
      (s.status == GameOver || (s.status == Playing && id != s.nextId))
    ensures |r.pending| == |s.pending| + (if s.status == Playing && id == s.nextId then 1 else 0)
  {
    if s.status != Playing then s
    else if id == s.nextId then
      s.(clickedPoints := s.clickedPoints + [id], pending := s.pending + [id])
    else s.(status := GameOver, isPlaying := false)
  }

  /** The oldest scheduled removal callback fires: that id is no longer on
      the board and the expected id moves on by one. It does not look at the
      status, and leaves it, the running flag, the clock and the clicked list
      alone. */
  function FireRemoval(s: Snapshot): (r: Snapshot)
    requires s.pending != []
    ensures Consistent(s) ==> Consistent(r)
    ensures s.pending[0] !in r.points && |r.points| <= |s.points|
    ensures r.nextId == s.nextId + 1 && r.pending == s.pending[1..]
    ensures r.status == s.status && r.isPlaying == s.isPlaying
    ensures r.time == s.time && r.clickedPoints == s.clickedPoints
  {
    s.(points := Without(s.points, s.pending[0]), nextId := s.nextId + 1,
       pending := s.pending[1..])
  }

  /** One period of the interval, which exists only while playing: the clock
      never goes back and nothing else changes. */
  function Tick(s: Snapshot): (r: Snapshot)
    ensures Consistent(s) ==> Consistent(r)
    ensures r.time >= s.time && r.(time := s.time) == s
  {
    if s.isPlaying && s.status == Playing then s.(time := s.time + 1) else s
  }

  /** The effect that notices an empty board: it can only turn Playing into
      Cleared, and does so exactly for an empty board while running. */
  function CheckCleared(s: Snapshot): (r: Snapshot)
    ensures Consistent(s) ==> Consistent(r)
    ensures r.(status := s.status) == s
    ensures r.status == Cleared <==>
      (s.status == Cleared || (s.status == Playing && s.isPlaying && s.points == []))
    ensures r.status != s.status ==> s.status == Playing
  {
    if s.isPlaying && s.points == [] && s.status == Playing
    then s.(status := Cleared, isPlaying := true)
    else s
  }

  /** Everything the environment can do to the board, one at a time. */
  datatype Event =
    | Input(count: PointCount)
    | PressPlay
    | ClickPoint(id: int)
    | TimeoutFires
    | IntervalTicks
    | EffectRuns

  /** One event. A timeout with nothing scheduled does not exist, so it
      leaves the state alone. */
  function Step(s: Snapshot, e: Event): Snapshot {
    match e
    case Input(c) => EnterCount(s, c)
    case PressPlay => Play(s)
    case ClickPoint(id) => Click(s, id)
    case TimeoutFires => if s.pending == [] then s else FireRemoval(s)
    case IntervalTicks => Tick(s)
    case EffectRuns => CheckCleared(s)
  }

  /** The events in order. */
  function Run(s: Snapshot, es: seq<Event>): Snapshot
    decreases |es|
  {
    if es == [] then s else Run(Step(s, es[0]), es[1..])
  }

  /** What holds of every reachable state: the running flag is set exactly in
      Playing and Cleared, Idle is only the untouched start, and the board is
      ascending (so no id is on it twice). */
  ghost predicate Consistent(s: Snapshot) {
    && (s.isPlaying <==> (s.status == Playing || s.status == Cleared))
    && (s.status == Idle ==>
          s.points == [] && s.time == 0 && s.nextId == 0 &&
          s.clickedPoints == [] && s.pending == [])
    && Ascending(s.points)
  }

  /** Every event keeps the state consistent. */
  lemma StepPreservesConsistent(s: Snapshot, e: Event)
    requires Consistent(s)
    ensures Consistent(Step(s, e))
  {
  }

  lemma {:induction false} RunPreservesConsistent(s: Snapshot, es: seq<Event>)
    requires Consistent(s)
    ensures Consistent(Run(s, es))
    decreases |es|
  {
    if es != [] {
      StepPreservesConsistent(s, es[0]);
      RunPreservesConsistent(Step(s, es[0]), es[1..]);
    }
  }

  /** Every state reached from the start is consistent. */
  lemma ReachableIsConsistent(es: seq<Event>)
    ensures Consistent(Run(Initial(), es))
  {
    RunPreservesConsistent(Initial(), es);
  }

  /** Running two event lists one after the other. */
  lemma {:induction false} RunAppend(s: Snapshot, a: seq<Event>, b: seq<Event>)
    ensures Run(s, a + b) == Run(Run(s, a), b)
    decreases |a|
  {
    if a != [] {
      assert (a + b)[0] == a[0] && (a + b)[1..] == a[1..] + b;
      RunAppend(Step(s, a[0]), a[1..], b);
    } else {
      assert a + b == b;
    }
  }

  /** Play refuses an empty input, NaN and anything below 3, and accepts 3
      itself (its message asks for a number "greater than 3"). */
  lemma PlayGuard(s: Snapshot, n: int)
    ensures Play(s.(pointCount := Empty)) == s.(pointCount := Empty)
    ensures Play(s.(pointCount := NotANumber)) == s.(pointCount := NotANumber)
    ensures n < 3 ==> Play(s.(pointCount := Num(n))) == s.(pointCount := Num(n))
    ensures Play(s.(pointCount := Num(3))).status == Playing
  {
  }

  /** An accepted Play deals exactly `count` points, ids 0..count-1 in
      ascending order, and restarts the clock, the expected id and the
      clicked list, whatever state it started from. */
  lemma PlayStartsFreshRound(s: Snapshot)
    requires Playable(s.pointCount)
    ensures var r := Play(s);
      && |r.points| == s.pointCount.value
      && (forall i :: 0 <= i < |r.points| ==> r.points[i] == i)
      && Ascending(r.points)
      && r.time == 0 && r.nextId == 0 && r.clickedPoints == []
      && r.status == Playing && r.isPlaying
      && r.pending == s.pending
  {
    DealtIdsAreTheRange(s.pointCount.value);
  }

  /** Running the cleared check again changes nothing. */
  lemma CheckClearedIdempotent(s: Snapshot)
    ensures CheckCleared(CheckCleared(s)) == CheckCleared(s)
  {
  }

  /** In a consistent state the clock advances exactly when the status is
      Playing. */
  lemma TickAdvancesIffPlaying(s: Snapshot)
    requires Consistent(s)
    ensures Tick(s).time == (if s.status == Playing then s.time + 1 else s.time)
  {
  }

  /** Between two presses of Play the clock never goes back. */
  lemma {:induction false} TimeNeverDecreases(s: Snapshot, es: seq<Event>)
    requires PressPlay !in es
    ensures Run(s, es).time >= s.time
    decreases |es|
  {
    if es != [] {
      assert PressPlay !in es[1..];
      TimeNeverDecreases(Step(s, es[0]), es[1..]);
    }
  }

  /** A cleared or lost round stays as it is until Play is pressed: the
      status, the running flag, the clock and the clicked list are frozen;
      clicks and ticks do nothing. Late removal callbacks still shrink the
      board and move the expected id. */
  lemma {:induction false} TerminalIsAbsorbing(s: Snapshot, es: seq<Event>)
    requires s.status == Cleared || s.status == GameOver
    requires PressPlay !in es
    ensures var r := Run(s, es);
      && r.status == s.status && r.isPlaying == s.isPlaying
      && r.time == s.time && r.clickedPoints == s.clickedPoints
    decreases |es|
  {
    if es != [] {
      assert PressPlay !in es[1..];
      TerminalIsAbsorbing(Step(s, es[0]), es[1..]);
    }
  }

  /** Clicking k, k + 1, ..., n - 1 in order, each after the previous
      removal has fired and the effect has run. */
  function CorrectClicks(k: nat, n: nat): seq<Event>
    decreases n - k
  {
    if k >= n then [] else [ClickPoint(k), TimeoutFires, EffectRuns] + CorrectClicks(k + 1, n)
  }

  lemma {:induction false} CorrectClicksHaveNoPlay(k: nat, n: nat)
    ensures PressPlay !in CorrectClicks(k, n)
    decreases n - k
  {
    if k < n {
      CorrectClicksHaveNoPlay(k + 1, n);
    }
  }

  /** The three steps of one correct click on the board k..n-1, composed. */
  lemma ClickRemoveCheck(s: Snapshot, k: nat, n: nat)
    requires k < n
    requires s.status == Playing && s.isPlaying && s.pending == []
    requires s.nextId == k && s.points == Span(k, n)
    ensures Click(s, k).pending == [k]
    ensures CheckCleared(FireRemoval(Click(s, k))) ==
      s.(points := Span(k + 1, n), nextId := k + 1,
         clickedPoints := s.clickedPoints + [k],
         status := if k + 1 == n then Cleared else Playing)
  {
    var s1 := Click(s, k);
    assert s1 == s.(clickedPoints := s.clickedPoints + [k], pending := [k]);
    var s2 := FireRemoval(s1);
    assert s2.points == Span(k + 1, n) by {
      SpanUnfold(k, n);
      WithoutAbsent(Span(k + 1, n), k);
      assert Without(Span(k, n), k) == Span(k + 1, n);
    }
    assert s2 == s1.(points := Span(k + 1, n), nextId := k + 1, pending := []);
    assert (Span(k + 1, n) == []) == (k + 1 == n);
  }

  /** One correct click followed by its removal and the effect: the point
      leaves the board, the expected id moves on, and the round is cleared
      exactly when it was the last point. */
  lemma OneCorrectClick(s: Snapshot, k: nat, n: nat)
    requires k < n
    requires s.status == Playing && s.isPlaying && s.pending == []
    requires s.nextId == k && s.points == Span(k, n)
    ensures Run(s, [ClickPoint(k), TimeoutFires, EffectRuns]) ==
      s.(points := Span(k + 1, n), nextId := k + 1,
         clickedPoints := s.clickedPoints + [k],
         status := if k + 1 == n then Cleared else Playing)
  {
    ClickRemoveCheck(s, k, n);
    var first := [ClickPoint(k), TimeoutFires, EffectRuns];
    var s1 := Click(s, k);
    var s2 := FireRemoval(s1);
    RunFirst(s, first);
    RunFirst(s1, first[1..]);
    RunFirst(s2, first[2..]);
    assert first[1..][1..] == first[2..] && first[2..][1..] == [];
  }

  /** With the points k..n-1 left, k expected and nothing scheduled, clicking
      them in order clears the board, records them in order, ends with the
      expected id at n, and sets the status to Cleared. */
  lemma {:induction false} CorrectClicksClear(s: Snapshot, k: nat, n: nat)
    requires k < n
    requires s.status == Playing && s.isPlaying && s.pending == []
    requires s.nextId == k && s.points == Span(k, n)
    ensures var r := Run(s, CorrectClicks(k, n));
      && r.status == Cleared && r.isPlaying
      && r.points == [] && r.pending == [] && r.nextId == n
      && r.clickedPoints == s.clickedPoints + Span(k, n)
      && r.time == s.time
    decreases n - k
  {
    var first := [ClickPoint(k), TimeoutFires, EffectRuns];
    assert CorrectClicks(k, n) == first + CorrectClicks(k + 1, n);
    RunAppend(s, first, CorrectClicks(k + 1, n));
    OneCorrectClick(s, k, n);
    SpanUnfold(k, n);
    var s3 := Run(s, first);
    if k + 1 == n {
      assert CorrectClicks(k + 1, n) == [];
    } else {
      CorrectClicksClear(s3, k + 1, n);
      assert s3.clickedPoints + Span(k + 1, n) == s.clickedPoints + Span(k, n);
    }
  }

  /** A round of n >= 3 points with nothing left scheduled from earlier
      rounds can be cleared by clicking 0..n-1 in order, and no state of
      that run after Play is GameOver. */
  lemma FreshRoundCanBeCleared(s: Snapshot, n: nat)
    requires n >= MIN_POINTS && s.pending == []
    ensures var es := [Input(Num(n)), PressPlay] + CorrectClicks(0, n);
      && Run(s, es).status == Cleared
      && Run(s, es).clickedPoints == DealtIds(n)
      && Run(s, es).nextId == n
      && forall j :: 2 <= j <= |es| ==> Run(s, es[..j]).status != GameOver
  {
    var start := [Input(Num(n)), PressPlay];
    var es := start + CorrectClicks(0, n);
    var s2 := Play(EnterCount(s, Num(n)));
    assert Run(s, start) == s2 by {
      assert Run(s, start) == Run(EnterCount(s, Num(n)), [PressPlay]);
    }
    RunAppend(s, start, CorrectClicks(0, n));
    CorrectClicksClear(s2, 0, n);
    CorrectClicksHaveNoPlay(0, n);
    forall j | 2 <= j <= |es| ensures Run(s, es[..j]).status != GameOver {
      assert es == es[..j] + es[j..];
      RunAppend(s, es[..j], es[j..]);
      assert PressPlay !in es[j..] by {
        assert es[j..] == CorrectClicks(0, n)[j - 2..];
      }
      if Run(s, es[..j]).status == GameOver {
        TerminalIsAbsorbing(Run(s, es[..j]), es[j..]);
        assert false;
      }
    }
  }

  /** A run starts with its first event. */
  lemma RunFirst(s: Snapshot, es: seq<Event>)
    requires es != []
    ensures Run(s, es) == Run(Step(s, es[0]), es[1..])
  {
  }

  /** The board of a three-point round. */
  lemma DealtThree()
    ensures DealtIds(3) == [0, 1, 2]
  {
    assert Span(0, 3) == [0, 1, 2];
  }

  /** Removing point 0 from the board 0, 1, 2, and once more from what is
      left. */
  lemma RemoveZero()
    ensures Without([0, 1, 2], 0) == [1, 2]
    ensures Without([1, 2], 0) == [1, 2]
  {
    WithoutAbsent([1, 2], 0);
    assert Without([0, 1, 2], 0) == Without([1, 2], 0);
  }

  /** A removal still scheduled when Play restarts the round fires in the new
      round: from any state with nothing scheduled, entering 3, clicking 0
      and restarting at once leaves the new board without point 0 and with
      1 expected, as if 0 had been clicked in the new round. */
  lemma StaleRemovalLeaksIntoNextRound(s: Snapshot)
    requires s.pending == []
    ensures var r := Run(s, [Input(Num(3)), PressPlay, ClickPoint(0), PressPlay, TimeoutFires]);
      && r.status == Playing && r.points == [1, 2] && r.nextId == 1
      && r.clickedPoints == [] && r.pending == []
  {
    var es := [Input(Num(3)), PressPlay, ClickPoint(0), PressPlay, TimeoutFires];
    DealtThree();
    var s1 := EnterCount(s, Num(3));
    var s2 := Play(s1);
    var s3 := Click(s2, 0);
    var s4 := Play(s3);
    assert s4.points == [0, 1, 2] && s4.pending == [0] && s4.nextId == 0;
    var s5 := FireRemoval(s4);
    assert s5.points == [1, 2] by {
      RemoveZero();
    }
    RunFirst(s, es);
    RunFirst(s1, es[1..]);
    RunFirst(s2, es[2..]);
    RunFirst(s3, es[3..]);
    RunFirst(s4, es[4..]);
    assert es[1..][1..] == es[2..] && es[2..][1..] == es[3..];
    assert es[3..][1..] == es[4..] && es[4..][1..] == [];
  }

  /** Clicking the expected id twice before its removal fires records it
      twice and schedules two increments: from any state with nothing
      scheduled, a round of 3 ends up expecting 2 with point 1 still on the
      board, so it can no longer be cleared and clicking point 1 loses. */
  lemma DoubleClickSkipsAnId(s: Snapshot)
    requires s.pending == []
    ensures var es := [Input(Num(3)), PressPlay, ClickPoint(0), ClickPoint(0), TimeoutFires, TimeoutFires];
      var r := Run(s, es);
      && r.clickedPoints == [0, 0] && r.points == [1, 2] && r.nextId == 2
      && r.status == Playing
      && Click(r, 1).status == GameOver
  {
    var es := [Input(Num(3)), PressPlay, ClickPoint(0), ClickPoint(0), TimeoutFires, TimeoutFires];
    var s1 := EnterCount(s, Num(3));
    var s2 := Play(s1);
    var s3 := Click(s2, 0);
    var s4 := Click(s3, 0);
    DoubleClickSetup(s);
    TwoRemovals(s4);
    var s5 := FireRemoval(s4);
    RunFirst(s, es);
    RunFirst(s1, es[1..]);
    RunFirst(s2, es[2..]);
    RunFirst(s3, es[3..]);
    RunFirst(s4, es[4..]);
    RunFirst(s5, es[5..]);
    assert es[1..][1..] == es[2..] && es[2..][1..] == es[3..];
    assert es[3..][1..] == es[4..] && es[4..][1..] == es[5..] && es[5..][1..] == [];
  }

  /** A round of 3 with point 0 clicked twice. */
  lemma DoubleClickSetup(s: Snapshot)
    requires s.pending == []
    ensures var r := Click(Click(Play(EnterCount(s, Num(3))), 0), 0);
      && r.points == [0, 1, 2] && r.pending == [0, 0] && r.nextId == 0
      && r.clickedPoints == [0, 0] && r.status == Playing && r.isPlaying
  {
    DealtThree();
  }

  /** Both removals of point 0 fire. */
  lemma TwoRemovals(s: Snapshot)
    requires s.points == [0, 1, 2] && s.pending == [0, 0] && s.nextId == 0
    ensures FireRemoval(s).pending == [0]
    ensures FireRemoval(FireRemoval(s)) == s.(points := [1, 2], nextId := 2, pending := [])
  {
    RemoveZero();
  }
}
