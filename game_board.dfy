/** The board component as an object whose state cells are fields. Every
    event handler, timer callback and effect is one method; the environment
    calls them one at a time, and each sees the cells left by the previous
    one. Each method's new state is the matching function of GameRules
    applied to the old state, and each keeps GameRules.Consistent. */
module GameBoard {
  import opened PointList
  import opened GameRules

  class Game {
    var points: seq<int>
    var pointCount: PointCount
    var isPlaying: bool
    var time: nat
    var nextId: nat
    var status: Status
    var clickedPoints: seq<int>
    /** Ids whose 300 ms removal callback is scheduled, oldest first. */
    var pending: seq<int>

    /** The cells as one value. */
    function State(): Snapshot
      reads this
    {
      Snapshot(points, pointCount, isPlaying, time, nextId, status, clickedPoints, pending)
    }

    ghost predicate Valid()
      reads this
    {
      Consistent(State())
    }

    /** The initial value of every cell. */
    constructor ()
      ensures Valid()
      ensures State() == Initial()
      ensures points == [] && pointCount == Empty && !isPlaying && time == 0
      ensures nextId == 0 && status == Idle && clickedPoints == [] && pending == []
    {
      points := [];
      pointCount := Empty;
      isPlaying := false;
      time := 0;
      nextId := 0;
      status := Idle;
      clickedPoints := [];
      pending := [];
    }

    /** The input change handler, given the parsed value. */
    method SetPointCount(c: PointCount)
      requires Valid()
      modifies this
      ensures Valid()
      ensures State() == EnterCount(old(State()), c)
      ensures pointCount == c
      ensures State().(pointCount := old(pointCount)) == old(State())
    {
      pointCount := c;
    }

    /** The Play/Restart handler. `refused` is true when it shows its alert
        and changes nothing. Removals scheduled in an earlier round stay
        scheduled. */
    method Play() returns (refused: bool)
      requires Valid()
      modifies this
      ensures Valid()
      ensures State() == GameRules.Play(old(State()))
      ensures refused <==> !Playable(old(pointCount))
      ensures refused ==> State() == old(State())
      ensures !refused ==>
        && time == 0 && nextId == 0 && status == Playing && isPlaying
        && clickedPoints == []
        && |points| == old(pointCount).value
        && (forall i :: 0 <= i < |points| ==> points[i] == i)
        && pointCount == old(pointCount) && pending == old(pending)
    {
      ghost var s := State();
      refused := !Playable(pointCount);
      if refused {
        return;
      }
      time := 0;
      nextId := 0;
      status := Playing;
      points := DealtIds(pointCount.value);
      clickedPoints := [];
      isPlaying := true;
      StepPreservesConsistent(s, PressPlay);
      PlayStartsFreshRound(s);
    }

    /** The point click handler. */
    method Click(id: int)
      requires Valid()
      modifies this
      ensures Valid()
      ensures State() == GameRules.Click(old(State()), id)
      ensures old(status) != Playing ==> State() == old(State())
      ensures old(status) == Playing && id == old(nextId) ==>
        && clickedPoints == old(clickedPoints) + [id]
        && pending == old(pending) + [id]
        && points == old(points) && nextId == old(nextId)
        && status == Playing && isPlaying == old(isPlaying)
        && time == old(time) && pointCount == old(pointCount)
      ensures old(status) == Playing && id != old(nextId) ==>
        && status == GameOver && !isPlaying
        && points == old(points) && nextId == old(nextId)
        && clickedPoints == old(clickedPoints) && pending == old(pending)
        && time == old(time) && pointCount == old(pointCount)
    {
      ghost var s := State();
      if status != Playing {
        return;
      }
      if id == nextId {
        clickedPoints := clickedPoints + [id];
        pending := pending + [id];
      } else {
        status := GameOver;
        isPlaying := false;
      }
      StepPreservesConsistent(s, ClickPoint(id));
    }

    /** The oldest scheduled removal callback: it drops every point with its
        id, keeping the others in order, and moves the expected id on by one,
        whatever the status is by then. */
    method FireRemoval()
      requires Valid()
      requires pending != []
      modifies this
      ensures Valid()
      ensures State() == GameRules.FireRemoval(old(State()))
      ensures points == Without(old(points), old(pending[0]))
      ensures old(pending[0]) !in points
      ensures |points| == if old(pending[0]) in old(points) then |old(points)| - 1 else |old(points)|
      ensures nextId == old(nextId) + 1
      ensures pending == old(pending[1..])
      ensures status == old(status) && isPlaying == old(isPlaying)
      ensures time == old(time) && clickedPoints == old(clickedPoints)
      ensures pointCount == old(pointCount)
    {
      ghost var s := State();
      var id := pending[0];
      pending := pending[1..];
      points := Without(points, id);
      nextId := nextId + 1;
      StepPreservesConsistent(s, TimeoutFires);
      WithoutMembers(s.points, id);
      WithoutOnAscending(s.points, id);
    }

    /** One period of the time interval, which runs only while playing. */
    method Tick()
      requires Valid()
      modifies this
      ensures Valid()
      ensures State() == GameRules.Tick(old(State()))
      ensures time == if old(status) == Playing then old(time) + 1 else old(time)
      ensures State().(time := old(time)) == old(State())
    {
      ghost var s := State();
      if isPlaying && status == Playing {
        time := time + 1;
      }
      StepPreservesConsistent(s, IntervalTicks);
    }

    /** The effect that declares the round cleared once the board is empty. */
    method CheckCleared()
      requires Valid()
      modifies this
      ensures Valid()
      ensures State() == GameRules.CheckCleared(old(State()))
      ensures old(isPlaying) && old(points) == [] && old(status) == Playing ==>
        status == Cleared && isPlaying && State().(status := Playing) == old(State())
      ensures !(old(isPlaying) && old(points) == [] && old(status) == Playing) ==>
        State() == old(State())
    {
      ghost var s := State();
      if isPlaying && |points| == 0 && status == Playing {
        status := Cleared;
        isPlaying := true;
      }
      StepPreservesConsistent(s, EffectRuns);
    }
  }

  /** A client of the class: three points, point 0 clicked, Restart pressed
      before its removal fires. The old callback still runs in the new round,
      so the new round has lost point 0 before anyone clicked it, and id 1 is
      expected. */
  method RestartLeavesStaleRemoval() returns (g: Game)
    ensures fresh(g) && g.Valid()
    ensures g.status == Playing && g.points == [1, 2] && g.nextId == 1
    ensures g.clickedPoints == [] && g.pending == []
  {
    g := new Game();
    g.SetPointCount(Num(3));
    var refused := g.Play();
    assert !refused && g.points == [0, 1, 2];
    g.Click(0);
    refused := g.Play();
    assert g.pending == [0] && g.points == [0, 1, 2];
    g.FireRemoval();
    assert Without([0, 1, 2], 0) == [1, 2];
  }
}
