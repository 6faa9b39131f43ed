/** What the board shows as a function of the status: the heading with its
    colour class, and the label of the Play button. */
module Display {
  import opened GameRules

  datatype Heading = Heading(text: string, colorClass: string)

  const HIGHLIGHT: string := "text-red-700"

  /** The heading: the invitation while idle or playing, the outcome in red
      once the round is over. */
  function Title(status: Status): (r: Heading)
    ensures r.text == "LET'S PLAY" <==> (status == Idle || status == Playing)
    ensures r.text == "ALL CLEARED" <==> status == Cleared
    ensures r.text == "GAME OVER" <==> status == GameOver
    ensures r.colorClass == HIGHLIGHT <==> (status == Cleared || status == GameOver)
    ensures r.colorClass != HIGHLIGHT ==> r.colorClass == ""
  {
    match status
    case Idle => Heading("LET'S PLAY", "")
    case Playing => Heading("LET'S PLAY", "")
    case Cleared => Heading("ALL CLEARED", HIGHLIGHT)
    case GameOver => Heading("GAME OVER", HIGHLIGHT)
  }

  /** The button says Play before the first round and Restart after it. */
  function ButtonLabel(status: Status): (r: string)
    ensures r == "Play" <==> status == Idle
    ensures r != "Play" ==> r == "Restart"
  {
    if status == Idle then "Play" else "Restart"
  }

  /** Once any round has started the button reads Restart for good: Play is
      never shown again, whatever events follow. */
  lemma {:induction false} RestartOnceStarted(s: Snapshot, es: seq<Event>)
    requires s.status != Idle
    ensures ButtonLabel(Run(s, es).status) == "Restart"
    decreases |es|
  {
    if es != [] {
      RestartOnceStarted(Step(s, es[0]), es[1..]);
    }
  }

  /** Once a round has started, the heading is red exactly when the clock
      is frozen, and a red heading ignores every click. */
  lemma HighlightedIffFrozen(s: Snapshot, id: int)
    requires Consistent(s)
    requires s.status != Idle
    ensures Title(s.status).colorClass == HIGHLIGHT <==> Tick(s) == s
    ensures Title(s.status).colorClass == HIGHLIGHT ==> Click(s, id) == s
  {
  }
}
