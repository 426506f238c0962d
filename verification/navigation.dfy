/** The sidebar's "Previous Slide" and "Next Slide" buttons: each press moves
    the viewed slide index by one, clamped to the extracted slides. */
module Navigation {

  /** "Previous Slide": one back, never below the first slide. */
  function Previous(i: int): (j: int)
    ensures j >= 0
    ensures i >= 1 ==> j == i - 1
    ensures i <= 0 ==> j == 0
  {
    if i - 1 > 0 then i - 1 else 0
  }

  /** "Next Slide" over `n` slides: one forward, never past the last slide. */
  function Next(i: int, n: nat): (j: int)
    ensures j <= n - 1
    ensures i < n - 1 ==> j == i + 1
    ensures i >= n - 1 ==> j == n - 1
  {
    if i + 1 < n - 1 then i + 1 else n - 1
  }

  /** A press of one of the two buttons. */
  datatype Press = Back | Forward

  /** The viewed index after a sequence of presses, one press per rerun of
      the page. */
  function Navigate(i: int, presses: seq<Press>, n: nat): int
    decreases |presses|
  {
    if presses == [] then i
    else
      var j := if presses[0].Back? then Previous(i) else Next(i, n);
      Navigate(j, presses[1..], n)
  }

  /** With at least one slide, a press keeps a valid index valid, so the
      page's `slides[slide_index]` lookup never fails. */
  lemma PressInRange(i: int, p: Press, n: nat)
    requires 0 <= i < n
    ensures 0 <= (if p.Back? then Previous(i) else Next(i, n)) < n
  {
  }

  /** Any sequence of presses keeps a valid index valid. */
  lemma {:induction false} NavigateInRange(i: int, presses: seq<Press>, n: nat)
    requires 0 <= i < n
    ensures 0 <= Navigate(i, presses, n) < n
    decreases |presses|
  {
    if presses != [] {
      var j := if presses[0].Back? then Previous(i) else Next(i, n);
      PressInRange(i, presses[0], n);
      NavigateInRange(j, presses[1..], n);
    }
  }

  /** Away from the ends, the two buttons undo each other. */
  lemma BackUndoesForward(i: int, n: nat)
    requires 0 <= i < n - 1
    ensures Previous(Next(i, n)) == i
  {
  }

  lemma ForwardUndoesBack(i: int, n: nat)
    requires 0 < i < n
    ensures Next(Previous(i), n) == i
  {
  }

  /** From the first slide, `k` presses of "Next Slide" reach slide `k`, or
      the last slide if there are fewer. */
  lemma {:induction false} ForwardSteps(i: int, k: nat, n: nat)
    requires 0 <= i < n
    ensures Navigate(i, seq(k, _ => Forward), n) == if i + k < n then i + k else n - 1
    decreases k
  {
    if k > 0 {
      var presses := seq(k, _ => Forward);
      assert presses[1..] == seq(k - 1, _ => Forward);
      ForwardSteps(Next(i, n), k - 1, n);
    }
  }
}
