/**
 * The direction the device reports to the page on `GET /buttons`: the first
 * pressed button in the order LEFT, RIGHT, UP, DOWN, or "" when none is.
 */
module Buttons {
  import opened Grid
  import Game

  /** The button labels in the order they are checked. */
  const Labels: seq<string> := ["LEFT", "RIGHT", "UP", "DOWN"]

  /** The reply to `GET /buttons` from the four `.value()` reads of the
      button pins, taken in `Labels` order. */
  function ButtonDirection(left: bool, right: bool, up: bool, down: bool): (d: string)
    ensures d in Labels || d == ""
  {
    if left then "LEFT"
    else if right then "RIGHT"
    else if up then "UP"
    else if down then "DOWN"
    else ""
  }

  /**
   * The reply names the first pressed button in `Labels` order: it is the
   * i-th label exactly when button i is pressed and no earlier one is, and
   * it is "" exactly when no button is pressed.
   */
  lemma ButtonPriority(left: bool, right: bool, up: bool, down: bool)
    ensures var pressed, d := [left, right, up, down], ButtonDirection(left, right, up, down);
      && (d == "" <==> forall i :: 0 <= i < 4 ==> !pressed[i])
      && (forall i :: 0 <= i < 4 ==> (d == Labels[i] <==> pressed[i] && forall j :: 0 <= j < i ==> !pressed[j]))
  {
    var pressed, d := [left, right, up, down], ButtonDirection(left, right, up, down);
    assert pressed[0] == left && pressed[1] == right && pressed[2] == up && pressed[3] == down;
    assert Labels[0][0] == 'L' && Labels[1][0] == 'R' && Labels[2][0] == 'U' && Labels[3][0] == 'D';
    forall i | 0 <= i < 4
      ensures d == Labels[i] <==> pressed[i] && forall j :: 0 <= j < i ==> !pressed[j]
    {
      if i == 0 {
        assert d == Labels[0] <==> left;
      } else if i == 1 {
        assert d == Labels[1] <==> !left && right;
        assert (forall j :: 0 <= j < 1 ==> !pressed[j]) <==> !left;
      } else if i == 2 {
        assert d == Labels[2] <==> !left && !right && up;
        assert (forall j :: 0 <= j < 2 ==> !pressed[j]) <==> !left && !right;
      } else {
        assert d == Labels[3] <==> !left && !right && !up && down;
        assert (forall j :: 0 <= j < 3 ==> !pressed[j]) <==> !left && !right && !up;
      }
    }
  }

  /** Whatever the buttons report, the page's move target is Pac-Man's cell
      or a cell next to it, and it is a neighbour exactly when a button is
      pressed. */
  lemma ButtonMovesOneStep(left: bool, right: bool, up: bool, down: bool, pac: Cell)
    ensures var t := Game.Target(pac, ButtonDirection(left, right, up, down));
      (Adjacent(pac, t) <==> left || right || up || down) &&
      (t == pac <==> !(left || right || up || down))
  {
  }
}
