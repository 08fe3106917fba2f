/** The two pieces of the drawing framework the core relies on: the
    point-containment test of an axis-aligned rectangle, and the keyboard
    state read once per frame.  Everything else in that framework (windows,
    drawing, labels, sounds) is not part of this model. */
module Game2d {

  function Abs(x: real): (r: real)
    ensures r >= 0.0
    ensures r == x || r == -x
  {
    if x < 0.0 then -x else x
  }

  /** An axis-aligned rectangle given by its centre and its size; y points up. */
  datatype Rect = Rect(x: real, y: real, width: real, height: real)
  {
    /** Closed containment: a point on the border is inside. */
    predicate Contains(px: real, py: real) {
      Abs(px - x) <= width / 2.0 && Abs(py - y) <= height / 2.0
    }

    function Left(): real { x - width / 2.0 }
    function Right(): real { x + width / 2.0 }
    function Bottom(): real { y - height / 2.0 }
    function Top(): real { y + height / 2.0 }
  }

  /** The keyboard as seen in one frame: how many keys are down, and whether
      the left and right arrow keys are among them. */
  datatype Input = Input(keyCount: nat, left: bool, right: bool)
}
