/**
 * The three push buttons (input/button_controller.py). The pins are wired with
 * pull-up resistors, so a pressed button reads low. A pin read is an input of
 * the model; `handle_navigation` becomes a function that returns the new index
 * together with whether the draw callback is invoked (once, with that index).
 */
module Buttons {

  /** What reading a pin's `value` gives: its level, or an exception. */
  datatype PinRead = Level(high: bool) | ReadFailed

  /** `is_pressed`: a low pin is a pressed button; a failed read counts as not pressed. */
  function IsPressed(pin: PinRead): (pressed: bool)
    ensures pressed <==> pin == Level(false)
    ensures pin == ReadFailed ==> !pressed
  {
    match pin
    case Level(high) => !high
    case ReadFailed => false
  }

  /** The reads of the up, down and select pins during one poll. */
  datatype Panel = Panel(up: PinRead, down: PinRead, select: PinRead)

  function IsUpPressed(panel: Panel): (pressed: bool)
    ensures pressed <==> panel.up == Level(false)
  {
    IsPressed(panel.up)
  }

  function IsDownPressed(panel: Panel): (pressed: bool)
    ensures pressed <==> panel.down == Level(false)
  {
    IsPressed(panel.down)
  }

  function IsSelectPressed(panel: Panel): (pressed: bool)
    ensures pressed <==> panel.select == Level(false)
  {
    IsPressed(panel.select)
  }

  /** The result of `handle_navigation`: the new index, and whether the menu was redrawn at it. */
  datatype Navigation = Navigation(index: nat, redraw: bool)

  /**
   * `handle_navigation`: Up steps back with wrap-around, otherwise Down steps
   * forward with wrap-around; Up wins when both are held, and at most one step is
   * taken. Python's `%` with a positive divisor agrees with Dafny's.
   */
  function HandleNavigation(totalItems: nat, currentIndex: nat, panel: Panel): (nav: Navigation)
    requires totalItems > 0
    ensures nav.redraw <==> IsUpPressed(panel) || IsDownPressed(panel)
    ensures !nav.redraw ==> nav.index == currentIndex
    ensures nav.redraw ==> nav.index < totalItems
    ensures IsUpPressed(panel) ==> nav.index == (currentIndex - 1) % totalItems
    ensures !IsUpPressed(panel) && IsDownPressed(panel) ==> nav.index == (currentIndex + 1) % totalItems
    ensures IsUpPressed(panel) && currentIndex == 0 ==> nav.index == totalItems - 1
    ensures IsUpPressed(panel) && 0 < currentIndex <= totalItems ==> nav.index == currentIndex - 1
    ensures !IsUpPressed(panel) && IsDownPressed(panel) && currentIndex < totalItems - 1 ==> nav.index == currentIndex + 1
    ensures !IsUpPressed(panel) && IsDownPressed(panel) && currentIndex == totalItems - 1 ==> nav.index == 0
  {
    if IsUpPressed(panel) then
      StepBack(totalItems, currentIndex);
      Navigation((currentIndex - 1) % totalItems, true)
    else if IsDownPressed(panel) then
      StepForward(totalItems, currentIndex);
      Navigation((currentIndex + 1) % totalItems, true)
    else Navigation(currentIndex, false)
  }

  /** One step back modulo `n` wraps 0 to `n - 1` and otherwise subtracts one. */
  lemma StepBack(n: nat, i: nat)
    requires n > 0
    ensures 0 <= (i - 1) % n < n
    ensures i == 0 ==> (i - 1) % n == n - 1
    ensures 0 < i <= n ==> (i - 1) % n == i - 1
  {
    if i == 0 {
      ModUnique(i - 1, -1, n - 1, n);
    } else if i <= n {
      ModUnique(i - 1, 0, i - 1, n);
    }
  }

  /** One step forward modulo `n` wraps `n - 1` to 0 and otherwise adds one. */
  lemma StepForward(n: nat, i: nat)
    requires n > 0
    ensures 0 <= (i + 1) % n < n
    ensures i == n - 1 ==> (i + 1) % n == 0
    ensures i < n - 1 ==> (i + 1) % n == i + 1
  {
    if i == n - 1 {
      ModUnique(i + 1, 1, 0, n);
    } else if i < n - 1 {
      ModUnique(i + 1, 0, i + 1, n);
    }
  }

  /** A poll in which only Up is held. */
  const UP: Panel := Panel(Level(false), Level(true), Level(true))

  /** A poll in which only Down is held. */
  const DOWN: Panel := Panel(Level(true), Level(false), Level(true))

  /** The index after `k` polls with the same buttons held. */
  function Repeat(totalItems: nat, index: nat, panel: Panel, k: nat): nat
    requires totalItems > 0
    decreases k
  {
    if k == 0 then index else Repeat(totalItems, HandleNavigation(totalItems, index, panel).index, panel, k - 1)
  }

  /** Euclidean division is unique: a remainder in range fixes quotient and remainder. */
  lemma ModUnique(a: int, q: int, r: int, n: int)
    requires n > 0 && 0 <= r < n && a == q * n + r
    ensures a % n == r
  {
    var d := q - a / n;
    assert d * n == a % n - r;
  }

  /** Adding `b` before or after reducing modulo `n` gives the same residue. */
  lemma ModShiftSum(a: int, b: int, n: int)
    requires n > 0
    ensures (a % n + b) % n == (a + b) % n
  {
    var c := a % n + b;
    ModUnique(a + b, a / n + c / n, c % n, n);
  }

  /** Holding Down for `k` polls advances the index by `k`, modulo the item count. */
  lemma {:induction false} RepeatDown(totalItems: nat, index: nat, k: nat)
    requires totalItems > 0 && index < totalItems
    ensures Repeat(totalItems, index, DOWN, k) == (index + k) % totalItems
    decreases k
  {
    if k > 0 {
      var next := HandleNavigation(totalItems, index, DOWN).index;
      assert Repeat(totalItems, index, DOWN, k) == Repeat(totalItems, next, DOWN, k - 1);
      assert next == (index + 1) % totalItems && next < totalItems;
      RepeatDown(totalItems, next, k - 1);
      ModShiftSum(index + 1, k - 1, totalItems);
      assert (index + 1) + (k - 1) == index + k;
    } else {
      assert index % totalItems == index;
    }
  }

  /** Holding Up for `k` polls moves the index back by `k`, modulo the item count. */
  lemma {:induction false} RepeatUp(totalItems: nat, index: nat, k: nat)
    requires totalItems > 0 && index < totalItems
    ensures Repeat(totalItems, index, UP, k) == (index - k) % totalItems
    decreases k
  {
    if k > 0 {
      var next := HandleNavigation(totalItems, index, UP).index;
      assert Repeat(totalItems, index, UP, k) == Repeat(totalItems, next, UP, k - 1);
      assert next == (index - 1) % totalItems && next < totalItems;
      RepeatUp(totalItems, next, k - 1);
      ModShiftSum(index - 1, -(k - 1), totalItems);
      assert (index - 1) + -(k - 1) == index - k;
    } else {
      assert index % totalItems == index;
    }
  }

  /** A full cycle of Down presses, or of Up presses, comes back to the starting item. */
  lemma FullCycle(totalItems: nat, index: nat)
    requires totalItems > 0 && index < totalItems
    ensures Repeat(totalItems, index, DOWN, totalItems) == index
    ensures Repeat(totalItems, index, UP, totalItems) == index
  {
    RepeatDown(totalItems, index, totalItems);
    RepeatUp(totalItems, index, totalItems);
    ModUnique(index + totalItems, 1, index, totalItems);
    ModUnique(index - totalItems, -1, index, totalItems);
  }

  /** Up undoes Down and Down undoes Up on every item of the menu. */
  lemma UpDownInverse(totalItems: nat, index: nat)
    requires totalItems > 0 && index < totalItems
    ensures HandleNavigation(totalItems, HandleNavigation(totalItems, index, DOWN).index, UP).index == index
    ensures HandleNavigation(totalItems, HandleNavigation(totalItems, index, UP).index, DOWN).index == index
  {
  }
}
