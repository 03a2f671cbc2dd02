/**
 * Reference-pin addressing of the PWM driver boards (2Dcells.c:20-64).
 * Four boards of sixteen pins each; a flat channel number ("reference pin")
 * is looked up in a 4x16 table to find the board and the pin on that board.
 */
module Pins {
  import opened Wrappers
  import opened Index

  const NumBoards: int := 4
  const PinsPerBoard: int := 16
  const NumRefPins: int := NumBoards * PinsPerBoard

  /** A 4x16 table of reference pins, as `int pins[numBoards][16]` is. */
  predicate TableShape(pins: seq<seq<int>>)
  {
    |pins| == NumBoards && forall i :: 0 <= i < |pins| ==> |pins[i]| == PinsPerBoard
  }

  /** The table `initializePins` leaves behind: consecutive numbers in row-major order. */
  ghost predicate IsReferenceTable(pins: seq<seq<int>>)
  {
    TableShape(pins) &&
    forall i, j :: 0 <= i < NumBoards && 0 <= j < PinsPerBoard ==> pins[i][j] == At(i, j, PinsPerBoard)
  }

  /** Some entry of the table holds `refPin`. */
  ghost predicate Occurs(pins: seq<seq<int>>, refPin: int)
    requires TableShape(pins)
  {
    exists i, j :: 0 <= i < NumBoards && 0 <= j < PinsPerBoard && pins[i][j] == refPin
  }

  /** Entry (a, b) comes strictly after entry (i, j) in the scan order of the lookups. */
  predicate Later(a: int, b: int, i: int, j: int)
  {
    a > i || (a == i && b > j)
  }

  /** Entry (i, j) holds `refPin` and no entry scanned after it does: the match the
      lookups report, since each later match overwrites the previous one. */
  ghost predicate IsLastMatch(pins: seq<seq<int>>, refPin: int, i: int, j: int)
    requires TableShape(pins)
  {
    0 <= i < NumBoards && 0 <= j < PinsPerBoard && pins[i][j] == refPin &&
    forall a, b :: 0 <= a < NumBoards && 0 <= b < PinsPerBoard && Later(a, b, i, j) ==> pins[a][b] != refPin
  }

  /** `initializePins` (2Dcells.c:58-64): fills the table with 0, 1, ..., 63 row by row. */
  method InitializePins() returns (pins: seq<seq<int>>)
    ensures IsReferenceTable(pins)
  {
    pins := [];
    var n := 0;
    var i := 0;
    while i < NumBoards
      invariant 0 <= i <= NumBoards
      invariant |pins| == i
      invariant n == i * PinsPerBoard
      invariant forall a :: 0 <= a < i ==> |pins[a]| == PinsPerBoard
      invariant forall a, b :: 0 <= a < i && 0 <= b < PinsPerBoard ==> pins[a][b] == At(a, b, PinsPerBoard)
    {
      var row := [];
      var j := 0;
      while j < PinsPerBoard
        invariant 0 <= j <= PinsPerBoard
        invariant |row| == j
        invariant n == i * PinsPerBoard + j
        invariant forall b :: 0 <= b < j ==> row[b] == At(i, b, PinsPerBoard)
      {
        row := row + [n];
        j := j + 1;
        n := n + 1;
      }
      pins := pins + [row];
      i := i + 1;
    }
  }

  /** Two last matches of the same reference pin are the same entry. */
  lemma LastMatchUnique(pins: seq<seq<int>>, refPin: int, i1: int, j1: int, i2: int, j2: int)
    requires TableShape(pins)
    requires IsLastMatch(pins, refPin, i1, j1) && IsLastMatch(pins, refPin, i2, j2)
    ensures i1 == i2 && j1 == j2
  {
  }

  /** In the reference table, `refPin` has a last match exactly when it is in
      `[0, 64)`, and that match is at board `refPin / 16`, pin `refPin % 16`. */
  lemma ReferenceLastMatch(pins: seq<seq<int>>, refPin: int, i: int, j: int)
    requires IsReferenceTable(pins)
    ensures IsLastMatch(pins, refPin, i, j) <==>
            (0 <= refPin < NumRefPins && i == refPin / PinsPerBoard && j == refPin % PinsPerBoard)
  {
    if IsLastMatch(pins, refPin, i, j) {
      AtDecode(i, j, PinsPerBoard);
      AtBounds(i, j, NumBoards, PinsPerBoard);
    }
    if 0 <= refPin < NumRefPins && i == refPin / PinsPerBoard && j == refPin % PinsPerBoard {
      AtCovers(refPin, NumBoards, PinsPerBoard);
      forall a, b | 0 <= a < NumBoards && 0 <= b < PinsPerBoard && Later(a, b, i, j)
        ensures pins[a][b] != refPin
      {
        if pins[a][b] == refPin {
          AtInjective(a, b, i, j, PinsPerBoard);
        }
      }
    }
  }

  /** In the reference table, `refPin` occurs exactly when it is in `[0, 64)`. */
  lemma ReferenceOccurs(pins: seq<seq<int>>, refPin: int)
    requires IsReferenceTable(pins)
    ensures Occurs(pins, refPin) <==> 0 <= refPin < NumRefPins
  {
    if Occurs(pins, refPin) {
      var i, j :| 0 <= i < NumBoards && 0 <= j < PinsPerBoard && pins[i][j] == refPin;
      AtBounds(i, j, NumBoards, PinsPerBoard);
    }
    if 0 <= refPin < NumRefPins {
      AtCovers(refPin, NumBoards, PinsPerBoard);
      assert pins[refPin / PinsPerBoard][refPin % PinsPerBoard] == refPin;
    }
  }

  /** `findPin` (2Dcells.c:25-35): scans the whole table and keeps the pin index of
      the last entry equal to `refPin`; `None` when no entry matches, where the C
      function returns an unassigned local. */
  method FindPin(pins: seq<seq<int>>, refPin: int) returns (pin: Option<int>)
    requires TableShape(pins)
    ensures pin.None? <==> !Occurs(pins, refPin)
    ensures pin.Some? ==> exists i :: 0 <= i < NumBoards && IsLastMatch(pins, refPin, i, pin.value)
    ensures IsReferenceTable(pins) ==>
              pin == if 0 <= refPin < NumRefPins then Some(refPin % PinsPerBoard) else None
  {
    pin := None;
    ghost var board := 0;
    var i := 0;
    while i < NumBoards
      invariant 0 <= i <= NumBoards
      invariant pin.None? <==>
                  forall a, b :: 0 <= a < i && 0 <= b < PinsPerBoard ==> pins[a][b] != refPin
      invariant pin.Some? ==>
                  0 <= board < i && 0 <= pin.value < PinsPerBoard && pins[board][pin.value] == refPin &&
                  forall a, b :: 0 <= a < i && 0 <= b < PinsPerBoard && Later(a, b, board, pin.value) ==> pins[a][b] != refPin
    {
      var j := 0;
      while j < PinsPerBoard
        invariant 0 <= j <= PinsPerBoard
        invariant pin.None? <==>
                    forall a, b :: 0 <= a < NumBoards && 0 <= b < PinsPerBoard && (a < i || (a == i && b < j)) ==> pins[a][b] != refPin
        invariant pin.Some? ==>
                    0 <= board <= i && 0 <= pin.value < PinsPerBoard && pins[board][pin.value] == refPin &&
                    forall a, b :: 0 <= a < NumBoards && 0 <= b < PinsPerBoard && (a < i || (a == i && b < j)) && Later(a, b, board, pin.value) ==> pins[a][b] != refPin
        invariant pin.Some? ==> board < i || pin.value < j
      {
        if pins[i][j] == refPin {
          pin := Some(j);
          board := i;
        }
        j := j + 1;
      }
      i := i + 1;
    }
    if pin.Some? {
      assert IsLastMatch(pins, refPin, board, pin.value);
    }
    if IsReferenceTable(pins) {
      ReferenceOccurs(pins, refPin);
      if pin.Some? {
        ReferenceLastMatch(pins, refPin, board, pin.value);
      }
    }
  }

  /** `findBoard` (2Dcells.c:37-47): the same scan as `findPin`, keeping the board index. */
  method FindBoard(pins: seq<seq<int>>, refPin: int) returns (board: Option<int>)
    requires TableShape(pins)
    ensures board.None? <==> !Occurs(pins, refPin)
    ensures board.Some? ==> exists j :: 0 <= j < PinsPerBoard && IsLastMatch(pins, refPin, board.value, j)
    ensures IsReferenceTable(pins) ==>
              board == if 0 <= refPin < NumRefPins then Some(refPin / PinsPerBoard) else None
  {
    board := None;
    ghost var pin := 0;
    var i := 0;
    while i < NumBoards
      invariant 0 <= i <= NumBoards
      invariant board.None? <==>
                  forall a, b :: 0 <= a < i && 0 <= b < PinsPerBoard ==> pins[a][b] != refPin
      invariant board.Some? ==>
                  0 <= board.value < i && 0 <= pin < PinsPerBoard && pins[board.value][pin] == refPin &&
                  forall a, b :: 0 <= a < i && 0 <= b < PinsPerBoard && Later(a, b, board.value, pin) ==> pins[a][b] != refPin
    {
      var j := 0;
      while j < PinsPerBoard
        invariant 0 <= j <= PinsPerBoard
        invariant board.None? <==>
                    forall a, b :: 0 <= a < NumBoards && 0 <= b < PinsPerBoard && (a < i || (a == i && b < j)) ==> pins[a][b] != refPin
        invariant board.Some? ==>
                    0 <= board.value <= i && 0 <= pin < PinsPerBoard && pins[board.value][pin] == refPin &&
                    forall a, b :: 0 <= a < NumBoards && 0 <= b < PinsPerBoard && (a < i || (a == i && b < j)) && Later(a, b, board.value, pin) ==> pins[a][b] != refPin
        invariant board.Some? ==> board.value < i || pin < j
      {
        if pins[i][j] == refPin {
          board := Some(i);
          pin := j;
        }
        j := j + 1;
      }
      i := i + 1;
    }
    if board.Some? {
      assert IsLastMatch(pins, refPin, board.value, pin);
    }
    if IsReferenceTable(pins) {
      ReferenceOccurs(pins, refPin);
      if board.Some? {
        ReferenceLastMatch(pins, refPin, board.value, pin);
      }
    }
  }

  /** One PWM write as the board driver receives it: board, pin on the board, duty value. */
  datatype DeviceWrite = DeviceWrite(board: int, pin: int, value: int)

  /** `PWMwrite` (2Dcells.c:50-55) without the device call: resolves the reference pin to
      the write the driver would receive. `None` when the pin is not in the table, where
      the C code would use unassigned board and pin numbers. */
  method PwmWrite(pins: seq<seq<int>>, refPin: int, value: int) returns (w: Option<DeviceWrite>)
    requires TableShape(pins)
    ensures w.Some? <==> Occurs(pins, refPin)
    ensures w.Some? ==> 0 <= w.value.board < NumBoards && 0 <= w.value.pin < PinsPerBoard
    ensures w.Some? ==> pins[w.value.board][w.value.pin] == refPin && w.value.value == value
    ensures w.Some? ==> IsLastMatch(pins, refPin, w.value.board, w.value.pin)
    ensures IsReferenceTable(pins) ==>
              w == if 0 <= refPin < NumRefPins
                   then Some(DeviceWrite(refPin / PinsPerBoard, refPin % PinsPerBoard, value))
                   else None
  {
    var b := FindBoard(pins, refPin);
    var p := FindPin(pins, refPin);
    if b.Some? && p.Some? {
      ghost var j :| 0 <= j < PinsPerBoard && IsLastMatch(pins, refPin, b.value, j);
      ghost var i :| 0 <= i < NumBoards && IsLastMatch(pins, refPin, i, p.value);
      LastMatchUnique(pins, refPin, b.value, j, i, p.value);
      w := Some(DeviceWrite(b.value, p.value, value));
    } else {
      w := None;
    }
  }
}
