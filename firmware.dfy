/**
  The movement controller's firmware (ArduinoCode/8266.cpp): its globals, the decision
  it takes on a status reply, the one-cell step towards its target and the right
  turns that bring it to a heading.  Motors, delays and WiFi are not modelled; the
  ultrasonic sensor is the integer reading it hands back.
*/
module Firmware {
  import opened Common

  /** The compass enum: NORTH, EAST, SOUTH, WEST are 0, 1, 2, 3. */
  newtype Direction = d: int | 0 <= d < 4

  const NORTH: Direction := 0
  const EAST: Direction := 1
  const SOUTH: Direction := 2
  const WEST: Direction := 3

  /** Below or at this many centimetres the cell ahead is blocked. */
  const OBSTACLE_DISTANCE: int := 15

  /** The distance the sensor reports when no echo came back. */
  const NO_ECHO_DISTANCE: int := 999

  /** The firmware's state machine. */
  datatype RobotState = CheckingStatus | MovingToTarget | WaitingForImage | ExplorationComplete | ErrorState

  /**
    The fields the firmware reads from a parsed status reply.  A missing boolean
    reads as false; nextMove is None when the key is absent or null.
  */
  datatype StatusDoc = StatusDoc(
    isRunning: bool,
    needsImage: bool,
    waitingForImage: bool,
    nextMove: Option<Cell>,
    explorationComplete: bool)

  /** The outcome of a status check: the next state and, when moving, the new target. */
  datatype Decision = Decision(next: RobotState, target: Option<Cell>)

  // ---------------------------------------------------------------- status decision

  /** The decision of a status check, the checks taken in priority order. */
  function Decide(doc: StatusDoc): (d: Decision)
    ensures d.target.Some? <==> d.next == MovingToTarget
    ensures d.next != ErrorState
    ensures !doc.isRunning ==> d.next == ExplorationComplete
    ensures doc.isRunning && (doc.needsImage || doc.waitingForImage) ==> d.next == WaitingForImage
    ensures doc.isRunning && !doc.needsImage && !doc.waitingForImage ==>
              if doc.nextMove.Some? then d == Decision(MovingToTarget, doc.nextMove)
              else if doc.explorationComplete then d.next == ExplorationComplete
              else d.next == CheckingStatus
  {
    if !doc.isRunning then Decision(ExplorationComplete, None)
    else if doc.needsImage then Decision(WaitingForImage, None)
    else if doc.waitingForImage then Decision(WaitingForImage, None)
    else if doc.nextMove.Some? then Decision(MovingToTarget, doc.nextMove)
    else if doc.explorationComplete then Decision(ExplorationComplete, None)
    else Decision(CheckingStatus, None)
  }

  // ---------------------------------------------------------------- turning

  /** The heading after one right turn: (facing + 1) % 4. */
  function TurnRight(d: Direction): (r: Direction)
    ensures r as int == (d as int + 1) % 4
  {
    if d == WEST then NORTH else d + 1
  }

  /**
    How many right turns bring `from` to `to`: zero exactly when they agree, never
    more than three.
  */
  function RightTurns(from: Direction, to: Direction): (n: nat)
    ensures n <= 3
    ensures n == 0 <==> from == to
  {
    if from <= to then to as int - from as int else to as int - from as int + 4
  }

  /** Each right turn takes one off the count, so the turning loop ends. */
  lemma RightTurnCounts(from: Direction, to: Direction)
    requires from != to
    ensures RightTurns(TurnRight(from), to) == RightTurns(from, to) - 1
  {
  }

  // ---------------------------------------------------------------- stepping

  /** The cell one step ahead when facing d: NORTH lowers y, SOUTH raises it. */
  function Ahead(c: Cell, d: Direction): Cell
  {
    if d == NORTH then Cell(c.x, c.y - 1)
    else if d == EAST then Cell(c.x + 1, c.y)
    else if d == SOUTH then Cell(c.x, c.y + 1)
    else Cell(c.x - 1, c.y)
  }

  /**
    The heading the firmware turns to before a step: the cell ahead is one step
    nearer the target, and while X differs that step keeps Y, so X is corrected
    before Y.  These two facts leave exactly one direction.
  */
  function Heading(c: Cell, t: Cell): (d: Direction)
    requires c != t
    ensures Distance(Ahead(c, d), t) == Distance(c, t) - 1
    ensures c.x != t.x ==> Ahead(c, d).y == c.y
  {
    var deltaX := t.x - c.x;
    var deltaY := t.y - c.y;
    if deltaX != 0 then (if deltaX > 0 then EAST else WEST)
    else (if deltaY > 0 then SOUTH else NORTH)
  }

  /** Heading's two facts single it out: no other direction gets one step nearer while correcting X first. */
  lemma HeadingUnique(c: Cell, t: Cell, d: Direction)
    requires c != t
    requires Distance(Ahead(c, d), t) == Distance(c, t) - 1
    requires c.x != t.x ==> Ahead(c, d).y == c.y
    ensures d == Heading(c, t)
  {
  }

  /** |a - b| */
  function Abs(n: int): nat
  {
    if n < 0 then -n else n
  }

  /** The Manhattan distance between two cells. */
  function Distance(c: Cell, t: Cell): nat
  {
    Abs(t.x - c.x) + Abs(t.y - c.y)
  }

  /**
    The cell the firmware counts itself in after one unblocked step: one along X
    towards the target while X differs, otherwise one along Y.
  */
  function StepTowards(c: Cell, t: Cell): (r: Cell)
    ensures r == c <==> c == t
    ensures c != t ==> Distance(r, t) == Distance(c, t) - 1
    ensures c.x != t.x ==> r.y == c.y && Abs(t.x - r.x) == Abs(t.x - c.x) - 1
    ensures c.x == t.x ==> r.x == c.x
  {
    var deltaX := t.x - c.x;
    var deltaY := t.y - c.y;
    if deltaX != 0 then Cell(c.x + (if deltaX > 0 then 1 else -1), c.y)
    else if deltaY != 0 then Cell(c.x, c.y + (if deltaY > 0 then 1 else -1))
    else c
  }

  /** The step the counters record is the cell ahead in the direction the robot turned to. */
  lemma StepIsAhead(c: Cell, t: Cell)
    requires c != t
    ensures StepTowards(c, t) == Ahead(c, Heading(c, t))
  {
  }

  /** The cell reached after n unblocked steps. */
  function Walk(c: Cell, t: Cell, n: nat): Cell
    decreases n
  {
    if n == 0 then c else Walk(StepTowards(c, t), t, n - 1)
  }

  /** After exactly Distance(c, t) unblocked steps the robot is at its target. */
  lemma {:induction false} WalkReachesTarget(c: Cell, t: Cell)
    ensures Walk(c, t, Distance(c, t)) == t
    decreases Distance(c, t)
  {
    if c != t {
      WalkReachesTarget(StepTowards(c, t), t);
    }
  }

  /** The path turns its corner at (t.x, c.y): the first |t.x - c.x| steps correct X only. */
  lemma {:induction false} WalkCorrectsXFirst(c: Cell, t: Cell)
    ensures Walk(c, t, Abs(t.x - c.x)) == Cell(t.x, c.y)
    decreases Abs(t.x - c.x)
  {
    if c.x != t.x {
      WalkCorrectsXFirst(StepTowards(c, t), t);
    }
  }

  // ---------------------------------------------------------------- sensing

  /**
    canMoveForward on a raw sensor reading: the sensor reports a zero reading (no
    echo) as NO_ECHO_DISTANCE, and the cell ahead is free when the reported
    distance exceeds OBSTACLE_DISTANCE.
  */
  function ClearAhead(reading: nat): (clear: bool)
    ensures clear <==> reading == 0 || reading > OBSTACLE_DISTANCE
  {
    var distance := if reading == 0 then NO_ECHO_DISTANCE else reading;
    distance > OBSTACLE_DISTANCE
  }

  // ---------------------------------------------------------------- the controller

  /** The firmware's globals. */
  class Robot {
    var currentX: int
    var currentY: int
    var targetX: int
    var targetY: int
    var facing: Direction
    var robotState: RobotState

    /** The globals' initial values: at the origin, facing EAST, checking status. */
    constructor ()
      ensures currentX == 0 && currentY == 0 && targetX == 0 && targetY == 0
      ensures facing == EAST && robotState == CheckingStatus
    {
      currentX, currentY := 0, 0;
      targetX, targetY := 0, 0;
      facing := EAST;
      robotState := CheckingStatus;
    }

    /**
      One status check.  reply is None when the request failed or the JSON did not
      parse; then nothing changes.
    */
    method CheckRobotStatus(reply: Option<StatusDoc>)
      modifies this
      ensures currentX == old(currentX) && currentY == old(currentY) && facing == old(facing)
      ensures reply.None? ==>
                robotState == old(robotState) && targetX == old(targetX) && targetY == old(targetY)
      ensures reply.Some? ==>
                var d := Decide(reply.value);
                && robotState == d.next
                && (d.target.Some? ==> targetX == d.target.value.x && targetY == d.target.value.y)
                && (d.target.None? ==> targetX == old(targetX) && targetY == old(targetY))
    {
      if reply.None? {
        return;
      }
      var d := Decide(reply.value);
      if d.target.Some? {
        targetX := d.target.value.x;
        targetY := d.target.value.y;
      }
      robotState := d.next;
    }

    /** Turn right until facing targetDir; returns how many turns it took. */
    method TurnToDirection(targetDir: Direction) returns (turns: nat)
      modifies this`facing
      ensures facing == targetDir
      ensures turns == RightTurns(old(facing), targetDir) && turns <= 3
    {
      turns := 0;
      while facing != targetDir
        invariant turns + RightTurns(facing, targetDir) == RightTurns(old(facing), targetDir)
        decreases RightTurns(facing, targetDir)
      {
        RightTurnCounts(facing, targetDir);
        facing := TurnRight(facing);
        turns := turns + 1;
      }
    }

    /**
      One call of the move routine.  reading is what the sensor returns when it is
      consulted; updateSent says whether the position report reached the server when
      it is sent.
    */
    method MoveToTarget(reading: nat, updateSent: bool)
      modifies this
      ensures targetX == old(targetX) && targetY == old(targetY)
      ensures
        var c, t := Cell(old(currentX), old(currentY)), Cell(targetX, targetY);
        var arrived := if updateSent then CheckingStatus else ErrorState;
        if c == t then
          && currentX == c.x && currentY == c.y && facing == old(facing)
          && robotState == arrived
        else if !ClearAhead(reading) then
          && currentX == c.x && currentY == c.y && facing == Heading(c, t)
          && robotState == CheckingStatus
        else
          && Cell(currentX, currentY) == StepTowards(c, t) && facing == Heading(c, t)
          && robotState == (if StepTowards(c, t) == t then arrived else old(robotState))
    {
      var deltaX := targetX - currentX;
      var deltaY := targetY - currentY;
      if deltaX != 0 {
        var targetDir := if deltaX > 0 then EAST else WEST;
        var _ := TurnToDirection(targetDir);
        if ClearAhead(reading) {
          currentX := currentX + (if deltaX > 0 then 1 else -1);
        } else {
          robotState := CheckingStatus;
          return;
        }
      } else if deltaY != 0 {
        var targetDir := if deltaY > 0 then SOUTH else NORTH;
        var _ := TurnToDirection(targetDir);
        if ClearAhead(reading) {
          currentY := currentY + (if deltaY > 0 then 1 else -1);
        } else {
          robotState := CheckingStatus;
          return;
        }
      }
      if currentX == targetX && currentY == targetY {
        robotState := if updateSent then CheckingStatus else ErrorState;
      }
    }
  }
}
