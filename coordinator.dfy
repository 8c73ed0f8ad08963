/**
  The exploration coordinator of the server (app2.py).

  The server keeps two records: the robot record (current cell, run flag, image-wait
  gate) and the map record (visited cells with their detection result, and the
  depth-first exploration stack).  Every endpoint loads both, changes them and saves
  them; here the records are two fields of one object and each endpoint is one
  method that reassigns them.
*/
module Coordinator {
  import opened Common

  /** One element of visited_positions; the image path and the timestamp are opaque. */
  datatype VisitedEntry = VisitedEntry(x: int, y: int, humanDetected: bool, imagePath: string, timestamp: int)

  /** The robot record (data/robot_state.json). */
  datatype RobotRecord = RobotRecord(currentX: int, currentY: int, isRunning: bool, waitingForImage: bool, lastUpdate: int)

  /** The map record (data/map_data.json): visited cells and the DFS stack, top at the end. */
  datatype MapRecord = MapRecord(visitedPositions: seq<VisitedEntry>, explorationStack: seq<Cell>)

  /** The reply of the status endpoint; an absent "exploration_complete" key reads as false. */
  datatype StatusReply = StatusReply(
    currentPosition: Cell,
    isRunning: bool,
    needsImage: bool,
    waitingForImage: bool,
    nextMove: Option<Cell>,
    explorationComplete: bool)

  /** The "action" of a successful position update. */
  datatype Action = TakeImage

  /** The reply of a processed image. */
  datatype ImageReply = ImageReply(humanDetected: bool, newPositionsAdded: nat)

  /** The reply of the next-move endpoint. */
  datatype MoveReply = NextMove(position: Cell, remainingPositions: nat) | ExplorationComplete

  /** A position update's JSON body; a key may be missing. */
  datatype PositionBody = PositionBody(x: Option<int>, y: Option<int>)

  datatype Error =
    | NoJsonBody          // the request carried no JSON object
    | MissingCoordinates  // "Missing x or y coordinates"
    | NoImage             // "No image provided"
    | NotRunning          // "Robot not running"

  /** The cells pushed by the start endpoint onto an empty stack, bottom first. */
  const InitialFrontier: seq<Cell> := [Cell(1, 0), Cell(0, 1), Cell(-1, 0), Cell(0, -1)]

  /** The robot record used when none has been saved yet, and after a reset. */
  function DefaultRobot(now: int): RobotRecord
  {
    RobotRecord(0, 0, false, false, now)
  }

  /** The map record used when none has been saved yet, and after a reset. */
  const EmptyMap: MapRecord := MapRecord([], [])

  /** Some visited entry is at (x, y). */
  predicate IsVisited(visited: seq<VisitedEntry>, x: int, y: int)
  {
    exists i :: 0 <= i < |visited| && visited[i].x == x && visited[i].y == y
  }

  /** No two visited entries are at the same cell. */
  predicate UniqueCells(visited: seq<VisitedEntry>)
  {
    forall i, j :: 0 <= i < j < |visited| ==> !(visited[i].x == visited[j].x && visited[i].y == visited[j].y)
  }

  /** The four neighbours of (x, y) in the order the image endpoint considers them. */
  function Neighbours(x: int, y: int): (ns: seq<Cell>)
    ensures |ns| == 4 && NoDuplicates(ns)
    ensures Cell(x, y) !in ns
    ensures forall c :: c in ns <==> (c.y == y && (c.x == x + 1 || c.x == x - 1)) || (c.x == x && (c.y == y + 1 || c.y == y - 1))
  {
    [Cell(x + 1, y), Cell(x - 1, y), Cell(x, y + 1), Cell(x, y - 1)]
  }

  // ---------------------------------------------------------------- status

  /** Running, the current cell already visited, and no image awaited. */
  predicate ReadyForMove(state: RobotRecord, mapData: MapRecord)
  {
    state.isRunning && IsVisited(mapData.visitedPositions, state.currentX, state.currentY) && !state.waitingForImage
  }

  /** What the status endpoint derives from the two records. */
  function RobotStatus(state: RobotRecord, mapData: MapRecord): (r: StatusReply)
    ensures r.currentPosition == Cell(state.currentX, state.currentY)
    ensures r.isRunning == state.isRunning && r.waitingForImage == state.waitingForImage
    ensures r.needsImage <==> state.isRunning && !IsVisited(mapData.visitedPositions, state.currentX, state.currentY)
    ensures r.nextMove.Some? <==> ReadyForMove(state, mapData) && mapData.explorationStack != []
    ensures r.nextMove.Some? ==> r.nextMove.value == mapData.explorationStack[|mapData.explorationStack| - 1]
    ensures r.explorationComplete <==> ReadyForMove(state, mapData) && mapData.explorationStack == []
    ensures r.needsImage ==> r.nextMove.None? && !r.explorationComplete
    ensures !(r.nextMove.Some? && r.explorationComplete)
    ensures !r.isRunning ==> !r.needsImage && r.nextMove.None? && !r.explorationComplete
  {
    var explored := IsVisited(mapData.visitedPositions, state.currentX, state.currentY);
    var stack := mapData.explorationStack;
    var ready := state.isRunning && explored && !state.waitingForImage;
    StatusReply(
      Cell(state.currentX, state.currentY),
      state.isRunning,
      state.isRunning && !explored,
      state.waitingForImage,
      if ready && stack != [] then Some(stack[|stack| - 1]) else None,
      ready && stack == [])
  }

  // ---------------------------------------------------------------- visited list

  /** The visited list without the entries at (x, y), in their original order. */
  function RemoveCell(visited: seq<VisitedEntry>, x: int, y: int): (r: seq<VisitedEntry>)
    ensures |r| <= |visited|
    ensures !IsVisited(r, x, y)
    ensures forall e :: e in r <==> e in visited && !(e.x == x && e.y == y)
  {
    if visited == [] then []
    else
      var rest := RemoveCell(visited[1..], x, y);
      if visited[0].x == x && visited[0].y == y then rest else [visited[0]] + rest
  }

  /** Filtering distributes over concatenation: kept entries keep their relative order. */
  lemma {:induction false} RemoveCellAppend(a: seq<VisitedEntry>, b: seq<VisitedEntry>, x: int, y: int)
    ensures RemoveCell(a + b, x, y) == RemoveCell(a, x, y) + RemoveCell(b, x, y)
  {
    if a == [] {
      assert a + b == b;
    } else {
      assert (a + b)[1..] == a[1..] + b;
      RemoveCellAppend(a[1..], b, x, y);
    }
  }

  /** Filtering a list without duplicate cells leaves one without duplicate cells. */
  lemma {:induction false} RemoveCellUnique(visited: seq<VisitedEntry>, x: int, y: int)
    requires UniqueCells(visited)
    ensures UniqueCells(RemoveCell(visited, x, y))
  {
    if visited != [] {
      var tail := visited[1..];
      assert UniqueCells(tail) by {
        forall i, j | 0 <= i < j < |tail|
          ensures !(tail[i].x == tail[j].x && tail[i].y == tail[j].y)
        {
          assert tail[i] == visited[i + 1] && tail[j] == visited[j + 1];
        }
      }
      RemoveCellUnique(tail, x, y);
      var rest := RemoveCell(tail, x, y);
      if !(visited[0].x == x && visited[0].y == y) {
        var r := [visited[0]] + rest;
        forall i, j | 0 <= i < j < |r|
          ensures !(r[i].x == r[j].x && r[i].y == r[j].y)
        {
          if i == 0 {
            var e := rest[j - 1];
            assert r[j] == e && e in rest;
            var k :| 0 <= k < |tail| && tail[k] == e;
            assert visited[k + 1] == e && r[i] == visited[0];
          } else {
            assert r[i] == rest[i - 1] && r[j] == rest[j - 1];
          }
        }
      }
    }
  }

  /** The visited list after an image at entry's cell: the old entries for that cell replaced by entry, at the end. */
  function RecordVisit(visited: seq<VisitedEntry>, entry: VisitedEntry): (r: seq<VisitedEntry>)
    ensures |r| > 0 && r[|r| - 1] == entry
    ensures forall i :: 0 <= i < |r| - 1 ==> !(r[i].x == entry.x && r[i].y == entry.y)
    ensures forall e :: e in visited && !(e.x == entry.x && e.y == entry.y) ==> e in r
    ensures forall e :: e in r ==> e == entry || e in visited
    ensures IsVisited(r, entry.x, entry.y)
  {
    var kept := RemoveCell(visited, entry.x, entry.y);
    assert forall i :: 0 <= i < |kept| ==> (kept + [entry])[i] == kept[i];
    kept + [entry]
  }

  /** Recording a visit keeps the visited list free of duplicate cells. */
  lemma RecordVisitUnique(visited: seq<VisitedEntry>, entry: VisitedEntry)
    requires UniqueCells(visited)
    ensures UniqueCells(RecordVisit(visited, entry))
  {
    RemoveCellUnique(visited, entry.x, entry.y);
    var kept := RemoveCell(visited, entry.x, entry.y);
    var r := kept + [entry];
    forall i, j | 0 <= i < j < |r|
      ensures !(r[i].x == r[j].x && r[i].y == r[j].y)
    {
      if j == |r| - 1 {
        assert r[i] == kept[i];
        assert !IsVisited(kept, entry.x, entry.y);
      } else {
        assert r[i] == kept[i] && r[j] == kept[j];
      }
    }
  }

  // ---------------------------------------------------------------- exploration stack

  /**
    The stack after the image endpoint's loop: each candidate, in order, is appended
    when it is neither visited nor already on the (growing) stack.
  */
  function PushUnseen(stack: seq<Cell>, visited: seq<VisitedEntry>, candidates: seq<Cell>): (r: seq<Cell>)
    ensures |stack| <= |r| <= |stack| + |candidates|
    ensures r[..|stack|] == stack
    ensures forall i :: |stack| <= i < |r| ==> r[i] in candidates && !IsVisited(visited, r[i].x, r[i].y)
    decreases |candidates|
  {
    if candidates == [] then stack
    else
      var s := PushUnseen(stack, visited, candidates[..|candidates| - 1]);
      var p := candidates[|candidates| - 1];
      if !IsVisited(visited, p.x, p.y) && p !in s then s + [p] else s
  }

  /** Reference definition: the candidates, in order, that are neither visited nor on the given stack. */
  function Unseen(stack: seq<Cell>, visited: seq<VisitedEntry>, candidates: seq<Cell>): (r: seq<Cell>)
    ensures |r| <= |candidates|
    ensures (forall c :: c in candidates ==> !IsVisited(visited, c.x, c.y) && c !in stack) ==> r == candidates
    ensures forall c :: c in r <==> c in candidates && !IsVisited(visited, c.x, c.y) && c !in stack
    decreases |candidates|
  {
    if candidates == [] then []
    else
      var p := candidates[|candidates| - 1];
      var front := candidates[..|candidates| - 1];
      assert forall c :: c in candidates <==> c in front || c == p;
      Unseen(stack, visited, front) + (if !IsVisited(visited, p.x, p.y) && p !in stack then [p] else [])
  }

  /**
    Pushing distinct candidates appends exactly the unseen ones, in candidate order,
    and leaves the existing entries of the stack where they were.
  */
  lemma {:induction false} PushUnseenAppendsUnseen(stack: seq<Cell>, visited: seq<VisitedEntry>, candidates: seq<Cell>)
    requires NoDuplicates(candidates)
    ensures PushUnseen(stack, visited, candidates) == stack + Unseen(stack, visited, candidates)
    decreases |candidates|
  {
    if candidates != [] {
      var p := candidates[|candidates| - 1];
      var front := candidates[..|candidates| - 1];
      assert NoDuplicates(front) by {
        forall i, j | 0 <= i < j < |front| ensures front[i] != front[j] {
          assert front[i] == candidates[i] && front[j] == candidates[j];
        }
      }
      PushUnseenAppendsUnseen(stack, visited, front);
      assert p !in front by {
        forall i | 0 <= i < |front| ensures front[i] != p {
          assert front[i] == candidates[i];
        }
      }
      assert p !in Unseen(stack, visited, front);
    }
  }

  /** The image endpoint's loop never puts a cell on the stack twice. */
  lemma {:induction false} PushUnseenNoDuplicates(stack: seq<Cell>, visited: seq<VisitedEntry>, candidates: seq<Cell>)
    requires NoDuplicates(stack)
    ensures NoDuplicates(PushUnseen(stack, visited, candidates))
    decreases |candidates|
  {
    if candidates != [] {
      PushUnseenNoDuplicates(stack, visited, candidates[..|candidates| - 1]);
      var s := PushUnseen(stack, visited, candidates[..|candidates| - 1]);
      var p := candidates[|candidates| - 1];
      if !IsVisited(visited, p.x, p.y) && p !in s {
        var t := s + [p];
        forall i, j | 0 <= i < j < |t| ensures t[i] != t[j] {
          if j == |s| {
            assert t[i] == s[i];
          } else {
            assert t[i] == s[i] && t[j] == s[j];
          }
        }
      }
    }
  }

  /** Every candidate ends up visited or on the stack. */
  lemma {:induction false} PushUnseenCovers(stack: seq<Cell>, visited: seq<VisitedEntry>, candidates: seq<Cell>)
    ensures forall c :: c in stack ==> c in PushUnseen(stack, visited, candidates)
    ensures forall c :: c in candidates ==> c in PushUnseen(stack, visited, candidates) || IsVisited(visited, c.x, c.y)
    decreases |candidates|
  {
    if candidates != [] {
      var front := candidates[..|candidates| - 1];
      PushUnseenCovers(stack, visited, front);
      assert forall c :: c in candidates ==> c in front || c == candidates[|candidates| - 1];
    }
  }

  /** When every candidate is already visited or on the stack, nothing is pushed. */
  lemma {:induction false} PushUnseenNothingNew(stack: seq<Cell>, visited: seq<VisitedEntry>, candidates: seq<Cell>)
    requires forall c :: c in candidates ==> c in stack || IsVisited(visited, c.x, c.y)
    ensures PushUnseen(stack, visited, candidates) == stack
    decreases |candidates|
  {
    if candidates != [] {
      var front := candidates[..|candidates| - 1];
      assert forall c :: c in front ==> c in candidates;
      PushUnseenNothingNew(stack, visited, front);
    }
  }

  /** Pushing the same candidates twice against the same visited list adds nothing the second time. */
  lemma PushUnseenIdempotent(stack: seq<Cell>, visited: seq<VisitedEntry>, candidates: seq<Cell>)
    ensures PushUnseen(PushUnseen(stack, visited, candidates), visited, candidates) == PushUnseen(stack, visited, candidates)
  {
    PushUnseenCovers(stack, visited, candidates);
    PushUnseenNothingNew(PushUnseen(stack, visited, candidates), visited, candidates);
  }

  /**
    A second image at the same cell, with no move in between, leaves the stack as
    the first image left it, although the second image rewrites the visited list.
  */
  lemma SecondImageKeepsStack(stack: seq<Cell>, visited: seq<VisitedEntry>, first: VisitedEntry, second: VisitedEntry)
    requires first.x == second.x && first.y == second.y
    ensures
      var around := Neighbours(first.x, first.y);
      var afterFirst := RecordVisit(visited, first);
      var stackAfterFirst := PushUnseen(stack, afterFirst, around);
      PushUnseen(stackAfterFirst, RecordVisit(afterFirst, second), around) == stackAfterFirst
  {
    var around := Neighbours(first.x, first.y);
    var afterFirst := RecordVisit(visited, first);
    var afterSecond := RecordVisit(afterFirst, second);
    var stackAfterFirst := PushUnseen(stack, afterFirst, around);
    PushUnseenCovers(stack, afterFirst, around);
    forall c | c in around && IsVisited(afterFirst, c.x, c.y)
      ensures IsVisited(afterSecond, c.x, c.y)
    {
      var i :| 0 <= i < |afterFirst| && afterFirst[i].x == c.x && afterFirst[i].y == c.y;
      assert afterFirst[i] in afterFirst;
      var j :| 0 <= j < |afterSecond| && afterSecond[j] == afterFirst[i];
    }
    PushUnseenNothingNew(stackAfterFirst, afterSecond, around);
  }

  /** How many candidates are not visited: the image endpoint's "new_positions_added". */
  function CountUnvisited(candidates: seq<Cell>, visited: seq<VisitedEntry>): (n: nat)
    ensures n <= |candidates|
    ensures (forall c :: c in candidates ==> !IsVisited(visited, c.x, c.y)) ==> n == |candidates|
    ensures (forall c :: c in candidates ==> IsVisited(visited, c.x, c.y)) ==> n == 0
    decreases |candidates|
  {
    if candidates == [] then 0
    else
      var p := candidates[|candidates| - 1];
      var front := candidates[..|candidates| - 1];
      assert forall c :: c in front ==> c in candidates;
      CountUnvisited(front, visited) + (if IsVisited(visited, p.x, p.y) then 0 else 1)
  }

  /**
    The count reported by the image endpoint is at least the number of cells the
    endpoint actually pushed, and equal to it when no candidate was already on the stack.
  */
  lemma {:induction false} UnseenAtMostCounted(stack: seq<Cell>, visited: seq<VisitedEntry>, candidates: seq<Cell>)
    ensures |Unseen(stack, visited, candidates)| <= CountUnvisited(candidates, visited)
    ensures (forall c :: c in candidates ==> c !in stack) ==> |Unseen(stack, visited, candidates)| == CountUnvisited(candidates, visited)
    decreases |candidates|
  {
    if candidates != [] {
      var front := candidates[..|candidates| - 1];
      assert forall c :: c in front ==> c in candidates;
      UnseenAtMostCounted(stack, visited, front);
    }
  }

  // ---------------------------------------------------------------- the server

  /** The server's state: the robot record and the map record it loads and saves. */
  class ExplorationServer {
    var state: RobotRecord
    var mapData: MapRecord

    /** The stack holds no cell twice and the visited list no cell twice. */
    ghost predicate Valid()
      reads this
    {
      NoDuplicates(mapData.explorationStack) && UniqueCells(mapData.visitedPositions)
    }

    /** The records the endpoints read before anything has been saved. */
    constructor (now: int)
      ensures Valid()
      ensures state == DefaultRobot(now) && mapData == EmptyMap
    {
      state := DefaultRobot(now);
      mapData := EmptyMap;
    }

    /** The status endpoint: a pure read of both records. */
    method GetRobotStatus() returns (r: StatusReply)
      ensures r == RobotStatus(state, mapData)
    {
      r := RobotStatus(state, mapData);
    }

    /** The start endpoint: run, drop the gate, and seed an empty stack. */
    method StartExploration(now: int)
      requires Valid()
      modifies this
      ensures Valid()
      ensures state == old(state).(isRunning := true, waitingForImage := false, lastUpdate := now)
      ensures mapData.visitedPositions == old(mapData.visitedPositions)
      ensures mapData.explorationStack ==
                if old(mapData.explorationStack) == [] then InitialFrontier else old(mapData.explorationStack)
    {
      state := state.(isRunning := true, waitingForImage := false, lastUpdate := now);
      if mapData.explorationStack == [] {
        mapData := mapData.(explorationStack := InitialFrontier);
      }
    }

    /** The stop endpoint: clear both flags; the map is untouched. */
    method StopExploration(now: int)
      requires Valid()
      modifies this
      ensures Valid()
      ensures state == old(state).(isRunning := false, waitingForImage := false, lastUpdate := now)
      ensures mapData == old(mapData)
    {
      state := state.(isRunning := false, waitingForImage := false, lastUpdate := now);
    }

    /**
      The position endpoint: with both coordinates present, move and arm the gate,
      even when the position is the one already recorded.
    */
    method UpdatePosition(body: Option<PositionBody>, now: int) returns (r: Result<Action, Error>)
      requires Valid()
      modifies this
      ensures Valid()
      ensures mapData == old(mapData)
      ensures body.None? ==> r == Err(NoJsonBody) && state == old(state)
      ensures body.Some? && (body.value.x.None? || body.value.y.None?) ==>
                r == Err(MissingCoordinates) && state == old(state)
      ensures body.Some? && body.value.x.Some? && body.value.y.Some? ==>
                && r == Ok(TakeImage)
                && state == old(state).(currentX := body.value.x.value, currentY := body.value.y.value,
                                        waitingForImage := true, lastUpdate := now)
    {
      if body.None? {
        return Err(NoJsonBody);
      }
      var x, y := body.value.x, body.value.y;
      if x.None? || y.None? {
        return Err(MissingCoordinates);
      }
      state := state.(currentX := x.value, currentY := y.value, waitingForImage := true, lastUpdate := now);
      r := Ok(TakeImage);
    }

    /**
      The image endpoint, after the detector has classified the image: record the
      current cell as visited and push its unseen neighbours.  The gate is not checked.
      imageProvided is false only for a multipart "image" part with an empty file
      name; a request without such a part is read from its raw body, which is always
      taken as an image, even when empty.
    */
    method ProcessImage(imageProvided: bool, humanDetected: bool, imagePath: string, now: int)
      returns (r: Result<ImageReply, Error>)
      requires Valid()
      modifies this
      ensures Valid()
      ensures !imageProvided ==> r == Err(NoImage) && state == old(state) && mapData == old(mapData)
      ensures imageProvided ==>
                var x, y := old(state).currentX, old(state).currentY;
                var visited := RecordVisit(old(mapData).visitedPositions, VisitedEntry(x, y, humanDetected, imagePath, now));
                && mapData.visitedPositions == visited
                && mapData.explorationStack == PushUnseen(old(mapData).explorationStack, visited, Neighbours(x, y))
                && state == old(state).(waitingForImage := false, lastUpdate := now)
                && r == Ok(ImageReply(humanDetected, CountUnvisited(Neighbours(x, y), visited)))
    {
      if !imageProvided {
        return Err(NoImage);
      }
      var x, y := state.currentX, state.currentY;
      var visited := RecordVisit(mapData.visitedPositions, VisitedEntry(x, y, humanDetected, imagePath, now));
      RecordVisitUnique(mapData.visitedPositions, VisitedEntry(x, y, humanDetected, imagePath, now));
      var adjacent := Neighbours(x, y);
      var stack := mapData.explorationStack;
      for i := 0 to |adjacent|
        invariant stack == PushUnseen(mapData.explorationStack, visited, adjacent[..i])
      {
        var pos := adjacent[i];
        var alreadyVisited := IsVisited(visited, pos.x, pos.y);
        var alreadyInStack := pos in stack;
        if !alreadyVisited && !alreadyInStack {
          stack := stack + [pos];
        }
        assert adjacent[..i + 1][..i] == adjacent[..i];
      }
      assert adjacent[..|adjacent|] == adjacent;
      PushUnseenNoDuplicates(mapData.explorationStack, visited, adjacent);
      mapData := MapRecord(visited, stack);
      state := state.(waitingForImage := false, lastUpdate := now);
      r := Ok(ImageReply(humanDetected, CountUnvisited(adjacent, visited)));
    }

    /** The next-move endpoint: pop the top of the stack while running. */
    method GetNextMove() returns (r: Result<MoveReply, Error>)
      requires Valid()
      modifies this
      ensures Valid()
      ensures state == old(state) && mapData.visitedPositions == old(mapData.visitedPositions)
      ensures !state.isRunning ==> r == Err(NotRunning) && mapData == old(mapData)
      ensures state.isRunning && old(mapData.explorationStack) == [] ==>
                r == Ok(ExplorationComplete) && mapData == old(mapData)
      ensures state.isRunning && old(mapData.explorationStack) != [] ==>
                var oldStack := old(mapData.explorationStack);
                && r == Ok(NextMove(oldStack[|oldStack| - 1], |oldStack| - 1))
                && mapData.explorationStack == oldStack[..|oldStack| - 1]
    {
      if !state.isRunning {
        return Err(NotRunning);
      }
      var stack := mapData.explorationStack;
      if stack == [] {
        return Ok(ExplorationComplete);
      }
      var next := stack[|stack| - 1];
      mapData := mapData.(explorationStack := stack[..|stack| - 1]);
      r := Ok(NextMove(next, |mapData.explorationStack|));
    }

    /** The reset endpoint: both records back to their defaults. */
    method ResetAll(now: int)
      modifies this
      ensures Valid()
      ensures state == DefaultRobot(now) && mapData == EmptyMap
    {
      state := DefaultRobot(now);
      mapData := EmptyMap;
    }
  }
}
