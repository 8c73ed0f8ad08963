# Exploration coordination for a grid-exploring robot

This project models the robot explorer's four cooperating pieces of logic.

- **Coordinator** (`coordinator.dfy`, from `app2.py`) is the server that drives a depth-first exploration of an integer grid. It holds a robot record (current cell, `is_running`, the `waiting_for_image` gate, `last_update`). It also holds a map record: `visited_positions`, one entry per photographed cell with its human-detection result, and `exploration_stack`, a LIFO list of cells still to visit. Each HTTP endpoint is one method of the class `ExplorationServer` that reassigns these two record-valued fields. The status endpoint is the pure function `RobotStatus`. The loop that pushes unseen neighbours is specified by `PushUnseen` and by an independent reference definition, `Unseen`.
- **Firmware** (`firmware.dfy`, from `ArduinoCode/8266.cpp`) is the movement controller. The class `Robot` holds its globals. It models the decision taken on a status reply, the one-cell step towards the target (X before Y), the right-only turning loop and the obstacle threshold.
- **Protocol** (`protocol.dfy`) connects the two: it states what the firmware decides when it reads the server's status reply. `ParseStatus` is the JSON hand-over between them: the identity on the five fields the firmware reads. The firmware's readings of an absent key (false) and of a null `next_move` (no move) are built into the two reply types, which carry a boolean and an `Option` for them.
- **Grid** (`grid.dfy`, from `static/js/grid.js`) builds the map page's display grid, its human-sighting images and the bounding box of the known cells.
- **LegacyServer** (`legacy.dfy`, from `app.py`) is the older server. It keeps a map list without duplicate coordinates and an append-only detection log.

`common.dfy` holds the shared `Option`, `Result`, `Cell` and `NoDuplicates`.

The model follows the code as written:

- Stopping only clears `is_running` and the image gate; nothing else records that a stop happened.
- An image upload is processed whether or not an image is awaited.
- A position report re-arms the image gate even when the position is unchanged.
- Nothing keeps the stack and the visited list disjoint, so that is not claimed.

The invariant that is claimed is that neither the stack nor the visited list ever holds a cell twice. `ExplorationServer.Valid()` holds after every endpoint.

## Model

| member | source | states |
|---|---|---|
| `Coordinator.ExplorationServer.constructor` | app2.py:28-48 | Before anything is saved, the robot is at (0,0), stopped, not waiting, and both lists are empty. |
| `Coordinator.RobotStatus` | app2.py:66-88 | `needs_image` holds iff running and the current cell is not visited. `next_move` is offered iff running, visited, not waiting and the stack is non-empty; it is then the top of the stack. `exploration_complete` holds iff the same conditions hold with an empty stack. It never asks for an image and a move at once, and a stopped robot gets none of the three. |
| `Coordinator.ExplorationServer.GetRobotStatus` | app2.py:60-90 | Returns `RobotStatus` of the two records and changes nothing (no `modifies`). |
| `Coordinator.ExplorationServer.StartExploration` | app2.py:92-113 | Sets running and clears the gate. An empty stack becomes exactly [(1,0),(0,1),(-1,0),(0,-1)]; a non-empty one and the visited list stay unchanged. No duplicates are kept. |
| `Coordinator.ExplorationServer.StopExploration` | app2.py:115-122 | Clears running and the gate. Position, visited list and stack are unchanged. |
| `Coordinator.ExplorationServer.UpdatePosition` | app2.py:124-140 | With x or y missing (or no JSON body) it returns an error and changes nothing. Otherwise the current cell becomes (x,y) and the gate is armed, even for an unchanged position. Running flag and map are unchanged. |
| `Coordinator.ExplorationServer.ProcessImage` | app2.py:142-223 | `imageProvided` is false only for a multipart image part with an empty file name (a request without one is read from its raw body). In that case it returns an error and changes nothing. Otherwise the visited list becomes `RecordVisit` and the stack becomes `PushUnseen` over the four neighbours. The gate is cleared, running is kept, and the reply's count is `CountUnvisited` of the neighbours. Both no-duplicate invariants are kept. |
| `Coordinator.ExplorationServer.GetNextMove` | app2.py:225-245 | Stopped: error, nothing changes. Empty stack: completion, nothing changes. Otherwise it returns and removes the last element, with remaining = old length - 1. |
| `Coordinator.ExplorationServer.ResetAll` | app2.py:266-286 | Both records return to their defaults. |
| `Coordinator.Neighbours` | app2.py:190-195 | The four cells at distance one, distinct, never the cell itself. |
| `Coordinator.RemoveCell` | app2.py:176-179 | Removes exactly the entries at the cell and keeps every other entry. |
| `Coordinator.RemoveCellAppend` | app2.py:176-179 | The filter distributes over concatenation, so the kept entries keep their relative order. |
| `Coordinator.RemoveCellUnique` | app2.py:176-179 | Filtering keeps a list free of duplicate cells. |
| `Coordinator.RecordVisit` | app2.py:175-187 | Exactly one entry is left for the current cell: the new one, last. Every other old entry is kept, and nothing else is added. |
| `Coordinator.RecordVisitUnique` | app2.py:175-187 | Recording a visit keeps the visited list free of duplicate cells. |
| `Coordinator.Unseen` | app2.py:197-209 | Reference definition: a cell is listed iff it is a candidate that is neither visited nor on the stack. If all candidates qualify, all are listed. |
| `Coordinator.PushUnseen` | app2.py:197-209 | The loop keeps the old stack as a prefix and adds at most one cell per candidate, each of them an unvisited candidate. |
| `Coordinator.PushUnseenAppendsUnseen` | app2.py:189-209 | For distinct candidates, the loop appends exactly `Unseen`, in candidate order, after the untouched old stack. |
| `Coordinator.PushUnseenNoDuplicates` | app2.py:197-209 | The loop never puts a cell on the stack twice. |
| `Coordinator.PushUnseenCovers` | app2.py:197-209 | Old stack entries survive, and every candidate ends up on the stack or visited. |
| `Coordinator.PushUnseenNothingNew` | app2.py:197-209 | If every candidate is already visited or stacked, the stack is unchanged. |
| `Coordinator.PushUnseenIdempotent` | app2.py:189-209 | Pushing the same neighbours twice against the same visited list gives the same stack as pushing once. |
| `Coordinator.SecondImageKeepsStack` | app2.py:142-223 | A second image at the same cell, with no move in between, leaves the stack exactly as the first image left it, although it rewrites the visited list. |
| `Coordinator.CountUnvisited` | app2.py:220-222 | At most the number of candidates. It equals that number when none is visited, and is 0 when all are. |
| `Coordinator.UnseenAtMostCounted` | app2.py:197-222 | The reported `new_positions_added` is at least the number of cells actually pushed. It is equal when no neighbour was already on the stack. |
| `Firmware.Decide` | ArduinoCode/8266.cpp:263-296 | Priority order: not running gives EXPLORATION_COMPLETE. Otherwise `needs_image` or `waiting_for_image` gives WAITING_FOR_IMAGE. Otherwise a `next_move` gives MOVING_TO_TARGET with that target. Otherwise `exploration_complete` gives EXPLORATION_COMPLETE, and anything else gives CHECKING_STATUS. A target is set iff moving, and the result is never ERROR_STATE. |
| `Firmware.Robot.CheckRobotStatus` | ArduinoCode/8266.cpp:246-297 | A failed request or parse leaves state and target unchanged. Otherwise the state is the decision and the target changes only when moving. Position and facing are never touched. |
| `Firmware.TurnRight` | ArduinoCode/8266.cpp:351 | One right turn is `(facing + 1) % 4`. |
| `Firmware.RightTurns` | ArduinoCode/8266.cpp:348-358 | The turn count is at most 3, and 0 iff already facing the target. |
| `Firmware.RightTurnCounts` | ArduinoCode/8266.cpp:349-351 | Each right turn lowers the remaining count by one, so the loop ends. |
| `Firmware.Robot.TurnToDirection` | ArduinoCode/8266.cpp:348-358 | Ends facing the target after exactly `RightTurns` right turns (at most 3). |
| `Firmware.Heading` | ArduinoCode/8266.cpp:303-322 | The cell ahead in the chosen heading is exactly one step nearer the target, and while X differs that step keeps Y (X before Y); only one direction meets both. |
| `Firmware.HeadingUnique` | ArduinoCode/8266.cpp:303-322 | Any direction whose cell ahead is one step nearer the target, and keeps Y while X differs, is the heading the firmware chooses. |
| `Firmware.StepTowards` | ArduinoCode/8266.cpp:303-334 | A step lowers the Manhattan distance by exactly 1 unless the robot is at the target. While X differs only X changes, by one towards the target. Y changes only once X agrees. |
| `Firmware.StepIsAhead` | ArduinoCode/8266.cpp:307-327 | The counted step is the cell ahead in the direction the robot turned to. |
| `Firmware.WalkReachesTarget` | ArduinoCode/8266.cpp:299-346 | Unblocked calls reach the target after exactly the Manhattan distance. |
| `Firmware.WalkCorrectsXFirst` | ArduinoCode/8266.cpp:306-320 | The path's corner is (targetX, startY): the first abs(deltaX) steps correct X only. |
| `Firmware.ClearAhead` | ArduinoCode/8266.cpp:369-386 | `canMoveForward` over `getDistance`'s no-echo substitution (0 reads as 999): the robot may step iff the raw reading is 0 or above 15 cm. |
| `Firmware.Robot.constructor` | ArduinoCode/8266.cpp:20-46 | Starts at (0,0) with target (0,0), facing EAST, in CHECKING_STATUS. |
| `Firmware.Robot.MoveToTarget` | ArduinoCode/8266.cpp:299-346 | At the target, it reports and goes to CHECKING_STATUS if the report was sent, ERROR_STATE otherwise. Blocked: it turns but does not move, and goes to CHECKING_STATUS. Otherwise it faces `Heading`, moves to `StepTowards`, and reports on arrival. The target never changes. |
| `Protocol.FirmwareFollowsServer` | app2.py:66-88 | On a status reply the firmware never stays in CHECKING_STATUS. A stopped server gives complete, and running but not ready gives wait. Ready with a stack moves to the top of the stack; ready with an empty stack gives complete. |
| `Grid.BaseName` | static/js/grid.js:17 | The image name has no '/'. |
| `Grid.BaseNameIsLastSegment` | static/js/grid.js:17 | The name is the path's final segment, preceded by a '/' if anything precedes it. |
| `Grid.LastHumanImage` | static/js/grid.js:13-18 | A key's image, when present, contains no '/'. |
| `Grid.LastHumanWins` | static/js/grid.js:13-18 | The image at a key is that of the last human detection there; later detections overwrite earlier ones. |
| `Grid.NoHumanNoImage` | static/js/grid.js:13-18 | A key with no human detection has no image. |
| `Grid.NonHumanIgnored` | static/js/grid.js:15 | A non-human detection, wherever it stands, changes no image and no cell. |
| `Grid.GetBounds` | static/js/grid.js:24-34 | No points gives the empty box (±Infinity). Otherwise every point lies inside the box and each of the four bounds is attained. |
| `Grid.BoundsOfKnownPoints` | static/js/grid.js:21-33 | The bounds of the de-duplicated key set are the bounds of the map points. |
| `Grid.BuildGrid` | static/js/grid.js:2-22 | Every map point's key is in the grid. Grid keys are exactly the map keys plus the human-detection keys. A cell is 'human' iff it has an image, else 'visited'. Images are exactly `LastHumanImage` and contain no '/'. Bounds come from the map points alone, and each bound is attained. |
| `LegacyServer.AddIfAbsent` | app.py:50-53 | The old entries are kept, untouched and in order. At most one entry is added, and only if (x,y) was absent. Afterwards (x,y) is present and no other coordinate was added. No duplicates are kept. |
| `LegacyServer.MapStore.constructor` | app.py:16-23 | Both lists start empty. |
| `LegacyServer.MapStore.Upload` | app.py:33-64 | No image, or a missing x/y, gives an error and neither list changes. Otherwise the map becomes `AddIfAbsent` and exactly one record is appended to the unchanged log. |
| `LegacyServer.MapStore.Position` | app.py:78-95 | No body, or a missing x/y, gives an error and the map is unchanged. Otherwise the map becomes `AddIfAbsent`. The detection log is never touched. |

## Left out

- Persistence: the JSON files, their load and save, and the defaults used for a missing or corrupt file (app2.py:15-26, app.py:16-27). The records are object fields, and the constructors hold the defaults.
- Concurrency: the two ESP clients call the handlers without any lock. Each endpoint is modelled as one atomic sequential step.
- Image handling: image saving, uuid file names and the detectors (detector/model.py) are not modelled. The detection result is an input: a boolean in the coordinator, and a value of an open type in the legacy server.
- Clocks: `time.time()` is not modelled. Each endpoint takes one `now` input.
- Coordinator.ExplorationServer.ProcessImage: uses one `now` for the entry's timestamp and for `last_update`, which the code reads from two separate `time.time()` calls.
- Coordinates: they are modelled as integers. A JSON body carrying a non-integer, string or null coordinate is not modelled. In particular, app.py's position endpoint accepts an explicit null because it only checks that the keys are present.
- Detection.human: a boolean that stands for JavaScript truthiness of the record's `human` field (static/js/grid.js:15). The records written by app.py store the detector's result object there (app.py:47, 59), and any object is truthy, so with that server every detection is drawn as a human sighting.
- Coordinator.ExplorationServer.ProcessImage: an image request without a multipart image part is read from its raw body, which is always accepted (app2.py:146-155). An empty raw body is saved and recorded as a visit with no human detected, because the detector reports no human for an image it cannot load (detector/model.py:80-81, 229-231).
- Grid keys: a key is the string "x,y", modelled as the pair itself. Number-to-string formatting and parsing back with `Number` are not modelled.
- Read-only endpoints: the map, robot-data and image-serving endpoints (app2.py:249-262, app.py:66-76) are not modelled. They only return stored data.
- Firmware I/O: WiFi and HTTP retries, motor pin writes, delays, `setup`/`loop` scheduling, the error-state recovery and `getDistance`'s pulse-to-centimetre conversion are not modelled. The sensor is the integer reading it returns, and "report sent" is an input.
- Firmware.Robot.MoveToTarget: coordinates are unbounded integers. The 32-bit wrap-around of the C `int` counters is not modelled.
- Camera firmware (ArduinoCode/camera.cpp): it captures iff running and an image is needed. ArduinoCode/camera.cpp is not part of this model.
- Termination of exploration, and disjointness of stack and visited list: the code does not maintain them. Start seeds cells without checking the visited list, and an upload never removes the current cell from the stack. They are not claimed.
- The other front-end scripts (render, ui, main, api and the concatenated test copy) only deal with the DOM and fetching, and are not modelled.
