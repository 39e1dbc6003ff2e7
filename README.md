# Game simulation core: spatial grid, state machines, box helpers

This project models the simulation logic of the browser game in `final_project`. It has three
parts.

- **`World`** (`world.dfy`) models the spatial hash grid `SpatialGrid`. The grid cuts the
  world's XZ rectangle into `dimensions.x` by `dimensions.y` cells. Every cell heads a doubly
  linked list of nodes, and each node points back to a client (the grid's record of an entity).
  - `newClient`/`_Insert` link a client into every cell of the inclusive index rectangle that
    its footprint covers, with the new node at the head of each list.
  - `FindNear` walks the lists of a query rectangle. It stamps each client with a fresh query
    id so that it returns each client once.
  - `UpdateClient` re-inserts a client whose rectangle changed.
  - `RemoveClient` unlinks the client's nodes.

  The model is a class:
  - The list heads sit in an `array2`.
  - The nodes sit in an arena map addressed by node ids.
  - `next`/`prev` are optional ids.
  - The loops of the source are `while` loops.

  The ghost state holds each cell's list as a sequence, and `Members(x, y)` gives the clients
  listed in cell `(x, y)`. Every operation is specified against that abstract value.
- **`Automata`** (`automata.dfy`) models `BasicFSA` and the three machines built on it
  (character, drone, enemy).
  - Each state's `update` is a pure decision: which `setState` calls it makes and in what
    order, the new jump latch, and the aggro timer.
  - `setState`, and the `update` that runs a decision, are a function on the machine's value
    (`SetStateSpec`, `Step`). The `BasicFSA` class's methods are proved equal to these
    functions.
  - The `Exit`/`Enter` hooks are recorded in a trace.
- **`Utils`** (`utils.dfy`) models `boxLimits` and `boxCollision` over exact reals.

## Model

| member | source | states |
|---|---|---|
| Utils.BoxLimits | final_project/utils.js:11-34 | six faces in the order right, left, front, back, bottom, top; each opposite pair is centred on the position's coordinate and lies the matching dimension apart, so it is ordered whenever that dimension is non-negative |
| Utils.IntervalsMeet | final_project/utils.js:39-41 | two closed non-empty intervals share a point exactly when each starts no later than the other ends (the one-axis test of `boxCollision`) |
| Utils.BoxCollisionIffSharePoint | final_project/utils.js:37-45 | for well-formed boxes the test holds exactly when box1, with its bottom moved by its y velocity, and box2 share a point |
| Utils.TouchingFacesCollide | final_project/utils.js:39-41 | boxes whose x faces only touch (box1.right == box2.left) collide, because the comparisons are inclusive |
| Utils.BoxCollisionSymmetric | final_project/utils.js:39-43 | with no vertical velocity on either box, swapping the arguments does not change the answer |
| Utils.OrderMattersWhenMoving | final_project/utils.js:40 | a box at rest and a box moving down onto it: the test says yes one way round and no the other, so symmetry needs both velocities zero |
| Utils.BoxCollisionOfLimits | final_project/utils.js:24-43 | for boxes built by `boxLimits` with box1 at rest vertically, the test is the centre-distance test: on each axis the centres are at most half the summed sizes apart |
| Automata.Name | final_project/automata.js:97-99 | the eleven `getName` methods; the name is `idle` exactly for the character's and the drone's idle states |
| Automata.IdleUpdate | final_project/automata.js:120-146 | idle makes at most one call, and none exactly when nothing moves, space is neither pressed nor latched and the character is not falling; a set latch stays set |
| Automata.WalkUpdate | final_project/automata.js:186-223 | walk makes at most one call, and none exactly when moving without shift on the ground with space neither pressed nor latched; a set latch stays set |
| Automata.RunUpdateAsWritten | final_project/automata.js:263-291 | run as written makes at most one call, never to walk, and none exactly when moving with shift on the ground with space neither pressed nor latched; a set latch stays set |
| Automata.RunUpdate | final_project/automata.js:263-291 | the corrected run state: it calls walk exactly when moving without shift on the ground with space neither pressed nor latched, and nothing exactly when shift is also held |
| Automata.JumpUpdate | final_project/automata.js:337-341 | no contract of its own; `Automata.JumpAlwaysFalls` states its behaviour |
| Automata.FallUpdate | final_project/automata.js:381-399 | fall makes at most one call, and none exactly while falling; on landing the latch is cleared |
| Automata.DroneIdleUpdate | final_project/automata.js:414-418 | no contract of its own; `Automata.DroneTransitions` states its behaviour |
| Automata.FireUpdate | final_project/automata.js:435-441 | fire makes at most one call, none exactly while the magazine is not empty and the button is down, and goes idle only with a non-empty magazine |
| Automata.EmptyUpdate | final_project/automata.js:460-464 | no contract of its own; `Automata.DroneTransitions` states its behaviour |
| Automata.WanderUpdate | final_project/automata.js:480-527 | wander only ever calls aggro, at most twice, and calls it exactly when the target is in range, in view, and either close or first on the ray |
| Automata.AggroUpdate | final_project/automata.js:546-597 | aggro stays aggro; it calls wander exactly at the timeout and shoot exactly when the target is within half the far range and not out of view within range; the timer grows by at most two intervals, or restarts from zero at the timeout |
| Automata.ShootUpdate | final_project/automata.js:614-629 | no contract of its own; `Automata.ShootToAggro` states its behaviour |
| Automata.Decide | final_project/automata.js:28-32 | the current state's update, with the run state as written, keeps its class, makes at most two `setState` calls, names only states its own machine registered, and leaves the jump latch alone outside the character machine |
| Automata.SetStateSpec | final_project/automata.js:13-26 | no-op when the current state already has the name; otherwise `Exit` of the old state first, then the registered state becomes current and its `Enter(prev)` runs; an unregistered name throws after the `Exit` and keeps the old state; hooks are only appended |
| Automata.RunCalls | final_project/automata.js:13-26 | a sequence of `setState` calls only appends hooks; no call leaves the machine as it was; when the first call throws, the run stops with exactly that call's effect; a run that throws names an unregistered state; a single call is exactly `setState` |
| Automata.Step | final_project/automata.js:28-32 | without a current state `update` changes nothing |
| Automata.RunCallsStaysInMachine | final_project/automata.js:13-26 | `setState` calls naming registered states never throw, keep a current state, keep it one of the machine's states and keep the old hooks as a prefix |
| Automata.StepStaysInMachine | final_project/automata.js:28-32 | an `update` of any of the three machines, with the run state as written, never throws, keeps the current state inside the machine, and only appends hooks |
| Automata.RegistryNamesMatch | final_project/automata.js:40-78 | every registered name maps to a state class of that name belonging to the same machine, so after a switch the name asked for is current |
| Automata.StartEntersInitial | final_project/automata.js:50 | starting a machine with its initial name enters that state with no `Exit` and no previous state |
| Automata.IdlePriorities | final_project/automata.js:120-146 | idle: movement runs (with shift) or walks; else a fresh space press latches and jumps; else a latched space or falling latches and falls; else idle stays with nothing called |
| Automata.JumpAlwaysFalls | final_project/automata.js:337-341 | jump always switches to fall, exiting jump before entering fall, keys untouched |
| Automata.FallLands | final_project/automata.js:381-399 | fall stays with keys untouched while falling; on landing it clears the latch and goes to run, walk or idle by the keys |
| Automata.JumpNeedsFreshPress | final_project/automata.js:120-291 | a character reaches jump only from a fresh space press with the latch clear, and the latch is then set |
| Automata.LatchReleasedOnlyOnLanding | final_project/automata.js:381-399 | the jump latch is cleared only by the fall state when the character is no longer falling |
| Automata.WalkRunFollowShift | final_project/automata.js:186-291 | on the ground and moving, walk follows the shift key as written; with `setState('walk')` in place of line 283, run follows it too, and releasing shift exits run and enters walk from run |
| Automata.RunAsWrittenNeverWalks | final_project/automata.js:263-291 | the run state as written never asks for walk and the machine's step from run never reaches walk; moving without shift calls `setState('run')`, which leaves the machine, hooks and keys as they were |
| Automata.NeverWalkFromRun | final_project/automata.js:158-172 | as written, no step of the character machine calls walk's `Enter` with run as the previous state, the one call whose animation code reads the undefined `ration` (line 168) |
| Automata.DroneTransitions | final_project/automata.js:414-464 | drone idle fires on a left click; fire goes to empty on an empty magazine before going idle on release; empty goes idle once the magazine is not empty; fire is only reached with the button down |
| Automata.WanderToAggro | final_project/automata.js:480-527 | wander switches to aggro, with a fresh timer, exactly when the target is in range, in view, and either close or first on the ray; otherwise nothing happens |
| Automata.AggroTimeout | final_project/automata.js:546-575 | a timer at the maximum sends aggro to wander; because the update does not return, a target in view within half the far range then sends it on to shoot |
| Automata.AggroToShoot | final_project/automata.js:546-575 | before the timeout aggro shoots exactly when the target is in view within half the far range, and otherwise stays aggro |
| Automata.AggroTimer | final_project/automata.js:546-597 | while aggro lasts, its timer stands still exactly when the target is in range, in view and not blocked; otherwise it grows by one or two elapsed intervals |
| Automata.ShootToAggro | final_project/automata.js:614-629 | shoot returns to a fresh aggro exactly when the target is beyond half the far range |
| Automata.BasicFSA.CharacterFSA | final_project/automata.js:40-51 | registers idle, walk, run, jump and fall, and starts in idle with one `Enter` |
| Automata.BasicFSA.DroneFSA | final_project/automata.js:56-65 | registers idle, fire and empty, and starts in idle with one `Enter` |
| Automata.BasicFSA.EnemyFSA | final_project/automata.js:69-78 | registers wander, aggro and shoot, and starts in wander with one `Enter` |
| Automata.BasicFSA.AddState | final_project/automata.js:34-36 | registers or replaces one name and changes nothing else |
| Automata.BasicFSA.SetState | final_project/automata.js:13-26 | the object's new state and hooks, and the exception, are those of `SetStateSpec`; the registry is kept; the same name leaves the object unchanged |
| Automata.BasicFSA.Update | final_project/automata.js:28-32 | the new state, hooks, jump latch and exception are those of `Step`; nothing changes without a current state |
| World.AxisIndex | final_project/world.js:69-89 | one axis of `_GetCellIndex`: an index within the grid, 0 below the bounds, the last cell at or above them, and inside them the cell whose edges enclose the coordinate |
| World.AxisIndexMonotone | final_project/world.js:70-86 | a larger coordinate never gets a smaller index |
| World.AxisRangesMeet | final_project/world.js:70-86 | overlapping coordinate intervals have overlapping index ranges |
| World.SpatialGrid.GetCellIndex | final_project/world.js:69-89 | both indices lie in the grid, clamp at the bounds and otherwise name the enclosing cell |
| World.SpatialGrid.Footprint | final_project/world.js:34-37 | the cells of the lower and upper corners of a footprint lie in the grid |
| World.SpatialGrid.constructor | final_project/world.js:3-10 | every cell's list is empty, no client is inserted, and the query counter starts at 0 |
| World.SpatialGrid.NewClient | final_project/world.js:12-30 | an entity without `getPosition` or `getDimensions` is refused with the grid unchanged; otherwise a fresh client with stamp -1 is inserted over its footprint and returned |
| World.SpatialGrid.Insert | final_project/world.js:32-67 | the client records its footprint's rectangle; every cell of the rectangle gains the client at the head of its list; no other cell changes |
| World.SpatialGrid.PushRect | final_project/world.js:41-61 | one fresh node of the client heads each cell of the rectangle, column by column, and the node table has one row per column and one node per cell |
| World.SpatialGrid.PushColumn | final_project/world.js:45-60 | one fresh node of the client heads each cell from `ylo` to `yhi` of the column |
| World.SpatialGrid.PushFront | final_project/world.js:47-59 | a fresh node becomes the head of one cell's list, the list stays linked, and no other list or node's client changes |
| World.PushFrontLinked | final_project/world.js:53-59 | the new head's `next` is the old head and the old head's `prev` is the new node, so the list stays doubly linked |
| World.InsertIndexed | final_project/world.js:41-65 | after inserting, every client, the new one included, has its own node in each cell of its rectangle and every listed node is such a node |
| World.SpatialGrid.MembersIndexed | final_project/world.js:32-67 | a cell lists exactly the inserted clients whose rectangle holds the cell, each once |
| World.SpatialGrid.FindNear | final_project/world.js:91-116 | the query counter grows by one; the grid is unchanged; the result is every client listed in the query rectangle, once each, in the order first met; the clients found carry the new stamp and the others keep theirs; every inserted client whose footprint overlaps the query box is found |
| World.SpatialGrid.FootprintsMeet | final_project/world.js:34-37 | two footprints that overlap as coordinate boxes get cell rectangles that share a cell |
| World.SpatialGrid.NearCovers | final_project/world.js:93-97 | a query result that holds every client whose rectangle meets the query's cell rectangle holds every client whose footprint overlaps the query box (broad-phase soundness) |
| World.ScanFound | final_project/world.js:91-116 | the result of a query holds no repeats and is exactly the inserted clients whose rectangle shares a cell with the query rectangle |
| World.ScanMeets | final_project/world.js:101-113 | a client is met walking the query rectangle exactly when its own rectangle shares a cell with it |
| World.ScannedMeets | final_project/world.js:101-113 | a client met walking the query rectangle is inserted and its rectangle shares a cell with the query rectangle |
| World.MeetsScanned | final_project/world.js:101-113 | an inserted client whose rectangle shares a cell with the query rectangle is met walking it |
| World.ScanRect | final_project/world.js:101-114 | the column loop of `FindNear`: the clients of the rectangle's cells, de-duplicated in order of first appearance, all stamped with the query id |
| World.ScanColumn | final_project/world.js:102-113 | the row loop of `FindNear`: the clients found so far followed by one column's cells, de-duplicated, all stamped |
| World.ScanList | final_project/world.js:103-112 | the list walk of `FindNear`: the clients found so far followed by one cell's clients, de-duplicated; exactly the found clients carry the query stamp |
| World.DedupSpec | final_project/world.js:105-111 | de-duplicating keeps every client and repeats none |
| World.SpatialGrid.UpdateClient | final_project/world.js:118-137 | an unchanged rectangle leaves the lists and the registry as they were; otherwise the client leaves every cell and heads each cell of its new rectangle |
| World.SpatialGrid.Reinsert | final_project/world.js:134-135 | removing and then inserting again: the client is listed at the head of exactly the cells of its new rectangle, and other clients keep their order |
| World.SpatialGrid.RemoveClient | final_project/world.js:139-165 | every cell lists the same clients in the same order less the removed one; the client's cells are cleared and it is no longer inserted |
| World.SpatialGrid.UnlinkRect | final_project/world.js:143-161 | the client's node is erased from each cell of its rectangle, column by column, and no other list changes |
| World.SpatialGrid.UnlinkColumn | final_project/world.js:144-160 | the client's node is erased from each cell of one column of its rectangle |
| World.SpatialGrid.Unlink | final_project/world.js:147-159 | one node is erased from its cell's list, the list stays linked, the head moves on when the node was the head, and no node changes client |
| World.UnlinkLinked | final_project/world.js:149-155 | bypassing a node by its neighbours' links leaves the rest of the list doubly linked in the same order |
| World.UnlinkHead | final_project/world.js:157-159 | the new head is the removed node's `next` when it had no `prev`, and the old head otherwise |
| World.RemoveIndexed | final_project/world.js:143-164 | after removing, every remaining client still has its own node in each cell of its rectangle and every listed node is such a node |
| World.ClientsOfErase | final_project/world.js:147-159 | erasing the client's only node from a list drops exactly that client from the list's clients, keeping the order |

## Left out

- Rendering and animation are not modelled. This covers the animation cross-fades and mesh colours in every state's `Enter`/`Exit`. The model records each hook call as an entry of a trace.
- Coordinates, distances and times are exact reals. Floating-point rounding is not modelled.
- The enemy's view-cone test (`angleTo` against `_fov`) is an input flag, and so is its ray cast (`Raycaster.intersectObjects` over the hitboxes `FindNear` returns). The same goes for the drone's magazine and the character's `falling` flag, which controller code outside this model maintains.
- The DOM listeners that set the key flags and the mouse button are not modelled. Their values arrive as inputs.
- `SpatialGrid` nodes are entries of an id-addressed arena rather than separate heap objects. A client's `_cells` is an optional record rather than three fields nulled one by one.
- World.SpatialGrid.constructor: this requires a proper bounds rectangle (min below max on both axes) and at least one cell per axis. With degenerate bounds `_GetCellIndex` divides by zero. Every other operation keeps this as part of the grid's invariant.
- World.SpatialGrid.UpdateClient: this requires a client that is currently inserted. On a removed client the source fails with a TypeError on its nulled `_cells`.
- World.SpatialGrid.Reinsert: this requires a client that is currently inserted. On a removed client the source fails with a TypeError on its nulled `_cells`.
- World.SpatialGrid.RemoveClient: this requires a client that is currently inserted. On a removed client the source fails with a TypeError on its nulled `_cells`.
- World.SpatialGrid.Insert: this requires a client that is not yet inserted. `newClient` always passes one.
- World.SpatialGrid.FindNear: the result is stated against the lists before the call. The grid's lists do not change, but stamps are written while the walk goes on.
- World.SpatialGrid.FindNear: the query counter is an unbounded integer. JavaScript's number would lose precision after 2^53 queries.
- World.AxisIndex: an interior coordinate at fraction u of the bounds maps to floor(u·cells), clamped to the grid (`final_project/world.js:77`). A value on a cell edge therefore lands in the cell above it.
- Automata.BasicFSA.SetState: an exception is returned as a `thrown` flag instead of unwinding the caller.
- Automata.BasicFSA.Update: an exception is returned as a `thrown` flag. The state logic of the three machines never throws (`Automata.StepStaysInMachine`). The animation code of the hooks is not modelled. Walk's `Enter` reads the undefined `ration` when entered from run (`final_project/automata.js:168`), and as written that call never happens (`Automata.NeverWalkFromRun`).
- World.SpatialGrid.NewClient: the source throws an `Error` for an entity without `getPosition` or `getDimensions` (`final_project/world.js:14-16`). The model returns `None` and leaves the grid unchanged.
- Automata.AggroTimer: this requires a positive elapsed time. With a zero or negative interval, "stands still" cannot be told apart from growth.
- Utils.BoxCollisionSymmetric: this requires zero vertical velocity on both boxes, not only box1. Swapping the arguments moves box2's bottom by its own velocity, and `Utils.OrderMattersWhenMoving` gives boxes for which the swapped test differs.

## Findings

| source | as written | input that shows it | evidently intended | confidence | as-written member | corrected member |
|---|---|---|---|---|---|---|
| final_project/automata.js:283 | in the run state, a movement key without shift calls `setState('run')`, which is a no-op, so the character keeps running | run state, `w` held, shift released, space not pressed, latch clear, not falling: the machine stays in run | `setState('walk')`, mirroring the walk state's switch to run when shift is pressed (`final_project/automata.js:213`); walk's `Enter` would then also need `ratio` in place of `ration` (`final_project/automata.js:168`) | not executed | Automata.RunAsWrittenNeverWalks | Automata.WalkRunFollowShift |
