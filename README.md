# llm-rpg grid engine in Dafny

This project models the deterministic core of llm-rpg, a small grid-world game. In the game, non-player characters (NPCs) walk an 80 × 60 grid. Each NPC has a brain that picks a target and plans a path with A* search. A language model proposes actions, a validator checks them, and the model is shown a text context.

The model covers five pieces:

- **`grid.dfy` (module `Grid`)**
  - The screen constants: 800 × 600 pixels with 10-pixel cells, so 80 columns and 60 rows.
  - Grid cells and the 4-connected neighbourhood.
  - A proof that the grid has 4800 cells.
- **`pathfinding.dfy` (module `Pathfinding`)**
  - `a_star_pathfinding` as imperative code.
  - Nodes are heap objects. Their `g`, `h`, `f` and `parent` change in place when a cheaper way into an open node is found.
  - The open and closed lists are sequences of nodes, and the path is rebuilt by walking parent pointers.
  - Proved:
    - a returned path is a 4-connected route from the start to the target through in-bounds, wall-free, NPC-free cells;
    - `None` is returned exactly when no such route exists;
    - the open list never holds two nodes for one cell;
    - no cell is expanded twice, so for a start on the grid the loop runs at most 4800 times (4801 for a start off the grid).
- **`game_map.dfy` (module `WorldMap`)**
  - `Location` as a class.
  - Inclusive point containment.
  - The checked append of sub-locations. It either raises `ValueError` with the list untouched, or appends.
- **`agents.dfy` (module `Agents`)**
  - `NPC` and `Brain` as classes, the shared NPC registry, and `Memory`.
  - `NPC.move` is split into its phases: arrival check, replan on a blocked next cell, ensure-a-plan, and one step.
  - Random choices are inputs: `coin` for the 50% draw, `pick` for the NPC drawn, and `point` for the point a location choice produced.
  - Proved:
    - each phase's effect on position, target and path;
    - safety: starting from a plan that fits the NPC's cell, one tick leaves the NPC in place or moves it to a walkable neighbour, and the remaining plan still fits.
- **`llm.py` logic, in `llm.dfy` (module `Llm`)**
  - `check_valid_args` as a function, with Python's `str.split` modelled and proved to round-trip with `join`.
  - The queue, paused-action, recent-action and log blocks of `get_context`. The queue, recent-action and log blocks are loop methods proved equal to recursive definitions; the paused-action block has no loop and is a function. The log block keeps only the last three entries.

Source behaviour the model keeps:

- An A* path includes the start cell.
  - `move` drops it only after a "target moved" replan (llm-rpg/npc.py:45-46).
  - After choosing a new target, or after a blocked-cell replan, the first step is onto the NPC's own cell.
  - `FitsFrom` allows this.
- A failed "target moved" replan makes `self.brain.path.pop(0)` fail on `None` (llm-rpg/npc.py:46). `Move` reports this as the `PopOnNone` outcome.

## Model

| member | source | states |
|---|---|---|
| Grid.Neighbours | llm-rpg/pathfinding.py:47-48 | The move list yields four distinct cells. A cell is among them exactly when it is one 4-connected step away. |
| Grid.AdjacentIsUnitStep | llm-rpg/pathfinding.py:47-48 | Two adjacent cells differ by exactly 1 in exactly one coordinate. |
| Grid.GridCellCount | llm-rpg/pathfinding.py:50-53 | The in-range cells number `SCREEN_WIDTH // GRID_SIZE * SCREEN_HEIGHT // GRID_SIZE` = 80 · 60 = 4800. |
| Pathfinding.NpcPositions | llm-rpg/pathfinding.py:24-27 | The blocked set is exactly the registered NPC cells other than the searching NPC's own cell and, for an NPC target, other than the target's cell. |
| Pathfinding.FirstMinF | llm-rpg/pathfinding.py:31 | The chosen open node has least `f`. Every node before it has strictly larger `f`, as a stable sort picks it. |
| Pathfinding.Find | llm-rpg/pathfinding.py:73 | Returns the first open node on the child's cell, or `None` exactly when no open node is on that cell. |
| Pathfinding.PassableOnlyMembers | llm-rpg/pathfinding.py:50-57 | The filtered neighbour list holds exactly the neighbours that are in range, not walls and not NPC cells. |
| Pathfinding.Node.constructor | llm-rpg/pathfinding.py:5-11 | A new node sits on the given cell with `g`, `h` and `f` zero and no parent. |
| Pathfinding.Successors | llm-rpg/pathfinding.py:46-62 | The children's cells are exactly the passable neighbours, in move-list order. Each child is a new node whose parent is the expanded node. |
| Pathfinding.LowerCost | llm-rpg/pathfinding.py:75-81 | The existing open node takes the child's `g`, `h`, `f` and parent only when the child's `g` is strictly smaller; otherwise it is untouched. The search invariant is kept. |
| Pathfinding.AddOrImprove | llm-rpg/pathfinding.py:72-83 | A child on a cell not yet open is appended with nothing else changed. Otherwise the list keeps its nodes, and the first open node on that cell takes the child's `g`, `h`, `f` and parent exactly when its old `g` is strictly larger, and is otherwise unchanged. Open nodes on other cells never change. Either way the invariant holds and the child's cell becomes open. |
| Pathfinding.Relax | llm-rpg/pathfinding.py:65-83 | A child on a closed cell changes nothing. Otherwise it gets `g = parent.g + 1`, the squared-distance `h` and `f = g + h`; on a cell not yet open it is appended, and on an open cell the open node takes its `g`, `h`, `f` and parent exactly when the open node's old `g` is strictly larger. Open nodes on other cells never change, and the open list never holds two nodes for one cell. |
| Pathfinding.Price | llm-rpg/pathfinding.py:68-70 | The child's `g` is its parent's plus one, `h` is the squared distance to the target and `f = g + h`; its parent is kept and the invariant of the lists still holds. |
| Pathfinding.MergeChildren | llm-rpg/pathfinding.py:64-83 | After the child loop, every passable neighbour of the expanded cell is open or closed. The invariant holds, and no open cell is lost. |
| Pathfinding.Expand | llm-rpg/pathfinding.py:46-83 | One expansion keeps the invariant and leaves every passable neighbour of the expanded cell open or closed. |
| Pathfinding.PopKeepsInv | llm-rpg/pathfinding.py:31-34 | Moving the chosen node from the open list to the closed list removes exactly its cell from the open cells, adds it to the closed cells, and keeps the invariant. |
| Pathfinding.SearchStep | llm-rpg/pathfinding.py:29-83 | One turn closes the first open node of least `f` (index `FirstMinF` of the open list), a cell not closed before, and stops exactly when that cell is the target; on stopping, the open list is the old one without that node. |
| Pathfinding.ReconstructPath | llm-rpg/pathfinding.py:38-44 | The rebuilt path has `g + 1` cells. It starts at the start cell and ends at the goal node's cell. Consecutive cells are adjacent, and every cell after the first is passable. |
| Pathfinding.ReversedWalk | llm-rpg/pathfinding.py:39-44 | Reversing the cells collected along parent links gives a forward walk from the start. |
| Pathfinding.ExpansionBound | llm-rpg/pathfinding.py:31-34 | Cells are closed at most once, so at most 4800 nodes are closed (4801 if the start lies off the grid). |
| Pathfinding.NoRouteLeaves | llm-rpg/pathfinding.py:85 | A set of cells that holds the start, not the target, and every passable neighbour of its cells admits no route. This justifies `None`. |
| Pathfinding.Search | llm-rpg/pathfinding.py:18-85 | The search returns a valid route, or `None` exactly when no route exists. For a start on the grid it ends after at most 4800 expansions, otherwise after at most 4801. |
| Pathfinding.AStarPathfinding | llm-rpg/pathfinding.py:17-85 | `a_star_pathfinding`: as `Search`, for the problem whose obstacles are walls and the other NPCs' cells. |
| WorldMap.Location.constructor | llm-rpg/game_map.py:19-23 | A new location has the given name and corners and no sub-locations. |
| WorldMap.EdgesAreInside | llm-rpg/game_map.py:32-33 | `Location.ContainsPoint` (`contains_point`) is inclusive: all four corners are contained, and a point one step past any edge is not. |
| WorldMap.Location.NotContainedMessage | llm-rpg/game_map.py:28 | The error text starts with `Sub-location `, then the sub-location's name; its length is fixed by the two names. |
| WorldMap.Location.AddSubLocation | llm-rpg/game_map.py:25-29 | Appends exactly when both corners of the sub-location are contained, as the one new last element. Otherwise returns the `ValueError` with the list unchanged. |
| WorldMap.CornersMeanFullyContained | llm-rpg/game_map.py:26-33 | For an ordered sub-rectangle, both corners are contained if and only if every point of it is contained. |
| WorldMap.SubLocationsInside | llm-rpg/game_map.py:25-33 | Every point of an accepted, ordered sub-location lies in its parent. |
| Agents.Positions | llm-rpg/npc.py:34 | The NPC cells, one per NPC, in registry order. |
| Agents.Others | llm-rpg/npc.py:34 | The registry without the given NPC: every other NPC is kept and nothing else is. |
| Agents.Refresh | llm-rpg/brain.py:55 | An NPC target's cell becomes that NPC's current cell; a coordinate target is kept. |
| Agents.RouteFits | llm-rpg/npc.py:49-51 | A route found from the NPC's cell can be followed one walkable neighbour per tick, with or without its first cell. |
| Agents.StepFits | llm-rpg/npc.py:49-51 | Taking the head of a fitting plan is a step to the NPC's own cell or to a walkable neighbour, and the rest fits the new cell. |
| Agents.Npc.constructor | llm-rpg/npc.py:7-12 | The new NPC has the given position and colour and an empty brain that points back to it. The registry grows by exactly this NPC, at the end. |
| Agents.Npc.ReplanIfBlocked | llm-rpg/npc.py:31-37 | When another NPC stands on the path's head (`Npc.NextStepBlocked`, npc.py:32-34), the path is the fresh search result from the NPC's cell. Otherwise nothing changes. A fitting plan stays fitting. |
| Agents.Npc.EnsurePlan | llm-rpg/npc.py:41-46 | With no target or no path: choose a target, then plan. If the target NPC left its cell: replan and drop the head; a failed replan is the error. Otherwise nothing changes. The `elif` runs only with a target, so `target_position` is defined there. |
| Agents.Npc.Step | llm-rpg/npc.py:48-54 | The NPC moves to the path's head, which is removed, and the rest keeps its order. Emptying the path clears the target. Without a path nothing changes. |
| Agents.Npc.Move | llm-rpg/npc.py:18-54 | Arrival happens exactly when the target NPC is one step away (`Npc.ReachedTarget`, npc.py:21-24); target and path are then cleared and the NPC does not move. Otherwise the NPC steps onto the head of its plan, or stays. From a fitting plan it moves at most one walkable step and keeps a fitting plan. |
| Agents.Brain.constructor | llm-rpg/brain.py:6-10 | A brain starts with no target, no path and an empty memory. |
| Agents.Brain.PlannedFits | llm-rpg/brain.py:53-56 | A path planned from the NPC's cell fits that cell. |
| Agents.Brain.DeterminePath | llm-rpg/brain.py:53-56 | With no target, path and target are unchanged. Otherwise an NPC target's cell is refreshed first, and the path is the search result from the given cell, excluding the parent NPC's own cell. |
| Agents.Brain.TargetHasMovedSignificantly | llm-rpg/brain.py:58-63 | True exactly for an NPC target whose Chebyshev distance from the old cell exceeds the threshold. With threshold 0 that means it stands on another cell. |
| Agents.Brain.SeeSurroundings | llm-rpg/brain.py:65-73 | Returns four distinct cells, exactly those one step away, in the reverse of the search's move order. |
| Agents.Brain.ChosenTarget | llm-rpg/brain.py:24-41 | On `coin` with another registered NPC available, the target is the NPC at index `pick` of the others, at its current cell. Otherwise the chosen point becomes a coordinate target, and without a point the old target stays. |
| Agents.Brain.ChooseTarget | llm-rpg/brain.py:24-34 | `choose_target` sets the target to `ChosenTarget` and leaves the path alone. |
| Agents.Brain.ChooseLocationAsTarget | llm-rpg/brain.py:36-41 | A chosen point becomes a coordinate target. With no point the target is unchanged. |
| Agents.Memory.constructor | llm-rpg/brain.py:77-79 | A new memory holds no associations. |
| Agents.Memory.Associate | llm-rpg/brain.py:80-81 | The entity maps to the location, replacing any earlier entry. The keys grow by at most that entity, and every other entry is unchanged. |
| Llm.Split | llm-rpg/llm.py:214 | `split` gives at least one piece, and no piece contains the separator. |
| Llm.JoinSplit | llm-rpg/llm.py:214 | Joining the pieces with the separator gives back the string. |
| Llm.SplitWithoutSep | llm-rpg/llm.py:214-215 | A string without a colon splits into itself alone. |
| Llm.LastSegment | llm-rpg/llm.py:214-215 | The lookup key is the colon-free suffix after the last `:`, or the whole target when it has no colon. |
| Llm.FindNpcByName | llm-rpg/llm.py:210-213 | Returns the first NPC with the target's name; `None` exactly when no NPC has it. |
| Llm.CheckValidArgs | llm-rpg/llm.py:204-222 | Retry when there is no action. Accept when there is no target. Otherwise retry exactly for a `converse` to a name no NPC has, or a `pathfind` to a name that is neither an NPC nor, by its last segment, a location. |
| Llm.Describe | llm-rpg/llm.py:40-44 | An action's line starts with `type: `. |
| Llm.QueueLinesAppend | llm-rpg/llm.py:39-45 | The queue text of a concatenation is the concatenation of the texts: one line per action, in order. |
| Llm.QueueLinesNotNone | llm-rpg/llm.py:37-46 | The queue lines are empty only for an empty queue, and are never the text `None`. |
| Llm.FormatQueue | llm-rpg/llm.py:37-46 | `None` exactly for an empty queue. Otherwise one line per action in queue order: type, then target if any, then message if any. |
| Llm.FormatPaused | llm-rpg/llm.py:47-53 | `None` exactly when nothing is paused. Otherwise the action's queue line without its newline. |
| Llm.LinesEmpty | llm-rpg/llm.py:54-57 | The joined lines are empty only for no entries. |
| Llm.FormatLastActions | llm-rpg/llm.py:54-57 | `None` for no recent actions. Otherwise each action followed by a newline, in order. |
| Llm.LastThree | llm-rpg/llm.py:59 | `logs[-3:]` is the suffix of length min(3, `len(logs)`). |
| Llm.FormatLogs | llm-rpg/llm.py:59-63 | The log block is the last three entries, each followed by a newline. |
| Llm.LogsOnlyLastThree | llm-rpg/llm.py:59-63 | Entries older than the last three do not change the log block. |
| Llm.LogBlockShape | llm-rpg/llm.py:59-63 | With three or more entries, the block is exactly the last three entries, each followed by a newline. |

## Left out

- Randomness. `random.choice` and the location choice are inputs: `coin`, `pick` (the drawn NPC is `pick` modulo the number of others) and `point`.
  - `choose_location`, `choose_random_point` and `Location.get_random_point` are not modelled; their results enter only as `point`.
  - llm-rpg/brain.py:22 passes an argument that llm-rpg/game_map.py:35 does not accept.
- Map queries.
  - `GameMap.is_wall` reads an image pixel; it is the parameter `isWall`.
  - `_find_location_by_name`, `get_current_location`, `get_available_locations` and `full_name` are not part of this model. The first is the abstract function `findLocationByName`.
- `NPC_REGISTRY` is a module-level list in the source. Here it is a `Registry` object passed explicitly.
- `print` calls, `draw`, pygame and PIL image code, and the main loop of llm-rpg/main.py. The main loop calls `move` on each NPC in turn.
- Language-model calls.
  - `prompt`, `converse_message`, `system_message` and the tool stubs of llm.py are network calls and prompt text.
  - `get_context`'s f-string template, its current-location line and its available-NPC and available-location lists are not modelled.
- `action` in `check_valid_args` is the action's name.
  - When `prompt` calls it, it passes the function-call dictionary (llm-rpg/llm.py:186, 192), so the comparisons at llm.py:217 and 220 never match there.
  - `args` is a map from strings to strings, so a target given as an explicit null is the same as a missing one. Both are accepted, as in the source.
- The action queue, paused action, logs and NPC names that llm.py reads are not implemented in npc.py. The formatters take them as plain values.
  - An action target is its name.
  - A recent action is its `str(...)` text.
- Path optimality is not claimed. The squared-distance heuristic is not admissible on a 4-connected grid.
- `Agents.Npc.Move`: returns the outcome `PopOnNone` where llm-rpg/npc.py:46 raises, leaving the NPC where it is. Its own contract covers arrival, the step and safety. How the followed plan was obtained is stated on `ReplanIfBlocked` and `EnsurePlan`, which it calls in that order.
- `Agents.Brain.TargetHasMovedSignificantly`: an NPC target always carries its NPC here, and an NPC object is always truthy, so the source's test for a falsy `'npc'` value (llm-rpg/brain.py:59) has no case to model.
- `Agents.Memory.Associate`: keys and values are generic. The source's dictionary is untyped.
- The `Node` class compares by coordinates (llm-rpg/pathfinding.py:13-14). The model compares cells, so `child in closed_list` is a test on cells. `open_list.remove` takes out the chosen node, because no two open nodes share a cell.
