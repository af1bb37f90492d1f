/**
 * NPCs and their brains (npc.py, brain.py): the shared registry every NPC
 * joins when it is made, the target and planned path a brain keeps, the
 * path planning that calls the grid search, and the per-tick `move` state
 * machine: arrival check, replanning when the next cell is taken, when
 * there is no plan or when the target NPC has moved, and the single step.
 *
 * Random choices (`random.choice`, `choose_location`) are inputs.
 */
module Agents {

  import opened Wrappers
  import opened Grid
  import opened Pathfinding

  /** An RGB colour tuple. */
  type Color = (int, int, int)

  /**
   * A brain's target dictionary: `{'type': 'npc', 'data': (x, y), 'npc': npc}`
   * or `{'type': 'coords', 'data': (x, y)}`.
   */
  datatype Target = NpcTarget(data: Cell, npc: Npc) | CoordsTarget(data: Cell)

  /** What one call of `move` did. */
  datatype MoveOutcome =
    | Arrived              // adjacent to the target NPC: target and path dropped, no step
    | Stepped(plan: seq<Cell>)  // stepped onto the head of `plan`, the path as it was before the step
    | Stayed               // no path to follow this tick
    | PopOnNone            // `path.pop(0)` on a failed replan (npc.py:46 raises here)

  /** The heap objects a target refers to. */
  function TargetNpcs(t: Option<Target>): set<object> {
    if t.Some? && t.value.NpcTarget? then {t.value.npc} else {}
  }

  /** Python truthiness of `brain.path`: a list with at least one cell. */
  predicate HasSteps(path: Option<seq<Cell>>) {
    path.Some? && |path.value| > 0
  }

  /** `NPC_REGISTRY`: every NPC made so far, in order of creation. */
  class Registry {
    var npcs: seq<Npc>

    constructor ()
      ensures npcs == []
    {
      npcs := [];
    }
  }

  /** The cells of a list of NPCs, in order. */
  function Positions(npcs: seq<Npc>): (ps: seq<Cell>)
    reads set n | n in npcs
    ensures |ps| == |npcs|
    ensures forall i :: 0 <= i < |npcs| ==> ps[i] == npcs[i].Pos()
  {
    if npcs == [] then []
    else Positions(npcs[..|npcs| - 1]) + [npcs[|npcs| - 1].Pos()]
  }

  /** `[npc for npc in npcs if npc != me]`: the other NPCs, in order (NPCs compare by identity). */
  function Others(npcs: seq<Npc>, me: Npc?): (r: seq<Npc>)
    ensures |r| <= |npcs|
    ensures forall i :: 0 <= i < |r| ==> r[i] in npcs && r[i] != me
    ensures forall i :: 0 <= i < |npcs| && npcs[i] != me ==> npcs[i] in r
  {
    if npcs == [] then []
    else
      var last := npcs[|npcs| - 1];
      Others(npcs[..|npcs| - 1], me) + (if last != me then [last] else [])
  }

  /** A cell the NPC may stand on after a step: on the grid and not a wall. */
  predicate Walkable(isWall: (int, int) -> bool, c: Cell) {
    InBounds(c) && !isWall(c.x, c.y)
  }

  predicate StepOk(isWall: (int, int) -> bool, a: Cell, b: Cell) {
    Adjacent(a, b) && Walkable(isWall, b)
  }

  /**
   * A plan an NPC at `pos` can follow one cell per tick: its head is `pos`
   * itself (a fresh search result still starts at the NPC's own cell) or a
   * walkable neighbour, and every later cell is a walkable neighbour of the
   * one before.
   */
  ghost predicate FitsFrom(isWall: (int, int) -> bool, pos: Cell, steps: seq<Cell>) {
    && (|steps| > 0 ==> steps[0] == pos || StepOk(isWall, pos, steps[0]))
    && (forall i :: 0 <= i < |steps| - 1 ==> StepOk(isWall, steps[i], steps[i + 1]))
  }

  ghost predicate PlanFits(isWall: (int, int) -> bool, pos: Cell, path: Option<seq<Cell>>) {
    path.None? || FitsFrom(isWall, pos, path.value)
  }

  /** A route found from the NPC's cell fits it, and so does that route without its head. */
  lemma RouteFits(p: Problem, route: seq<Cell>)
    requires IsRoute(p, route)
    ensures FitsFrom(p.isWall, p.start, route)
    ensures FitsFrom(p.isWall, p.start, route[1..])
  {
    forall i | 0 <= i < |route| - 1
      ensures StepOk(p.isWall, route[i], route[i + 1])
    {
      assert Passable(p, route[i + 1]);
    }
  }

  /** Following a fitting plan by one cell leaves a plan that fits the new cell. */
  lemma StepFits(isWall: (int, int) -> bool, pos: Cell, steps: seq<Cell>)
    requires FitsFrom(isWall, pos, steps)
    requires |steps| > 0
    ensures steps[0] == pos || StepOk(isWall, pos, steps[0])
    ensures FitsFrom(isWall, steps[0], steps[1..])
  {
    if |steps| > 1 {
      assert StepOk(isWall, steps[0], steps[1]);
    }
  }

  /**
   * The search problem `determine_path` poses: from `start` to the target's
   * cell, avoiding every registered NPC except the planner itself (`me`) and,
   * for an NPC target, that NPC.
   */
  function SearchProblem(start: Cell, t: Target, isWall: (int, int) -> bool, positions: seq<Cell>, me: Cell): Problem {
    Problem(start, t.data, isWall, NpcPositions(positions, me, t.data, t.NpcTarget?))
  }

  /** `target['data']` refreshed to the target NPC's current cell; a coordinate target is kept. */
  function Refresh(t: Target): (r: Target)
    reads TargetNpcs(Some(t))
    ensures r.NpcTarget? <==> t.NpcTarget?
    ensures r.NpcTarget? ==> r.npc == t.npc && r.data == t.npc.Pos()
    ensures r.CoordsTarget? ==> r == t
  {
    match t
    case NpcTarget(_, n) => NpcTarget(n.Pos(), n)
    case CoordsTarget(_) => t
  }

  /** A search result without its first cell (`path.pop(0)`), and back. */
  function Unpop(start: Cell, path: Option<seq<Cell>>): Option<seq<Cell>> {
    if path.Some? then Some([start] + path.value) else None
  }

  lemma ReverseOfFour(ns: seq<Cell>)
    requires |ns| == 4
    ensures Reverse(ns) == [ns[3], ns[2], ns[1], ns[0]]
  {
    var r := Reverse(ns);
    assert r[0] == ns[3] && r[1] == ns[2] && r[2] == ns[1] && r[3] == ns[0];
  }

  class Npc {
    var x: int
    var y: int
    const color: Color
    const brain: Brain

    /** `NPC.__init__`: a new NPC with an empty brain, appended to the registry. */
    constructor (x: int, y: int, color: Color, registry: Registry)
      modifies registry
      ensures this.x == x && this.y == y && this.color == color
      ensures Valid() && fresh(brain) && fresh(brain.memory)
      ensures brain.target == None && brain.path == None && brain.memory.associations == map[]
      ensures registry.npcs == old(registry.npcs) + [this]
    {
      this.x := x;
      this.y := y;
      this.color := color;
      brain := new Brain();
      new;
      brain.parent := this;
      registry.npcs := registry.npcs + [this];
    }

    function Pos(): Cell
      reads this
    {
      Cell(x, y)
    }

    /** The brain belongs to this NPC. */
    ghost predicate Valid()
      reads brain
    {
      brain.parent == this
    }

    /** The arrival test of `move`: the target is an NPC exactly one step away. */
    predicate ReachedTarget()
      reads this, brain, TargetNpcs(brain.target)
    {
      brain.target.Some? && brain.target.value.NpcTarget? && Adjacent(Pos(), brain.target.value.npc.Pos())
    }

    /** The next cell of the path is occupied by another registered NPC (npc.py:32-34). */
    predicate NextStepBlocked(registry: Registry)
      reads this, brain, registry, set n | n in registry.npcs
    {
      HasSteps(brain.path) && brain.path.value[0] in Positions(Others(registry.npcs, this))
    }

    /**
     * npc.py:32-37: when the next cell is taken, the path is dropped and a
     * new one is searched from the NPC's cell.
     */
    method ReplanIfBlocked(isWall: (int, int) -> bool, registry: Registry)
      requires Valid()
      modifies brain
      ensures Valid()
      ensures old(NextStepBlocked(registry)) ==>
        brain.PlannedFrom(old(brain.target), None, brain.path, Pos(), isWall, Positions(registry.npcs))
      ensures !old(NextStepBlocked(registry)) ==> brain.target == old(brain.target) && brain.path == old(brain.path)
      ensures brain.target.Some? ==> old(brain.target).Some?
      ensures old(PlanFits(isWall, Pos(), brain.path)) ==> PlanFits(isWall, Pos(), brain.path)
    {
      if HasSteps(brain.path) {
        var nextStep := brain.path.value[0];
        if nextStep in Positions(Others(registry.npcs, this)) {
          brain.path := None;
          brain.DeterminePath(Pos(), isWall, registry);
          if brain.target.Some? {
            brain.PlannedFits(Pos(), isWall, Positions(registry.npcs));
          }
        }
      }
    }

    /**
     * npc.py:41-46: with no target or no path, choose a target and plan a
     * path; otherwise, if the target NPC has left the cell it had when the
     * tick began (`targetPosition`), plan again and drop the path's first
     * cell, the NPC's own. `ok` is false when that replan found no path, where
     * the source's `pop` fails on `None`.
     *
     * The precondition answers the question in the source's comment: the
     * `elif` branch needs a target, and `move` records `targetPosition`
     * whenever there is one.
     */
    method EnsurePlan(isWall: (int, int) -> bool, registry: Registry, targetPosition: Option<Cell>,
                      coin: bool, pick: nat, point: Option<Cell>) returns (ok: bool)
      requires Valid()
      requires brain.target.Some? ==> targetPosition.Some?
      modifies brain
      ensures Valid()
      ensures old(brain.target.None? || !HasSteps(brain.path)) ==>
        && ok
        && brain.PlannedFrom(old(brain.ChosenTarget(coin, pick, point, registry.npcs)), old(brain.path), brain.path,
                             Pos(), isWall, Positions(registry.npcs))
      ensures old(brain.target.Some? && HasSteps(brain.path) && brain.TargetHasMovedSignificantly(targetPosition.value, 0)) ==>
        && (ok <==> brain.path.Some?)
        && brain.PlannedFrom(old(brain.target), old(brain.path), Unpop(Pos(), brain.path), Pos(), isWall, Positions(registry.npcs))
      ensures old(brain.target.Some? && HasSteps(brain.path) && !brain.TargetHasMovedSignificantly(targetPosition.value, 0)) ==>
        ok && brain.target == old(brain.target) && brain.path == old(brain.path)
      ensures !ok ==> brain.path == None && brain.target.Some?
      ensures brain.target.Some? ==> old(brain.target).Some? || point.Some? || coin
      ensures old(PlanFits(isWall, Pos(), brain.path)) ==> PlanFits(isWall, Pos(), brain.path)
    {
      if brain.target.None? || !HasSteps(brain.path) {
        brain.ChooseTarget(coin, pick, point, registry);
        brain.DeterminePath(Pos(), isWall, registry);
        if brain.target.Some? && old(brain.ChosenTarget(coin, pick, point, registry.npcs)).Some? {
          brain.PlannedFits(Pos(), isWall, Positions(registry.npcs));
        }
        return true;
      } else if brain.TargetHasMovedSignificantly(targetPosition.value, 0) {
        brain.DeterminePath(Pos(), isWall, registry);
        if brain.path.None? {
          return false;
        }
        var route := brain.path.value;
        ghost var p := SearchProblem(Pos(), brain.target.value, isWall, Positions(registry.npcs), Pos());
        RouteFits(p, route);
        assert route == [Pos()] + route[1..];
        brain.path := Some(route[1..]);
        return true;
      }
      return true;
    }

    /**
     * npc.py:49-54: step onto the head of the path and remove it; a step
     * that empties the path also drops the target. Without a path nothing
     * changes.
     */
    method Step()
      requires Valid()
      modifies this, brain
      ensures Valid()
      ensures old(HasSteps(brain.path)) ==>
        && Pos() == old(brain.path.value[0])
        && brain.path == Some(old(brain.path.value[1..]))
        && brain.target == (if |old(brain.path.value)| == 1 then None else old(brain.target))
      ensures !old(HasSteps(brain.path)) ==>
        Pos() == old(Pos()) && brain.path == old(brain.path) && brain.target == old(brain.target)
    {
      if HasSteps(brain.path) {
        var nextStep := brain.path.value[0];
        brain.path := Some(brain.path.value[1..]);
        x, y := nextStep.x, nextStep.y;
        if brain.path.value == [] {
          brain.target := None;
        }
      }
    }

    /**
     * `NPC.move`, one tick. An NPC next to its target NPC stops there and
     * forgets target and path. Otherwise it replans if its next cell is
     * taken, makes sure it has a plan, and takes one step. Starting from a
     * plan that fits its cell, the NPC stays put or moves to a walkable
     * neighbour, and its plan fits its new cell.
     */
    method Move(isWall: (int, int) -> bool, registry: Registry, coin: bool, pick: nat, point: Option<Cell>)
      returns (outcome: MoveOutcome)
      requires Valid()
      modifies this, brain
      ensures Valid()
      ensures outcome == Arrived <==> old(ReachedTarget())
      ensures outcome == Arrived ==> Pos() == old(Pos()) && brain.target == None && brain.path == None
      ensures outcome == PopOnNone ==> Pos() == old(Pos()) && brain.path == None && old(brain.target).Some?
      ensures outcome.Stepped? ==>
        && |outcome.plan| > 0
        && Pos() == outcome.plan[0]
        && brain.path == Some(outcome.plan[1..])
        && (|outcome.plan| == 1 ==> brain.target == None)
      ensures outcome == Stayed ==> Pos() == old(Pos())
      ensures old(PlanFits(isWall, Pos(), brain.path)) ==>
        PlanFits(isWall, Pos(), brain.path) && (Pos() == old(Pos()) || StepOk(isWall, old(Pos()), Pos()))
    {
      var targetPosition: Option<Cell> := None;
      if brain.target.Some? {
        targetPosition := Some(brain.target.value.data);
        if brain.target.value.NpcTarget? {
          var target := brain.target.value.npc;
          var targetDistance := Abs(x - target.x) + Abs(y - target.y);
          if targetDistance == 1 {
            brain.target := None;
            brain.path := None;
            return Arrived;
          }
        }
      }

      ReplanIfBlocked(isWall, registry);
      var ok := EnsurePlan(isWall, registry, targetPosition, coin, pick, point);
      if !ok {
        return PopOnNone;
      }

      var plan := brain.path;
      if HasSteps(plan) && PlanFits(isWall, Pos(), plan) {
        StepFits(isWall, Pos(), plan.value);
      }
      Step();
      outcome := if HasSteps(plan) then Stepped(plan.value) else Stayed;
    }
  }

  class Brain {
    var parent: Npc?
    const memory: Memory<string, string>
    var target: Option<Target>
    var path: Option<seq<Cell>>

    constructor ()
      ensures parent == null && target == None && path == None
      ensures fresh(memory) && memory.associations == map[]
    {
      parent := null;
      memory := new Memory();
      target := None;
      path := None;
    }

    /**
     * What `determine_path` leaves behind, given the target and path it found:
     * with no target, nothing changes; otherwise the target is refreshed and
     * `path` is the search result for it from `start`.
     */
    ghost predicate PlannedFrom(oldTarget: Option<Target>, oldPath: Option<seq<Cell>>, newPath: Option<seq<Cell>>,
                                start: Cell, isWall: (int, int) -> bool, positions: seq<Cell>)
      requires parent != null
      reads this, parent, TargetNpcs(oldTarget)
    {
      match oldTarget
      case None => target == None && newPath == oldPath
      case Some(t) =>
        target == Some(Refresh(t)) && Solves(SearchProblem(start, Refresh(t), isWall, positions, parent.Pos()), newPath)
    }

    /** A freshly planned path fits the cell it was planned from. */
    lemma PlannedFits(start: Cell, isWall: (int, int) -> bool, positions: seq<Cell>)
      requires parent != null
      requires target.Some?
      requires Solves(SearchProblem(start, target.value, isWall, positions, parent.Pos()), path)
      ensures PlanFits(isWall, start, path)
    {
      if path.Some? {
        RouteFits(SearchProblem(start, target.value, isWall, positions, parent.Pos()), path.value);
      }
    }

    /**
     * `determine_path`: with a target, refresh an NPC target's cell to where
     * that NPC stands now, then search from `currentPosition`, excluding the
     * parent NPC's own cell from the obstacles.
     */
    method DeterminePath(currentPosition: Cell, isWall: (int, int) -> bool, registry: Registry)
      requires parent != null
      modifies this
      ensures parent == old(parent)
      ensures PlannedFrom(old(target), old(path), path, currentPosition, isWall, Positions(registry.npcs))
    {
      if target.Some? {
        if target.value.NpcTarget? {
          var n := target.value.npc;
          target := Some(NpcTarget(n.Pos(), n));
        }
        var t := target.value;
        var route;
        ghost var expansions;
        route, expansions := AStarPathfinding(currentPosition, t.data, t.NpcTarget?, isWall, Positions(registry.npcs), parent.Pos());
        path := route;
      }
    }

    /**
     * `target_has_moved_significantly`: only an NPC target can move; it has
     * moved when either coordinate differs from `oldPosition` by more than
     * `threshold`, that is when its Chebyshev distance from `oldPosition`
     * exceeds `threshold`. With the default threshold 0 that is "stands on
     * another cell"; with a negative threshold any NPC target counts as moved.
     */
    function TargetHasMovedSignificantly(oldPosition: Cell, threshold: int): (r: bool)
      requires target.Some?
      reads this, TargetNpcs(target)
      ensures r <==> target.value.NpcTarget? && Chebyshev(target.value.npc.Pos(), oldPosition) > threshold
      ensures threshold == 0 ==> (r <==> target.value.NpcTarget? && target.value.npc.Pos() != oldPosition)
      ensures threshold < 0 ==> (r <==> target.value.NpcTarget?)
    {
      if !target.value.NpcTarget? then false
      else
        var dx := target.value.npc.x - oldPosition.x;
        var dy := target.value.npc.y - oldPosition.y;
        Abs(dx) > threshold || Abs(dy) > threshold
    }

    /**
     * `see_surroundings`: the four cells around `current`, right, left, down,
     * up; exactly the cells one step away, in the reverse of the order in
     * which the search tries them.
     */
    function SeeSurroundings(current: Cell): (s: seq<Cell>)
      ensures |s| == 4
      ensures forall c :: c in s <==> Adjacent(current, c)
      ensures forall i, j :: 0 <= i < j < |s| ==> s[i] != s[j]
      ensures s == Reverse(Neighbours(current))
    {
      var s := [Cell(current.x + 1, current.y), Cell(current.x - 1, current.y),
                Cell(current.x, current.y + 1), Cell(current.x, current.y - 1)];
      var ns := Neighbours(current);
      assert s == [ns[3], ns[2], ns[1], ns[0]];
      ReverseOfFour(ns);
      s
    }

    /**
     * The target `choose_target` settles on, with its random choices as
     * inputs: `coin` for the 50% draw, `pick` for the NPC drawn from the
     * others, `point` for the point `choose_location` returns (`None` when
     * no location is available, which leaves the target as it was).
     */
    function ChosenTarget(coin: bool, pick: nat, point: Option<Cell>, npcs: seq<Npc>): (t: Option<Target>)
      reads this, set n | n in npcs
      ensures t.Some? && t.value.NpcTarget? && t != target ==>
        t.value.npc in npcs && t.value.npc != parent && t.value.data == t.value.npc.Pos()
      ensures t.Some? && t.value.CoordsTarget? && t != target ==> point == Some(t.value.data)
      ensures t != target ==> t.Some?
      ensures point.Some? ==> t.Some?
      ensures !coin || |Others(npcs, parent)| == 0 ==> t == if point.Some? then Some(CoordsTarget(point.value)) else target
      ensures coin && |Others(npcs, parent)| > 0 ==>
        var others := Others(npcs, parent);
        && t.Some? && t.value.NpcTarget?
        && t.value.npc == others[pick % |others|]
        && t.value.npc in npcs && t.value.npc != parent
        && t.value.data == t.value.npc.Pos()
    {
      var available := Others(npcs, parent);
      if coin && |available| > 0 then
        var n := available[pick % |available|];
        Some(NpcTarget(n.Pos(), n))
      else if point.Some? then Some(CoordsTarget(point.value))
      else target
    }

    /**
     * `choose_target`: on `coin`, target one of the other registered NPCs
     * (`pick` selects which), if there is any; otherwise target the point
     * the location choice produced, if any.
     */
    method ChooseTarget(coin: bool, pick: nat, point: Option<Cell>, registry: Registry)
      requires parent != null
      modifies this
      ensures parent == old(parent) && path == old(path)
      ensures target == old(ChosenTarget(coin, pick, point, registry.npcs))
    {
      if coin {
        var availableNpcs := Others(registry.npcs, parent);
        if |availableNpcs| > 0 {
          var targetNpc := availableNpcs[pick % |availableNpcs|];
          target := Some(NpcTarget(targetNpc.Pos(), targetNpc));
        } else {
          ChooseLocationAsTarget(point);
        }
      } else {
        ChooseLocationAsTarget(point);
      }
    }

    /** `choose_location_as_target`: target the chosen point; with none, keep the old target. */
    method ChooseLocationAsTarget(point: Option<Cell>)
      modifies this
      ensures parent == old(parent) && path == old(path)
      ensures point.Some? ==> target == Some(CoordsTarget(point.value))
      ensures point.None? ==> target == old(target)
    {
      if point.Some? {
        target := Some(CoordsTarget(point.value));
      }
    }
  }

  /** `Memory`: what the brain associates with what. */
  class Memory<E(==), L> {
    var associations: map<E, L>

    constructor ()
      ensures associations == map[]
    {
      associations := map[];
    }

    /** `associate`: map `entity` to `location`, replacing any earlier entry; nothing else changes. */
    method Associate(entity: E, location: L)
      modifies this
      ensures entity in associations && associations[entity] == location
      ensures associations.Keys == old(associations).Keys + {entity}
      ensures forall e :: e in associations && e != entity ==> associations[e] == old(associations)[e]
    {
      associations := associations[entity := location];
    }
  }
}
