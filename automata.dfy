/**
 * The finite state machines of `final_project/automata.js`.
 *
 * A machine holds one current state (or none before its first `setState`), a registry from
 * state names to state classes, and calls the states' `Exit`/`Enter` hooks when it switches.
 * The hooks only drive animation cross-fades and mesh colours, so the model records the
 * calls in a trace instead of performing them. Each state's `update` is a pure decision:
 * the `setState` calls it makes (in order), the new value of the jump latch
 * `input._keys.spc.active`, and the state instance's own updated fields (the aggro timer).
 * What the states read from their controller (the `falling` flag, the magazine count,
 * distances and the enemy's view and ray-cast tests) arrives as a `ControllerView` value.
 */
module Automata {
  import opened Wrappers

  /** The state classes of the three machines; `Aggro` carries its instance's `_aggrotime`. */
  datatype State =
    | Idle | Walk | Run | Jump | Fall        // CharacterFSA
    | DroneIdle | Fire | Empty               // DroneFSA
    | Wander | Aggro(aggrotime: real) | Shoot // EnemyFSA

  /** `AggroState._maxaggrotime`. */
  const MaxAggroTime: real := 25.0

  /**
   * `getName` of each state class. The only name shared by two classes is "idle", used by
   * the character's and the drone's idle states, which live in different machines.
   */
  function Name(s: State): (r: string)
    ensures r == "idle" <==> s == Idle || s == DroneIdle
  {
    match s
    case Idle => "idle"
    case Walk => "walk"
    case Run => "run"
    case Jump => "jump"
    case Fall => "fall"
    case DroneIdle => "idle"
    case Fire => "fire"
    case Empty => "empty"
    case Wander => "wander"
    case Aggro(_) => "aggro"
    case Shoot => "shoot"
  }

  /** A call of a state's `Exit()` or `Enter(prevState)` hook; `prev` names `prevState`. */
  datatype Hook = Exit(state: string) | Enter(state: string, prev: Option<string>)

  /** The key flags of the input controller; `spcActive` is the jump latch the states write. */
  datatype Keys = Keys(w: bool, a: bool, s: bool, d: bool, shft: bool, spc: bool, spcActive: bool)

  predicate Moving(k: Keys)
  {
    k.w || k.a || k.s || k.d
  }

  /** What the enemy's ray towards its target hits first among the nearby hitboxes. */
  datatype RayHit = NoHit | HitTarget | HitOther

  /**
   * What the states read from their owning controller: the character's `falling` flag, the
   * drone's `_magazine`, and for the enemy the distance to its target, its `_far` and
   * `_close` ranges, whether the target passes the state's view-cone test, and the ray hit.
   */
  datatype ControllerView = ControllerView(falling: bool, magazine: int, distance: real,
                                           far: real, close: real, inView: bool, ray: RayHit)

  /**
   * The outcome of one state `update`: the state instance with its own fields updated, the
   * names passed to `setState` in call order, and the jump latch afterwards.
   */
  datatype Decision = Decision(instance: State, calls: seq<string>, spcActive: bool)

  // -----------------------------------------------------------------------------------------
  // Character states

  /**
   * `IdleState.update`: idle stays only when no key is down, the latch is clear and the
   * character is on the ground; it never clears the latch.
   */
  function IdleUpdate(k: Keys, falling: bool): (r: Decision)
    ensures r.instance == Idle && |r.calls| <= 1
    ensures r.calls == [] <==> !Moving(k) && !k.spc && !k.spcActive && !falling
    ensures k.spcActive ==> r.spcActive
  {
    if Moving(k) then Decision(Idle, [if k.shft then "run" else "walk"], k.spcActive)
    else if k.spc && !k.spcActive then Decision(Idle, ["jump"], true)
    else if k.spcActive || falling then Decision(Idle, ["fall"], true)
    else Decision(Idle, [], k.spcActive)
  }

  /**
   * `WalkState.update`: walk stays only while a movement key is down without shift, on the
   * ground, with space up and the latch clear; it never clears the latch.
   */
  function WalkUpdate(k: Keys, falling: bool): (r: Decision)
    ensures r.instance == Walk && |r.calls| <= 1
    ensures r.calls == [] <==> Moving(k) && !k.shft && !k.spc && !k.spcActive && !falling
    ensures k.spcActive ==> r.spcActive
  {
    if k.spc && !k.spcActive then Decision(Walk, ["jump"], true)
    else if k.spcActive || falling then Decision(Walk, ["fall"], true)
    else if Moving(k) then Decision(Walk, if k.shft then ["run"] else [], k.spcActive)
    else Decision(Walk, ["idle"], k.spcActive)
  }

  /**
   * `RunState.update` as written: when a movement key is held without shift it calls
   * `setState('run')`, which is a no-op in the run state, so the character never walks again
   * until it stops, jumps or falls. This is the run state the machines use.
   */
  function RunUpdateAsWritten(k: Keys, falling: bool): (r: Decision)
    ensures r.instance == Run && |r.calls| <= 1 && "walk" !in r.calls
    ensures r.calls == [] <==> Moving(k) && k.shft && !k.spc && !k.spcActive && !falling
    ensures k.spcActive ==> r.spcActive
  {
    if k.spc && !k.spcActive then Decision(Run, ["jump"], true)
    else if k.spcActive || falling then Decision(Run, ["fall"], k.spcActive)
    else if Moving(k) then Decision(Run, if k.shft then [] else ["run"], k.spcActive)
    else Decision(Run, ["idle"], k.spcActive)
  }

  /**
   * `RunState.update` with the evident intent: releasing shift while moving walks. Only
   * `CorrectedRunStep` uses it; the machines keep the code as written.
   */
  function RunUpdate(k: Keys, falling: bool): (r: Decision)
    ensures r.instance == Run && |r.calls| <= 1
    ensures r.calls == ["walk"] <==> Moving(k) && !k.shft && !k.spc && !k.spcActive && !falling
    ensures r.calls == [] <==> Moving(k) && k.shft && !k.spc && !k.spcActive && !falling
  {
    if k.spc && !k.spcActive then Decision(Run, ["jump"], true)
    else if k.spcActive || falling then Decision(Run, ["fall"], k.spcActive)
    else if Moving(k) then Decision(Run, if k.shft then [] else ["walk"], k.spcActive)
    else Decision(Run, ["idle"], k.spcActive)
  }

  function JumpUpdate(k: Keys): Decision
  {
    Decision(Jump, ["fall"], k.spcActive)
  }

  /**
   * `FallState.update`: fall stays exactly while the character is falling, and landing
   * always clears the latch.
   */
  function FallUpdate(k: Keys, falling: bool): (r: Decision)
    ensures r.instance == Fall && |r.calls| <= 1
    ensures r.calls == [] <==> falling
    ensures !falling ==> !r.spcActive
  {
    if !falling then
      Decision(Fall, [if Moving(k) then (if k.shft then "run" else "walk") else "idle"], false)
    else Decision(Fall, [], k.spcActive)
  }

  // -----------------------------------------------------------------------------------------
  // Drone states (`lc` is the left mouse button)

  function DroneIdleUpdate(lc: bool): seq<string>
  {
    if lc then ["fire"] else []
  }

  /** `FireState.update`: an empty magazine wins over a released button; firing goes on otherwise. */
  function FireUpdate(magazine: int, lc: bool): (r: seq<string>)
    ensures |r| <= 1
    ensures r == [] <==> magazine != 0 && lc
    ensures "idle" in r ==> magazine != 0
  {
    if magazine == 0 then ["empty"] else if !lc then ["idle"] else []
  }

  function EmptyUpdate(magazine: int): seq<string>
  {
    if magazine != 0 then ["idle"] else []
  }

  // -----------------------------------------------------------------------------------------
  // Enemy states

  /**
   * `WanderState.update`: out of range or out of view it returns; otherwise a target within
   * close range is chased, and a ray whose first hit is the target is chased as well (the
   * second `setState('aggro')` is a no-op when the first one happened).
   */
  function WanderUpdate(c: ControllerView): (r: seq<string>)
    ensures |r| <= 2 && forall i :: 0 <= i < |r| ==> r[i] == "aggro"
    ensures r != [] <==> c.distance <= c.far && c.inView && (c.distance <= c.close || c.ray == HitTarget)
  {
    if c.distance > c.far then []
    else if !c.inView then []
    else
      var first := if c.distance <= c.close then ["aggro"] else [];
      if c.ray == HitTarget then first + ["aggro"] else first
  }

  /**
   * `AggroState.update`: a timer at or past the maximum is reset and the enemy wanders, but
   * the method does not return, so the rest still runs; out of range adds the elapsed time
   * and goes on, out of view adds it and returns; within half the far range it shoots; a ray
   * blocked by another object adds the elapsed time again. The timer returned is the field
   * of this instance, which is dropped when the machine has switched away from it.
   */
  function AggroUpdate(aggrotime: real, dt: real, c: ControllerView): (r: Decision)
    ensures r.instance.Aggro?
    ensures "wander" in r.calls <==> aggrotime >= MaxAggroTime
    ensures "shoot" in r.calls <==> c.distance <= c.far / 2.0 && !(c.distance <= c.far && !c.inView)
    ensures aggrotime < MaxAggroTime && dt >= 0.0 ==>
      aggrotime <= r.instance.aggrotime <= aggrotime + 2.0 * dt
    ensures aggrotime >= MaxAggroTime && dt >= 0.0 ==> 0.0 <= r.instance.aggrotime <= 2.0 * dt
  {
    var t1 := if aggrotime >= MaxAggroTime then 0.0 else aggrotime;
    var calls1 := if aggrotime >= MaxAggroTime then ["wander"] else [];
    if c.distance <= c.far && !c.inView then
      Decision(Aggro(t1 + dt), calls1, false)
    else
      var t2 := if c.distance > c.far then t1 + dt else t1;
      var calls2 := calls1 + (if c.distance <= c.far / 2.0 then ["shoot"] else []);
      var t3 := if c.ray == HitOther then t2 + dt else t2;
      Decision(Aggro(t3), calls2, false)
  }

  function ShootUpdate(c: ControllerView): seq<string>
  {
    if c.distance > c.far / 2.0 then ["aggro"] else []
  }

  // -----------------------------------------------------------------------------------------
  // The three machines

  datatype Kind = CharacterKind | DroneKind | EnemyKind

  function KindOf(s: State): Kind
  {
    match s
    case Idle | Walk | Run | Jump | Fall => CharacterKind
    case DroneIdle | Fire | Empty => DroneKind
    case Wander | Aggro(_) | Shoot => EnemyKind
  }

  /** The registries built by the `CharacterFSA`, `DroneFSA` and `EnemyFSA` constructors. */
  function Registry(k: Kind): map<string, State>
  {
    match k
    case CharacterKind => map["idle" := Idle, "walk" := Walk, "run" := Run, "jump" := Jump, "fall" := Fall]
    case DroneKind => map["idle" := DroneIdle, "fire" := Fire, "empty" := Empty]
    case EnemyKind => map["wander" := Wander, "aggro" := Aggro(0.0), "shoot" := Shoot]
  }

  /** The state each machine's constructor enters first. */
  function Initial(k: Kind): State
  {
    match k
    case CharacterKind => Idle
    case DroneKind => DroneIdle
    case EnemyKind => Wander
  }

  /** Same state class (instances of `AggroState` differ only in their timer). */
  predicate SameClass(s: State, t: State)
  {
    if s.Aggro? then t.Aggro? else s == t
  }

  /**
   * The `update` of the current state. Only the state's own class decides; the jump latch
   * is touched by character states only, and every name a state passes to `setState` is
   * registered by its own machine.
   */
  function Decide(s: State, dt: real, k: Keys, lc: bool, c: ControllerView): (r: Decision)
    ensures SameClass(s, r.instance)
    ensures |r.calls| <= 2
    ensures forall i :: 0 <= i < |r.calls| ==> r.calls[i] in Registry(KindOf(s))
    ensures KindOf(s) != CharacterKind ==> r.spcActive == k.spcActive
  {
    match s
    case Idle => IdleUpdate(k, c.falling)
    case Walk => WalkUpdate(k, c.falling)
    case Run => RunUpdateAsWritten(k, c.falling)
    case Jump => JumpUpdate(k)
    case Fall => FallUpdate(k, c.falling)
    case DroneIdle => Decision(s, DroneIdleUpdate(lc), k.spcActive)
    case Fire => Decision(s, FireUpdate(c.magazine, lc), k.spcActive)
    case Empty => Decision(s, EmptyUpdate(c.magazine), k.spcActive)
    case Wander => Decision(s, WanderUpdate(c), k.spcActive)
    case Aggro(t) => AggroUpdate(t, dt, c).(spcActive := k.spcActive)
    case Shoot => Decision(s, ShootUpdate(c), k.spcActive)
  }

  // -----------------------------------------------------------------------------------------
  // setState and update of `BasicFSA`, as functions of the machine's value

  /** The machine's current state and the hooks called so far. */
  datatype Machine = Machine(current: Option<State>, hooks: seq<Hook>)

  /** A machine after a call; `thrown` when the call ended in an exception. */
  datatype Effect = Effect(machine: Machine, thrown: bool)

  function EnterHook(next: State, prev: Option<State>): Hook
  {
    Enter(Name(next), if prev.Some? then Some(Name(prev.value)) else None)
  }

  /**
   * `setState(name)`: nothing happens when the current state already has that name.
   * Otherwise the previous state's `Exit` runs first; then the registered class is built,
   * becomes current and its `Enter(prevState)` runs. An unregistered name makes
   * `new this._states[name]` throw after the `Exit`, leaving the current state in place.
   */
  function SetStateSpec(m: Machine, registry: map<string, State>, name: string): (r: Effect)
    ensures m.current.Some? && Name(m.current.value) == name ==> r == Effect(m, false)
    ensures r.thrown <==> name !in registry && !(m.current.Some? && Name(m.current.value) == name)
    ensures !(m.current.Some? && Name(m.current.value) == name) && !r.thrown ==>
      (r.machine.current == Some(registry[name])
       && r.machine.hooks == m.hooks + (if m.current.Some? then [Exit(Name(m.current.value))] else [])
                                     + [EnterHook(registry[name], m.current)])
    ensures r.thrown ==>
      (r.machine.current == m.current
       && r.machine.hooks == m.hooks + (if m.current.Some? then [Exit(Name(m.current.value))] else []))
    ensures |m.hooks| <= |r.machine.hooks| && r.machine.hooks[..|m.hooks|] == m.hooks
  {
    var prev := m.current;
    if prev.Some? && Name(prev.value) == name then Effect(m, false)
    else
      var exited := if prev.Some? then m.hooks + [Exit(Name(prev.value))] else m.hooks;
      if name !in registry then Effect(Machine(prev, exited), true)
      else
        var state := registry[name];
        Effect(Machine(Some(state), exited + [EnterHook(state, prev)]), false)
  }

  /**
   * The `setState` calls of one state update, in order; an exception stops the rest.
   * Hooks are only ever appended.
   */
  function RunCalls(m: Machine, registry: map<string, State>, calls: seq<string>): (r: Effect)
    ensures |m.hooks| <= |r.machine.hooks| && r.machine.hooks[..|m.hooks|] == m.hooks
    ensures |calls| == 1 ==> r == SetStateSpec(m, registry, calls[0])
    ensures calls != [] && SetStateSpec(m, registry, calls[0]).thrown ==> r == SetStateSpec(m, registry, calls[0])
    ensures calls == [] ==> r == Effect(m, false)
    ensures r.thrown ==> exists i :: 0 <= i < |calls| && calls[i] !in registry
    decreases |calls|
  {
    if calls == [] then Effect(m, false)
    else
      var e := SetStateSpec(m, registry, calls[0]);
      if e.thrown then e else RunCalls(e.machine, registry, calls[1..])
  }

  /** A machine together with the input keys after one `update`. */
  datatype StepResult = StepResult(machine: Machine, keys: Keys, thrown: bool)

  /**
   * `BasicFSA.update(timeElapsed, input)`: with no current state nothing happens; otherwise
   * only the current state's `update` runs.
   */
  function Step(m: Machine, registry: map<string, State>, dt: real, k: Keys, lc: bool,
                c: ControllerView): (r: StepResult)
    ensures m.current.None? ==> r == StepResult(m, k, false)
  {
    match m.current
    case None => StepResult(m, k, false)
    case Some(s) =>
      var d := Decide(s, dt, k, lc, c);
      var e := RunCalls(Machine(Some(d.instance), m.hooks), registry, d.calls);
      StepResult(e.machine, k.(spcActive := d.spcActive), e.thrown)
  }

  // -----------------------------------------------------------------------------------------
  // Properties of the machines

  /** A machine whose current state (if any) is one of its own states. */
  predicate InMachine(kind: Kind, m: Machine)
  {
    m.current.Some? ==> KindOf(m.current.value) == kind
  }

  lemma {:induction false} RunCallsStaysInMachine(kind: Kind, m: Machine, calls: seq<string>)
    requires InMachine(kind, m) && m.current.Some?
    requires forall i :: 0 <= i < |calls| ==> calls[i] in Registry(kind)
    ensures var e := RunCalls(m, Registry(kind), calls);
      !e.thrown && e.machine.current.Some? && InMachine(kind, e.machine)
      && e.machine.hooks[..|m.hooks|] == m.hooks
    decreases |calls|
  {
    if calls != [] {
      var e := SetStateSpec(m, Registry(kind), calls[0]);
      assert InMachine(kind, e.machine) by {
        if e.machine.current != m.current {
          assert e.machine.current == Some(Registry(kind)[calls[0]]);
        }
      }
      RunCallsStaysInMachine(kind, e.machine, calls[1..]);
      var e2 := RunCalls(e.machine, Registry(kind), calls[1..]);
      assert e2.machine.hooks[..|e.machine.hooks|] == e.machine.hooks;
      assert e.machine.hooks[..|m.hooks|] == m.hooks;
    }
  }

  /**
   * The three machines never throw: every `setState` call a state makes names a state of
   * its own machine, so the current state stays one of the machine's states, and hooks are
   * only ever appended.
   */
  lemma StepStaysInMachine(kind: Kind, m: Machine, dt: real, k: Keys, lc: bool, c: ControllerView)
    requires InMachine(kind, m)
    ensures var r := Step(m, Registry(kind), dt, k, lc, c);
      !r.thrown && InMachine(kind, r.machine) && (r.machine.current.Some? <==> m.current.Some?)
      && r.machine.hooks[..|m.hooks|] == m.hooks
  {
    if m.current.Some? {
      var d := Decide(m.current.value, dt, k, lc, c);
      RunCallsStaysInMachine(kind, Machine(Some(d.instance), m.hooks), d.calls);
    }
  }

  /** Each registry maps a name to a state of that name: after a switch, the name is current. */
  lemma RegistryNamesMatch(kind: Kind, name: string)
    requires name in Registry(kind)
    ensures Name(Registry(kind)[name]) == name && KindOf(Registry(kind)[name]) == kind
  {
  }

  /** Starting a machine, as each constructor does, enters its initial state with no `Exit`. */
  lemma StartEntersInitial(kind: Kind)
    ensures var e := SetStateSpec(Machine(None, []), Registry(kind), Name(Initial(kind)));
      !e.thrown && e.machine == Machine(Some(Initial(kind)), [Enter(Name(Initial(kind)), None)])
  {
  }

  function CharacterStep(s: State, h: seq<Hook>, k: Keys, c: ControllerView): StepResult
  {
    Step(Machine(Some(s), h), Registry(CharacterKind), 0.0, k, false, c)
  }

  /**
   * Idle's priorities: a movement key runs (with shift) or walks; else a fresh space press
   * latches and jumps; else a latched space or falling latches and falls; else idle stays.
   */
  lemma IdlePriorities(h: seq<Hook>, k: Keys, c: ControllerView)
    ensures var r := CharacterStep(Idle, h, k, c);
      && (Moving(k) ==> r.machine.current == Some(if k.shft then Run else Walk) && r.keys == k)
      && (!Moving(k) && k.spc && !k.spcActive ==> r.machine.current == Some(Jump) && r.keys.spcActive)
      && (!Moving(k) && !(k.spc && !k.spcActive) && (k.spcActive || c.falling) ==>
            (r.machine.current == Some(Fall) && r.keys.spcActive))
      && (!Moving(k) && !k.spc && !k.spcActive && !c.falling ==>
            (r.machine == Machine(Some(Idle), h) && r.keys == k))
  {
  }

  /** Jump lasts one update: it always switches to fall, exiting jump before entering fall. */
  lemma JumpAlwaysFalls(h: seq<Hook>, k: Keys, c: ControllerView)
    ensures var r := CharacterStep(Jump, h, k, c);
      r.machine == Machine(Some(Fall), h + [Exit("jump"), Enter("fall", Some("jump"))]) && r.keys == k
  {
  }

  /**
   * Fall stays put, keys untouched, while the controller is falling; on landing the jump
   * latch is cleared and the keys choose run, walk or idle.
   */
  lemma FallLands(h: seq<Hook>, k: Keys, c: ControllerView)
    ensures var r := CharacterStep(Fall, h, k, c);
      && (c.falling ==> r.machine == Machine(Some(Fall), h) && r.keys == k)
      && (!c.falling ==>
            (!r.keys.spcActive
             && r.machine.current == Some(if Moving(k) then (if k.shft then Run else Walk) else Idle)))
  {
  }

  /** A jump starts only from a fresh space press with the latch clear, and sets the latch. */
  lemma JumpNeedsFreshPress(s: State, h: seq<Hook>, k: Keys, c: ControllerView)
    requires KindOf(s) == CharacterKind && s != Jump
    ensures var r := CharacterStep(s, h, k, c);
      r.machine.current == Some(Jump) ==> k.spc && !k.spcActive && r.keys.spcActive
  {
  }

  /** The jump latch is released only by the fall state on landing. */
  lemma LatchReleasedOnlyOnLanding(s: State, h: seq<Hook>, k: Keys, c: ControllerView)
    requires KindOf(s) == CharacterKind
    ensures var r := CharacterStep(s, h, k, c);
      k.spcActive && !r.keys.spcActive ==> s == Fall && !c.falling
  {
  }

  /**
   * One `update` of the character machine in the run state with the corrected run state
   * (`RunUpdate`) in place of the code as written.
   */
  function CorrectedRunStep(h: seq<Hook>, k: Keys, c: ControllerView): StepResult
  {
    var d := RunUpdate(k, c.falling);
    var e := RunCalls(Machine(Some(Run), h), Registry(CharacterKind), d.calls);
    StepResult(e.machine, k.(spcActive := d.spcActive), e.thrown)
  }

  /**
   * On the ground and moving, walk and run follow the shift key in both directions once the
   * run state is corrected; releasing shift then leaves run and enters walk from run.
   */
  lemma WalkRunFollowShift(h: seq<Hook>, k: Keys, c: ControllerView)
    requires Moving(k) && !k.spc && !k.spcActive && !c.falling
    ensures CharacterStep(Walk, h, k, c).machine.current == Some(if k.shft then Run else Walk)
    ensures CorrectedRunStep(h, k, c).machine.current == Some(if k.shft then Run else Walk)
    ensures !k.shft ==> CorrectedRunStep(h, k, c).machine.hooks == h + [Exit("run"), Enter("walk", Some("run"))]
  {
  }

  /**
   * As written, the run state never asks for walk: holding a movement key without shift
   * calls `setState('run')`, which changes nothing, so the machine keeps running.
   */
  lemma RunAsWrittenNeverWalks(h: seq<Hook>, k: Keys, c: ControllerView)
    ensures "walk" !in RunUpdateAsWritten(k, c.falling).calls
    ensures CharacterStep(Run, h, k, c).machine.current != Some(Walk)
    ensures Moving(k) && !k.shft && !k.spc && !k.spcActive && !c.falling ==>
      CharacterStep(Run, h, k, c) == StepResult(Machine(Some(Run), h), k, false)
  {
  }

  /**
   * As written, the character machine never enters walk from run, the one hook call whose
   * animation code reads an undefined name (`ration`).
   */
  lemma NeverWalkFromRun(s: State, h: seq<Hook>, k: Keys, c: ControllerView)
    requires KindOf(s) == CharacterKind
    ensures var r := CharacterStep(s, h, k, c);
      forall i :: |h| <= i < |r.machine.hooks| ==> r.machine.hooks[i] != Enter("walk", Some("run"))
  {
  }

  /** The drone's transitions: fire needs the trigger; an empty magazine wins over release. */
  lemma DroneTransitions(s: State, h: seq<Hook>, lc: bool, c: ControllerView)
    requires KindOf(s) == DroneKind
    ensures var r := Step(Machine(Some(s), h), Registry(DroneKind), 0.0, Keys(false, false, false, false, false, false, false), lc, c);
      && (s == DroneIdle ==> r.machine.current == Some(if lc then Fire else DroneIdle))
      && (s == Fire ==> r.machine.current == Some(if c.magazine == 0 then Empty else if !lc then DroneIdle else Fire))
      && (s == Empty ==> r.machine.current == Some(if c.magazine != 0 then DroneIdle else Empty))
      && (r.machine.current == Some(Fire) ==> lc)
  {
  }

  function EnemyStep(s: State, h: seq<Hook>, dt: real, c: ControllerView): StepResult
  {
    Step(Machine(Some(s), h), Registry(EnemyKind), dt, Keys(false, false, false, false, false, false, false), false, c)
  }

  /**
   * Wander switches to aggro, with a fresh timer, exactly when the target is within the far
   * range, in view, and either within close range or first on the ray.
   */
  lemma WanderToAggro(h: seq<Hook>, dt: real, c: ControllerView)
    ensures var r := EnemyStep(Wander, h, dt, c);
      && (r.machine.current == Some(Aggro(0.0)) <==>
            c.distance <= c.far && c.inView && (c.distance <= c.close || c.ray == HitTarget))
      && (r.machine.current != Some(Aggro(0.0)) ==> r.machine == Machine(Some(Wander), h))
  {
  }

  /**
   * A timer at the maximum sends the enemy back to wander; because the update goes on, a
   * target in view within half the far range sends it on to shoot in the same update.
   */
  lemma AggroTimeout(t: real, h: seq<Hook>, dt: real, c: ControllerView)
    requires t >= MaxAggroTime && c.far >= 0.0
    ensures var r := EnemyStep(Aggro(t), h, dt, c);
      r.machine.current == Some(if c.inView && c.distance <= c.far / 2.0 then Shoot else Wander)
  {
  }

  /**
   * Before the timeout, aggro shoots when the target is within half the far range and the
   * view test passes.
   */
  lemma AggroToShoot(t: real, h: seq<Hook>, dt: real, c: ControllerView)
    requires t < MaxAggroTime && c.far >= 0.0
    ensures var r := EnemyStep(Aggro(t), h, dt, c);
      (r.machine.current == Some(Shoot) <==> c.inView && c.distance <= c.far / 2.0)
      && (r.machine.current != Some(Shoot) ==> r.machine.current.value.Aggro?)
  {
  }

  /**
   * While aggro lasts, its timer stands still exactly when the target is in range, in view
   * and not hidden behind another object; otherwise it grows by one or (out of range and
   * blocked) two elapsed intervals.
   */
  lemma AggroTimer(t: real, h: seq<Hook>, dt: real, c: ControllerView)
    requires t < MaxAggroTime && dt > 0.0
    requires !(c.inView && c.distance <= c.far / 2.0) && c.far >= 0.0
    ensures var r := EnemyStep(Aggro(t), h, dt, c);
      && r.machine.current.Some? && r.machine.current.value.Aggro?
      && (r.machine.current.value.aggrotime == t <==> c.distance <= c.far && c.inView && c.ray != HitOther)
      && t <= r.machine.current.value.aggrotime <= t + 2.0 * dt
  {
  }

  /** Shoot returns to aggro, with a fresh timer, once the target is beyond half the far range. */
  lemma ShootToAggro(h: seq<Hook>, dt: real, c: ControllerView)
    ensures var r := EnemyStep(Shoot, h, dt, c);
      r.machine.current == Some(if c.distance > c.far / 2.0 then Aggro(0.0) else Shoot)
  {
  }

  // -----------------------------------------------------------------------------------------
  // The machine object

  /** The input controller's key flags and left mouse button, shared with the DOM listeners. */
  class InputController {
    var keys: Keys
    var leftMouse: bool

    constructor (keys: Keys, leftMouse: bool)
      ensures this.keys == keys && this.leftMouse == leftMouse
    {
      this.keys := keys;
      this.leftMouse := leftMouse;
    }
  }

  /** `BasicFSA` with the three subclass constructors. */
  class BasicFSA {
    var current: Option<State>
    var states: map<string, State>
    /** The `Exit`/`Enter` hook calls made so far. */
    var hooks: seq<Hook>

    function View(): Machine
      reads this
    {
      Machine(current, hooks)
    }

    constructor CharacterFSA()
      ensures states == Registry(CharacterKind)
      ensures current == Some(Idle) && hooks == [Enter("idle", None)]
    {
      current, states, hooks := None, map[], [];
      new;
      AddState("idle", Idle);
      AddState("walk", Walk);
      AddState("run", Run);
      AddState("jump", Jump);
      AddState("fall", Fall);
      var _ := SetState("idle");
    }

    constructor DroneFSA()
      ensures states == Registry(DroneKind)
      ensures current == Some(DroneIdle) && hooks == [Enter("idle", None)]
    {
      current, states, hooks := None, map[], [];
      new;
      AddState("idle", DroneIdle);
      AddState("fire", Fire);
      AddState("empty", Empty);
      var _ := SetState("idle");
    }

    constructor EnemyFSA()
      ensures states == Registry(EnemyKind)
      ensures current == Some(Wander) && hooks == [Enter("wander", None)]
    {
      current, states, hooks := None, map[], [];
      new;
      AddState("wander", Wander);
      AddState("aggro", Aggro(0.0));
      AddState("shoot", Shoot);
      var _ := SetState("wander");
    }

    /** `_addState`: registers (or replaces) the class built for `name`. */
    method AddState(name: string, state: State)
      modifies this
      ensures states == old(states)[name := state]
      ensures current == old(current) && hooks == old(hooks)
    {
      states := states[name := state];
    }

    /** `setState`; `thrown` reports the exception of an unregistered name. */
    method SetState(name: string) returns (thrown: bool)
      modifies this
      ensures var e := SetStateSpec(old(View()), old(states), name);
        View() == e.machine && thrown == e.thrown
      ensures states == old(states)
      ensures old(current).Some? && Name(old(current).value) == name ==> unchanged(this)
    {
      var prevState := current;
      if prevState.Some? {
        if Name(prevState.value) == name {
          return false;
        }
        hooks := hooks + [Exit(Name(prevState.value))];
      }
      if name !in states {
        return true;
      }
      var state := states[name];
      current := Some(state);
      hooks := hooks + [EnterHook(state, prevState)];
      thrown := false;
    }

    /** `update(timeElapsed, input)`: runs the current state's update, if there is one. */
    method Update(timeElapsed: real, input: InputController, controller: ControllerView)
      returns (thrown: bool)
      modifies this, input
      ensures var r := Step(old(View()), old(states), timeElapsed, old(input.keys), old(input.leftMouse), controller);
        View() == r.machine && input.keys == r.keys && thrown == r.thrown
      ensures states == old(states) && input.leftMouse == old(input.leftMouse)
      ensures old(current).None? ==> unchanged(this) && unchanged(input)
    {
      if current.None? {
        return false;
      }
      var d := Decide(current.value, timeElapsed, input.keys, input.leftMouse, controller);
      input.keys := input.keys.(spcActive := d.spcActive);
      current := Some(d.instance);
      thrown := false;
      if |d.calls| > 0 {
        thrown := SetState(d.calls[0]);
      }
      if !thrown && |d.calls| > 1 {
        thrown := SetState(d.calls[1]);
      }
    }
  }
}
