/** The first, bare interpreter of `day2.rs`: a `step` over a slice of
    unsigned cells that knows only add (1), multiply (2) and halt (99), and a
    `run` that starts at pc 0 and steps until halt.  Every cell is read in
    Position mode. */
module Day2Intcode {
  import Intcode
  import Maybe

  /** The result of one `step`: the next pc and the updated cells, the halt
      (`None` in the source, cells untouched), or a panic. */
  datatype StepResult = Next(pc: nat, state: seq<nat>) | Stop | Panic

  /** `state'` is `state` with at most cell `addr` changed, to `v`. */
  ghost predicate OnlyCellChanged(state: seq<nat>, state': seq<nat>, addr: nat, v: nat)
  {
    && |state'| == |state|
    && addr < |state|
    && state'[addr] == v
    && forall i :: 0 <= i < |state| && i != addr ==> state'[i] == state[i]
  }

  /** Whether every index the add/multiply at `pc` touches is inside the slice. */
  predicate InBounds(pc: nat, state: seq<nat>)
  {
    && pc + 3 < |state|
    && state[pc + 1] < |state|
    && state[pc + 2] < |state|
    && state[pc + 3] < |state|
  }

  /** Opcode 1 stores the sum and opcode 2 the product of the cells the next
      two parameters point to, into the cell parameter 3 points to, and move
      on by 4; 99 stops with nothing changed; any other opcode, or an index
      outside the slice, panics. */
  function Step(pc: nat, state: seq<nat>): (r: StepResult)
    ensures pc < |state| && state[pc] == 99 <==> r == Stop
    ensures r.Next? <==> pc < |state| && (state[pc] == 1 || state[pc] == 2) && InBounds(pc, state)
    ensures r.Next? ==>
              && r.pc == pc + 4
              && var a, b := state[state[pc + 1]], state[state[pc + 2]];
                 OnlyCellChanged(state, r.state, state[pc + 3], if state[pc] == 1 then a + b else a * b)
  {
    if pc >= |state| then Panic
    else
      var opcode := state[pc];
      if opcode == 1 || opcode == 2 then
        if InBounds(pc, state) then
          var in1, in2, out := state[state[pc + 1]], state[state[pc + 2]], state[pc + 3];
          Next(pc + 4, state[out := if opcode == 1 then in1 + in2 else in1 * in2])
        else Panic
      else if opcode == 99 then Stop
      else Panic
  }

  datatype RunResult = Finished(pc: nat, state: seq<nat>) | Panicked | OutOfFuel

  /** The pc and cells reached from `pc` and `state` by `n` steps of `step`
      that each move on; `None` when one of them stops or panics. */
  function Steps(step: (nat, seq<nat>) -> StepResult, pc: nat, state: seq<nat>, n: nat): Maybe.Option<(nat, seq<nat>)>
    decreases n
  {
    if n == 0 then Maybe.Some((pc, state))
    else match step(pc, state)
      case Next(pc', state') => Steps(step, pc', state', n - 1)
      case _ => Maybe.None
  }

  /** `n` steps move on, and the step after them panics. */
  predicate PanicsAfter(step: (nat, seq<nat>) -> StepResult, pc: nat, state: seq<nat>, n: nat)
  {
    var c := Steps(step, pc, state, n);
    c.Some? && step(c.value.0, c.value.1) == Panic
  }

  /** The loop of `run` over a step function: step from `pc` until the step
      reports the halt; `fuel` bounds the steps.  A finished run ends on a
      halt reached by steps that each moved on; a panicking run panics on a
      step so reached; a run out of fuel has moved on `fuel` times. */
  function Drive(step: (nat, seq<nat>) -> StepResult, pc: nat, state: seq<nat>, fuel: nat): (r: RunResult)
    ensures r.Finished? ==> step(r.pc, r.state) == Stop
    ensures r.Finished? ==> exists n: nat :: n < fuel && Steps(step, pc, state, n) == Maybe.Some((r.pc, r.state))
    ensures r.Panicked? ==> exists n: nat :: n < fuel && PanicsAfter(step, pc, state, n)
    ensures r.OutOfFuel? ==> Steps(step, pc, state, fuel).Some?
    decreases fuel
  {
    if fuel == 0 then OutOfFuel
    else match step(pc, state)
      case Stop =>
        assert Steps(step, pc, state, 0) == Maybe.Some((pc, state));
        Finished(pc, state)
      case Panic =>
        assert PanicsAfter(step, pc, state, 0);
        Panicked
      case Next(pc', state') =>
        var r := Drive(step, pc', state', fuel - 1);
        assert r.Finished? ==> exists n: nat :: n < fuel && Steps(step, pc, state, n) == Maybe.Some((r.pc, r.state)) by {
          if r.Finished? {
            var n: nat :| n < fuel - 1 && Steps(step, pc', state', n) == Maybe.Some((r.pc, r.state));
            assert Steps(step, pc, state, n + 1) == Steps(step, pc', state', n);
          }
        }
        assert r.Panicked? ==> exists n: nat :: n < fuel && PanicsAfter(step, pc, state, n) by {
          if r.Panicked? {
            var n: nat :| n < fuel - 1 && PanicsAfter(step, pc', state', n);
            assert Steps(step, pc, state, n + 1) == Steps(step, pc', state', n);
            assert PanicsAfter(step, pc, state, n + 1);
          }
        }
        r
  }

  /** Conversely, the loop passes through every configuration that steps
      which move on reach within the budget, and carries on from there. */
  lemma {:induction false} DriveAfterSteps(step: (nat, seq<nat>) -> StepResult, pc: nat, state: seq<nat>, fuel: nat, n: nat)
    requires n <= fuel && Steps(step, pc, state, n).Some?
    ensures var c := Steps(step, pc, state, n).value;
            Drive(step, pc, state, fuel) == Drive(step, c.0, c.1, fuel - n)
    decreases n
  {
    if n > 0 {
      var r := step(pc, state);
      DriveAfterSteps(step, r.pc, r.state, fuel - 1, n - 1);
    }
  }

  /** Steps that keep the number of cells give runs that keep it. */
  lemma {:induction false} DriveKeepsLength(step: (nat, seq<nat>) -> StepResult, pc: nat, state: seq<nat>, fuel: nat)
    requires forall p: nat, s: seq<nat> :: step(p, s).Next? ==> |step(p, s).state| == |s|
    ensures Drive(step, pc, state, fuel).Finished? ==> |Drive(step, pc, state, fuel).state| == |state|
    decreases fuel
  {
    if fuel > 0 && step(pc, state).Next? {
      var r := step(pc, state);
      DriveKeepsLength(step, r.pc, r.state, fuel - 1);
    }
  }

  /** `big` takes, on the machine holding `pc` and `state`, the step that
      `result` describes: the same pc and cells on a move, a halt on a stop. */
  ghost predicate Mirrors(big: Intcode.Machine -> Intcode.Outcome, result: StepResult,
                          pc: nat, state: seq<nat>, input: seq<int>, output: seq<int>)
  {
    var m := Intcode.Machine(pc, state, input, output);
    match result
    case Next(pc', state') => big(m) == Intcode.Ok(m.(pc := pc', memory := state'), Intcode.Continue)
    case Stop => big(m) == Intcode.Ok(m, Intcode.Halt)
    case Panic => true
  }

  /** A finished loop over `step` is a halted loop over any `big` that
      mirrors each step `step` takes without panicking. */
  lemma {:induction false} DriveAgrees(step: (nat, seq<nat>) -> StepResult, big: Intcode.Machine -> Intcode.Outcome,
                                       pc: nat, state: seq<nat>, fuel: nat, input: seq<int>, output: seq<int>)
    requires forall p: nat, s: seq<nat> :: Mirrors(big, step(p, s), p, s, input, output)
    requires Drive(step, pc, state, fuel).Finished?
    ensures var r := Drive(step, pc, state, fuel);
            Intcode.Iterate(big, Intcode.Machine(pc, state, input, output), fuel)
              == Intcode.Halted(Intcode.Machine(r.pc, r.state, input, output))
    decreases fuel
  {
    assert Mirrors(big, step(pc, state), pc, state, input, output);
    match step(pc, state)
    case Next(pc', state') =>
      DriveAgrees(step, big, pc', state', fuel - 1, input, output);
    case Stop =>
  }

  /** A loop finishes at the first configuration, reached by steps that
      move on within the budget, at which the step stops. */
  lemma DriveFinishesAt(step: (nat, seq<nat>) -> StepResult, pc: nat, state: seq<nat>, fuel: nat, n: nat)
    requires n < fuel && Steps(step, pc, state, n).Some?
    requires var c := Steps(step, pc, state, n).value; step(c.0, c.1) == Stop
    ensures var c := Steps(step, pc, state, n).value; Drive(step, pc, state, fuel) == Finished(c.0, c.1)
  {
    DriveAfterSteps(step, pc, state, fuel, n);
  }

  /** Steps from `pc` until `Step` reports the halt. */
  function RunFrom(pc: nat, state: seq<nat>, fuel: nat): (r: RunResult)
    ensures r.Finished? ==> Step(r.pc, r.state) == Stop && |r.state| == |state|
    ensures r.Finished? ==> exists n: nat :: n < fuel && Steps(Step, pc, state, n) == Maybe.Some((r.pc, r.state))
    ensures r.Panicked? ==> exists n: nat :: n < fuel && PanicsAfter(Step, pc, state, n)
    ensures r.OutOfFuel? ==> Steps(Step, pc, state, fuel).Some?
  {
    DriveKeepsLength(Step, pc, state, fuel);
    Drive(Step, pc, state, fuel)
  }

  /** The bare machine is the full interpreter restricted to add, multiply
      and halt: each of its steps is the full machine's step on the same
      memory, with the queues untouched. */
  lemma StepAgreesWithIntcode(pc: nat, state: seq<nat>, input: seq<int>, output: seq<int>)
    requires Step(pc, state) != Panic
    ensures var m := Intcode.Machine(pc, state, input, output);
            match Step(pc, state)
            case Next(pc', state') => Intcode.Step(m) == Intcode.Ok(m.(pc := pc', memory := state'), Intcode.Continue)
            case Stop => Intcode.Step(m) == Intcode.Ok(m, Intcode.Halt)
            case Panic => false
  {
    var m := Intcode.Machine(pc, state, input, output);
    var ins := Intcode.ParseOpcode(state[pc]);
    assert ins.modes == [Intcode.Position, Intcode.Position, Intcode.Position];
    if state[pc] != 99 {
      var mem: seq<int> := state;
      var out := state[pc + 3];
      var v := Intcode.Apply(if state[pc] == 1 then Intcode.Add else Intcode.Mul,
                             state[state[pc + 1]], state[state[pc + 2]]);
      assert Intcode.Write(mem, pc + 3, v) == Maybe.Some(mem[out := v]);
    }
  }

  /** A run from the same cells on the full interpreter, with any queues,
      halts where the day-2 run finishes, on the same cells. */
  lemma RunFromAgreesWithIntcode(pc: nat, state: seq<nat>, fuel: nat, input: seq<int>, output: seq<int>)
    requires RunFrom(pc, state, fuel).Finished?
    ensures var r := RunFrom(pc, state, fuel);
            Intcode.Run(Intcode.Machine(pc, state, input, output), fuel)
              == Intcode.Halted(Intcode.Machine(r.pc, r.state, input, output))
  {
    forall p: nat, s: seq<nat>
      ensures Mirrors(Intcode.Step, Step(p, s), p, s, input, output)
    {
      if Step(p, s) != Panic {
        StepAgreesWithIntcode(p, s, input, output);
      }
    }
    DriveAgrees(Step, Intcode.Step, pc, state, fuel, input, output);
  }

  /** `run`: start at pc 0.  A finished run is the full interpreter's run of
      the same program, with empty queues, halting on the same cells. */
  function Run(state: seq<nat>, fuel: nat): (r: RunResult)
    ensures r.Finished? ==> Step(r.pc, r.state) == Stop
    ensures r.Finished? ==> exists n: nat :: n < fuel && Steps(Step, 0, state, n) == Maybe.Some((r.pc, r.state))
    ensures r.Panicked? ==> exists n: nat :: n < fuel && PanicsAfter(Step, 0, state, n)
    ensures r.OutOfFuel? ==> Steps(Step, 0, state, fuel).Some?
    ensures r.Finished? ==>
              Intcode.Run(Intcode.Load(state, []), fuel) == Intcode.Halted(Intcode.Machine(r.pc, r.state, [], []))
  {
    var r := RunFrom(0, state, fuel);
    if r.Finished? then
      RunFromAgreesWithIntcode(0, state, fuel, [], []);
      r
    else r
  }

  lemma RunExample1()
    ensures Run([1, 9, 10, 3, 2, 3, 11, 0, 99, 30, 40, 50], 3)
         == Finished(8, [3500, 9, 10, 70, 2, 3, 11, 0, 99, 30, 40, 50])
  {
    var s0 := [1, 9, 10, 3, 2, 3, 11, 0, 99, 30, 40, 50];
    var s1 := [1, 9, 10, 70, 2, 3, 11, 0, 99, 30, 40, 50];
    var s2 := [3500, 9, 10, 70, 2, 3, 11, 0, 99, 30, 40, 50];
    assert Step(0, s0) == Next(4, s1);
    assert Step(4, s1) == Next(8, s2);
    assert Step(8, s2) == Stop;
  }

  lemma RunExample2()
    ensures Run([1, 0, 0, 0, 99], 2) == Finished(4, [2, 0, 0, 0, 99])
  {
    assert Step(0, [1, 0, 0, 0, 99]) == Next(4, [2, 0, 0, 0, 99]);
    assert Step(4, [2, 0, 0, 0, 99]) == Stop;
  }

  lemma RunExample3()
    ensures Run([2, 3, 0, 3, 99], 2) == Finished(4, [2, 3, 0, 6, 99])
  {
    assert Step(0, [2, 3, 0, 3, 99]) == Next(4, [2, 3, 0, 6, 99]);
    assert Step(4, [2, 3, 0, 6, 99]) == Stop;
  }

  lemma RunExample4()
    ensures Run([2, 4, 4, 5, 99, 0], 2) == Finished(4, [2, 4, 4, 5, 99, 9801])
  {
    assert Step(0, [2, 4, 4, 5, 99, 0]) == Next(4, [2, 4, 4, 5, 99, 9801]);
    assert Step(4, [2, 4, 4, 5, 99, 9801]) == Stop;
  }

  lemma RunExample5()
    ensures Run([1, 1, 1, 4, 99, 5, 6, 0, 99], 3) == Finished(8, [30, 1, 1, 4, 2, 5, 6, 0, 99])
  {
    var s0 := [1, 1, 1, 4, 99, 5, 6, 0, 99];
    var s1 := [1, 1, 1, 4, 2, 5, 6, 0, 99];
    var s2 := [30, 1, 1, 4, 2, 5, 6, 0, 99];
    assert Step(0, s0) == Next(4, s1);
    assert Step(4, s1) == Next(8, s2);
    assert Step(8, s2) == Stop;
  }
}
