/** The earlier interpreter of `day5.rs`.  Its decoder, addressing and the
    handlers it has (add, mul, input, output, halt) are the same text as in
    `intcode.rs` and are taken from `Intcode`; what differs is the dispatch
    table, which holds only opcodes 1, 2, 3, 4 and 99. */
module Day5Intcode {
  import opened Maybe
  import opened Intcode

  /** The opcodes the five-entry dispatch table holds. */
  predicate Known5(opcode: int)
  {
    1 <= opcode <= 4 || opcode == 99
  }

  /** The five-entry dispatch table as an exhaustive match. */
  function Dispatch5(m: Machine, ins: Instruction): (r: Outcome)
    requires |ins.modes| >= 3
    ensures !Known5(ins.opcode) <==> r == Err(UnknownOpcode(ins.opcode))
    ensures ins.opcode == 99 <==> r == Ok(m, Halt)
  {
    match ins.opcode
    case 1 => Arith(m, ins.modes, Add)
    case 2 => Arith(m, ins.modes, Mul)
    case 3 => Input(m)
    case 4 => Output(m, ins.modes)
    case 99 => Ok(m, Halt)
    case _ => Err(UnknownOpcode(ins.opcode))
  }

  /** One step of the day-5 machine: the jumps and comparisons (5-8) are
      unknown opcodes here.  Every step it does take is the step the full
      interpreter takes on the same machine. */
  function Step5(m: Machine): (r: Outcome)
    ensures Decode(m).None? ==> r.Err?
    ensures Decode(m).Some? && !Known5(Decode(m).value.opcode) ==> r == Err(UnknownOpcode(Decode(m).value.opcode))
    ensures Decode(m).Some? && Known5(Decode(m).value.opcode) ==> r == Step(m)
    ensures r.Ok? && r.signal == Halt ==> r.machine == m
  {
    if m.pc >= |m.memory| then Err(BadAddress(m.pc))
    else if m.memory[m.pc] < 0 then Err(NegativeWord(m.memory[m.pc]))
    else Dispatch5(m, ParseOpcode(m.memory[m.pc]))
  }

  /** `run` of the day-5 machine: step while the step reports Continue. */
  function Run5(m: Machine, fuel: nat): (r: RunResult)
    ensures r.Halted? ==> Step5(r.machine) == Ok(r.machine, Halt)
    ensures r.Faulted? ==> Step5(r.machine) == Err(r.fault)
    ensures r.OutOfFuel? ==> Steps(Step5, m, fuel) == Some(r.machine)
    ensures !r.OutOfFuel? ==> exists n: nat :: n < fuel && Steps(Step5, m, n) == Some(r.machine)
  {
    IterateSteps(Step5, m, fuel);
    Iterate(Step5, m, fuel)
  }

  /** A day-5 run that halts is a run of the full interpreter that halts in
      the same state: the later machine only adds opcodes. */
  lemma Run5Refines(m: Machine, fuel: nat)
    requires Run5(m, fuel).Halted?
    ensures Run(m, fuel) == Run5(m, fuel)
  {
    forall x | Step5(x).Ok?
      ensures Step(x) == Step5(x)
    {
    }
    IterateAgrees(Step5, Step, m, fuel);
  }

  /** The jumps and comparisons are rejected by the day-5 table. */
  lemma JumpsUnknownToDay5(m: Machine)
    requires Decode(m).Some? && 5 <= Decode(m).value.opcode <= 8
    ensures Step5(m).Err? && Step(m) != Step5(m)
  {
  }
}
