/** The full Intcode interpreter of `intcode.rs`: a decoder that splits an
    instruction word into an opcode and parameter modes, two addressing modes,
    a fixed-length memory, a FIFO input queue, an append-only output log and
    the nine opcodes 1-8 and 99.  The machine is an immutable value and every
    handler is a pure function; the source's panics (out-of-bounds indexing,
    popping an empty queue, an unknown opcode, a negative instruction word or
    address) become `Err` outcomes carrying a `Fault`. */
module Intcode {
  import opened Maybe
  import opened Integers

  // ---------------------------------------------------------------------------
  // Decimal digits, the reference the decoder is specified against
  // ---------------------------------------------------------------------------

  function Pow10(i: nat): (p: nat)
    ensures p >= 1
  {
    if i == 0 then 1 else 10 * Pow10(i - 1)
  }

  /** Decimal digit `i` of `n`, counting from the least significant digit 0. */
  function DigitAt(n: nat, i: nat): (d: nat)
    ensures d < 10
  {
    (n / Pow10(i)) % 10
  }

  /** Number of significant decimal digits of `n`; zero has none. */
  function NumDigits(n: nat): nat
  {
    if n == 0 then 0 else 1 + NumDigits(n / 10)
  }

  function Max(a: int, b: int): int
  {
    if a < b then b else a
  }

  /** Dividing by 10 and then by 10^i is dividing by 10^(i+1). */
  lemma DivPow10Step(n: nat, i: nat)
    ensures n / Pow10(i + 1) == (n / 10) / Pow10(i)
  {
    var p := Pow10(i);
    var q1, r1 := n / 10, n % 10;
    var q2, r2 := q1 / p, q1 % p;
    assert n == 10 * q1 + r1;
    assert q1 == p * q2 + r2;
    assert n == (10 * p) * q2 + (10 * r2 + r1) by {
      calc {
        n;
        10 * (p * q2 + r2) + r1;
        (10 * p) * q2 + (10 * r2 + r1);
      }
    }
    assert 10 * r2 + r1 < 10 * p by {
      assert r2 <= p - 1;
      assert 10 * r2 <= 10 * p - 10;
    }
    DivisionUnique(n, 10 * p, q2, 10 * r2 + r1);
  }

  lemma {:induction false} DigitAtSuccessor(n: nat, i: nat)
    ensures DigitAt(n, i + 1) == DigitAt(n / 10, i)
  {
    DivPow10Step(n, i);
  }

  /** A number is odd exactly when its last decimal digit is odd. */
  lemma ParityOfLastDigit(n: nat)
    ensures n % 2 == (n % 10) % 2
  {
    var q, r := n / 10, n % 10;
    assert n == 2 * (5 * q) + r;
    DivisionUnique(n, 2, 5 * q + r / 2, r % 2);
  }

  lemma {:induction false} BelowPow10NumDigits(n: nat)
    ensures n < Pow10(NumDigits(n))
  {
    if n > 0 {
      BelowPow10NumDigits(n / 10);
    }
  }

  /** Digits above the most significant one are zero. */
  lemma {:induction false} DigitAtBeyond(n: nat, i: nat)
    requires i >= NumDigits(n)
    ensures DigitAt(n, i) == 0
  {
    if n > 0 {
      DigitAtSuccessor(n, i - 1);
      DigitAtBeyond(n / 10, i - 1);
    }
  }

  // ---------------------------------------------------------------------------
  // Decoder (parse_opcode)
  // ---------------------------------------------------------------------------

  datatype ArgMode = Immediate | Position

  datatype Instruction = Instruction(opcode: nat, modes: seq<ArgMode>)

  /** The decoder's first loop: while the remaining quotient is positive, emit
      Immediate when it is odd and Position otherwise, then drop a digit. */
  function ModesOf(rest: nat): (ms: seq<ArgMode>)
    ensures |ms| == NumDigits(rest)
    ensures forall i :: 0 <= i < |ms| ==> (ms[i] == Immediate <==> DigitAt(rest, i) % 2 == 1)
  {
    if rest == 0 then []
    else
      var tail := ModesOf(rest / 10);
      ParityOfLastDigit(rest);
      forall i | 1 <= i < 1 + |tail|
        ensures DigitAt(rest, i) == DigitAt(rest / 10, i - 1)
      {
        DigitAtSuccessor(rest, i - 1);
      }
      [if rest % 2 == 1 then Immediate else Position] + tail
  }

  /** The decoder's second loop: pad with Position until there are three modes. */
  function PadModes(modes: seq<ArgMode>): (ms: seq<ArgMode>)
    ensures |ms| == Max(3, |modes|)
    ensures ms[..|modes|] == modes
    ensures forall i :: |modes| <= i < |ms| ==> ms[i] == Position
    decreases 3 - |modes|
  {
    if |modes| < 3 then
      var ms := PadModes(modes + [Position]);
      assert ms[..|modes|] == ms[..|modes| + 1][..|modes|];
      ms
    else modes
  }

  /** Splits an instruction word into its opcode (the last two decimal digits)
      and at least three parameter modes, one per decimal digit of `code / 100`
      starting from the least significant, each Immediate exactly when that
      digit is odd; digits past the top one read as 0 and give Position.  The
      source asserts `code >= 0`. */
  function ParseOpcode(code: int): (r: Instruction)
    requires code >= 0
    ensures r.opcode == code % 100 && r.opcode < 100
    ensures |r.modes| == Max(3, NumDigits(code / 100))
    ensures forall i :: 0 <= i < |r.modes| ==>
              (r.modes[i] == Immediate <==> DigitAt(code / 100, i) % 2 == 1)
  {
    var rest := code / 100;
    var modes := PadModes(ModesOf(rest));
    forall i | NumDigits(rest) <= i < |modes|
      ensures DigitAt(rest, i) == 0
    {
      DigitAtBeyond(rest, i);
    }
    Instruction(code % 100, modes)
  }

  lemma ParseOpcodeExamples()
    ensures ParseOpcode(3) == Instruction(3, [Position, Position, Position])
    ensures ParseOpcode(1002) == Instruction(2, [Position, Immediate, Position])
    ensures ParseOpcode(144) == Instruction(44, [Immediate, Position, Position])
    ensures ParseOpcode(20200) == Instruction(0, [Position, Position, Position])
  {
    assert ParseOpcode(3) == Instruction(3, [Position, Position, Position]);
    assert ParseOpcode(1002) == Instruction(2, [Position, Immediate, Position]);
    assert ParseOpcode(144) == Instruction(44, [Immediate, Position, Position]);
    ModeDigitTwo();
  }

  /** Mode digit 2 decodes as Position: only the parity of a digit counts. */
  lemma ModeDigitTwo()
    ensures ParseOpcode(20200) == Instruction(0, [Position, Position, Position])
  {
  }

  // ---------------------------------------------------------------------------
  // Machine state and addressing (read, write)
  // ---------------------------------------------------------------------------

  /** `pc` indexes `memory`, whose length never changes; `input` is consumed
      from the front and `output` only ever grows at the back. */
  datatype Machine = Machine(pc: nat, memory: seq<int>, input: seq<int>, output: seq<int>)

  /** What one instruction reports: keep going, or stop. */
  datatype Signal = Continue | Halt

  /** The conditions under which the source panics instead of stepping. */
  datatype Fault =
    | BadAddress(addr: int)       // an index outside the memory
    | NegativeWord(word: int)     // the decoder's `code >= 0` assertion
    | UnknownOpcode(opcode: int)  // no entry in the dispatch table
    | EmptyInput                  // `pop_front().unwrap()` on an empty queue
    | NegativeTarget(target: int) // a taken jump to a negative address

  datatype Outcome = Ok(machine: Machine, signal: Signal) | Err(fault: Fault)

  /** The operand held by parameter cell `addr`: the cell itself in Immediate
      mode, the cell it points to in Position mode; `None` where the source
      would index outside the memory. */
  function Read(mem: seq<int>, addr: nat, mode: ArgMode): (r: Option<int>)
    ensures r.Some? <==> addr < |mem| && (mode == Position ==> Target(mem, addr).Some?)
    ensures r.Some? && mode == Immediate ==> addr < |mem| && r.value == mem[addr]
    ensures r.Some? && mode == Position ==> Target(mem, addr).Some? && r.value == mem[Target(mem, addr).value]
  {
    if addr >= |mem| then None
    else match mode
      case Immediate => Some(mem[addr])
      case Position => if 0 <= mem[addr] < |mem| then Some(mem[mem[addr]]) else None
  }

  /** The address a write through parameter cell `addr` lands on.  The
      destination's mode is never consulted: writes always go through the
      pointer stored in the parameter cell. */
  function Target(mem: seq<int>, addr: nat): Option<nat>
  {
    if addr < |mem| && 0 <= mem[addr] < |mem| then Some(mem[addr]) else None
  }

  /** `mem'` is `mem` with exactly cell `addr` set to `v`. */
  ghost predicate StoredAt(mem: seq<int>, mem': seq<int>, addr: nat, v: int)
  {
    && |mem'| == |mem|
    && addr < |mem|
    && mem'[addr] == v
    && forall i :: 0 <= i < |mem| && i != addr ==> mem'[i] == mem[i]
  }

  /** Stores `value` through the pointer in parameter cell `addr`: exactly one
      cell, the one that pointer names, changes; the length stays the same. */
  function Write(mem: seq<int>, addr: nat, value: int): (r: Option<seq<int>>)
    ensures r.Some? <==> Target(mem, addr).Some?
    ensures r.Some? ==> StoredAt(mem, r.value, Target(mem, addr).value, value)
  {
    if addr < |mem| && 0 <= mem[addr] < |mem| then Some(mem[mem[addr] := value]) else None
  }

  /** A value written through a parameter cell can be read back through the
      same cell in Position mode, unless the write overwrote that very
      parameter cell (self-modifying code). */
  lemma ReadAfterWrite(mem: seq<int>, addr: nat, value: int)
    requires Write(mem, addr, value).Some?
    requires mem[addr] != addr
    ensures Read(Write(mem, addr, value).value, addr, Position) == Some(value)
  {
  }

  // ---------------------------------------------------------------------------
  // Instruction handlers
  // ---------------------------------------------------------------------------

  /** Operand `k` (1-based) of the instruction at `m.pc`. */
  function Operand(m: Machine, modes: seq<ArgMode>, k: nat): Option<int>
    requires 1 <= k <= |modes|
  {
    Read(m.memory, m.pc + k, modes[k - 1])
  }

  /** The four three-parameter instructions that store a value computed from
      two operands. */
  datatype BinOp = Add | Mul | LessThan | Equals

  function Apply(op: BinOp, a: int, b: int): int
  {
    match op
    case Add => a + b
    case Mul => a * b
    case LessThan => if a < b then 1 else 0
    case Equals => if a == b then 1 else 0
  }

  /** add, mul, less_than and equals: read two operands, store the result
      through parameter 3, advance the pc by 4.  Nothing else changes: not the
      other cells, not the memory length, not the queues. */
  function Arith(m: Machine, modes: seq<ArgMode>, op: BinOp): (r: Outcome)
    requires |modes| >= 2
    ensures r.Ok? <==>
              Operand(m, modes, 1).Some? && Operand(m, modes, 2).Some? && Target(m.memory, m.pc + 3).Some?
    ensures r.Err? ==> r.fault.BadAddress?
    ensures r.Ok? ==>
              && r.signal == Continue
              && r.machine.pc == m.pc + 4
              && r.machine.input == m.input
              && r.machine.output == m.output
              && StoredAt(m.memory, r.machine.memory, Target(m.memory, m.pc + 3).value,
                          Apply(op, Operand(m, modes, 1).value, Operand(m, modes, 2).value))
    ensures r.Ok? && (op == LessThan || op == Equals) ==>
              var t := Target(m.memory, m.pc + 3).value;
              r.machine.memory[t] == 0 || r.machine.memory[t] == 1
  {
    match (Operand(m, modes, 1), Operand(m, modes, 2))
    case (Some(a), Some(b)) =>
      (match Write(m.memory, m.pc + 3, Apply(op, a, b))
       case Some(mem) => Ok(m.(pc := m.pc + 4, memory := mem), Continue)
       case None => Err(BadAddress(m.pc + 3)))
    case (None, _) => Err(BadAddress(m.pc + 1))
    case (_, None) => Err(BadAddress(m.pc + 2))
  }

  /** input: takes exactly the front of the queue and stores it through
      parameter 1, advancing the pc by 2; an empty queue is a fault. */
  function Input(m: Machine): (r: Outcome)
    ensures |m.input| == 0 ==> r == Err(EmptyInput)
    ensures r.Ok? <==> |m.input| > 0 && Target(m.memory, m.pc + 1).Some?
    ensures r.Ok? ==>
              && r.signal == Continue
              && r.machine.pc == m.pc + 2
              && [m.input[0]] + r.machine.input == m.input
              && r.machine.output == m.output
              && StoredAt(m.memory, r.machine.memory, Target(m.memory, m.pc + 1).value, m.input[0])
  {
    if |m.input| == 0 then Err(EmptyInput)
    else match Write(m.memory, m.pc + 1, m.input[0])
      case Some(mem) => Ok(m.(pc := m.pc + 2, memory := mem, input := m.input[1..]), Continue)
      case None => Err(BadAddress(m.pc + 1))
  }

  /** output: appends exactly one value, operand 1, to the output log and
      advances the pc by 2; memory and input are untouched. */
  function Output(m: Machine, modes: seq<ArgMode>): (r: Outcome)
    requires |modes| >= 1
    ensures r.Ok? <==> Operand(m, modes, 1).Some?
    ensures r.Err? ==> r.fault.BadAddress?
    ensures r.Ok? ==>
              && r.signal == Continue
              && r.machine.pc == m.pc + 2
              && r.machine.output == m.output + [Operand(m, modes, 1).value]
              && r.machine.memory == m.memory
              && r.machine.input == m.input
  {
    match Operand(m, modes, 1)
    case Some(v) => Ok(m.(pc := m.pc + 2, output := m.output + [v]), Continue)
    case None => Err(BadAddress(m.pc + 1))
  }

  /** jump_if_true (`ifNonZero`) and jump_if_false (`!ifNonZero`): both
      operands are always read; when operand 1 is non-zero (resp. zero) the pc
      becomes operand 2, which must not be negative, otherwise it advances by 3.
      Memory and both queues are untouched. */
  function Jump(m: Machine, modes: seq<ArgMode>, ifNonZero: bool): (r: Outcome)
    requires |modes| >= 2
    ensures r.Ok? <==>
              && Operand(m, modes, 1).Some? && Operand(m, modes, 2).Some?
              && ((Operand(m, modes, 1).value != 0) == ifNonZero ==> Operand(m, modes, 2).value >= 0)
    ensures r.Ok? ==>
              && r.signal == Continue
              && r.machine.memory == m.memory
              && r.machine.input == m.input
              && r.machine.output == m.output
              && r.machine.pc == (if (Operand(m, modes, 1).value != 0) == ifNonZero
                                  then Operand(m, modes, 2).value else m.pc + 3)
  {
    match (Operand(m, modes, 1), Operand(m, modes, 2))
    case (Some(c), Some(t)) =>
      if (c != 0) == ifNonZero then
        if t >= 0 then Ok(m.(pc := t), Continue) else Err(NegativeTarget(t))
      else Ok(m.(pc := m.pc + 3), Continue)
    case (None, _) => Err(BadAddress(m.pc + 1))
    case (_, None) => Err(BadAddress(m.pc + 2))
  }

  // ---------------------------------------------------------------------------
  // Dispatch, step and run
  // ---------------------------------------------------------------------------

  /** The opcodes the dispatch table holds. */
  predicate Known(opcode: int)
  {
    1 <= opcode <= 8 || opcode == 99
  }

  /** The dispatch table as an exhaustive match; a missing entry is a fault.
      Opcode 99 (halt) reports Halt and changes nothing. */
  function Dispatch(m: Machine, ins: Instruction): (r: Outcome)
    requires |ins.modes| >= 3
    ensures !Known(ins.opcode) <==> r == Err(UnknownOpcode(ins.opcode))
    ensures ins.opcode == 99 <==> r == Ok(m, Halt)
  {
    match ins.opcode
    case 1 => Arith(m, ins.modes, Add)
    case 2 => Arith(m, ins.modes, Mul)
    case 3 => Input(m)
    case 4 => Output(m, ins.modes)
    case 5 => Jump(m, ins.modes, true)
    case 6 => Jump(m, ins.modes, false)
    case 7 => Arith(m, ins.modes, LessThan)
    case 8 => Arith(m, ins.modes, Equals)
    case 99 => Ok(m, Halt)
    case _ => Err(UnknownOpcode(ins.opcode))
  }

  /** The instruction at the pc, when the pc is inside memory and the word
      there is non-negative. */
  function Decode(m: Machine): Option<Instruction>
  {
    if m.pc < |m.memory| && m.memory[m.pc] >= 0 then Some(ParseOpcode(m.memory[m.pc])) else None
  }

  /** Executes the one instruction at the pc.  Whatever it is, the memory
      length is unchanged, at most one value is appended to the output, at most
      the front value is taken from the input, and a Halt leaves the machine
      exactly as it was; it halts exactly on opcode 99 and faults on any opcode
      outside 1-8 and 99.  A decoded opcode from the table runs its handler. */
  function Step(m: Machine): (r: Outcome)
    ensures Decode(m).None? ==> r.Err?
    ensures Decode(m).Some? && Known(Decode(m).value.opcode) ==> r == Dispatch(m, Decode(m).value)
    ensures Decode(m).Some? && Decode(m).value.opcode == 99 ==> r == Ok(m, Halt)
    ensures Decode(m).Some? && !Known(Decode(m).value.opcode) ==> r == Err(UnknownOpcode(Decode(m).value.opcode))
    ensures r.Ok? ==> (r.signal == Halt <==> Decode(m).value.opcode == 99)
    ensures r.Ok? && r.signal == Halt ==> r.machine == m
    ensures r.Ok? ==> |r.machine.memory| == |m.memory|
    ensures r.Ok? ==> r.machine.output == m.output || (|r.machine.output| == |m.output| + 1 && r.machine.output[..|m.output|] == m.output)
    ensures r.Ok? ==> r.machine.input == m.input || (|m.input| > 0 && r.machine.input == m.input[1..])
  {
    if m.pc >= |m.memory| then Err(BadAddress(m.pc))
    else if m.memory[m.pc] < 0 then Err(NegativeWord(m.memory[m.pc]))
    else
      var r := Dispatch(m, ParseOpcode(m.memory[m.pc]));
      assert r.Ok? && r.machine.output != m.output ==> r.machine.output[..|m.output|] == m.output;
      r
  }

  /** Where a run ends: at a Halt, at a fault (with the machine the faulting
      instruction saw), or with the step budget used up. */
  datatype RunResult = Halted(machine: Machine) | Faulted(fault: Fault, machine: Machine) | OutOfFuel(machine: Machine)

  /** The machine reached from `m` by `n` steps of `step` that each report
      Continue; `None` when one of those steps halts or faults. */
  function Steps(step: Machine -> Outcome, m: Machine, n: nat): Option<Machine>
    decreases n
  {
    if n == 0 then Some(m)
    else
      var s := step(m);
      if s.Ok? && s.signal == Continue then Steps(step, s.machine, n - 1) else None
  }

  /** The loop of `run` over a step function: step while the step reports
      Continue, stopping at the first Halt or fault.  The source loops without
      bound; `fuel` caps the number of steps.  A halted run reports the
      machine its halting instruction saw. */
  function Iterate(step: Machine -> Outcome, m: Machine, fuel: nat): (r: RunResult)
    ensures r.Halted? ==> step(r.machine).Ok? && step(r.machine).signal == Halt
    ensures r.Faulted? ==> step(r.machine) == Err(r.fault)
    decreases fuel
  {
    if fuel == 0 then OutOfFuel(m)
    else
      var s := step(m);
      if s.Err? then Faulted(s.fault, m)
      else if s.signal == Halt then Halted(m)
      else Iterate(step, s.machine, fuel - 1)
  }

  /** `m'` has the memory length of `m`, and the output of `m` is a prefix of
      the output of `m'`. */
  ghost predicate Extends(m: Machine, m': Machine)
  {
    |m'.memory| == |m.memory| && |m.output| <= |m'.output| && m'.output[..|m.output|] == m.output
  }

  /** A loop over steps that each keep the memory length and only append
      output keeps them too. */
  lemma {:induction false} IterateExtends(step: Machine -> Outcome, m: Machine, fuel: nat)
    requires forall x :: step(x).Ok? ==> Extends(x, step(x).machine)
    ensures Extends(m, Iterate(step, m, fuel).machine)
    decreases fuel
  {
    if fuel > 0 {
      var s := step(m);
      if s.Ok? && s.signal == Continue {
        IterateExtends(step, s.machine, fuel - 1);
        var r := Iterate(step, s.machine, fuel - 1).machine;
        assert r.output[..|m.output|] == r.output[..|s.machine.output|][..|m.output|];
      }
    }
  }

  /** Running further never changes a halted result: the loop stops at the
      first Halt and does not look past it. */
  lemma {:induction false} IterateStable(step: Machine -> Outcome, m: Machine, fuel: nat, more: nat)
    requires Iterate(step, m, fuel).Halted?
    ensures Iterate(step, m, fuel + more) == Iterate(step, m, fuel)
    decreases fuel
  {
    var s := step(m);
    if s.Ok? && s.signal == Continue {
      IterateStable(step, s.machine, fuel - 1, more);
    }
  }

  /** A halted loop over `step` is also the loop over any `other` that takes
      the same step wherever `step` does not fault. */
  lemma {:induction false} IterateAgrees(step: Machine -> Outcome, other: Machine -> Outcome, m: Machine, fuel: nat)
    requires forall x :: step(x).Ok? ==> other(x) == step(x)
    requires Iterate(step, m, fuel).Halted?
    ensures Iterate(other, m, fuel) == Iterate(step, m, fuel)
    decreases fuel
  {
    var s := step(m);
    if s.Ok? && s.signal == Continue {
      IterateAgrees(step, other, s.machine, fuel - 1);
    }
  }

  /** Where the loop stops is reached from `m` by Continue steps: all `fuel`
      of them when the budget runs out, fewer when it halts or faults. */
  lemma {:induction false} IterateSteps(step: Machine -> Outcome, m: Machine, fuel: nat)
    ensures Iterate(step, m, fuel).OutOfFuel? ==> Steps(step, m, fuel) == Some(Iterate(step, m, fuel).machine)
    ensures !Iterate(step, m, fuel).OutOfFuel? ==>
              exists n: nat :: n < fuel && Steps(step, m, n) == Some(Iterate(step, m, fuel).machine)
    decreases fuel
  {
    if fuel > 0 {
      var s := step(m);
      if s.Ok? && s.signal == Continue {
        IterateSteps(step, s.machine, fuel - 1);
        var r := Iterate(step, s.machine, fuel - 1);
        if !r.OutOfFuel? {
          var n: nat :| n < fuel - 1 && Steps(step, s.machine, n) == Some(r.machine);
          assert Steps(step, m, n + 1) == Some(r.machine);
        }
      } else {
        assert Steps(step, m, 0) == Some(m);
      }
    }
  }

  /** Conversely, the loop passes through every machine that Continue steps
      reach within the budget: after `n` of them it carries on from there. */
  lemma {:induction false} IterateAfterSteps(step: Machine -> Outcome, m: Machine, fuel: nat, n: nat)
    requires n <= fuel && Steps(step, m, n).Some?
    ensures Iterate(step, m, fuel) == Iterate(step, Steps(step, m, n).value, fuel - n)
    decreases n
  {
    if n > 0 {
      IterateAfterSteps(step, step(m).machine, fuel - 1, n - 1);
    }
  }

  /** Hence the loop halts at a machine exactly when Continue steps reach it
      within the budget and it halts. */
  lemma IterateHaltsAt(step: Machine -> Outcome, m: Machine, fuel: nat, n: nat)
    requires n < fuel && Steps(step, m, n).Some?
    requires step(Steps(step, m, n).value).Ok? && step(Steps(step, m, n).value).signal == Halt
    ensures Iterate(step, m, fuel) == Halted(Steps(step, m, n).value)
  {
    IterateAfterSteps(step, m, fuel, n);
  }

  /** Likewise the loop faults at a machine that Continue steps reach within
      the budget and whose step fails. */
  lemma {:induction false} IterateFaultsAt(step: Machine -> Outcome, m: Machine, fuel: nat, n: nat)
    requires n < fuel && Steps(step, m, n).Some? && step(Steps(step, m, n).value).Err?
    ensures Iterate(step, m, fuel) == Faulted(step(Steps(step, m, n).value).fault, Steps(step, m, n).value)
  {
    IterateAfterSteps(step, m, fuel, n);
  }

  /** And the budget runs out exactly where `fuel` Continue steps lead. */
  lemma {:induction false} IterateRunsOut(step: Machine -> Outcome, m: Machine, fuel: nat)
    requires Steps(step, m, fuel).Some?
    ensures Iterate(step, m, fuel) == OutOfFuel(Steps(step, m, fuel).value)
  {
    IterateAfterSteps(step, m, fuel, fuel);
  }

  /** Every step keeps the memory length and at most appends to the output. */
  lemma StepExtends()
    ensures forall x :: Step(x).Ok? ==> Extends(x, Step(x).machine)
  {
    forall x | Step(x).Ok?
      ensures Extends(x, Step(x).machine)
    {
      var r := Step(x).machine;
      if r.output != x.output {
        assert r.output[..|x.output|] == x.output;
      }
    }
  }

  /** `run`: the loop over the interpreter's `step`.  The machine it stops
      at is reached from `m` by steps that each report Continue. */
  function Run(m: Machine, fuel: nat): (r: RunResult)
    ensures r.Halted? ==> Step(r.machine) == Ok(r.machine, Halt)
    ensures r.Faulted? ==> Step(r.machine) == Err(r.fault)
    ensures r.OutOfFuel? ==> Steps(Step, m, fuel) == Some(r.machine)
    ensures !r.OutOfFuel? ==> exists n: nat :: n < fuel && Steps(Step, m, n) == Some(r.machine)
    ensures |r.machine.memory| == |m.memory|
    ensures |m.output| <= |r.machine.output| && r.machine.output[..|m.output|] == m.output
  {
    StepExtends();
    IterateExtends(Step, m, fuel);
    IterateSteps(Step, m, fuel);
    Iterate(Step, m, fuel)
  }

  /** A run halts at the first machine, reached by Continue steps within
      the budget, whose step is Halt. */
  lemma RunHaltsAt(m: Machine, fuel: nat, n: nat)
    requires n < fuel && Steps(Step, m, n).Some?
    requires Step(Steps(Step, m, n).value).Ok? && Step(Steps(Step, m, n).value).signal == Halt
    ensures Run(m, fuel) == Halted(Steps(Step, m, n).value)
  {
    IterateHaltsAt(Step, m, fuel, n);
  }

  /** A run faults at the first machine, reached by Continue steps within
      the budget, whose step fails. */
  lemma RunFaultsAt(m: Machine, fuel: nat, n: nat)
    requires n < fuel && Steps(Step, m, n).Some? && Step(Steps(Step, m, n).value).Err?
    ensures Run(m, fuel) == Faulted(Step(Steps(Step, m, n).value).fault, Steps(Step, m, n).value)
  {
    IterateFaultsAt(Step, m, fuel, n);
  }

  /** Once a run halts, a larger step budget gives the same result. */
  lemma RunStable(m: Machine, fuel: nat, more: nat)
    requires Run(m, fuel).Halted?
    ensures Run(m, fuel + more) == Run(m, fuel)
  {
    IterateStable(Step, m, fuel, more);
  }

  // ---------------------------------------------------------------------------
  // Each opcode with its parameters in Position mode
  // ---------------------------------------------------------------------------

  /** Parameter cell `k` of the instruction at the pc exists and points
      inside memory. */
  predicate PointsInside(m: Machine, k: nat)
  {
    m.pc + k < |m.memory| && 0 <= m.memory[m.pc + k] < |m.memory|
  }

  /** The operand parameter cell `k` points to. */
  function Pointed(m: Machine, k: nat): int
    requires PointsInside(m, k)
  {
    m.memory[m.memory[m.pc + k]]
  }

  /** 99 halts and changes nothing. */
  lemma StepHalt(m: Machine)
    requires m.pc < |m.memory| && m.memory[m.pc] == 99
    ensures Step(m) == Ok(m, Halt)
  {
  }

  /** 1 and 2 store the sum or the product of the two pointed-to cells
      through the third parameter and advance by 4. */
  lemma StepAddMul(m: Machine)
    requires PointsInside(m, 1) && PointsInside(m, 2) && PointsInside(m, 3)
    requires m.memory[m.pc] == 1 || m.memory[m.pc] == 2
    ensures var a, b := Pointed(m, 1), Pointed(m, 2);
            var v := if m.memory[m.pc] == 1 then a + b else a * b;
            Step(m) == Ok(m.(pc := m.pc + 4, memory := m.memory[m.memory[m.pc + 3] := v]), Continue)
  {
  }

  /** 3 stores the front of the input through its parameter, consumes it
      and advances by 2. */
  lemma StepInput(m: Machine)
    requires PointsInside(m, 1) && m.memory[m.pc] == 3 && |m.input| > 0
    ensures Step(m) == Ok(m.(pc := m.pc + 2, memory := m.memory[m.memory[m.pc + 1] := m.input[0]],
                             input := m.input[1..]), Continue)
  {
  }

  /** 4 appends the pointed-to cell to the output and advances by 2. */
  lemma StepOutput(m: Machine)
    requires PointsInside(m, 1) && m.memory[m.pc] == 4
    ensures Step(m) == Ok(m.(pc := m.pc + 2, output := m.output + [Pointed(m, 1)]), Continue)
  {
  }

  /** 5 (jump_if_true) jumps when the first operand is non-zero, 6
      (jump_if_false) when it is zero, to the second operand; otherwise the
      pc advances by 3. */
  lemma StepJump(m: Machine)
    requires PointsInside(m, 1) && PointsInside(m, 2)
    requires m.memory[m.pc] == 5 || m.memory[m.pc] == 6
    ensures var taken := (Pointed(m, 1) != 0) == (m.memory[m.pc] == 5);
            && (!taken ==> Step(m) == Ok(m.(pc := m.pc + 3), Continue))
            && (taken && Pointed(m, 2) >= 0 ==> Step(m) == Ok(m.(pc := Pointed(m, 2)), Continue))
            && (taken && Pointed(m, 2) < 0 ==> Step(m) == Err(NegativeTarget(Pointed(m, 2))))
  {
  }

  /** 7 (less_than) and 8 (equals) store 1 when the comparison of the two
      pointed-to cells holds and 0 otherwise, and advance by 4. */
  lemma StepCompare(m: Machine)
    requires PointsInside(m, 1) && PointsInside(m, 2) && PointsInside(m, 3)
    requires m.memory[m.pc] == 7 || m.memory[m.pc] == 8
    ensures var a, b := Pointed(m, 1), Pointed(m, 2);
            var holds := if m.memory[m.pc] == 7 then a < b else a == b;
            Step(m) == Ok(m.(pc := m.pc + 4, memory := m.memory[m.memory[m.pc + 3] := if holds then 1 else 0]), Continue)
  {
  }

  /** A fresh machine: pc 0, empty queues. */
  function Load(program: seq<int>, input: seq<int>): Machine
  {
    Machine(0, program, input, [])
  }

  /** Echo the one input value, then halt. */
  lemma EchoProgram()
    ensures Run(Load([3, 0, 4, 0, 99], [7]), 3) == Halted(Machine(4, [7, 0, 4, 0, 99], [], [7]))
  {
    var m0 := Load([3, 0, 4, 0, 99], [7]);
    var m1 := Machine(2, [7, 0, 4, 0, 99], [], []);
    var m2 := Machine(4, [7, 0, 4, 0, 99], [], [7]);
    assert ParseOpcode(3).opcode == 3;
    assert Step(m0) == Ok(m1, Continue);
    assert ParseOpcode(4) == Instruction(4, [Position, Position, Position]);
    assert Step(m1) == Ok(m2, Continue);
    assert ParseOpcode(99).opcode == 99;
    assert Step(m2) == Ok(m2, Halt);
  }

  /** 1002,4,3,4,33: a multiply with an Immediate second operand stores
      33 * 3 = 99 over its own last cell, which then halts. */
  lemma ImmediateModeProgram()
    ensures Run(Load([1002, 4, 3, 4, 33], []), 2) == Halted(Machine(4, [1002, 4, 3, 4, 99], [], []))
  {
    var m0 := Load([1002, 4, 3, 4, 33], []);
    var m1 := Machine(4, [1002, 4, 3, 4, 99], [], []);
    assert Step(m0) == Ok(m1, Continue) by {
      assert ParseOpcode(1002) == Instruction(2, [Position, Immediate, Position]) by {
        assert DigitAt(10, 0) == 0 && DigitAt(10, 1) == 1;
      }
    }
    assert Step(m1) == Ok(m1, Halt) by { StepHalt(m1); }
    RunsTwoSteps(m0, m1);
  }

  /** A step that continues followed by one that halts is a run that halts
      on a budget of two. */
  lemma RunsTwoSteps(m0: Machine, m1: Machine)
    requires Step(m0) == Ok(m1, Continue) && Step(m1) == Ok(m1, Halt)
    ensures Run(m0, 2) == Halted(m1)
  {
  }

  /** 6,3,5,0,99,4: jump_if_false finds 0 in cell 3 and jumps to the 4 in
      cell 5, where it halts; falling through would reach opcode 0 at
      cell 3 and fault. */
  lemma JumpProgram()
    ensures Run(Load([6, 3, 5, 0, 99, 4], []), 2) == Halted(Machine(4, [6, 3, 5, 0, 99, 4], [], []))
  {
    var m0 := Load([6, 3, 5, 0, 99, 4], []);
    var m1 := m0.(pc := 4);
    assert Step(m0) == Ok(m1, Continue) by { StepJump(m0); }
    assert Step(m1) == Ok(m1, Halt) by { StepHalt(m1); }
    RunsTwoSteps(m0, m1);
  }

  /** 5,0,5,0,99,4: jump_if_true finds the non-zero 5 in cell 0 and jumps to
      the 4 in cell 5, where it halts. */
  lemma JumpIfTrueProgram()
    ensures Run(Load([5, 0, 5, 0, 99, 4], []), 2) == Halted(Machine(4, [5, 0, 5, 0, 99, 4], [], []))
  {
    var m0 := Load([5, 0, 5, 0, 99, 4], []);
    var m1 := m0.(pc := 4);
    assert Step(m0) == Ok(m1, Continue) by { StepJump(m0); }
    assert Step(m1) == Ok(m1, Halt) by { StepHalt(m1); }
    RunsTwoSteps(m0, m1);
  }

  /** 8,0,0,5,99,0: equals compares cell 0 with itself and stores 1 in
      cell 5 (less_than would store 0). */
  lemma EqualsProgram()
    ensures Run(Load([8, 0, 0, 5, 99, 0], []), 2) == Halted(Machine(4, [8, 0, 0, 5, 99, 1], [], []))
  {
    var m0 := Load([8, 0, 0, 5, 99, 0], []);
    var m1 := Machine(4, [8, 0, 0, 5, 99, 1], [], []);
    assert Step(m0) == Ok(m1, Continue) by {
      StepCompare(m0);
      assert m0.memory[5 := 1] == m1.memory;
    }
    assert Step(m1) == Ok(m1, Halt) by { StepHalt(m1); }
    RunsTwoSteps(m0, m1);
  }

  /** 7,0,4,5,99,0: less_than finds 7 < 99 (cells 0 and 4) and stores 1 in
      cell 5 (equals would store 0). */
  lemma LessThanProgram()
    ensures Run(Load([7, 0, 4, 5, 99, 0], []), 2) == Halted(Machine(4, [7, 0, 4, 5, 99, 1], [], []))
  {
    var m0 := Load([7, 0, 4, 5, 99, 0], []);
    var m1 := Machine(4, [7, 0, 4, 5, 99, 1], [], []);
    assert Step(m0) == Ok(m1, Continue) by {
      StepCompare(m0);
      assert m0.memory[5 := 1] == m1.memory;
    }
    assert Step(m1) == Ok(m1, Halt) by { StepHalt(m1); }
    RunsTwoSteps(m0, m1);
  }
}
