# Intcode and the Advent of Code 2019 puzzle logic, in Dafny

This project models the Rust crate `aoc2019`, which solves Advent of Code 2019 puzzles. The model covers:

- **Intcode interpreter** (`intcode.rs`). It has:
  - a decoder that splits an instruction word into a two-digit opcode and parameter modes;
  - Immediate and Position addressing;
  - a fixed-length memory;
  - an input queue that instructions take from at the front, and an output log that only grows;
  - the opcodes 1-8 and 99.
- **Day 5 interpreter** (`day5.rs`). It is the same machine, but only opcodes 1-4 and 99 are in its dispatch table.
- **Day 2 interpreter** (`day2.rs`). It is the first, bare version: add, multiply and halt over unsigned cells.
- **Fuel arithmetic** of day 1.
- **Password rules** of day 4:
  - the digits of a number, zero-padded to at least six;
  - the "digits never decrease" check;
  - the "some digit repeats" and "some digit occurs exactly twice" checks;
  - parsing the "start-end" input;
  - counting valid candidates over the range.
- **Asteroid line-of-sight logic** of day 10:
  - parsing the map;
  - the gcd-based obstruction test;
  - views per asteroid and the best view count.
- **Hull-painting robot** of day 11:
  - orientation, turns and movement;
  - the camera;
  - the paint→turn→move reaction to two machine outputs;
  - the cell-by-cell text picture.

## How it is modelled

- Every module is a set of pure functions over immutable datatypes.
- Places where the source panics become `Err`/`None` results:
  - indexing outside memory;
  - `pop_front().unwrap()` on an empty queue;
  - an opcode missing from the dispatch table;
  - the decoder's `assert!(code >= 0)`;
  - a `debug_assert!` on a negative address;
  - a turn other than 0/1;
  - a colour other than 0/1 in the picture.
- `run` loops until Halt. Here it takes a step budget (`fuel`), and the lemmas about it hold whatever the budget.

Files:

| File | Module | Contents |
|---|---|---|
| `maybe.dfy` | `Maybe` | the `Option` type |
| `integers.dfy` | `Integers` | absolute value and the uniqueness of quotient and remainder |
| `intcode.dfy` | `Intcode` | the interpreter |
| `day5.dfy` | `Day5Intcode` | the day-5 dispatch |
| `day2.dfy` | `Day2Intcode` | the day-2 interpreter |
| `day1.dfy` | `Fuel` | fuel arithmetic |
| `day4.dfy` | `Password` | password rules |
| `day10.dfy` | `Asteroids` | line of sight |
| `day11.dfy` | `Paintbot` | the painting robot |

Two points about what the code does and does not do:

- **Mode digit 2.** The decoder tests the parity of what is left of the mode number (`mode % 2 == 1`, `aoc2019/src/intcode.rs:59-66`). So mode digit 2, which is "relative" mode in later Advent of Code puzzles, decodes as Position, and any odd digit decodes as Immediate. `ParseOpcode(20200)` yields opcode 0 with three Position modes, and `Intcode.ParseOpcodeExamples` proves it.
- **No later extensions.** Later Advent of Code puzzles extend Intcode with a relative base, memory that grows on demand, and suspension of the machine while it waits for input or hands over output. This crate's `intcode.rs` has none of them: memory is a fixed vector, and `Step` has only `Continue` and `Halt` (`aoc2019/src/intcode.rs:18-28`).

## Model

| member | source | states |
|---|---|---|
| `Intcode.ModesOf` | aoc2019/src/intcode.rs:57-66 | one mode per decimal digit of the mode number, least significant first; mode i is Immediate exactly when digit i is odd |
| `Intcode.PadModes` | aoc2019/src/intcode.rs:67-69 | the modes are padded with Position up to length 3, and the decoded prefix is kept |
| `Intcode.ParseOpcode` | aoc2019/src/intcode.rs:54-71 | the opcode is the word mod 100; there are max(3, digit count of word/100) modes; mode i is Immediate iff digit i of word/100 is odd |
| `Intcode.ParseOpcodeExamples` | aoc2019/src/intcode.rs:73-88 | the three decoder test vectors, plus 20200 decoding to opcode 0 with three Position modes (digit 2 is Position) |
| `Intcode.Read` | aoc2019/src/intcode.rs:101-110 | an operand is defined exactly when the parameter cell exists and, in Position mode, points inside memory; its value is that cell in Immediate mode and, in Position mode, the cell it points to, the same cell a write through it would change |
| `Intcode.Write` | aoc2019/src/intcode.rs:112-116 | a write succeeds exactly when the parameter cell points inside memory; then it changes only that cell, and the length stays the same |
| `Intcode.ReadAfterWrite` | aoc2019/src/intcode.rs:101-116 | a value written through a parameter cell reads back through it in Position mode, unless the write overwrote the parameter cell itself |
| `Intcode.Arith` | aoc2019/src/intcode.rs:118-194 | add and mul (118-134), less_than and equals (178-194), with the jumps in between modelled by `Intcode.Jump`: faults only on a bad address; store op(a, b) at the target and nowhere else; pc+4; the queues are untouched; a comparison stores 0 or 1 |
| `Intcode.Input` | aoc2019/src/intcode.rs:140-145 | an empty queue faults; otherwise the front value is taken off the queue and stored at the target (and only there); pc+2; the output is untouched |
| `Intcode.Output` | aoc2019/src/intcode.rs:147-152 | the operand is appended to the output; memory and input are unchanged; pc+2 |
| `Intcode.Jump` | aoc2019/src/intcode.rs:154-176 | jump_if_true/jump_if_false set pc to the second operand when the condition holds, and otherwise to pc+3; memory and queues are unchanged; a taken jump to a negative address faults |
| `Intcode.Dispatch` | aoc2019/src/intcode.rs:35-49 | a fault exactly for opcodes outside 1-8 and 99; a halt, with the machine untouched, exactly for 99 |
| `Intcode.Step` | aoc2019/src/intcode.rs:196-201 | a decoded opcode from the table runs its handler (`Dispatch`), so opcode 99 halts and leaves the machine as it was; halts on nothing else; faults on unknown opcodes; keeps the memory length; appends at most one output; takes at most the front input |
| `Intcode.Run` | aoc2019/src/intcode.rs:203-205 | a halted run ends at a machine whose next step is Halt; a faulted run ends at the machine whose step faults; either machine is reached from the start by fewer than `fuel` Continue steps, and an out-of-fuel run stops after exactly `fuel` of them; the memory length is preserved; earlier output is a prefix of the final output |
| `Intcode.RunHaltsAt` | aoc2019/src/intcode.rs:203-205 | a machine reached by n Continue steps whose own step is Halt is the result of every run with a budget above n |
| `Intcode.RunFaultsAt` | aoc2019/src/intcode.rs:196-205 | a machine reached by n Continue steps whose step panics (an unknown opcode, a bad address, an empty input queue) is where every run with a budget above n faults |
| `Intcode.RunStable` | aoc2019/src/intcode.rs:203-205 | once a run halts, a larger step budget gives the same result |
| `Intcode.Iterate` | aoc2019/src/intcode.rs:203-205 | the `while step() == Continue` loop for any step function: a halted result is a machine whose step says Halt, a faulted one a machine whose step fails with that fault |
| `Intcode.IterateSteps` | aoc2019/src/intcode.rs:203-205 | the loop's final machine is reached from the start by Continue steps: fewer than the budget when it halted or faulted, exactly the budget when it ran out |
| `Intcode.IterateAfterSteps` | aoc2019/src/intcode.rs:203-205 | running n Continue steps first and then the rest of the budget gives the same result as running the whole budget |
| `Intcode.IterateHaltsAt` | aoc2019/src/intcode.rs:203-205 | the converse: a machine reached by n Continue steps whose step says Halt is the loop's result for any budget above n |
| `Intcode.IterateFaultsAt` | aoc2019/src/intcode.rs:203-205 | a machine reached by n Continue steps whose step fails is where the loop faults, with that fault, for any budget above n |
| `Intcode.IterateRunsOut` | aoc2019/src/intcode.rs:203-205 | when `fuel` Continue steps are possible, the loop runs out of budget at the machine they reach |
| `Intcode.IterateExtends` | aoc2019/src/intcode.rs:203-205 | when no single step shrinks memory or rewrites earlier output, no run does |
| `Intcode.IterateStable` | aoc2019/src/intcode.rs:203-205 | a loop that halted within some budget gives the same result with any larger budget |
| `Intcode.IterateAgrees` | aoc2019/src/intcode.rs:203-205 | two step functions that agree wherever the first succeeds produce the same halted run |
| `Intcode.EchoProgram` | aoc2019/src/intcode.rs:140-152 | program 3,0,4,0,99 with input 7 halts after three steps, with output [7] and cell 0 set to 7 |
| `Intcode.ImmediateModeProgram` | aoc2019/src/intcode.rs:128-134 | program 1002,4,3,4,33 multiplies cell 4 by the Immediate operand 3, storing 99 there, and halts on it after two steps |
| `Intcode.StepHalt` | aoc2019/src/intcode.rs:136-138 | for every machine whose pc holds 99, the step halts and changes nothing |
| `Intcode.StepAddMul` | aoc2019/src/intcode.rs:118-134 | for every machine whose pc holds 1 or 2 with in-range Position parameters, the step stores the sum (1) or product (2) of the two pointed-to cells through the third parameter and advances by 4 |
| `Intcode.StepInput` | aoc2019/src/intcode.rs:140-145 | for every machine whose pc holds 3 with an in-range parameter and a non-empty input, the step stores the front input through the parameter, consumes it and advances by 2 |
| `Intcode.StepOutput` | aoc2019/src/intcode.rs:147-152 | for every machine whose pc holds 4 with an in-range parameter, the step appends the pointed-to cell to the output and advances by 2 |
| `Intcode.StepJump` | aoc2019/src/intcode.rs:154-176 | for every machine whose pc holds 5 or 6 with in-range parameters, the step jumps to the second operand when the first is non-zero (5) or zero (6), faults on a negative taken target, and otherwise advances by 3 |
| `Intcode.StepCompare` | aoc2019/src/intcode.rs:178-194 | for every machine whose pc holds 7 or 8 with in-range parameters, the step stores 1 when the first pointed-to cell is less than (7) or equal to (8) the second, and 0 otherwise, through the third parameter, and advances by 4 |
| `Intcode.JumpProgram` | aoc2019/src/intcode.rs:166-176 | program 6,3,5,0,99,4 takes the jump_if_false branch (cell 3 holds 0) to cell 4 and halts there, where falling through would fault |
| `Intcode.JumpIfTrueProgram` | aoc2019/src/intcode.rs:154-164 | program 5,0,5,0,99,4 takes the jump_if_true branch (cell 0 holds 5) to cell 4 and halts there |
| `Intcode.EqualsProgram` | aoc2019/src/intcode.rs:187-194 | program 8,0,0,5,99,0 stores 1 in cell 5 (a cell equals itself) and halts |
| `Intcode.LessThanProgram` | aoc2019/src/intcode.rs:178-185 | program 7,0,4,5,99,0 stores 1 in cell 5 (7 < 99) and halts |
| `Day5Intcode.Dispatch5` | aoc2019/src/day5.rs:35-45 | a fault exactly for opcodes outside 1-4 and 99; a halt exactly for 99 |
| `Day5Intcode.Step5` | aoc2019/src/day5.rs:150-155 | on opcodes 1-4 and 99 it agrees with the full interpreter's step; every other opcode faults |
| `Day5Intcode.Run5` | aoc2019/src/day5.rs:157-159 | a halted day-5 run ends at a machine whose day-5 step is Halt; a faulted one at the machine whose day-5 step fails; that machine is reached from the start by fewer than `fuel` Continue steps of the day-5 step, and an out-of-fuel run stops after exactly `fuel` |
| `Day5Intcode.Run5Refines` | aoc2019/src/day5.rs:157-159 | a day-5 run that halts is also a run of the full interpreter, with the same result |
| `Day5Intcode.JumpsUnknownToDay5` | aoc2019/src/day5.rs:35-45 | opcodes 5-8 fault on the day-5 machine, while the full interpreter executes them |
| `Day2Intcode.Step` | aoc2019/src/day2.rs:3-24 | stops exactly on 99; advances exactly on 1 or 2 with all indices in bounds, to pc+4, changing only the output cell, to the sum or product; panics otherwise |
| `Day2Intcode.Drive` | aoc2019/src/day2.rs:26-31 | the `while let Some(new_pc) = step(..)` loop for any step function: a finished run ends at a state whose step stops and is reached by fewer than `fuel` advancing steps; a panicked run panics after fewer than `fuel` of them; an out-of-fuel run has taken exactly `fuel` |
| `Day2Intcode.DriveAfterSteps` | aoc2019/src/day2.rs:26-31 | running n advancing steps first and then the rest of the budget gives the same result as the whole budget |
| `Day2Intcode.DriveFinishesAt` | aoc2019/src/day2.rs:26-31 | a state reached by n advancing steps at which the step stops is the loop's result for any budget above n |
| `Day2Intcode.DriveKeepsLength` | aoc2019/src/day2.rs:26-31 | when no step changes the number of cells, neither does a finished run |
| `Day2Intcode.DriveAgrees` | aoc2019/src/day2.rs:26-31 | when every non-panicking day-2 step is a full-interpreter step on the same cells, a finished day-2 run is a halted run of the full interpreter's loop |
| `Day2Intcode.RunFrom` | aoc2019/src/day2.rs:26-31 | a finished run ends at a 99, reached from the start by fewer than `fuel` advancing steps, and keeps the number of cells; a panic happens after fewer than `fuel` steps |
| `Day2Intcode.RunFromAgreesWithIntcode` | aoc2019/src/day2.rs:26-31 | a finished day-2 run is a halted run of the full interpreter on the same cells, ending in the same state |
| `Day2Intcode.Run` | aoc2019/src/day2.rs:26-31 | `run` steps from pc 0 while `step` advances: a finished, panicked or out-of-budget result is reached from pc 0 by advancing steps, as for `RunFrom`; when it finishes, its step stops there, and the full interpreter, loaded with the same program and no input, halts at the same cells and pc |
| `Day2Intcode.StepAgreesWithIntcode` | aoc2019/src/day2.rs:3-24 | where the day-2 step does not panic, it is the full interpreter's step on the same cells in Position mode |
| `Day2Intcode.RunExample1` | aoc2019/src/day2.rs:35-37 | 1,9,10,3,2,3,11,0,99,30,40,50 ends with 3500 in cell 0 |
| `Day2Intcode.RunExample2` | aoc2019/src/day2.rs:39-41 | 1,0,0,0,99 ends as 2,0,0,0,99 |
| `Day2Intcode.RunExample3` | aoc2019/src/day2.rs:43-45 | 2,3,0,3,99 ends as 2,3,0,6,99 |
| `Day2Intcode.RunExample4` | aoc2019/src/day2.rs:47-49 | 2,4,4,5,99,0 ends with 9801 in the last cell |
| `Day2Intcode.RunExample5` | aoc2019/src/day2.rs:51-53 | 1,1,1,4,99,5,6,0,99 rewrites itself and ends with 30 in cell 0 |
| `Fuel.FuelRequirement` | aoc2019/src/day1.rs:1-3 | mass/3 - 2 with Rust's truncating division, stated without division: 3(f+2) is the multiple of 3 nearest the mass on the side of zero |
| `Fuel.FuelRequirementExamples` | aoc2019/src/day1.rs:18-24 | 12→2, 14→2, 1969→654, 100756→33583 |
| `Fuel.FuelMonotone` | aoc2019/src/day1.rs:1-3 | more mass never needs less fuel |
| `Fuel.FuelShrinks` | aoc2019/src/day1.rs:5-16 | a positive amount needs strictly less fuel than itself, which is why the fuel-for-fuel loop ends |
| `Fuel.ExtraFuel` | aoc2019/src/day1.rs:8-14 | the fuel-for-fuel terms are non-negative and at least the first positive term |
| `Fuel.CompleteFuelRequirements` | aoc2019/src/day1.rs:5-16 | the loop's total is the first requirement (counted even when not positive) plus every later positive term |
| `Fuel.CompleteFuelExample1969` | aoc2019/src/day1.rs:32-36 | the complete requirement of 1969 is 966 |
| `Fuel.CompleteFuelExample100756` | aoc2019/src/day1.rs:32-36 | the complete requirement of 100756 is 50346 |
| `Password.Digits` | aoc2019/src/day4.rs:7-15 | at least six decimal digits whose value is x; zero-padded to six; no leading zero beyond six |
| `Password.DecimalDigits` | aoc2019/src/day4.rs:10 | the decimal text of a number: at least one digit, no leading zero unless it is the only digit, denoting the number |
| `Password.DecimalDigitsOfValue` | aoc2019/src/day4.rs:10 | the decimal text of a number inverts the digit value: any digit sequence without a leading zero is the representation of the number it denotes |
| `Password.PadTo6` | aoc2019/src/day4.rs:10 | `{:06}` pads with leading zeros to length six, keeping the value and the digits |
| `Password.LeadingZeros` | aoc2019/src/day4.rs:10 | leading zeros do not change the value a digit sequence denotes |
| `Password.SixDigits` | aoc2019/src/day4.rs:7-15 | six digits with a non-zero lead come back from `digits` unchanged |
| `Password.ShortDigits` | aoc2019/src/day4.rs:7-15 | a representation of one to six digits comes back from `digits` with zeros in front up to six |
| `Password.DigitsExample` | aoc2019/src/day4.rs:7 | 123 becomes 0,0,0,1,2,3 |
| `Password.FiveDigits` | aoc2019/src/day4.rs:7-15 | a five-digit number comes back from `digits` as one zero followed by its five digits |
| `Password.DigitsOf11111` | aoc2019/src/day4.rs:7-15 | 11111 becomes 0,1,1,1,1,1 |
| `Password.SortedCons` | aoc2019/src/day4.rs:17-19 | a sequence is sorted exactly when its first two digits are in order and its tail is sorted |
| `Password.Increasing` | aoc2019/src/day4.rs:17-19 | every adjacent window non-decreasing iff every pair of digits in order |
| `Password.DescentIsNotIncreasing` | aoc2019/src/day4.rs:17-19 | one descending adjacent window fails the check |
| `Password.IncreasingExamples` | aoc2019/src/day4.rs:21-26 | the three `increasing` test vectors |
| `Password.HasDoubles` | aoc2019/src/day4.rs:28-40 | the counting loop returns true iff some digit occurs twice anywhere |
| `Password.SortedRepeatIsAdjacent` | aoc2019/src/day4.rs:28-30 | for non-decreasing digits, a repeat anywhere is the same as an adjacent equal pair |
| `Password.HasExactDoubleMethod` | aoc2019/src/day4.rs:42-49 | the counting loops return true iff some digit occurs exactly twice |
| `Password.ExactDoubleExamples` | aoc2019/src/day4.rs:102-107 | the three `has_exact_double` test vectors |
| `Password.ExactDoubleIsRepeat` | aoc2019/src/day4.rs:42-49 | a digit occurring twice or more is a repeat |
| `Password.Valid` | aoc2019/src/day4.rs:51-54 | a candidate is valid exactly when its digits (zero-padded to at least six) are sorted and two adjacent digits are equal (the puzzle's rule, although `has_doubles` does not look at adjacency) |
| `Password.Valider` | aoc2019/src/day4.rs:70-73 | the second rule holds exactly when the digits are sorted and some digit occurs exactly twice; every candidate it accepts is also valid |
| `Password.CheckValid` | aoc2019/src/day4.rs:51-54 | the windowed check and the counting loop together decide exactly the non-decreasing candidates with a repeated digit |
| `Password.CheckValider` | aoc2019/src/day4.rs:68-74 | the windowed check and the exact-double loops together decide exactly the non-decreasing candidates with a digit occurring exactly twice |
| `Password.ValidExample111111` | aoc2019/src/day4.rs:91 | 111111 is valid |
| `Password.ValidExample11111` | aoc2019/src/day4.rs:92 | 11111 is valid (it is padded to 011111) |
| `Password.InvalidExample223450` | aoc2019/src/day4.rs:93 | 223450 is not valid |
| `Password.InvalidExample123789` | aoc2019/src/day4.rs:94 | 123789 is not valid |
| `Password.Show` | aoc2019/src/day4.rs:57-62 | the decimal text of a number is a non-empty string of digit characters (the form `from_str` reads) |
| `Password.IndexOf` | aoc2019/src/day4.rs:58 | the position of the first occurrence, or None exactly when the character is absent |
| `Password.ParseShow` | aoc2019/src/day4.rs:59-60 | the number parser reads back the decimal text of any number |
| `Password.ParseSpec` | aoc2019/src/day4.rs:57-62 | no '-' means no range; a parsed range's start is the number before the first '-', and its end the number after it, up to the next '-' or the end of the text |
| `Password.ParseSpecOfFields` | aoc2019/src/day4.rs:57-62 | conversely, whenever the text before the first '-' and the text after it (up to the next '-' or the end) both read as numbers, the range is parsed as those numbers, whatever the form of the text ("07-9", "+1-2", "1-2-3") |
| `Password.ParseSpecRoundTrip` | aoc2019/src/day4.rs:57-62 | "start-end" written out and parsed gives back the range |
| `Password.ParseSpecExample` | aoc2019/src/day4.rs:78-87 | "231832-767346" parses to 231832..767346 |
| `Password.CountStep` | aoc2019/src/day4.rs:64-66 | widening a range by one candidate adds one to the count exactly when the rule accepts it |
| `Password.CountMonotone` | aoc2019/src/day4.rs:64-75 | a rule that accepts fewer candidates never counts more, over any range |
| `Password.ValiderCountAtMostValidCount` | aoc2019/src/day4.rs:64-75 | over any range, the second count never exceeds the first |
| `Password.CountRange` | aoc2019/src/day4.rs:64-75 | the walk over `start..=end` counts exactly the candidates the rule accepts, and never more than the range holds |
| `Password.CountValid` | aoc2019/src/day4.rs:64-66 | counts the valid candidates of the inclusive range |
| `Password.CountValider` | aoc2019/src/day4.rs:68-75 | counts the candidates that are non-decreasing and have an exact double, never more than `count_valid` over the same range |
| `Asteroids.Gcd` | aoc2019/src/day10.rs:28 | a common divisor of both arguments, zero only when both are zero |
| `Asteroids.GcdGreatest` | aoc2019/src/day10.rs:28 | every common divisor divides the gcd |
| `Asteroids.JoinSplit` | aoc2019/src/day10.rs:14 | joining the newline-separated pieces with newlines restores the text |
| `Asteroids.SplitJoin` | aoc2019/src/day10.rs:14 | splitting lines that are free of newlines, joined with newlines, gives them back |
| `Asteroids.LinesOfJoin` | aoc2019/src/day10.rs:14 | `lines()` reads back joined lines that are free of CR and newline and whose last line is non-empty |
| `Asteroids.RowPoints` | aoc2019/src/day10.rs:15-19 | a point of row y is an asteroid iff the line has '#' at its column |
| `Asteroids.GridPoints` | aoc2019/src/day10.rs:12-22 | a point is an asteroid iff its row exists and that row has '#' at its column |
| `Asteroids.FromStr` | aoc2019/src/day10.rs:12-22 | (x, y) is an asteroid exactly when line y of the text, as `lines()` splits it, has '#' at column x |
| `Asteroids.FromStrOfLines` | aoc2019/src/day10.rs:12-22 | a map written as lines joined with newlines is read back cell by cell: (x, y) is an asteroid iff line y has '#' at column x |
| `Asteroids.ObstructedFrom` | aoc2019/src/day10.rs:30-36 | the loop finds an asteroid iff one lies on some multiple k of the step with n ≤ k < g |
| `Asteroids.UnitStepReachesEnd` | aoc2019/src/day10.rs:27-29 | gcd unit steps, taken gcd times, land exactly on the end point |
| `Asteroids.HasObstructor` | aoc2019/src/day10.rs:24-37 | true iff an asteroid lies at start + k·step for some 1 ≤ k < gcd, where step is the offset divided by the gcd of its coordinates |
| `Asteroids.GcdScale` | aoc2019/src/day10.rs:28 | scaling both arguments by k scales the gcd by k |
| `Asteroids.CoprimeDivides` | aoc2019/src/day10.rs:28-29 | a divisor of x·b that is coprime to b divides x (Euclid's lemma) |
| `Asteroids.UnitStepCoprime` | aoc2019/src/day10.rs:27-29 | the offset is gcd times the step, and the step's coordinates are coprime |
| `Asteroids.Proportional` | aoc2019/src/day10.rs:27-29 | an offset parallel to a step with coprime coordinates is a whole multiple of it |
| `Asteroids.WalkIsBetween` | aoc2019/src/day10.rs:30-31 | every candidate the loop visits lies strictly between start and end: on their line, inside their box, neither end |
| `Asteroids.BetweenIsWalk` | aoc2019/src/day10.rs:30-31 | every lattice point strictly between start and end is a candidate the loop visits |
| `Asteroids.HasObstructorIsBetween` | aoc2019/src/day10.rs:24-37 | true iff some asteroid is a lattice point strictly between start and end, so stepping by the gcd-reduced offset misses no point in between |
| `Asteroids.CoprimeUnobstructed` | aoc2019/src/day10.rs:30 | with coprime offsets nothing can obstruct |
| `Asteroids.UnobstructedViews` | aoc2019/src/day10.rs:39-45 | never more than the number of other asteroids |
| `Asteroids.HiddenLowersViews` | aoc2019/src/day10.rs:39-45 | one hidden asteroid leaves at most all but two in view |
| `Asteroids.BestViewCount` | aoc2019/src/day10.rs:47-54 | the result is the view count of some asteroid and at least that of every asteroid |
| `Asteroids.ExampleFromStr` | aoc2019/src/day10.rs:59-65 | the example map parses to its ten asteroids |
| `Asteroids.ExampleObstructions` | aoc2019/src/day10.rs:66-67 | (3,4)→(0,1) is obstructed, (3,4)→(2,2) is not |
| `Asteroids.VisibleExactly` | aoc2019/src/day10.rs:39-45 | a set of other asteroids, each unobstructed, with every asteroid outside it obstructed, is exactly what the filter keeps |
| `Asteroids.ExampleVisibleFromBest` | aoc2019/src/day10.rs:69 | from (3,4) the example's visible asteroids are exactly the eight not hidden behind another |
| `Asteroids.ExampleBestViews` | aoc2019/src/day10.rs:69 | every asteroid of the example sees at most 8 others, and (3,4) sees 8, so the best view count is 8 |
| `Paintbot.NewBot` | aoc2019/src/day11.rs:23-30 | a new robot faces up, has painted nothing and sees black |
| `Paintbot.CameraColour` | aoc2019/src/day11.rs:32-34 | the colour painted under the robot, or 0 for an unpainted panel |
| `Paintbot.TurnLeft` | aoc2019/src/day11.rs:36-39 | the orientation stays in 0..3; position and paint are unchanged |
| `Paintbot.TurnRight` | aoc2019/src/day11.rs:41-44 | the orientation stays in 0..3; position and paint are unchanged |
| `Paintbot.TurnsRotate` | aoc2019/src/day11.rs:6-13 | with the directions listed clockwise from up, a left turn rotates the facing direction a quarter counter-clockwise and a right turn a quarter clockwise |
| `Paintbot.TurnsCancel` | aoc2019/src/day11.rs:36-44 | left then right, or right then left, restores the bot |
| `Paintbot.FourRightTurns` | aoc2019/src/day11.rs:41-44 | four right turns restore the bot |
| `Paintbot.MoveForward` | aoc2019/src/day11.rs:6-13 | the position moves by the facing direction, one unit step; orientation and paint are unchanged |
| `Paintbot.TurnAroundReturns` | aoc2019/src/day11.rs:46-48 | moving, turning round and moving again comes back |
| `Paintbot.Paint` | aoc2019/src/day11.rs:58 | the camera then sees the new colour, other panels keep theirs, and the painted count grows only for a fresh panel |
| `Paintbot.React` | aoc2019/src/day11.rs:57-66 | paint the panel; turn left on 0 and right on 1 (None for any other turn); then step forward in the new direction |
| `Paintbot.ReactPaints` | aoc2019/src/day11.rs:57-66 | after a reaction the panel left shows the painted colour, and the painted count grows by at most one |
| `Paintbot.ReactAll` | aoc2019/src/day11.rs:50-68 | a sequence of reactions fails iff some turn is not 0/1; otherwise the bot stays valid and the painted count grows by at most one per reaction |
| `Paintbot.Glyph` | aoc2019/src/day11.rs:78-82 | 0 is drawn '.', 1 is drawn '#', and other colours fail |
| `Paintbot.GlyphRoundTrip` | aoc2019/src/day11.rs:78-82 | a drawn character reads back to the colour it was drawn from |
| `Paintbot.Cells` | aoc2019/src/day11.rs:77-83 | one character per column, each the glyph of its panel; fails iff some panel is not 0/1 |
| `Paintbot.Render` | aoc2019/src/day11.rs:71-87 | fails iff some panel in the box is not 0/1; otherwise height × (width+1) characters |
| `Paintbot.RenderPixel` | aoc2019/src/day11.rs:76-85 | the character at row j, column i is the glyph of that panel, and column `width` is the newline |
| `Paintbot.RenderExample` | aoc2019/src/day11.rs:76-85 | a two-by-two box with one white panel draws as ".#\n..\n" |

## Left out

- **Puzzle-input loading.**
  - `Machine::from_mem_spec` (the comma-separated text parser, `intcode.rs:91-99`, `day5.rs:87-95`) is not modelled; memory is given as a sequence of integers.
  - `Paintbot::from_program`'s machine is left out too.
- **Fixed-width integers.**
  - Cells are unbounded integers. `isize` overflow in add/mul and `usize` wrap-around of `pc` are not modelled.
  - The `u8` digit counters of day 4 are unbounded here. `has_doubles` returns as soon as a counter reaches 2, so it never overflows. `has_exact_double` counts every digit, so a slice with 256 or more equal digits would overflow its counter (see `Password.HasExactDoubleMethod` below). `digits` yields at most 20 digits for a `usize`, so `valider` never reaches that case.
  - `usize` overflow in number parsing is not modelled.
- **`debug_assert!`.** The debug-build check on a negative address or jump target is modelled as a fault. A release build would instead wrap the address and panic at the next index.
- **Step budget.** `Intcode.Run`, `Day5Intcode.Run5`, `Day2Intcode.RunFrom` and `Day2Intcode.Run` take a step budget, because the source loops without bound. A program that never halts shows up as `OutOfFuel` for every budget.
- **Day 11's machine loop.** `Paintbot::run`'s machine-stepping loop (`day11.rs:50-56`, `59`) calls `Step::Input`, `Step::Output` and `run_to_output`. The interpreter shown does not define these, so only the paint→turn→move reaction is modelled, taking the two outputs as parameters.
- **Day 11's render bounds.** `render`'s bounding box comes from a foreign geometry library, so `Paintbot.Render` takes the box (top-left corner, width, height) as parameters.
- **Puzzle answers.** The answer tests that run the full puzzle inputs are left out:
  - day 1's sums;
  - day 2's noun/verb search;
  - day 4's 1330/876;
  - day 5's 7839346;
  - day 10's 278;
  - day 11's 1747 and the painted picture.

  Their inputs are far too large to evaluate in the verifier. The small example vectors are proved instead.
- **Other source files.** The amplifier chain of day 7 and the helpers of `utils.rs` are not part of this model.
- Paintbot.React: on a bad turn the source panics after having painted. The model returns `None` and drops the painted state, since nothing runs after the panic.
- Asteroids.HasObstructor: requires start != end. The source never calls it that way, since `unobstructed_views` filters out `end == start`; called directly with equal points, the source divides by a gcd of 0 (`day10.rs:27-29`) and panics.
- Asteroids.BestViewCount: requires a non-empty map. On an empty map the source's `.max().unwrap()` panics (`day10.rs:52-53`); the model has no result for that case.
- Password.HasDoubles: requires every element to be a decimal digit, which `digits` always produces. For a value above 9 the source's `counts[d]` indexes out of bounds and panics (`day4.rs:34`).
- Password.HasExactDoubleMethod: requires every element to be a decimal digit, as for `Password.HasDoubles`; the source would panic at `counts[d]` (`day4.rs:45`). It also counts without bound, whereas the source's `u8` counter overflows on 256 or more equal digits (`day4.rs:43-45`): a debug build panics, and a release build wraps, so 258 equal digits would count as an exact double.
