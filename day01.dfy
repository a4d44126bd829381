/** Day 1: a dial numbered 0 to 99 starts at 50 and is turned left or right
    by a list of instructions.  Part one counts the instructions after which
    the dial points at 0; part two counts every click that passes 0, using a
    closed form per instruction.  Both are loops over the instructions that
    update the position `x` and the counter `zeros`; each is proved against
    a definition that follows the dial click by click. */
module Day01 {

  datatype Direction = Left | Right

  datatype Instruction = Instruction(direction: Direction, distance: nat)

  /** The dial's starting position. */
  const Start: int := 50

  /** Distances up to this bound keep the 32-bit signed arithmetic on the
      dial position `x` in range in both parts (the position is below 100 in
      absolute value).  The bound says nothing about the counter `zeros`. */
  const MaxDistance: nat := 0x7FFF_FFFF - 200

  predicate InRange(ins: seq<Instruction>) {
    forall i :: 0 <= i < |ins| ==> ins[i].distance <= MaxDistance
  }

  /** Where `k` clicks in direction `dir` take the unreduced position `x`. */
  function Move(x: int, dir: Direction, k: nat): int {
    match dir
    case Left => x - k
    case Right => x + k
  }

  /** The unreduced position after the instructions `ins`. */
  function Position(ins: seq<Instruction>): int {
    if ins == [] then Start
    else
      var last := ins[|ins| - 1];
      Move(Position(ins[..|ins| - 1]), last.direction, last.distance)
  }

  /** The number of prefixes of `ins` (the empty one excluded) after which
      the dial points at 0. */
  function Landings(ins: seq<Instruction>): nat {
    if ins == [] then 0
    else Landings(ins[..|ins| - 1]) + (if Position(ins) % 100 == 0 then 1 else 0)
  }

  /** The number of clicks among the first `d` from `x` in direction `dir`
      that leave the dial at 0. */
  function Clicks(x: int, dir: Direction, d: nat): nat {
    if d == 0 then 0
    else Clicks(x, dir, d - 1) + (if Move(x, dir, d) % 100 == 0 then 1 else 0)
  }

  /** The number of clicks, over all instructions, that leave the dial at 0. */
  function Passes(ins: seq<Instruction>): nat {
    if ins == [] then 0
    else
      var last := ins[|ins| - 1];
      var before := ins[..|ins| - 1];
      Passes(before) + Clicks(Position(before), last.direction, last.distance)
  }

  // ---------------------------------------------------------------------
  // Remainders

  /** The remainder by 100 of the source's `%` on `i32`, which truncates toward
      zero: it takes the sign of `a`. */
  function Rem(a: int): (r: int)
    ensures -100 < r < 100
    ensures (a - r) % 100 == 0
    ensures a >= 0 ==> r >= 0
    ensures a <= 0 ==> r <= 0
  {
    if a >= 0 then a % 100 else -((-a) % 100)
  }

  /** Numbers that differ by a multiple of 100 have the same remainder. */
  lemma SameMod(a: int, b: int)
    requires (a - b) % 100 == 0
    ensures a % 100 == b % 100
  {
    var q := (a - b) / 100;
    assert a == b + 100 * q;
  }

  /** Adding `n` keeps two numbers congruent. */
  lemma ShiftMod(a: int, b: int, n: int)
    requires a % 100 == b % 100
    ensures (a + n) % 100 == (b + n) % 100
  {
    var qa, qb := a / 100, b / 100;
    assert a - b == 100 * (qa - qb);
    SameMod(a + n, b + n);
  }

  // ---------------------------------------------------------------------
  // Part one

  /** Reducing a position congruent to `p` keeps it congruent, and the
      reduced value is 0 exactly when `p` is a multiple of 100. */
  lemma RemStep(x: int, p: int)
    requires (x - p) % 100 == 0
    ensures (Rem(x) - p) % 100 == 0
    ensures Rem(x) == 0 <==> p % 100 == 0
  {
    var r := Rem(x);
    SameMod(x, r);
    SameMod(x, p);
    SameMod(r, p);
  }

  /** The number of instructions after which the dial points at 0, with the
      position kept as the truncating remainder of the source. */
  method Part1(ins: seq<Instruction>) returns (zeros: nat)
    requires InRange(ins)
    ensures zeros == Landings(ins)
  {
    var x: int := Start;
    zeros := 0;
    for i := 0 to |ins|
      invariant -100 < x < 100
      invariant (x - Position(ins[..i])) % 100 == 0
      invariant zeros == Landings(ins[..i])
    {
      var inst := ins[i];
      assert ins[..i + 1][..i] == ins[..i];
      ghost var before, after := Position(ins[..i]), Position(ins[..i + 1]);
      ghost var x0 := x;
      match inst.direction {
        case Left => x := x - inst.distance;
        case Right => x := x + inst.distance;
      }
      assert x - after == x0 - before;
      RemStep(x, after);
      x := Rem(x);
      if x == 0 {
        zeros := zeros + 1;
      }
    }
    assert ins[..|ins|] == ins;
  }

  // ---------------------------------------------------------------------
  // Part two

  /** One more hundred is reached exactly when the new number is a multiple
      of 100. */
  lemma DivStep(n: int)
    ensures (n + 1) / 100 == n / 100 + (if (n + 1) % 100 == 0 then 1 else 0)
  {
    var q, r := n / 100, n % 100;
    assert n == 100 * q + r;
    if r == 99 {
      assert n + 1 == 100 * (q + 1);
    } else {
      assert n + 1 == 100 * q + (r + 1);
    }
  }

  /** Clicks to the right from `x` in [0, 100) pass 0 `(x + d) / 100` times. */
  lemma {:induction false} RightClicks(x: int, d: nat)
    requires 0 <= x < 100
    ensures Clicks(x, Right, d) == (x + d) / 100
  {
    if d > 0 {
      RightClicks(x, d - 1);
      DivStep(x + d - 1);
    }
  }

  /** Clicks to the left from `x` mirror clicks to the right from `-x`. */
  lemma {:induction false} LeftMirror(x: int, d: nat)
    ensures Clicks(x, Left, d) == Clicks(-x, Right, d)
  {
    if d > 0 {
      LeftMirror(x, d - 1);
    }
  }

  /** Counting clicks depends on the start only modulo 100. */
  lemma {:induction false} ClicksShift(x: int, y: int, dir: Direction, d: nat)
    requires x % 100 == y % 100
    ensures Clicks(x, dir, d) == Clicks(y, dir, d)
  {
    if d > 0 {
      ClicksShift(x, y, dir, d - 1);
      match dir {
        case Left => ShiftMod(x, y, 0 - d);
        case Right => ShiftMod(x, y, d);
      }
    }
  }

  /** The left-hand closed form of the source: with `x` in [0, 100), the
      clicks to the left that pass 0 number `(d + from) / 100`, where `from`
      is the distance from 0 going right. */
  lemma LeftClicks(x: int, d: nat)
    requires 0 <= x < 100
    ensures Clicks(x, Left, d) == (d + (if x == 0 then 0 else 100 - x)) / 100
  {
    LeftMirror(x, d);
    var y := if x == 0 then 0 else 100 - x;
    assert (-x) % 100 == y % 100 by {
      if x != 0 {
        assert -x == -100 + y;
      }
    }
    ClicksShift(-x, y, Right, d);
    RightClicks(y, d);
  }

  /** The number of clicks that leave the dial at 0, with the closed form of
      the source per instruction and the position reduced by `rem_euclid`. */
  method Part2(ins: seq<Instruction>) returns (zeros: nat)
    requires InRange(ins)
    ensures zeros == Passes(ins)
  {
    var x: int := Start;
    zeros := 0;
    for i := 0 to |ins|
      invariant 0 <= x < 100
      invariant x == Position(ins[..i]) % 100
      invariant zeros == Passes(ins[..i])
    {
      var inst := ins[i];
      var d := inst.distance;
      assert ins[..i + 1][..i] == ins[..i];
      ghost var x0 := x;
      ClicksShift(x, Position(ins[..i]), inst.direction, d);
      match inst.direction {
        case Right =>
          RightClicks(x, d);
          zeros := zeros + (x + d) / 100;
          x := x + d;
        case Left =>
          LeftClicks(x, d);
          var fromZero := if x == 0 then 0 else 100 - x;
          zeros := zeros + (d + fromZero) / 100;
          x := x - d;
      }
      assert x == Move(x0, inst.direction, d);
      ShiftMod(x0, Position(ins[..i]), x - x0);
      x := x % 100;
    }
    assert ins[..|ins|] == ins;
  }

  /** When every instruction moves the dial, each landing on 0 is also the
      last click of its instruction, so part one never exceeds part two. */
  lemma {:induction false} LandingsAtMostPasses(ins: seq<Instruction>)
    requires forall i :: 0 <= i < |ins| ==> ins[i].distance > 0
    ensures Landings(ins) <= Passes(ins)
  {
    if ins != [] {
      var before, last := ins[..|ins| - 1], ins[|ins| - 1];
      LandingsAtMostPasses(before);
      assert Clicks(Position(before), last.direction, last.distance)
        >= (if Position(ins) % 100 == 0 then 1 else 0);
    }
  }
}
