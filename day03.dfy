/** Day 3: each line is a row of battery digits.  Part one turns on two
    batteries, in order, to make the largest two-digit joltage; part two
    turns on twelve with a right-to-left greedy that keeps the best twelve
    digits seen so far.  Both totals add the per-line joltages. */
module Day03 {

  import opened Sums

  /** A row of battery digits. */
  type Line = seq<nat>

  predicate Digits(line: Line) {
    forall k :: 0 <= k < |line| ==> line[k] <= 9
  }

  // ---------------------------------------------------------------------
  // Part one

  /** The joltage of the batteries at `i` before `j`. */
  function PairValue(line: Line, i: nat, j: nat): nat
    requires i < j < |line|
  {
    10 * line[i] + line[j]
  }

  /** `v` is the largest joltage of two batteries turned on in order. */
  ghost predicate IsMaxPair(line: Line, v: nat) {
    && (exists i, j :: 0 <= i < j < |line| && PairValue(line, i, j) == v)
    && (forall i, j :: 0 <= i < j < |line| ==> PairValue(line, i, j) <= v)
  }

  /** A line has one largest pair value, so part one's total is fixed. */
  lemma MaxPairUnique(line: Line, v: nat, w: nat)
    requires IsMaxPair(line, v) && IsMaxPair(line, w)
    ensures v == w
  {
    var i, j :| 0 <= i < j < |line| && PairValue(line, i, j) == v;
    var k, l :| 0 <= k < l < |line| && PairValue(line, k, l) == w;
  }

  /** The source's scan from the right: `a` is the leftmost largest digit
      before the last one, `b` the largest digit after `a`. */
  method MaxPair(line: Line) returns (v: nat)
    requires |line| >= 2 && Digits(line)
    ensures IsMaxPair(line, v)
  {
    var n := |line|;
    var a, b := line[n - 2], line[n - 1];
    ghost var ia, ib := n - 2, n - 1;
    var i := n - 2;
    while i > 0
      invariant 0 <= i <= ia < ib < n && ia <= n - 2
      invariant a == line[ia] && b == line[ib]
      invariant forall k :: i <= k < n - 1 ==> line[k] <= a
      invariant forall k :: i <= k < ia ==> line[k] < a
      invariant forall k :: ia < k < n ==> line[k] <= b
    {
      i := i - 1;
      var digit := line[i];
      if digit >= a {
        if a > b {
          b, ib := a, ia;
        }
        a, ia := digit, i;
      }
    }
    v := a * 10 + b;
    assert PairValue(line, ia, ib) == v;
    forall p, q | 0 <= p < q < n ensures PairValue(line, p, q) <= v {
      if line[p] < a {
        assert line[q] <= 9;
      }
    }
  }

  /** Part one's total: the largest two-digit joltage of every line. */
  method Part1(grid: seq<Line>) returns (joltage: nat, ghost values: seq<nat>)
    requires forall r :: 0 <= r < |grid| ==> |grid[r]| >= 2 && Digits(grid[r])
    ensures |values| == |grid|
    ensures forall r :: 0 <= r < |grid| ==> IsMaxPair(grid[r], values[r])
    ensures joltage == Sum(values)
  {
    joltage, values := 0, [];
    for r := 0 to |grid|
      invariant |values| == r
      invariant forall k :: 0 <= k < r ==> IsMaxPair(grid[k], values[k])
      invariant joltage == Sum(values)
    {
      var v := MaxPair(grid[r]);
      assert (values + [v])[..r] == values;
      joltage, values := joltage + v, values + [v];
    }
  }

  // ---------------------------------------------------------------------
  // Part two

  /** The number of batteries part two turns on. */
  const Width: nat := 12

  /** `t` is read from `line` at the strictly increasing positions `idx`,
      all at or after `from`. */
  ghost predicate Picks(line: Line, idx: seq<nat>, t: seq<nat>, from: nat) {
    && |idx| == |t|
    && (forall k :: 0 <= k < |idx| ==> from <= idx[k] < |line| && t[k] == line[idx[k]])
    && (forall k, l :: 0 <= k < l < |idx| ==> idx[k] < idx[l])
  }

  /** `t` is an in-order subsequence of `line[from..]`. */
  ghost predicate SubsequenceFrom(line: Line, t: seq<nat>, from: nat) {
    exists idx :: Picks(line, idx, t, from)
  }

  /** `t` does not increase before position `r`. */
  ghost predicate DescendsTo(t: seq<nat>, r: nat)
    requires r < |t|
  {
    forall k :: 0 < k <= r ==> t[k - 1] >= t[k]
  }

  /** One step of the greedy for a digit at least the first kept one: the
      digit goes in front and the kept digits shift right until the first
      one that is smaller than its successor, which is dropped (the last
      one when there is none). */
  method Displace(noi: seq<nat>, digit: nat) returns (newnoi: seq<nat>, ghost r: nat)
    requires |noi| == Width && digit >= noi[0]
    ensures r < Width
    ensures newnoi == [digit] + noi[..r] + noi[r + 1..]
    ensures DescendsTo(noi, r)
    ensures r < Width - 1 ==> noi[r] < noi[r + 1]
  {
    newnoi := noi[0 := digit];
    r := Width - 1;
    for i := 1 to Width
      invariant forall k :: 0 < k < i ==> noi[k - 1] >= noi[k]
      invariant newnoi == [digit] + noi[..i - 1] + noi[i..]
    {
      if noi[i - 1] >= noi[i] {
        newnoi := newnoi[i := noi[i - 1]];
      } else {
        r := i - 1;
        break;
      }
    }
  }

  /** Dropping one position of a pick and putting `i` in front is a pick
      from `i` on. */
  lemma DisplaceKeepsPick(line: Line, idx: seq<nat>, noi: seq<nat>, i: nat, r: nat)
    requires |noi| == Width && r < Width && i < |line|
    requires Picks(line, idx, noi, i + 1)
    ensures Picks(line, [i] + idx[..r] + idx[r + 1..], [line[i]] + noi[..r] + noi[r + 1..], i)
  {
    var idx' := [i] + idx[..r] + idx[r + 1..];
    var t := [line[i]] + noi[..r] + noi[r + 1..];
    forall k | 0 <= k < |idx'| ensures i <= idx'[k] < |line| && t[k] == line[idx'[k]] {
      if k > 0 {
        if k - 1 < r {
          assert idx'[k] == idx[k - 1];
        } else {
          assert idx'[k] == idx[k];
        }
      }
    }
    forall k, l | 0 <= k < l < |idx'| ensures idx'[k] < idx'[l] {
      var k', l' := if k - 1 < r then k - 1 else k, if l - 1 < r then l - 1 else l;
      if k > 0 {
        assert idx'[k] == idx[k'] && idx'[l] == idx[l'];
      } else {
        assert idx'[l] == idx[l'];
      }
    }
  }

  /** The decimal number whose digits are `t`, most significant first. */
  function Decimal(t: seq<nat>): nat {
    if t == [] then 0 else Decimal(t[..|t| - 1]) * 10 + t[|t| - 1]
  }

  /** Reading `t` from the left with `acc * 10 + digit`. */
  method ReadDecimal(t: seq<nat>) returns (acc: nat)
    ensures acc == Decimal(t)
  {
    acc := 0;
    for k := 0 to |t|
      invariant acc == Decimal(t[..k])
    {
      assert t[..k + 1][..k] == t[..k];
      acc := acc * 10 + t[k];
    }
    assert t[..|t|] == t;
  }

  /** Twelve decimal digits make a number below 10^12. */
  lemma {:induction false} DecimalBound(t: seq<nat>)
    requires Digits(t)
    ensures Decimal(t) < Pow10(|t|)
  {
    if t != [] {
      DecimalBound(t[..|t| - 1]);
    }
  }

  function Pow10(k: nat): nat {
    if k == 0 then 1 else 10 * Pow10(k - 1)
  }

  /** Putting a digit in front adds it times the place value. */
  lemma {:induction false} DecimalFront(d: nat, t: seq<nat>)
    ensures Decimal([d] + t) == d * Pow10(|t|) + Decimal(t)
    decreases |t|
  {
    if t != [] {
      var t' := t[..|t| - 1];
      assert ([d] + t)[..|t|] == [d] + t';
      DecimalFront(d, t');
    }
  }

  /** A smaller leading digit gives a smaller number of the same length. */
  lemma FrontLess(d: nat, t: seq<nat>, e: nat, u: seq<nat>)
    requires d < e && |t| == |u| && Digits(t)
    ensures Decimal([d] + t) < Decimal([e] + u)
  {
    DecimalFront(d, t);
    DecimalFront(e, u);
    DecimalBound(t);
    LessByPlace(d, e, Decimal(t), Decimal(u), Pow10(|t|));
  }

  /** A smaller digit in the leading place outweighs the places below. */
  lemma LessByPlace(d: nat, e: nat, x: nat, y: nat, p: nat)
    requires d < e && x < p
    ensures d * p + x < e * p + y
  {
    MulLe(d + 1, e, p);
    assert (d + 1) * p == d * p + p;
  }

  lemma MulLe(a: nat, b: nat, p: nat)
    requires a <= b
    ensures a * p <= b * p
  {
    assert b * p == a * p + (b - a) * p;
  }

  /** With the same leading digit, the rest decides. */
  lemma FrontSame(d: nat, t: seq<nat>, u: seq<nat>)
    requires |t| == |u|
    ensures Decimal([d] + t) <= Decimal([d] + u) <==> Decimal(t) <= Decimal(u)
  {
    DecimalFront(d, t);
    DecimalFront(d, u);
  }

  /** Removes the first digit that is smaller than its successor, or the
      last digit when the digits never increase. */
  function Drop(t: seq<nat>): (r: seq<nat>)
    requires |t| >= 1
    ensures |r| == |t| - 1
  {
    if |t| == 1 then []
    else if t[0] < t[1] then t[1..]
    else [t[0]] + Drop(t[1..])
  }

  lemma {:induction false} DropDigits(t: seq<nat>)
    requires |t| >= 1 && Digits(t)
    ensures Digits(Drop(t))
  {
    if |t| > 1 && t[0] >= t[1] {
      DropDigits(t[1..]);
    }
  }

  /** The source's displacement drops exactly what `Drop` drops. */
  lemma {:induction false} DropAt(t: seq<nat>, r: nat)
    requires r < |t| && DescendsTo(t, r)
    requires r < |t| - 1 ==> t[r] < t[r + 1]
    ensures Drop(t) == t[..r] + t[r + 1..]
  {
    if r > 0 {
      var t' := t[1..];
      assert DescendsTo(t', r - 1) by {
        forall k | 0 < k <= r - 1 ensures t'[k - 1] >= t'[k] {
          assert t[k] >= t[k + 1];
        }
      }
      DropAt(t', r - 1);
      assert t[0] >= t[1];
      assert Drop(t) == [t[0]] + Drop(t');
      SkipInTail(t, r);
    }
  }

  /** Leaving out entry `r > 0` leaves it out of the tail. */
  lemma SkipInTail(t: seq<nat>, r: nat)
    requires 0 < r < |t|
    ensures t[..r] + t[r + 1..] == [t[0]] + (t[1..][..r - 1] + t[1..][r..])
  {
    assert t[..r] == [t[0]] + t[1..][..r - 1];
    assert t[r + 1..] == t[1..][r..];
  }

  /** `Drop` never starts lower than its argument. */
  lemma DropHead(t: seq<nat>)
    requires |t| >= 2
    ensures Drop(t)[0] >= t[0]
  {
  }

  /** Dropping a digit leaves at least the number without the first one. */
  lemma {:induction false} DropAtLeastTail(t: seq<nat>)
    requires |t| >= 1 && Digits(t)
    ensures Decimal(t[1..]) <= Decimal(Drop(t))
  {
    if |t| > 1 && t[0] >= t[1] {
      var rest := t[1..];
      DropAtLeastTail(rest);
      SplitHead(rest);
      if t[0] > t[1] {
        FrontLess(t[1], rest[1..], t[0], Drop(rest));
      } else {
        FrontSame(t[0], rest[1..], Drop(rest));
      }
    }
  }

  /** The right-to-left greedy for `k` digits of `s`, as a function: the
      last `k` digits to start with, then each earlier digit that is at
      least the first kept one goes in front and pushes one digit out. */
  function Greedy(s: seq<nat>, k: nat): (r: seq<nat>)
    requires k <= |s|
    ensures |r| == k
    decreases |s|
  {
    if k == 0 then []
    else if |s| == k then s
    else
      var t := Greedy(s[1..], k);
      if s[0] < t[0] then t else [s[0]] + Drop(t)
  }

  /** The greedy from position `i` is one step on the greedy from `i + 1`. */
  lemma GreedyAt(line: Line, i: nat, noi: seq<nat>)
    requires i + Width < |line| && noi == Greedy(line[i + 1..], Width)
    ensures Greedy(line[i..], Width) == if line[i] < noi[0] then noi else [line[i]] + Drop(noi)
  {
    assert line[i..][1..] == line[i + 1..];
  }

  /** What `Displace` keeps is the new digit in front of what `Drop` keeps. */
  lemma DisplaceIsDrop(noi: seq<nat>, digit: nat, r: nat)
    requires r < |noi| && DescendsTo(noi, r)
    requires r < |noi| - 1 ==> noi[r] < noi[r + 1]
    ensures [digit] + noi[..r] + noi[r + 1..] == [digit] + Drop(noi)
  {
    DropAt(noi, r);
  }

  lemma {:induction false} GreedyDigits(s: seq<nat>, k: nat)
    requires k <= |s| && Digits(s)
    ensures Digits(Greedy(s, k))
    decreases |s|
  {
    if k > 0 && |s| > k {
      GreedyDigits(s[1..], k);
      DropDigits(Greedy(s[1..], k));
    }
  }

  /** The greedy for `k - 1` digits is the greedy for `k` digits with one
      digit dropped. */
  lemma {:induction false} GreedyDrop(s: seq<nat>, k: nat)
    requires 1 <= k <= |s|
    ensures Greedy(s, k - 1) == Drop(Greedy(s, k))
    decreases |s|
  {
    if k >= 2 && |s| > k {
      var t := Greedy(s[1..], k);
      GreedyDrop(s[1..], k);
      if s[0] < t[0] {
        DropHead(t);
      }
    }
  }

  /** The greedy never does worse than on the line without its first digit. */
  lemma GreedyGrows(s: seq<nat>, k: nat)
    requires 1 <= k < |s| && Digits(s)
    ensures Decimal(Greedy(s[1..], k)) <= Decimal(Greedy(s, k))
  {
    var t := Greedy(s[1..], k);
    GreedyDigits(s[1..], k);
    if s[0] >= t[0] {
      SplitHead(t);
      DropAtLeastTail(t);
      if s[0] > t[0] {
        FrontLess(t[0], t[1..], s[0], Drop(t));
      } else {
        FrontSame(s[0], t[1..], Drop(t));
      }
    }
  }

  /** A pick from `from` on has at most `|line| - from` digits. */
  lemma {:induction false} PickLength(line: Line, idx: seq<nat>, t: seq<nat>, from: nat)
    requires from <= |line| && Picks(line, idx, t, from)
    ensures |t| <= |line| - from
    decreases |t|
  {
    if t != [] {
      assert Picks(line, idx[1..], t[1..], idx[0] + 1);
      PickLength(line, idx[1..], t[1..], idx[0] + 1);
    }
  }

  /** Taking the first digit and at most the best `k - 1` of the rest is
      no better than the greedy. */
  lemma TakeFirst(s: seq<nat>, k: nat, u: seq<nat>)
    requires 1 <= k <= |s| && Digits(s) && |u| == k - 1 && Digits(u)
    requires Decimal(u) <= Decimal(Greedy(s[1..], k - 1))
    ensures Decimal([s[0]] + u) <= Decimal(Greedy(s, k))
  {
    var s' := s[1..];
    if |s| == k {
      assert s == [s[0]] + s';
      FrontSame(s[0], u, s');
    } else {
      var g := Greedy(s', k);
      GreedyDrop(s', k);
      if s[0] < g[0] {
        assert g == [g[0]] + g[1..];
        FrontLess(s[0], u, g[0], g[1..]);
      } else {
        FrontSame(s[0], u, Drop(g));
      }
    }
  }

  /** A pick of digits is made of digits. */
  lemma PickDigits(line: Line, idx: seq<nat>, t: seq<nat>, from: nat)
    requires Digits(line) && Picks(line, idx, t, from)
    ensures Digits(t)
  {
  }

  /** No in-order choice of `k` digits of `s` reads larger than the greedy. */
  lemma {:induction false} GreedyOptimal(s: seq<nat>, k: nat, idx: seq<nat>, t: seq<nat>)
    requires k <= |s| && Digits(s)
    requires Picks(s, idx, t, 0) && |t| == k
    ensures Decimal(t) <= Decimal(Greedy(s, k))
    decreases |s|
  {
    if k > 0 {
      var s' := s[1..];
      if idx[0] > 0 {
        var idx' := SkipFirst(s, idx, t);
        if |s| == k {
          PickLength(s, idx, t, 1);
        } else {
          GreedyOptimal(s', k, idx', t);
          GreedyGrows(s, k);
        }
      } else {
        var idx' := UseFirst(s, idx, t);
        var u := t[1..];
        PickDigits(s', idx', u, 0);
        GreedyOptimal(s', k - 1, idx', u);
        SplitHead(t);
        TakeFirst(s, k, u);
      }
    }
  }

  /** A pick that skips the first digit is a pick of the rest. */
  lemma SkipFirst(s: seq<nat>, idx: seq<nat>, t: seq<nat>) returns (idx': seq<nat>)
    requires Picks(s, idx, t, 0) && |t| > 0 && idx[0] > 0
    ensures Picks(s[1..], idx', t, 0)
  {
    idx' := seq(|t|, j requires 0 <= j < |t| => idx[j] - 1);
  }

  /** A pick that takes the first digit is that digit before a pick of the rest. */
  lemma UseFirst(s: seq<nat>, idx: seq<nat>, t: seq<nat>) returns (idx': seq<nat>)
    requires Picks(s, idx, t, 0) && |t| > 0 && idx[0] == 0
    ensures Picks(s[1..], idx', t[1..], 0) && t[0] == s[0]
  {
    idx' := seq(|t| - 1, j requires 0 <= j < |t| - 1 => idx[j + 1] - 1);
    forall j | 0 <= j < |idx'| ensures 0 <= idx'[j] < |s| - 1 && t[1..][j] == s[1..][idx'[j]] {
      assert idx[0] < idx[j + 1];
    }
  }

  lemma SplitHead(t: seq<nat>)
    requires t != []
    ensures t == [t[0]] + t[1..]
  {
  }

  /** `t` is the largest number made of twelve digits of `line` in order. */
  ghost predicate IsLargest(line: Line, t: seq<nat>) {
    && |t| == Width
    && SubsequenceFrom(line, t, 0)
    && forall idx, u :: Picks(line, idx, u, 0) && |u| == Width ==> Decimal(u) <= Decimal(t)
  }

  /** Two largest picks read the same number, so part two's total is fixed. */
  lemma LargestUnique(line: Line, t: seq<nat>, u: seq<nat>)
    requires IsLargest(line, t) && IsLargest(line, u)
    ensures Decimal(t) == Decimal(u)
  {
    var it :| Picks(line, it, t, 0);
    var iu :| Picks(line, iu, u, 0);
  }

  /** The twelve digits the source's greedy keeps for one line, whose
      length is `n`. */
  method Keep12(line: Line) returns (noi: seq<nat>)
    requires |line| >= Width && Digits(line)
    ensures noi == Greedy(line, Width)
    ensures IsLargest(line, noi)
  {
    var n := |line|;
    noi := line[n - Width..];
    ghost var idx: seq<nat> := seq(Width, k requires 0 <= k => n - Width + k);
    assert Picks(line, idx, noi, n - Width);
    var i := n - Width;
    while i > 0
      invariant 0 <= i <= n - Width
      invariant noi == Greedy(line[i..], Width)
      invariant Picks(line, idx, noi, i)
    {
      i := i - 1;
      GreedyAt(line, i, noi);
      var digit := line[i];
      if digit < noi[0] {
        continue;
      }
      var newnoi, r := Displace(noi, digit);
      DisplaceKeepsPick(line, idx, noi, i, r);
      DisplaceIsDrop(noi, digit, r);
      idx := [i] + idx[..r] + idx[r + 1..];
      noi := newnoi;
    }
    assert line[0..] == line;
    forall idx', u | Picks(line, idx', u, 0) && |u| == Width ensures Decimal(u) <= Decimal(noi) {
      GreedyOptimal(line, Width, idx', u);
    }
  }

  /** Part two's total: the decimal reading of the twelve kept digits of
      every line.  The source takes `n` from the first line and cuts every
      line at `n - 12`, so every line must be that long. */
  method Part2(grid: seq<Line>) returns (total: nat, ghost kept: seq<seq<nat>>)
    requires |grid| > 0 && |grid[0]| >= Width
    requires forall r :: 0 <= r < |grid| ==> |grid[r]| == |grid[0]| && Digits(grid[r])
    ensures |kept| == |grid|
    ensures forall r :: 0 <= r < |grid| ==> IsLargest(grid[r], kept[r])
    ensures total == SumDecimals(kept)
  {
    total, kept := 0, [];
    for r := 0 to |grid|
      invariant |kept| == r
      invariant forall k :: 0 <= k < r ==> IsLargest(grid[k], kept[k])
      invariant total == SumDecimals(kept)
    {
      var noi := Keep12(grid[r]);
      var joltage := ReadDecimal(noi);
      assert (kept + [noi])[..r] == kept;
      total, kept := total + joltage, kept + [noi];
    }
  }

  function SumDecimals(ts: seq<seq<nat>>): nat {
    if ts == [] then 0 else SumDecimals(ts[..|ts| - 1]) + Decimal(ts[|ts| - 1])
  }
}
