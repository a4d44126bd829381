/** Day 10: the fewest button groups whose toggles produce a light pattern.

    Lights and button groups are bit masks; pressing a set of groups toggles
    the XOR of their masks.  `MinReprPattern` is the source's in-place
    dynamic programme over all 1024 ten-bit masks; `Best` is the recurrence
    it computes, entry by entry, and the lemmas show that each entry is the
    least number of groups, each pressed at most once, whose XOR is the
    entry's mask, and so the least number of presses that light exactly the
    device's pattern. */
module Day10 {

  /** The table's "unreachable" marker, `u16::MAX`. */
  const INF: nat := 0xFFFF

  /** Size of the table: masks of ten bits. */
  const SIZE: nat := 1024

  // ---------------------------------------------------------------------
  // Masks as numbers, bit by bit

  function Pow2(k: nat): (r: nat)
    ensures r >= 1
  {
    if k == 0 then 1 else 2 * Pow2(k - 1)
  }

  /** Bit `b` of `m` is set. */
  predicate Bit(m: nat, b: nat) {
    if b == 0 then m % 2 == 1 else Bit(m / 2, b - 1)
  }

  /** Bitwise OR, the `|` of the source. */
  function Or(a: nat, c: nat): nat
    decreases a + c
  {
    if a == 0 && c == 0 then 0
    else 2 * Or(a / 2, c / 2) + (if a % 2 == 1 || c % 2 == 1 then 1 else 0)
  }

  /** Bitwise XOR, the `^` of the source. */
  function Xor(a: nat, c: nat): nat
    decreases a + c
  {
    if a == 0 && c == 0 then 0
    else 2 * Xor(a / 2, c / 2) + (if a % 2 == c % 2 then 0 else 1)
  }

  lemma {:induction false} BitOr(a: nat, c: nat, b: nat)
    ensures Bit(Or(a, c), b) <==> Bit(a, b) || Bit(c, b)
    decreases b
  {
    if !(a == 0 && c == 0) {
      Halve(Or(a / 2, c / 2), if a % 2 == 1 || c % 2 == 1 then 1 else 0);
      if b > 0 {
        BitOr(a / 2, c / 2, b - 1);
      }
    }
  }

  /** The lowest bit and the rest of `2x + r`. */
  lemma Halve(x: nat, r: nat)
    requires r < 2
    ensures (2 * x + r) % 2 == r && (2 * x + r) / 2 == x
  {
  }

  lemma {:induction false} BitPow2(n: nat, b: nat)
    ensures Bit(Pow2(n), b) <==> b == n
    decreases b
  {
    if b > 0 && n > 0 {
      BitPow2(n - 1, b - 1);
    } else if b > 0 {
      assert Pow2(n) / 2 == 0;
      BitZero(b - 1);
    }
  }

  lemma {:induction false} BitZero(b: nat)
    ensures !Bit(0, b)
  {
    if b > 0 {
      BitZero(b - 1);
    }
  }

  lemma {:induction false} OrBound(a: nat, c: nat, k: nat)
    requires a < Pow2(k) && c < Pow2(k)
    ensures Or(a, c) < Pow2(k)
    decreases k
  {
    if k > 0 && !(a == 0 && c == 0) {
      OrBound(a / 2, c / 2, k - 1);
    }
  }

  lemma {:induction false} XorBound(a: nat, c: nat, k: nat)
    requires a < Pow2(k) && c < Pow2(k)
    ensures Xor(a, c) < Pow2(k)
    decreases k
  {
    if k > 0 && !(a == 0 && c == 0) {
      XorBound(a / 2, c / 2, k - 1);
    }
  }

  lemma {:induction false} PowMonotone(j: nat, k: nat)
    requires j <= k
    ensures Pow2(j) <= Pow2(k)
    decreases k
  {
    if j < k {
      PowMonotone(j, k - 1);
    }
  }

  lemma {:induction false} XorZero(a: nat)
    ensures Xor(a, 0) == a
    decreases a
  {
    if a != 0 {
      XorZero(a / 2);
    }
  }

  /** XOR with the same mask twice gives the mask back. */
  lemma {:induction false} XorInvolution(a: nat, c: nat)
    ensures Xor(Xor(a, c), c) == a
    decreases a + c
  {
    if a == 0 && c == 0 {
    } else if c == 0 {
      XorZero(a);
      XorZero(a);
    } else {
      var x := Xor(a, c);
      XorInvolution(a / 2, c / 2);
      assert x / 2 == Xor(a / 2, c / 2) && x % 2 == (if a % 2 == c % 2 then 0 else 1);
    }
  }

  lemma {:induction false} BitXor(a: nat, c: nat, b: nat)
    ensures Bit(Xor(a, c), b) <==> Bit(a, b) != Bit(c, b)
    decreases b
  {
    if a == 0 && c == 0 {
      BitZero(b);
    } else {
      Halve(Xor(a / 2, c / 2), if a % 2 == c % 2 then 0 else 1);
      if b > 0 {
        BitXor(a / 2, c / 2, b - 1);
      }
    }
  }

  /** A mask below `2^k` is determined by its lowest `k` bits. */
  lemma {:induction false} BitsDetermine(a: nat, c: nat, k: nat)
    requires a < Pow2(k) && c < Pow2(k)
    requires forall b: nat :: b < k ==> (Bit(a, b) <==> Bit(c, b))
    ensures a == c
    decreases k
  {
    if k > 0 {
      assert Bit(a, 0) <==> Bit(c, 0);
      forall b: nat | b < k - 1 ensures Bit(a / 2, b) <==> Bit(c / 2, b) {
        assert Bit(a, b + 1) <==> Bit(c, b + 1);
      }
      BitsDetermine(a / 2, c / 2, k - 1);
    }
  }

  // ---------------------------------------------------------------------
  // Encoders

  /** The mask with bit `n` set for every light `n` of the group. */
  function GroupToBitmask(group: seq<nat>): (m: nat)
    requires forall k :: 0 <= k < |group| ==> group[k] < 16
    ensures forall b: nat :: Bit(m, b) <==> b in group
  {
    if group == [] then
      assert forall b: nat :: !Bit(0, b) by {
        forall b: nat ensures !Bit(0, b) { BitZero(b); }
      }
      0
    else
      var n := group[|group| - 1];
      var acc := GroupToBitmask(group[..|group| - 1]);
      assert group == group[..|group| - 1] + [n];
      assert forall b: nat :: Bit(Or(acc, Pow2(n)), b) <==> Bit(acc, b) || b == n by {
        forall b: nat ensures Bit(Or(acc, Pow2(n)), b) <==> Bit(acc, b) || b == n {
          BitOr(acc, Pow2(n), b);
          BitPow2(n, b);
        }
      }
      Or(acc, Pow2(n))
  }

  /** The mask with bit `i` set for every light `i` that is on. */
  function PatternToBitmask(pattern: seq<bool>): (m: nat)
    requires forall i :: 16 <= i < |pattern| ==> !pattern[i]
    ensures forall b: nat :: Bit(m, b) <==> b < |pattern| && pattern[b]
  {
    if pattern == [] then
      assert forall b: nat :: !Bit(0, b) by {
        forall b: nat ensures !Bit(0, b) { BitZero(b); }
      }
      0
    else
      var i := |pattern| - 1;
      var acc := PatternToBitmask(pattern[..i]);
      assert forall b: nat :: Bit(Or(acc, Pow2(i)), b) <==> Bit(acc, b) || b == i by {
        forall b: nat ensures Bit(Or(acc, Pow2(i)), b) <==> Bit(acc, b) || b == i {
          BitOr(acc, Pow2(i), b);
          BitPow2(i, b);
        }
      }
      if pattern[i] then Or(acc, Pow2(i)) else acc
  }

  /** Encoded groups and patterns over lights below `k` fit in `k` bits. */
  lemma {:induction false} GroupBound(group: seq<nat>, k: nat)
    requires k <= 16 && forall i :: 0 <= i < |group| ==> group[i] < k
    ensures GroupToBitmask(group) < Pow2(k)
  {
    if group != [] {
      var n := group[|group| - 1];
      GroupBound(group[..|group| - 1], k);
      PowMonotone(n + 1, k);
      OrBound(GroupToBitmask(group[..|group| - 1]), Pow2(n), k);
    }
  }

  lemma {:induction false} PatternBound(pattern: seq<bool>)
    requires |pattern| <= 16
    ensures PatternToBitmask(pattern) < Pow2(|pattern|)
  {
    if pattern != [] {
      var i := |pattern| - 1;
      PatternBound(pattern[..i]);
      OrBound(PatternToBitmask(pattern[..i]), Pow2(i), i + 1);
    }
  }

  // ---------------------------------------------------------------------
  // Selections of groups

  predicate Masks(gs: seq<nat>) {
    forall k :: 0 <= k < |gs| ==> gs[k] < SIZE
  }

  /** The XOR of the masks that `sel` picks. */
  function XorOf(gs: seq<nat>, sel: seq<bool>): (x: nat)
    requires |sel| == |gs| && Masks(gs)
    ensures x < SIZE
  {
    if gs == [] then 0
    else
      var x' := XorOf(gs[..|gs| - 1], sel[..|sel| - 1]);
      var g := if sel[|sel| - 1] then gs[|gs| - 1] else 0;
      XorBound(x', g, 10);
      Xor(x', g)
  }

  /** How many groups `sel` picks. */
  function Count(sel: seq<bool>): nat {
    if sel == [] then 0 else Count(sel[..|sel| - 1]) + (if sel[|sel| - 1] then 1 else 0)
  }

  lemma {:induction false} CountBound(sel: seq<bool>)
    ensures Count(sel) <= |sel|
  {
    if sel != [] {
      CountBound(sel[..|sel| - 1]);
    }
  }

  // ---------------------------------------------------------------------
  // The recurrence

  function Min(a: nat, b: nat): nat {
    if a <= b then a else b
  }

  /** The index `p ^ g` of the source. */
  function XorIdx(p: nat, g: nat): (r: nat)
    requires p < SIZE && g < SIZE
    ensures r < SIZE
  {
    XorBound(p, g, 10);
    Xor(p, g)
  }

  lemma XorIdxInvolution(p: nat, g: nat)
    requires p < SIZE && g < SIZE
    ensures XorIdx(XorIdx(p, g), g) == p
  {
    XorInvolution(p, g);
  }

  /** One entry after a round with group `g`: the old count, or one more than
      the count of the mask that `g` turns into this one. */
  function Upd(prev: seq<nat>, g: nat, q: nat): nat
    requires |prev| == SIZE && q < SIZE && g < SIZE
  {
    var from := prev[XorIdx(q, g)];
    if from != INF then Min(prev[q], from + 1) else prev[q]
  }

  /** The entry for mask `q` after every group of `gs` has had its round. */
  ghost function Best(gs: seq<nat>, q: nat): (r: nat)
    requires Masks(gs) && q < SIZE
    ensures r <= INF
    decreases |gs|
  {
    if gs == [] then (if q == 0 then 0 else INF)
    else
      var gs', g := gs[..|gs| - 1], gs[|gs| - 1];
      var stay, from := Best(gs', q), Best(gs', XorIdx(q, g));
      if from != INF then Min(stay, from + 1) else stay
  }

  /** The whole table after the rounds of `gs`. */
  ghost function Table(gs: seq<nat>): (t: seq<nat>)
    requires Masks(gs)
    ensures |t| == SIZE && forall q :: 0 <= q < SIZE ==> t[q] == Best(gs, q)
  {
    seq(SIZE, q requires 0 <= q < SIZE => Best(gs, q))
  }

  /** A round computed from a copy of the table gives the next table. */
  lemma RoundIsNextTable(gs: seq<nat>)
    requires Masks(gs) && gs != []
    ensures forall q :: 0 <= q < SIZE ==> Upd(Table(gs[..|gs| - 1]), gs[|gs| - 1], q) == Best(gs, q)
  {
  }

  /** The empty mask always costs nothing. */
  lemma {:induction false} BestZero(gs: seq<nat>)
    requires Masks(gs)
    ensures Best(gs, 0) == 0
  {
    if gs != [] {
      BestZero(gs[..|gs| - 1]);
    }
  }

  /** Entries never increase from one round to the next. */
  lemma {:induction false} BestDecreases(gs: seq<nat>, k: nat, q: nat)
    requires Masks(gs) && k <= |gs| && q < SIZE
    ensures Best(gs, q) <= Best(gs[..k], q)
    decreases |gs|
  {
    if k < |gs| {
      var gs' := gs[..|gs| - 1];
      assert gs'[..k] == gs[..k];
      BestDecreases(gs', k, q);
    } else {
      assert gs[..k] == gs;
    }
  }

  /** A finite entry is achieved by some selection of that many groups. */
  lemma {:induction false} BestWitness(gs: seq<nat>, q: nat)
    requires Masks(gs) && q < SIZE && Best(gs, q) < INF
    ensures exists sel :: |sel| == |gs| && XorOf(gs, sel) == q && Count(sel) == Best(gs, q)
    decreases |gs|
  {
    if gs == [] {
      assert XorOf(gs, []) == q && Count([]) == 0;
    } else {
      var gs', g := gs[..|gs| - 1], gs[|gs| - 1];
      var from := XorIdx(q, g);
      if Best(gs', from) != INF && Best(gs', from) + 1 < Best(gs', q) {
        BestWitness(gs', from);
        var sel' :| |sel'| == |gs'| && XorOf(gs', sel') == from && Count(sel') == Best(gs', from);
        var sel := sel' + [true];
        assert sel[..|sel| - 1] == sel';
        XorIdxInvolution(q, g);
        assert XorOf(gs, sel) == q;
      } else {
        BestWitness(gs', q);
        var sel' :| |sel'| == |gs'| && XorOf(gs', sel') == q && Count(sel') == Best(gs', q);
        var sel := sel' + [false];
        assert sel[..|sel| - 1] == sel';
        XorZero(q);
        assert XorOf(gs, sel) == q;
      }
    }
  }

  /** No selection reaching a mask uses fewer groups than its entry. */
  lemma {:induction false} BestOptimal(gs: seq<nat>, sel: seq<bool>)
    requires Masks(gs) && |sel| == |gs|
    ensures Best(gs, XorOf(gs, sel)) <= Count(sel)
    decreases |gs|
  {
    if gs != [] {
      var gs', g := gs[..|gs| - 1], gs[|gs| - 1];
      var sel' := sel[..|sel| - 1];
      var x' := XorOf(gs', sel');
      BestOptimal(gs', sel');
      if sel[|sel| - 1] {
        XorInvolution(x', g);
        assert XorIdx(XorOf(gs, sel), g) == x';
      } else {
        XorZero(x');
      }
    }
  }

  /** Hence the entry is the least number of groups reaching `q`, and when
      `q` is reachable at all it is at most the number of groups. */
  lemma BestIsLeast(gs: seq<nat>, q: nat)
    requires Masks(gs) && q < SIZE
    ensures Best(gs, q) < INF ==> Best(gs, q) <= |gs|
    ensures forall sel :: |sel| == |gs| && XorOf(gs, sel) == q ==> Best(gs, q) <= Count(sel)
  {
    forall sel | |sel| == |gs| && XorOf(gs, sel) == q ensures Best(gs, q) <= Count(sel) {
      BestOptimal(gs, sel);
    }
    if Best(gs, q) < INF {
      BestWitness(gs, q);
      var sel :| |sel| == |gs| && XorOf(gs, sel) == q && Count(sel) == Best(gs, q);
      CountBound(sel);
    }
  }

  // ---------------------------------------------------------------------
  // The dynamic programme

  /** Updating in place, in increasing order of `p`, gives the same table as
      a round computed from a copy: this is the step for entry `p`. */
  lemma InPlaceStep(prev: seq<nat>, g: nat, p: nat, cur: nat, curTo: nat)
    requires |prev| == SIZE && p < SIZE && g < SIZE
    requires forall q :: 0 <= q < SIZE ==> prev[q] <= INF
    requires cur == if XorIdx(p, g) < p then Upd(prev, g, p) else prev[p]
    requires curTo == prev[XorIdx(p, g)]
    ensures (if cur != INF then Min(curTo, cur + 1) else curTo) == Upd(prev, g, XorIdx(p, g))
  {
    XorIdxInvolution(p, g);
  }

  /** One round of the source's inner loop, for group mask `g`. */
  method Round(dp: array<nat>, g: nat)
    requires dp.Length == SIZE && g < SIZE
    requires forall q :: 0 <= q < SIZE ==> dp[q] <= INF
    modifies dp
    ensures forall q :: 0 <= q < SIZE ==> dp[q] == Upd(old(dp[..]), g, q)
  {
    ghost var prev := dp[..];
    for p := 0 to dp.Length
      invariant forall q :: 0 <= q < SIZE ==> dp[q] == if XorIdx(q, g) < p then Upd(prev, g, q) else prev[q]
    {
      var newP := XorIdx(p, g);
      XorIdxInvolution(p, g);
      ghost var before := dp[..];
      InPlaceStep(prev, g, p, dp[p], dp[newP]);
      if dp[p] != INF {
        dp[newP] := Min(dp[newP], dp[p] + 1);
      }
      assert dp[newP] == Upd(prev, g, newP);
      forall q | 0 <= q < SIZE
        ensures dp[q] == if XorIdx(q, g) < p + 1 then Upd(prev, g, q) else prev[q]
      {
        if q != newP {
          XorIdxInvolution(q, g);
          assert dp[q] == before[q];
        }
      }
    }
  }

  /** The least number of groups whose XOR is `pattern`, or `INF`. */
  method MinReprPattern(pattern: nat, group: seq<nat>) returns (r: nat)
    requires pattern < SIZE && Masks(group)
    ensures r == Best(group, pattern)
  {
    var dp := new nat[SIZE](q => INF);
    dp[0] := 0;
    for k := 0 to |group|
      invariant forall q :: 0 <= q < SIZE ==> dp[q] == Best(group[..k], q)
    {
      ghost var prev := dp[..];
      assert prev == Table(group[..k]);
      Round(dp, group[k]);
      assert group[..k + 1][..k] == group[..k];
      RoundIsNextTable(group[..k + 1]);
    }
    assert group[..|group|] == group;
    r := dp[pattern];
  }

  // ---------------------------------------------------------------------
  // Part one

  datatype Device = Device(pattern: seq<bool>, groups: seq<seq<nat>>)

  /** Every group names lights below ten. */
  predicate SmallGroups(groups: seq<seq<nat>>) {
    forall i :: 0 <= i < |groups| ==> forall k :: 0 <= k < |groups[i]| ==> groups[i][k] < 10
  }

  /** Lights fit in the ten-bit table. */
  predicate Fits(d: Device) {
    |d.pattern| <= 10 && SmallGroups(d.groups)
  }

  function GroupMasks(groups: seq<seq<nat>>): (ms: seq<nat>)
    requires forall i :: 0 <= i < |groups| ==> forall k :: 0 <= k < |groups[i]| ==> groups[i][k] < 16
    ensures |ms| == |groups|
    ensures forall i :: 0 <= i < |groups| ==> ms[i] == GroupToBitmask(groups[i])
  {
    seq(|groups|, i requires 0 <= i < |groups| => GroupToBitmask(groups[i]))
  }

  lemma GroupMasksFit(groups: seq<seq<nat>>)
    requires SmallGroups(groups)
    ensures Masks(GroupMasks(groups))
  {
    assert Pow2(10) == SIZE;
    forall i | 0 <= i < |groups| ensures GroupToBitmask(groups[i]) < SIZE {
      GroupBound(groups[i], 10);
    }
  }

  lemma FitsInTable(d: Device)
    requires Fits(d)
    ensures PatternToBitmask(d.pattern) < SIZE && Masks(GroupMasks(d.groups))
  {
    assert Pow2(10) == SIZE;
    PatternBound(d.pattern);
    PowMonotone(|d.pattern|, 10);
    GroupMasksFit(d.groups);
  }

  /** Light `b` is on after pressing the groups that `sel` picks, each once,
      starting from all lights off. */
  ghost predicate Lit(groups: seq<seq<nat>>, sel: seq<bool>, b: nat)
    requires |sel| == |groups|
    decreases |groups|
  {
    if groups == [] then false
    else Lit(groups[..|groups| - 1], sel[..|sel| - 1], b) != (sel[|sel| - 1] && b in groups[|groups| - 1])
  }

  /** The lights toggled by a selection are the bits of the XOR of its masks. */
  lemma {:induction false} LitIsBit(groups: seq<seq<nat>>, sel: seq<bool>, b: nat)
    requires SmallGroups(groups) && |sel| == |groups|
    ensures Masks(GroupMasks(groups))
    ensures Bit(XorOf(GroupMasks(groups), sel), b) <==> Lit(groups, sel, b)
    decreases |groups|
  {
    GroupMasksFit(groups);
    if groups == [] {
      BitZero(b);
    } else {
      var groups', sel' := groups[..|groups| - 1], sel[..|sel| - 1];
      var ms := GroupMasks(groups);
      assert ms[..|ms| - 1] == GroupMasks(groups');
      LitIsBit(groups', sel', b);
      var g := if sel[|sel| - 1] then ms[|ms| - 1] else 0;
      BitXor(XorOf(GroupMasks(groups'), sel'), g, b);
      BitZero(b);
    }
  }

  /** Pressing the groups that `sel` picks lights exactly the pattern. */
  ghost predicate Solves(d: Device, sel: seq<bool>) {
    && |sel| == |d.groups|
    && forall b: nat :: b < 10 ==> (Lit(d.groups, sel, b) <==> b < |d.pattern| && d.pattern[b])
  }

  /** A selection solves a device exactly when its XOR is the pattern's mask. */
  lemma SolvesIffXor(d: Device, sel: seq<bool>)
    requires Fits(d) && |sel| == |d.groups|
    ensures Masks(GroupMasks(d.groups))
    ensures Solves(d, sel) <==> XorOf(GroupMasks(d.groups), sel) == PatternToBitmask(d.pattern)
  {
    FitsInTable(d);
    var x, m := XorOf(GroupMasks(d.groups), sel), PatternToBitmask(d.pattern);
    forall b: nat | b < 10 ensures Bit(x, b) <==> Lit(d.groups, sel, b) {
      LitIsBit(d.groups, sel, b);
    }
    if Solves(d, sel) {
      assert Pow2(10) == SIZE;
      BitsDetermine(x, m, 10);
    }
  }

  ghost function MinPresses(d: Device): nat
    requires Fits(d)
  {
    FitsInTable(d);
    Best(GroupMasks(d.groups), PatternToBitmask(d.pattern))
  }

  /** The table's answer is the least number of presses that light exactly
      the pattern; `INF` means no selection does, when there are fewer than
      `INF` groups. */
  lemma MinPressesIsLeast(d: Device)
    requires Fits(d)
    ensures forall sel :: Solves(d, sel) ==> MinPresses(d) <= Count(sel)
    ensures MinPresses(d) < INF ==> exists sel :: Solves(d, sel) && Count(sel) == MinPresses(d)
    ensures MinPresses(d) < INF ==> MinPresses(d) <= |d.groups|
    ensures MinPresses(d) == INF && |d.groups| < INF ==> forall sel :: !Solves(d, sel)
  {
    FitsInTable(d);
    var gs, q := GroupMasks(d.groups), PatternToBitmask(d.pattern);
    BestIsLeast(gs, q);
    forall sel | Solves(d, sel) ensures MinPresses(d) <= Count(sel) <= |d.groups| {
      SolvesIffXor(d, sel);
      CountBound(sel);
    }
    if MinPresses(d) < INF {
      BestWitness(gs, q);
      var sel :| |sel| == |gs| && XorOf(gs, sel) == q && Count(sel) == Best(gs, q);
      SolvesIffXor(d, sel);
    }
  }

  ghost function TotalPresses(ds: seq<Device>): nat
    requires forall i :: 0 <= i < |ds| ==> Fits(ds[i])
  {
    if ds == [] then 0 else TotalPresses(ds[..|ds| - 1]) + MinPresses(ds[|ds| - 1])
  }

  /** The sum over all devices of the least number of groups to press. */
  method Part1(devices: seq<Device>) returns (total: nat)
    requires forall i :: 0 <= i < |devices| ==> Fits(devices[i])
    ensures total == TotalPresses(devices)
  {
    total := 0;
    for i := 0 to |devices|
      invariant total == TotalPresses(devices[..i])
    {
      var d := devices[i];
      FitsInTable(d);
      var g := GroupMasks(d.groups);
      var minSize := MinReprPattern(PatternToBitmask(d.pattern), g);
      assert devices[..i + 1][..i] == devices[..i];
      total := total + minSize;
    }
    assert devices[..|devices|] == devices;
  }
}
