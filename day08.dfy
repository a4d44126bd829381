/** Day 8: clustering 3D junction boxes with a disjoint-set forest.

    `UnionFind` keeps the parent and size arrays of the source and three ghost
    fields that explain them: `root[i]` is the representative of element `i`,
    and `rank` strictly increases along parent links (so `Find` terminates).
    The two drivers are specified against `Labels`, a quick-find reference
    model of the partition produced by a sequence of merges. */
module Day08 {
  import Sorting
  import opened Sums

  datatype Point3D = Point3D(x: nat, y: nat, z: nat)

  /** Exact squared Euclidean distance. */
  function Dist2(p: Point3D, q: Point3D): (d: nat)
    ensures d == 0 <==> p == q
  {
    var dx := p.x - q.x;
    var dy := p.y - q.y;
    var dz := p.z - q.z;
    assert dx * dx >= 0 && dy * dy >= 0 && dz * dz >= 0;
    assert dx != 0 ==> dx * dx > 0;
    assert dy != 0 ==> dy * dy > 0;
    assert dz != 0 ==> dz * dz > 0;
    dx * dx + dy * dy + dz * dz
  }

  lemma Dist2Symmetric(p: Point3D, q: Point3D)
    ensures Dist2(p, q) == Dist2(q, p)
  {
  }

  // ---------------------------------------------------------------------
  // Small sequence helpers

  /** The sum, over the entries of `rs`, of how often each occurs in `m`. */
  ghost function SumCounts(m: multiset<nat>, rs: seq<nat>): nat {
    if rs == [] then 0 else SumCounts(m, rs[..|rs| - 1]) + m[rs[|rs| - 1]]
  }

  lemma {:induction false} SumCountsAdd(m: multiset<nat>, v: nat, rs: seq<nat>)
    ensures SumCounts(m + multiset{v}, rs) == SumCounts(m, rs) + multiset(rs)[v]
  {
    if rs != [] {
      SumCountsAdd(m, v, rs[..|rs| - 1]);
      assert rs == rs[..|rs| - 1] + [rs[|rs| - 1]];
    }
  }

  /** Counting every element of `s` once per distinct label that covers it
      gives the length of `s`: the class sizes of a partition add up. */
  lemma {:induction false} SumCountsCovers(s: seq<nat>, rs: seq<nat>)
    requires forall v :: multiset(rs)[v] <= 1
    requires forall i :: 0 <= i < |s| ==> s[i] in rs
    ensures SumCounts(multiset(s), rs) == |s|
  {
    if s == [] {
      SumCountsEmpty(rs);
    } else {
      var s', v := s[..|s| - 1], s[|s| - 1];
      assert s == s' + [v];
      SumCountsCovers(s', rs);
      SumCountsAdd(multiset(s'), v, rs);
      assert v in rs;
    }
  }

  lemma {:induction false} SumCountsEmpty(rs: seq<nat>)
    ensures SumCounts(multiset{}, rs) == 0
  {
    if rs != [] {
      SumCountsEmpty(rs[..|rs| - 1]);
    }
  }

  /** `s` with every occurrence of `a` replaced by `b`. */
  ghost function Relabel(s: seq<nat>, a: nat, b: nat): (t: seq<nat>)
    ensures |t| == |s|
    ensures forall i :: 0 <= i < |s| ==> t[i] == if s[i] == a then b else s[i]
  {
    if s == [] then [] else Relabel(s[..|s| - 1], a, b) + [if s[|s| - 1] == a then b else s[|s| - 1]]
  }

  /** Relabelling `a` as `b` moves all of `a`'s occurrences to `b`. */
  lemma {:induction false} RelabelCount(s: seq<nat>, a: nat, b: nat, c: nat)
    requires a != b
    ensures multiset(Relabel(s, a, b))[c] ==
      if c == b then multiset(s)[a] + multiset(s)[b] else if c == a then 0 else multiset(s)[c]
  {
    if s != [] {
      var t := Relabel(s, a, b);
      RelabelCount(s[..|s| - 1], a, b, c);
      assert t[..|s| - 1] == Relabel(s[..|s| - 1], a, b);
      CountLast(s, a);
      CountLast(s, b);
      CountLast(s, c);
      CountLast(t, c);
    }
  }

  /** How often `x` occurs, counted up to and including the last entry. */
  lemma CountLast(s: seq<nat>, x: nat)
    requires s != []
    ensures multiset(s)[x] == multiset(s[..|s| - 1])[x] + if s[|s| - 1] == x then 1 else 0
  {
    assert s == s[..|s| - 1] + [s[|s| - 1]];
  }

  /** Relabelling one of two distinct representatives as the other puts
      both classes under the survivor and leaves the rest alone. */
  lemma RelabelJoins(root: seq<nat>, x: nat, y: nat, loser: nat, winner: nat)
    requires x < |root| && y < |root| && root[x] != root[y]
    requires (loser == root[x] && winner == root[y]) || (loser == root[y] && winner == root[x])
    ensures Relabel(root, loser, winner)[x] == winner && Relabel(root, loser, winner)[y] == winner
    ensures forall i :: 0 <= i < |root| ==>
      Relabel(root, loser, winner)[i] == if root[i] == root[x] || root[i] == root[y] then winner else root[i]
  {
  }

  ghost function Identity(n: nat): (s: seq<nat>)
    ensures |s| == n && forall i :: 0 <= i < n ==> s[i] == i
  {
    seq(n, i requires 0 <= i => i)
  }

  lemma {:induction false} IdentityCount(n: nat, v: nat)
    ensures multiset(Identity(n))[v] == if v < n then 1 else 0
  {
    if n > 0 {
      IdentityCount(n - 1, v);
      assert Identity(n) == Identity(n - 1) + [n - 1];
    }
  }

  /** The set {0, ..., n-1}. */
  ghost function Range(n: nat): (r: set<nat>)
    ensures |r| == n
    ensures forall i: nat :: i in r <==> i < n
  {
    if n == 0 then {} else Range(n - 1) + {n - 1}
  }

  // ---------------------------------------------------------------------
  // The disjoint-set forest, first over plain sequences

  /** Parent links `p` form a forest whose trees are the classes of `root`:
      every node's representative is a root of its tree, and `rank` (bounded
      by `top`) strictly increases from a node to its parent, so following
      parent links always reaches a root. */
  ghost predicate Forest(p: seq<nat>, root: seq<nat>, rank: seq<nat>, top: nat) {
    && |p| == |root| == |rank|
    && (forall i {:trigger p[i]} :: 0 <= i < |p| ==> p[i] < |p|)
    && (forall i {:trigger root[i]} :: 0 <= i < |p| ==> root[i] < |p|)
    && (forall i {:trigger rank[i]} :: 0 <= i < |p| ==> rank[i] <= top)
    && (forall i {:trigger p[root[i]]} :: 0 <= i < |p| ==> p[root[i]] == root[i])
    && (forall i {:trigger root[p[i]]} :: 0 <= i < |p| ==> root[p[i]] == root[i])
    && (forall i {:trigger p[i]} :: 0 <= i < |p| && p[i] == i ==> root[i] == i)
    && (forall i {:trigger rank[p[i]]} :: 0 <= i < |p| && p[i] != i ==> rank[i] < rank[p[i]])
  }

  /** The size recorded at each root is the number of elements it represents. */
  ghost predicate SizesMatch(p: seq<nat>, size: seq<nat>, root: seq<nat>) {
    && |size| == |p|
    && forall r :: 0 <= r < |p| && p[r] == r ==> size[r] == multiset(root)[r]
  }

  ghost function RootsOf(p: seq<nat>): set<nat> {
    set i | 0 <= i < |p| && p[i] == i
  }

  /** Path compression: re-pointing a non-root straight at its representative
      keeps the forest, the sizes and the set of roots. */
  lemma CompressKeepsForest(p: seq<nat>, root: seq<nat>, rank: seq<nat>, top: nat, size: seq<nat>, x: nat)
    requires Forest(p, root, rank, top) && SizesMatch(p, size, root)
    requires x < |p| && root[x] != x && rank[x] < rank[root[x]]
    ensures Forest(p[x := root[x]], root, rank, top)
    ensures SizesMatch(p[x := root[x]], size, root)
    ensures RootsOf(p[x := root[x]]) == RootsOf(p)
  {
    var p' := p[x := root[x]];
    assert p[root[x]] == root[x] && root[root[x]] == root[x];
    forall i | 0 <= i < |p| ensures p'[root[i]] == root[i] {
      assert p[root[i]] == root[i];
    }
    forall i | 0 <= i < |p| ensures root[p'[i]] == root[i] {
      assert root[p[i]] == root[i];
    }
    forall i | 0 <= i < |p| && p'[i] != i ensures rank[i] < rank[p'[i]] {
      assert i != x ==> rank[i] < rank[p[i]];
    }
    assert forall i :: 0 <= i < |p| ==> (p'[i] == i <==> p[i] == i);
  }

  /** Linking root `loser` under root `winner` merges their classes, adds
      their sizes, and removes `loser` from the roots. */
  lemma LinkKeepsForest(p: seq<nat>, root: seq<nat>, rank: seq<nat>, top: nat, size: seq<nat>,
                        loser: nat, winner: nat, newRank: nat, newTop: nat)
    requires Forest(p, root, rank, top) && SizesMatch(p, size, root)
    requires loser < |p| && winner < |p| && loser != winner && p[loser] == loser && p[winner] == winner
    requires rank[loser] < newRank && rank[winner] <= newRank && newRank <= newTop && top <= newTop
    ensures Forest(p[loser := winner], Relabel(root, loser, winner), rank[winner := newRank], newTop)
    ensures SizesMatch(p[loser := winner], size[winner := size[winner] + size[loser]], Relabel(root, loser, winner))
    ensures RootsOf(p[loser := winner]) == RootsOf(p) - {loser}
  {
    LinkForest(p, root, rank, top, loser, winner, newRank, newTop);
    LinkSizes(p, root, size, loser, winner);
    assert RootsOf(p[loser := winner]) == RootsOf(p) - {loser};
  }

  lemma LinkForest(p: seq<nat>, root: seq<nat>, rank: seq<nat>, top: nat,
                   loser: nat, winner: nat, newRank: nat, newTop: nat)
    requires Forest(p, root, rank, top)
    requires loser < |p| && winner < |p| && loser != winner && p[loser] == loser && p[winner] == winner
    requires rank[loser] < newRank && rank[winner] <= newRank && newRank <= newTop && top <= newTop
    ensures Forest(p[loser := winner], Relabel(root, loser, winner), rank[winner := newRank], newTop)
  {
  }

  lemma LinkSizes(p: seq<nat>, root: seq<nat>, size: seq<nat>, loser: nat, winner: nat)
    requires |p| == |root| && SizesMatch(p, size, root)
    requires loser < |p| && winner < |p| && loser != winner && p[loser] == loser && p[winner] == winner
    ensures SizesMatch(p[loser := winner], size[winner := size[winner] + size[loser]], Relabel(root, loser, winner))
  {
    var root': seq<nat> := Relabel(root, loser, winner);
    var p': seq<nat> := p[loser := winner];
    var size': seq<nat> := size[winner := size[winner] + size[loser]];
    forall r: nat | r < |p'| && p'[r] == r
      ensures size'[r] == multiset(root')[r]
    {
      RelabelCount(root, loser, winner, r);
    }
  }

  /** n singletons: every element its own root, with size one. */
  lemma InitialForest(n: nat)
    ensures Forest(Identity(n), Identity(n), seq(n, i => 0), 0)
    ensures SizesMatch(Identity(n), seq(n, i => 1), Identity(n))
    ensures RootsOf(Identity(n)) == Range(n)
  {
    forall v: nat | v < n ensures multiset(Identity(n))[v] == 1 {
      IdentityCount(n, v);
    }
  }

  // ---------------------------------------------------------------------
  // The disjoint-set forest as the source keeps it

  class UnionFind {
    var parent: array<nat>
    var size: array<nat>
    /** The representative of each element. */
    ghost var root: seq<nat>
    /** Strictly increases from a node to its parent. */
    ghost var rank: seq<nat>
    ghost var maxRank: nat

    ghost predicate Valid()
      reads this, parent, size
    {
      && parent != size
      && Forest(parent[..], root, rank, maxRank)
      && SizesMatch(parent[..], size[..], root)
    }

    /** The current roots, one per set of the partition. */
    ghost function Roots(): set<nat>
      reads this, parent
    {
      RootsOf(parent[..])
    }

    /** Every element starts in a singleton set of size one. */
    constructor (n: nat)
      ensures Valid() && fresh(parent) && fresh(size)
      ensures parent.Length == n
      ensures forall i :: 0 <= i < n ==> parent[i] == i && size[i] == 1
      ensures root == Identity(n)
      ensures |Roots()| == n
    {
      parent := new nat[n](i requires 0 <= i => i);
      size := new nat[n](i => 1);
      root := Identity(n);
      rank := seq(n, i => 0);
      maxRank := 0;
      new;
      assert parent[..] == Identity(n);
      assert size[..] == seq(n, i => 1);
      InitialForest(n);
    }

    /** Returns the representative of `x`, pointing every node on the way
        directly at it.  The partition, the roots and the sizes are unchanged. */
    method Find(x: nat) returns (r: nat)
      requires Valid() && x < parent.Length
      modifies parent
      ensures Valid()
      ensures r == root[x] && parent[r] == r
      ensures parent[x] == r
      ensures forall i :: 0 <= i < parent.Length ==> parent[i] == old(parent[i]) || parent[i] == root[i]
      ensures Roots() == old(Roots())
      ensures rank[x] <= rank[r]
      decreases maxRank - rank[x]
    {
      if parent[x] != x {
        var p := parent[x];
        var top := Find(p);
        ghost var before := parent[..];
        CompressKeepsForest(before, root, rank, maxRank, size[..], x);
        parent[x] := top;
        assert parent[..] == before[x := top];
      }
      r := parent[x];
    }

    /** Merges the sets of `x` and `y`, attaching the root of the smaller set
        under the other one (the root of `y` under that of `x` on a tie).
        Returns whether two different sets were merged. */
    method Union(x: nat, y: nat) returns (merged: bool)
      requires Valid() && x < parent.Length && y < parent.Length
      modifies this, parent, size
      ensures Valid() && parent == old(parent) && size == old(size)
      ensures merged <==> old(root[x] != root[y])
      ensures root[x] == root[y]
      ensures !merged ==> root == old(root)
      ensures merged ==> root[x] == if old(size[root[x]] < size[root[y]]) then old(root[y]) else old(root[x])
      ensures merged ==> size[root[x]] == old(size[root[x]] + size[root[y]])
      ensures forall i :: 0 <= i < |root| ==>
        root[i] == if old(root[i] == root[x] || root[i] == root[y]) then root[x] else old(root[i])
      ensures |Roots()| == if merged then old(|Roots()|) - 1 else old(|Roots()|)
    {
      var rx := Find(x);
      var ry := Find(y);
      if rx != ry {
        // the root of the smaller set goes under the other; on a tie y's under x's
        var loser, winner := rx, ry;
        if size[rx] >= size[ry] {
          loser, winner := ry, rx;
        }
        ghost var root0, roots0 := root, Roots();
        assert loser in roots0;
        Link(loser, winner);
        RelabelJoins(root0, x, y, loser, winner);
        assert root[x] == winner && root0 == old(root);
        assert |Roots()| == |roots0| - 1;
        merged := true;
      } else {
        assert root == old(root);
        merged := false;
      }
    }

    /** Hangs root `loser` under root `winner`: their sets become one, whose
        size is kept at `winner`. */
    method Link(loser: nat, winner: nat)
      requires Valid() && loser < parent.Length && winner < parent.Length && loser != winner
      requires parent[loser] == loser && parent[winner] == winner
      modifies this, parent, size
      ensures Valid() && parent == old(parent) && size == old(size)
      ensures root == Relabel(old(root), loser, winner)
      ensures size[winner] == old(size[winner] + size[loser])
      ensures Roots() == old(Roots()) - {loser}
    {
      ghost var p0, s0, root0, rank0, top0 := parent[..], size[..], root, rank, maxRank;
      ghost var newRank := if rank[winner] < rank[loser] + 1 then rank[loser] + 1 else rank[winner];
      ghost var newTop := if maxRank < newRank then newRank else maxRank;
      parent[loser] := winner;
      size[winner] := size[winner] + size[loser];
      root := Relabel(root, loser, winner);
      rank := rank[winner := newRank];
      maxRank := newTop;
      assert parent[..] == p0[loser := winner];
      assert size[..] == s0[winner := s0[winner] + s0[loser]];
      LinkKeepsForest(p0, root0, rank0, top0, s0, loser, winner, newRank, newTop);
    }

    /** The set of all roots, found by calling `Find` on every element. */
    method CollectRoots() returns (roots: set<nat>)
      requires Valid()
      modifies parent
      ensures Valid() && roots == Roots() && Roots() == old(Roots())
    {
      roots := {};
      for i := 0 to parent.Length
        invariant Valid()
        invariant Roots() == old(Roots())
        invariant roots == set j | 0 <= j < i :: root[j]
      {
        var r := Find(i);
        roots := roots + {r};
      }
      assert roots == Roots() by {
        forall r | r in Roots() ensures r in roots {
          assert root[r] == r;
        }
      }
    }

    /** The size of every set, one entry per root, in no particular order. */
    method ComponentSizes() returns (sizes: seq<nat>, ghost rs: seq<nat>)
      requires Valid()
      modifies parent
      ensures Valid()
      ensures |sizes| == |rs| == |Roots()|
      ensures forall k :: 0 <= k < |rs| ==> rs[k] in Roots() && sizes[k] == multiset(root)[rs[k]]
      ensures forall r :: r in Roots() ==> multiset(rs)[r] == 1
      ensures forall a, b :: 0 <= a < b < |rs| ==> rs[a] != rs[b]
      ensures Sum(sizes) == parent.Length
    {
      var roots := CollectRoots();
      sizes, rs := SizesOfRoots(roots, size[..], multiset(root));
      forall i | 0 <= i < |root| ensures root[i] in rs {
        assert multiset(rs)[root[i]] == 1;
      }
      SumCountsCovers(root, rs);
    }
  }

  /** Reads the recorded size of every root, in no particular order. */
  method SizesOfRoots(roots: set<nat>, size: seq<nat>, ghost counts: multiset<nat>)
    returns (sizes: seq<nat>, ghost rs: seq<nat>)
    requires forall r :: r in roots ==> r < |size| && size[r] == counts[r]
    ensures |sizes| == |rs| == |roots|
    ensures forall r :: multiset(rs)[r] == if r in roots then 1 else 0
    ensures forall k :: 0 <= k < |rs| ==> rs[k] in roots && sizes[k] == counts[rs[k]]
    ensures forall a, b :: 0 <= a < b < |rs| ==> rs[a] != rs[b]
    ensures Sum(sizes) == SumCounts(counts, rs)
  {
    sizes, rs := [], [];
    var rest := roots;
    while rest != {}
      invariant rest <= roots
      invariant |sizes| == |rs| && |rs| + |rest| == |roots|
      invariant forall r :: multiset(rs)[r] == if r in roots - rest then 1 else 0
      invariant forall k :: 0 <= k < |rs| ==> rs[k] in roots - rest && sizes[k] == counts[rs[k]]
      invariant forall a, b :: 0 <= a < b < |rs| ==> rs[a] != rs[b]
      invariant Sum(sizes) == SumCounts(counts, rs)
      decreases rest
    {
      var r :| r in rest;
      sizes, rs := sizes + [size[r]], rs + [r];
      assert sizes[..|sizes| - 1] + [sizes[|sizes| - 1]] == sizes;
      rest := rest - {r};
    }
  }

  // ---------------------------------------------------------------------
  // The reference partition: quick-find over labels

  /** The distinct labels of `l`, one per class. */
  ghost function Values(l: seq<nat>): set<nat> {
    set i | 0 <= i < |l| :: l[i]
  }

  /** `s` and `t` put the same elements together. */
  ghost predicate SameClasses(s: seq<nat>, t: seq<nat>) {
    && |s| == |t|
    && forall a, b :: 0 <= a < |s| && 0 <= b < |s| ==> (s[a] == s[b] <==> t[a] == t[b])
  }

  /** Joins the classes of `i` and `j`: everything labelled like `j` takes
      the label of `i`. */
  ghost function Join(l: seq<nat>, i: nat, j: nat): (r: seq<nat>)
    requires i < |l| && j < |l|
    ensures |r| == |l| && r[i] == r[j]
  {
    Relabel(l, l[j], l[i])
  }

  /** Two elements are together after a join exactly when they were before,
      or each was with `i` or with `j`. */
  lemma JoinClasses(l: seq<nat>, i: nat, j: nat, a: nat, b: nat)
    requires i < |l| && j < |l| && a < |l| && b < |l|
    ensures Join(l, i, j)[a] == Join(l, i, j)[b] <==>
      l[a] == l[b] || ((l[a] == l[i] || l[a] == l[j]) && (l[b] == l[i] || l[b] == l[j]))
  {
  }

  datatype Pair = Pair(dist: nat, i: nat, j: nat)

  function DistKey(p: Pair): int {
    p.dist
  }

  ghost predicate InRange(n: nat, ps: seq<Pair>) {
    forall k :: 0 <= k < |ps| ==> ps[k].i < n && ps[k].j < n
  }

  /** The partition of `n` elements after joining every pair of `ps` in turn. */
  ghost function Labels(n: nat, ps: seq<Pair>): (l: seq<nat>)
    requires InRange(n, ps)
    ensures |l| == n
    decreases |ps|
  {
    if ps == [] then Identity(n)
    else Join(Labels(n, ps[..|ps| - 1]), ps[|ps| - 1].i, ps[|ps| - 1].j)
  }

  /** The number of classes after joining the pairs `ps`. */
  ghost function Components(n: nat, ps: seq<Pair>): nat
    requires InRange(n, ps)
  {
    |Values(Labels(n, ps))|
  }

  /** Joining two elements of different classes removes one class; joining two
      of the same class changes nothing. */
  lemma JoinCount(l: seq<nat>, i: nat, j: nat)
    requires i < |l| && j < |l|
    ensures |Values(Join(l, i, j))| == if l[i] == l[j] then |Values(l)| else |Values(l)| - 1
  {
    var r := Join(l, i, j);
    if l[i] == l[j] {
      assert r == l;
    } else {
      assert Values(r) == Values(l) - {l[j]} by {
        forall v | v in Values(l) - {l[j]} ensures v in Values(r) {
          var k :| 0 <= k < |l| && l[k] == v;
          assert r[k] == v;
        }
      }
      assert l[j] in Values(l);
    }
  }

  /** Each joined pair ends up in one class, and stays there. */
  lemma {:induction false} LabelsJoinPair(n: nat, ps: seq<Pair>, k: nat)
    requires InRange(n, ps) && k < |ps|
    ensures Labels(n, ps)[ps[k].i] == Labels(n, ps)[ps[k].j]
    decreases |ps|
  {
    if k < |ps| - 1 {
      var ps' := ps[..|ps| - 1];
      assert ps'[k] == ps[k];
      LabelsJoinPair(n, ps', k);
    }
  }

  /** Class counts agree between two labellings with the same classes. */
  lemma {:induction false} SameClassesCount(s: seq<nat>, t: seq<nat>)
    requires SameClasses(s, t)
    ensures |Values(s)| == |Values(t)|
  {
    if s != [] {
      var m := |s| - 1;
      var s', t' := s[..m], t[..m];
      assert SameClasses(s', t');
      SameClassesCount(s', t');
      ValuesSnoc(s);
      ValuesSnoc(t);
      SameClassesLast(s, t);
    }
  }

  /** The labels of a sequence are those of all but its last entry, and the last. */
  lemma ValuesSnoc(s: seq<nat>)
    requires s != []
    ensures Values(s) == Values(s[..|s| - 1]) + {s[|s| - 1]}
  {
    var m := |s| - 1;
    forall v | v in Values(s) ensures v in Values(s[..m]) + {s[m]} {
      var k :| 0 <= k < |s| && s[k] == v;
      if k < m { assert s[..m][k] == v; }
    }
  }

  /** With the same classes, the last entry starts a new class on one side
      exactly when it does on the other. */
  lemma SameClassesLast(s: seq<nat>, t: seq<nat>)
    requires SameClasses(s, t) && s != []
    ensures s[|s| - 1] in Values(s[..|s| - 1]) <==> t[|t| - 1] in Values(t[..|t| - 1])
  {
    var m := |s| - 1;
    if s[m] in Values(s[..m]) {
      var k :| 0 <= k < m && s[..m][k] == s[m];
      assert t[..m][k] == t[m];
    }
    if t[m] in Values(t[..m]) {
      var k :| 0 <= k < m && t[..m][k] == t[m];
      assert s[..m][k] == s[m];
    }
  }

  /** The two sides of an element's class have the same size. */
  lemma {:induction false} SameClassSize(s: seq<nat>, t: seq<nat>, a: nat, c: nat)
    requires |s| == |t|
    requires forall i :: 0 <= i < |s| ==> (s[i] == a <==> t[i] == c)
    ensures multiset(s)[a] == multiset(t)[c]
  {
    if s != [] {
      var m := |s| - 1;
      assert s == s[..m] + [s[m]] && t == t[..m] + [t[m]];
      SameClassSize(s[..m], t[..m], a, c);
    }
  }

  /** In a forest the representatives are exactly the roots. */
  lemma ForestValues(p: seq<nat>, root: seq<nat>, rank: seq<nat>, top: nat)
    requires Forest(p, root, rank, top)
    ensures Values(root) == RootsOf(p)
  {
    forall r | r in RootsOf(p) ensures r in Values(root) {
      assert root[r] == r;
    }
    forall v | v in Values(root) ensures v in RootsOf(p) {
      var i :| 0 <= i < |root| && root[i] == v;
      assert p[root[i]] == root[i];
    }
  }

  /** What `Union(x, y)` does to the representatives is what `Join` does to
      the reference labels. */
  lemma UnionMatchesJoin(r0: seq<nat>, r1: seq<nat>, l: seq<nat>, x: nat, y: nat)
    requires SameClasses(r0, l) && |r1| == |r0| && x < |r0| && y < |r0|
    requires r1[x] == r0[x] || r1[x] == r0[y]
    requires forall i :: 0 <= i < |r0| ==>
      r1[i] == if r0[i] == r0[x] || r0[i] == r0[y] then r1[x] else r0[i]
    ensures SameClasses(r1, Join(l, x, y))
  {
    forall a, b | 0 <= a < |r1| && 0 <= b < |r1|
      ensures r1[a] == r1[b] <==> Join(l, x, y)[a] == Join(l, x, y)[b]
    {
      JoinClasses(l, x, y, a, b);
    }
  }

  /** One more union keeps the forest's classes those of the reference,
      now with one more pair joined. */
  lemma UnionStep(n: nat, ps: seq<Pair>, k: nat, r0: seq<nat>, r1: seq<nat>)
    requires InRange(n, ps) && k < |ps|
    requires SameClasses(r0, Labels(n, ps[..k])) && |r1| == |r0|
    requires r1[ps[k].i] == r0[ps[k].i] || r1[ps[k].i] == r0[ps[k].j]
    requires forall i :: 0 <= i < |r0| ==>
      r1[i] == if r0[i] == r0[ps[k].i] || r0[i] == r0[ps[k].j] then r1[ps[k].i] else r0[i]
    ensures InRange(n, ps[..k + 1]) && SameClasses(r1, Labels(n, ps[..k + 1]))
  {
    assert ps[..k + 1][..k] == ps[..k];
    UnionMatchesJoin(r0, r1, Labels(n, ps[..k]), ps[k].i, ps[k].j);
  }

  /** A forest whose classes are those of `l` has one root per class of `l`. */
  lemma ForestCount(p: seq<nat>, root: seq<nat>, rank: seq<nat>, top: nat, l: seq<nat>)
    requires Forest(p, root, rank, top) && SameClasses(root, l)
    ensures |RootsOf(p)| == |Values(l)|
  {
    ForestValues(p, root, rank, top);
    SameClassesCount(root, l);
  }

  // ---------------------------------------------------------------------
  // The pair list

  function PairOf(points: seq<Point3D>, i: nat, j: nat): Pair
    requires i < |points| && j < |points|
  {
    Pair(Dist2(points[i], points[j]), i, j)
  }

  /** `ps` lists every pair `i < j` of points once, with its squared distance. */
  ghost predicate EachPairOnce(points: seq<Point3D>, ps: seq<Pair>) {
    && (forall k :: 0 <= k < |ps| ==> ps[k].i < ps[k].j < |points| && ps[k] == PairOf(points, ps[k].i, ps[k].j))
    && (forall i, j :: 0 <= i < j < |points| ==> multiset(ps)[PairOf(points, i, j)] == 1)
  }

  /** All pairs `(i, j)` with `i < j`, in the order of the nested loops. */
  method AllPairs(points: seq<Point3D>) returns (ps: seq<Pair>)
    ensures EachPairOnce(points, ps)
    ensures |ps| == |points| * (|points| - 1) / 2
  {
    var n := |points|;
    ps := [];
    for i := 0 to n
      invariant forall k :: 0 <= k < |ps| ==>
        ps[k].i < i && ps[k].i < ps[k].j < n && ps[k] == PairOf(points, ps[k].i, ps[k].j)
      invariant forall a, b :: 0 <= a < b < n ==> multiset(ps)[PairOf(points, a, b)] == if a < i then 1 else 0
      invariant 2 * |ps| == i * (2 * n - i - 1)
    {
      for j := i + 1 to n
        invariant forall k :: 0 <= k < |ps| ==>
          (ps[k].i < i || (ps[k].i == i && ps[k].j < j)) && ps[k].i < ps[k].j < n
          && ps[k] == PairOf(points, ps[k].i, ps[k].j)
        invariant forall a, b :: 0 <= a < b < n ==>
          multiset(ps)[PairOf(points, a, b)] == if a < i || (a == i && b < j) then 1 else 0
        invariant 2 * |ps| == i * (2 * n - i - 1) + 2 * (j - i - 1)
      {
        ps := ps + [PairOf(points, i, j)];
      }
      assert (i + 1) * (2 * n - (i + 1) - 1) == i * (2 * n - i - 1) + 2 * (n - i - 1);
    }
  }

  /** Reordering the pair list keeps it a list of every pair once. */
  lemma PermutedPairs(points: seq<Point3D>, a: seq<Pair>, b: seq<Pair>)
    requires EachPairOnce(points, a) && multiset(a) == multiset(b)
    ensures EachPairOnce(points, b)
  {
    forall k | 0 <= k < |b| ensures b[k].i < b[k].j < |points| && b[k] == PairOf(points, b[k].i, b[k].j) {
      assert b[k] in multiset(a);
      var m :| 0 <= m < |a| && a[m] == b[k];
    }
  }

  /** With every pair joined, all points form one class. */
  lemma AllPairsConnect(points: seq<Point3D>, ps: seq<Pair>)
    requires EachPairOnce(points, ps) && |points| > 0
    ensures InRange(|points|, ps) && Components(|points|, ps) == 1
    ensures |points| >= 2 ==> |ps| > 0
  {
    if |points| >= 2 {
      assert PairOf(points, 0, 1) in multiset(ps);
    }
    var l := Labels(|points|, ps);
    forall v | 0 < v < |points| ensures l[v] == l[0] {
      assert PairOf(points, 0, v) in multiset(ps);
      var k :| 0 <= k < |ps| && ps[k] == PairOf(points, 0, v);
      LabelsJoinPair(|points|, ps, k);
    }
    assert Values(l) == {l[0]};
  }

  // ---------------------------------------------------------------------
  // The two drivers

  datatype Option<T> = None | Some(value: T)

  /** How many of the closest pairs the first part joins. */
  const Merges: nat := 1000

  datatype Clusters = Clusters(sizes: seq<nat>, product: nat)

  function Neg(x: nat): int {
    0 - x as int
  }

  function CountsOf(l: seq<nat>, reps: seq<nat>): (c: seq<nat>)
    ensures |c| == |reps|
  {
    seq(|reps|, k requires 0 <= k < |reps| => multiset(l)[reps[k]])
  }

  /** `c` describes the classes after joining the pairs `ps`: one size per
      class (the class labelled `reps[k]`), largest first, adding up to `n`,
      and the product of the three largest. */
  ghost predicate DescribesClusters(n: nat, ps: seq<Pair>, c: Clusters, reps: seq<nat>)
    requires InRange(n, ps)
  {
    var l := Labels(n, ps);
    && |reps| == |c.sizes| == |Values(l)|
    && (forall k :: 0 <= k < |reps| ==> reps[k] in Values(l))
    && (forall a, b :: 0 <= a < b < |reps| ==> reps[a] != reps[b])
    && multiset(c.sizes) == multiset(CountsOf(l, reps))
    && Sorting.SortedBy(c.sizes, Neg)
    && Sum(c.sizes) == n
    && c.product == Product(c.sizes[..if |c.sizes| < 3 then |c.sizes| else 3])
  }

  /** The pair list both parts build: every pair once, closest first (in
      some order among equal distances). */
  method SortedPairs(points: seq<Point3D>) returns (ps: seq<Pair>)
    ensures EachPairOnce(points, ps) && Sorting.SortedBy(ps, DistKey)
    ensures InRange(|points|, ps) && |ps| == |points| * (|points| - 1) / 2
  {
    var dists := AllPairs(points);
    ps := Sorting.SortBy(dists, DistKey);
    PermutedPairs(points, dists, ps);
  }

  /** Unions the `k`-th pair: the forest then has the classes of the first
      `k + 1` pairs, and loses a root exactly when the union merged. */
  method JoinPair(uf: UnionFind, n: nat, ps: seq<Pair>, k: nat) returns (reduced: bool)
    requires uf.Valid() && InRange(n, ps) && k < |ps|
    requires SameClasses(uf.root, Labels(n, ps[..k]))
    modifies uf, uf.parent, uf.size
    ensures uf.Valid() && uf.parent == old(uf.parent) && uf.size == old(uf.size)
    ensures InRange(n, ps[..k + 1]) && SameClasses(uf.root, Labels(n, ps[..k + 1]))
    ensures |uf.Roots()| == Components(n, ps[..k + 1])
    ensures |uf.Roots()| == if reduced then old(|uf.Roots()|) - 1 else old(|uf.Roots()|)
  {
    ghost var root0 := uf.root;
    reduced := uf.Union(ps[k].i, ps[k].j);
    UnionStep(n, ps, k, root0, uf.root);
    ForestCount(uf.parent[..], uf.root, uf.rank, uf.maxRank, Labels(n, ps[..k + 1]));
  }

  function RepsOf(l: seq<nat>, rs: seq<nat>): (reps: seq<nat>)
    requires forall k :: 0 <= k < |rs| ==> rs[k] < |l|
    ensures |reps| == |rs|
  {
    seq(|rs|, k requires 0 <= k < |rs| => l[rs[k]])
  }

  /** The sizes read off distinct roots of a forest with the classes of `l`
      are the sizes of distinct classes of `l`. */
  lemma RootSizesAreClassSizes(p: seq<nat>, root: seq<nat>, rank: seq<nat>, top: nat, l: seq<nat>,
                               sizes: seq<nat>, rs: seq<nat>)
    requires Forest(p, root, rank, top) && SameClasses(root, l)
    requires |sizes| == |rs| == |RootsOf(p)|
    requires forall k :: 0 <= k < |rs| ==> rs[k] in RootsOf(p) && sizes[k] == multiset(root)[rs[k]]
    requires forall a, b :: 0 <= a < b < |rs| ==> rs[a] != rs[b]
    ensures forall k :: 0 <= k < |rs| ==> rs[k] < |l|
    ensures |rs| == |Values(l)|
    ensures forall k :: 0 <= k < |rs| ==> RepsOf(l, rs)[k] in Values(l)
    ensures forall a, b :: 0 <= a < b < |rs| ==> RepsOf(l, rs)[a] != RepsOf(l, rs)[b]
    ensures sizes == CountsOf(l, RepsOf(l, rs))
  {
    ForestCount(p, root, rank, top, l);
    var reps := RepsOf(l, rs);
    forall k | 0 <= k < |rs| ensures sizes[k] == multiset(l)[reps[k]] && reps[k] in Values(l) {
      assert root[rs[k]] == rs[k];
      SameClassSize(root, l, rs[k], reps[k]);
    }
    forall a, b | 0 <= a < b < |rs| ensures reps[a] != reps[b] {
      assert root[rs[a]] == rs[a] && root[rs[b]] == rs[b];
    }
  }

  /** Joins the `Merges` closest pairs and reports the cluster sizes; `None`
      where the source panics because there are fewer pairs than that. */
  method Part1(points: seq<Point3D>) returns (r: Option<Clusters>, ghost order: seq<Pair>, ghost reps: seq<nat>)
    requires |points| > 0
    ensures EachPairOnce(points, order) && Sorting.SortedBy(order, DistKey)
    ensures r.None? <==> |points| * (|points| - 1) / 2 < Merges
    ensures r.Some? ==>
      (Merges <= |order| && InRange(|points|, order[..Merges])
       && DescribesClusters(|points|, order[..Merges], r.value, reps))
  {
    var n := |points|;
    var uf := new UnionFind(n);
    var sorted := SortedPairs(points);
    order, reps := sorted, [];
    if |sorted| < Merges {
      return None, order, reps;
    }
    JoinFirst(uf, n, sorted, Merges);
    var clusters;
    clusters, reps := Report(uf, n, sorted[..Merges]);
    r := Some(clusters);
  }

  /** Unions the first `count` pairs of `ps`, starting from singletons. */
  method JoinFirst(uf: UnionFind, n: nat, ps: seq<Pair>, count: nat)
    requires uf.Valid() && InRange(n, ps) && count <= |ps| && uf.root == Identity(n)
    modifies uf, uf.parent, uf.size
    ensures uf.Valid() && uf.parent == old(uf.parent) && uf.size == old(uf.size)
    ensures InRange(n, ps[..count]) && SameClasses(uf.root, Labels(n, ps[..count]))
  {
    assert Labels(n, ps[..0]) == uf.root;
    for t := 0 to count
      invariant uf.Valid() && uf.parent == old(uf.parent) && uf.size == old(uf.size)
      invariant InRange(n, ps[..t]) && SameClasses(uf.root, Labels(n, ps[..t]))
    {
      var _ := JoinPair(uf, n, ps, t);
    }
  }

  /** The cluster report of the first part: the component sizes, largest
      first, and the product of the first three. */
  method Report(uf: UnionFind, n: nat, ps: seq<Pair>) returns (c: Clusters, ghost reps: seq<nat>)
    requires uf.Valid() && InRange(n, ps) && SameClasses(uf.root, Labels(n, ps))
    modifies uf.parent
    ensures DescribesClusters(n, ps, c, reps)
  {
    var sizes;
    ghost var rs;
    sizes, rs := uf.ComponentSizes();
    ghost var l := Labels(n, ps);
    RootSizesAreClassSizes(uf.parent[..], uf.root, uf.rank, uf.maxRank, l, sizes, rs);
    reps := RepsOf(l, rs);
    assert Sum(sizes) == n;
    var desc := Sorting.SortBy(sizes, Neg);
    DescribeSorted(n, ps, sizes, reps, desc);
    var top := if |desc| < 3 then |desc| else 3;
    c := Clusters(desc, Product(desc[..top]));
  }

  /** Sorting the class sizes, largest first, describes the clusters. */
  lemma DescribeSorted(n: nat, ps: seq<Pair>, sizes: seq<nat>, reps: seq<nat>, desc: seq<nat>)
    requires InRange(n, ps)
    requires |reps| == |sizes| == |Values(Labels(n, ps))|
    requires forall k :: 0 <= k < |reps| ==> reps[k] in Values(Labels(n, ps))
    requires forall a, b :: 0 <= a < b < |reps| ==> reps[a] != reps[b]
    requires sizes == CountsOf(Labels(n, ps), reps) && Sum(sizes) == n
    requires multiset(desc) == multiset(sizes) && Sorting.SortedBy(desc, Neg)
    ensures DescribesClusters(n, ps, Clusters(desc, Product(desc[..if |desc| < 3 then |desc| else 3])), reps)
  {
    SumPermutation(sizes, desc);
    assert |desc| == |sizes| by {
      assert |multiset(desc)| == |multiset(sizes)|;
    }
  }

  /** Sums do not depend on the order of the terms. */
  lemma {:induction false} SumPermutation(a: seq<nat>, b: seq<nat>)
    requires multiset(a) == multiset(b)
    ensures Sum(a) == Sum(b)
    decreases |a|
  {
    if a != [] {
      var m := |a| - 1;
      assert a[m] in multiset(b);
      var k :| 0 <= k < |b| && b[k] == a[m];
      var b' := b[..k] + b[k + 1..];
      RemoveAt(b, k);
      assert a == a[..m] + [a[m]];
      assert multiset(a) == multiset(a[..m]) + multiset{a[m]};
      assert multiset(a[..m]) == multiset(b') by {
        forall v ensures multiset(a[..m])[v] == multiset(b')[v] {
          assert multiset(a)[v] == multiset(a[..m])[v] + multiset{a[m]}[v];
          assert multiset(b)[v] == multiset(b')[v] + multiset{a[m]}[v];
        }
      }
      SumPermutation(a[..m], b');
    }
  }

  /** Taking out entry `k` takes it out of the multiset and the sum. */
  lemma RemoveAt(b: seq<nat>, k: nat)
    requires k < |b|
    ensures multiset(b) == multiset(b[..k] + b[k + 1..]) + multiset{b[k]}
    ensures Sum(b) == Sum(b[..k] + b[k + 1..]) + b[k]
  {
    SplitAt(b, k);
    SplitMiddle(b[..k], b[k], b[k + 1..]);
  }

  lemma SplitAt(b: seq<nat>, k: nat)
    requires k < |b|
    ensures b == b[..k] + [b[k]] + b[k + 1..]
  {
  }

  lemma SplitMiddle(x: seq<nat>, v: nat, y: seq<nat>)
    ensures multiset(x + [v] + y) == multiset(x + y) + multiset{v}
    ensures Sum(x + [v] + y) == Sum(x + y) + v
  {
    SumAppend(x + [v], y);
    SumAppend(x, [v]);
    SumAppend(x, y);
    assert Sum([v]) == v by {
      assert [v][..0] == [];
    }
  }

  datatype Connection = Connected(p1: Point3D, p2: Point3D, xprod: int) | CouldNotConnect

  /** The merge loop of the second part: unions the pairs of `ps` in order,
      counting the sets down from `n`, until one set remains.  `found` says
      whether it got there and `t` how many pairs that took. */
  method MergeUntilOne(uf: UnionFind, n: nat, ps: seq<Pair>) returns (found: bool, t: nat)
    requires uf.Valid() && InRange(n, ps)
    requires uf.root == Identity(n) && |uf.Roots()| == n
    modifies uf, uf.parent, uf.size
    ensures found ==> 0 < t <= |ps| && InRange(n, ps[..t]) && Components(n, ps[..t]) == 1
    ensures found ==> forall u :: 0 < u < t ==> InRange(n, ps[..u]) && Components(n, ps[..u]) != 1
    ensures !found ==> forall u :: 0 < u <= |ps| ==> InRange(n, ps[..u]) && Components(n, ps[..u]) != 1
  {
    var components := n;
    assert Labels(n, ps[..0]) == uf.root;
    for k := 0 to |ps|
      invariant uf.Valid() && uf.parent == old(uf.parent) && uf.size == old(uf.size)
      invariant InRange(n, ps[..k]) && SameClasses(uf.root, Labels(n, ps[..k]))
      invariant components == |uf.Roots()|
      invariant forall u :: 0 < u <= k ==> InRange(n, ps[..u]) && Components(n, ps[..u]) != 1
    {
      var reduced := JoinPair(uf, n, ps, k);
      if reduced {
        components := components - 1;
      }
      assert components == Components(n, ps[..k + 1]);
      if components == 1 {
        return true, k + 1;
      }
      NotOneExtend(n, ps, k);
    }
    return false, 0;
  }

  /** A prefix that leaves several clusters extends the run of such prefixes. */
  lemma NotOneExtend(n: nat, ps: seq<Pair>, k: nat)
    requires k < |ps|
    requires forall u :: 0 < u <= k ==> InRange(n, ps[..u]) && Components(n, ps[..u]) != 1
    requires InRange(n, ps[..k + 1]) && Components(n, ps[..k + 1]) != 1
    ensures forall u :: 0 < u <= k + 1 ==> InRange(n, ps[..u]) && Components(n, ps[..u]) != 1
  {
  }

  /** Joins pairs closest first until one cluster remains and reports the
      pair whose join achieved it; `t` is how many pairs were joined. */
  method Part2(points: seq<Point3D>) returns (r: Connection, ghost order: seq<Pair>, ghost t: nat)
    requires |points| > 0
    ensures EachPairOnce(points, order) && Sorting.SortedBy(order, DistKey)
    ensures r.Connected? <==> |points| >= 2
    ensures r.Connected? ==>
      (0 < t <= |order| && InRange(|points|, order[..t])
       && Components(|points|, order[..t]) == 1
       && (forall u :: 0 < u < t ==> InRange(|points|, order[..u]) && Components(|points|, order[..u]) != 1)
       && r.p1 == points[order[t - 1].i] && r.p2 == points[order[t - 1].j] && r.xprod == r.p1.x * r.p2.x)
    ensures r.CouldNotConnect? ==>
      forall u :: 0 < u <= |order| ==> InRange(|points|, order[..u]) && Components(|points|, order[..u]) != 1
  {
    var n := |points|;
    var uf := new UnionFind(n);
    var sorted := SortedPairs(points);
    AllPairsConnect(points, sorted);
    assert sorted[..|sorted|] == sorted;
    var found, count := MergeUntilOne(uf, n, sorted);
    order, t := sorted, count;
    if found {
      var last := sorted[count - 1];
      assert last.i < last.j < n;
      var p1, p2 := points[last.i], points[last.j];
      r := Connected(p1, p2, p1.x * p2.x);
    } else {
      r := CouldNotConnect;
    }
  }
}
