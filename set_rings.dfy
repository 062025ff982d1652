/** The disjoint sets of `create_game`'s Kruskal-style generator
    (server/server.c:134-139): every cell carries a `set_number`, and the
    `next_in_set` pointers of the cells of one set form a ring.

    Pointers into the `sets` array are modelled as cell indices. The ghost
    view of the sets is a map from set number to the ring read from any of
    its members. */
module SetRings {
  import opened Util

  /** `succ` takes the member at position `k` of `r` to the next one, and
      the last member back to the first. */
  ghost predicate SuccAt(succ: seq<int>, r: seq<int>, k: int)
    requires InRange(r, |succ|) && 0 <= k < |r|
  {
    succ[r[k]] == (if k + 1 < |r| then r[k + 1] else r[0])
  }

  /** `r` lists the members of one ring of `succ`, starting anywhere. */
  ghost predicate IsRing(succ: seq<int>, r: seq<int>)
  {
    && |r| > 0
    && Distinct(r)
    && InRange(r, |succ|)
    && forall k :: 0 <= k < |r| ==> SuccAt(succ, r, k)
  }

  /** Every member of `r` carries set number `s`. */
  ghost predicate Labelled(labels: seq<int>, r: seq<int>, s: int)
    requires InRange(r, |labels|)
  {
    forall k :: 0 <= k < |r| ==> labels[r[k]] == s
  }

  /** Cell `c` lies on the ring of its own set number. */
  ghost predicate Placed(labels: seq<int>, rings: map<int, seq<int>>, c: int)
    requires 0 <= c < |labels|
  {
    labels[c] in rings && c in rings[labels[c]]
  }

  /** The `set_number` and `next_in_set` fields partition the cells into the
      rings of `rings`: each ring is labelled by its key, and every cell lies
      on the ring of its own set number. */
  ghost predicate Partition(labels: seq<int>, succ: seq<int>, rings: map<int, seq<int>>)
  {
    && |labels| == |succ|
    && (forall s :: s in rings ==> IsRing(succ, rings[s]) && Labelled(labels, rings[s], s))
    && (forall c :: 0 <= c < |labels| ==> Placed(labels, rings, c))
  }

  /** The sets right after initialisation (server/server.c:227-231): cell
      `i` alone in set `i`. */
  ghost function Singletons(n: nat): (rings: map<int, seq<int>>)
    ensures forall s :: s in rings <==> 0 <= s < n
    ensures forall s :: s in rings ==> rings[s] == [s]
  {
    map s | 0 <= s < n :: [s]
  }

  lemma SingletonsPartition(n: nat, labels: seq<int>, succ: seq<int>)
    requires |labels| == |succ| == n
    requires forall i :: 0 <= i < n ==> labels[i] == i && succ[i] == i
    ensures Partition(labels, succ, Singletons(n))
  {
    var rings := Singletons(n);
    forall s | s in rings ensures IsRing(succ, rings[s]) && Labelled(labels, rings[s], s) {
      assert SuccAt(succ, rings[s], 0);
    }
  }

  /** The same ring read from its member at position `p`. */
  function Rotate(r: seq<int>, p: nat): (q: seq<int>)
    requires p < |r|
    ensures |q| == |r| && q[0] == r[p]
    ensures forall k :: 0 <= k < |q| ==> q[k] == (if p + k < |r| then r[p + k] else r[p + k - |r|])
  {
    r[p..] + r[..p]
  }

  /** Reading a ring from another member gives a ring with the same members. */
  lemma RotateRing(succ: seq<int>, r: seq<int>, p: nat)
    requires IsRing(succ, r) && p < |r|
    ensures IsRing(succ, Rotate(r, p))
    ensures forall x :: x in Rotate(r, p) <==> x in r
  {
    var q := Rotate(r, p);
    forall i, j | 0 <= i < j < |q| ensures q[i] != q[j] {
      var i0 := if p + i < |r| then p + i else p + i - |r|;
      var j0 := if p + j < |r| then p + j else p + j - |r|;
      assert q[i] == r[i0] && q[j] == r[j0] && i0 != j0;
    }
    forall k | 0 <= k < |q| ensures SuccAt(succ, q, k) {
      var k0 := if p + k < |r| then p + k else p + k - |r|;
      assert q[k] == r[k0];
      assert SuccAt(succ, r, k0);
      if k + 1 < |q| {
        assert q[k + 1] == r[if k0 + 1 < |r| then k0 + 1 else 0];
      } else {
        assert k0 + 1 == p || (p == 0 && k0 + 1 == |r|);
      }
    }
    forall x | x in r ensures x in q {
      var k0 :| 0 <= k0 < |r| && r[k0] == x;
      assert x == q[if k0 >= p then k0 - p else k0 + |r| - p];
    }
  }

  /** The members of a ring are cells of that ring's set. */
  lemma RingMembers(labels: seq<int>, succ: seq<int>, rings: map<int, seq<int>>, s: int)
    requires Partition(labels, succ, rings) && s in rings
    ensures forall x :: x in rings[s] ==> 0 <= x < |labels| && labels[x] == s
  {
    forall x | x in rings[s] ensures 0 <= x < |labels| && labels[x] == s {
      var i :| 0 <= i < |rings[s]| && rings[s][i] == x;
    }
  }

  /** Where a cell sits on the ring of its set. */
  lemma PositionOnRing(labels: seq<int>, succ: seq<int>, rings: map<int, seq<int>>, c: nat)
      returns (p: nat)
    requires Partition(labels, succ, rings) && c < |labels|
    ensures labels[c] in rings && p < |rings[labels[c]]| && rings[labels[c]][p] == c
  {
    assert Placed(labels, rings, c);
    var r := rings[labels[c]];
    assert c in r;
    var k :| 0 <= k < |r| && r[k] == c;
    p := k;
  }

  /** A position of `c` on `r`. */
  ghost function IndexIn(r: seq<int>, c: int): (p: nat)
    requires c in r
    ensures p < |r| && r[p] == c
  {
    var p :| 0 <= p < |r| && r[p] == c;
    p
  }

  /** The ring of set `s` read from its member `c` on, the order in which
      following `next_in_set` from `c` visits it; empty when `c` is not on
      that ring. */
  ghost function RingFrom(rings: map<int, seq<int>>, s: int, c: int): seq<int>
  {
    if s in rings && c in rings[s] then Rotate(rings[s], IndexIn(rings[s], c)) else []
  }

  /** A walk along ring `r` that steps from position `j` back to the start
      has visited the whole ring. */
  lemma RingCloses(succ: seq<int>, r: seq<int>, j: nat)
    requires IsRing(succ, r) && j < |r| && succ[r[j]] == r[0]
    ensures j + 1 == |r|
  {
    assert SuccAt(succ, r, j);
  }

  /** Read from a cell `c`, the ring of `c`'s set is a ring of cells of
      that set that starts at `c`. */
  lemma RingFromMember(labels: seq<int>, succ: seq<int>, rings: map<int, seq<int>>, c: nat)
    requires Partition(labels, succ, rings) && c < |labels|
    ensures var r := RingFrom(rings, labels[c], c);
      && labels[c] in rings && |r| > 0 && r[0] == c && IsRing(succ, r) && InRange(r, |labels|)
      && forall x :: x in r <==> x in rings[labels[c]]
  {
    var p0 := PositionOnRing(labels, succ, rings, c);
    var ring := rings[labels[c]];
    var s := labels[c];
    assert s in rings;
    assert IsRing(succ, rings[s]) && Labelled(labels, rings[s], s);
    var p := IndexIn(ring, c);
    RotateRing(succ, ring, p);
    RingMembers(labels, succ, rings, labels[c]);
    var r := Rotate(ring, p);
    forall k | 0 <= k < |r| ensures 0 <= r[k] < |labels| {
      assert r[k] in r;
    }
  }

  /** The ring obtained by cutting ring `a` after its first member, ring `b`
      after its first member, and reconnecting crosswise. */
  function Splice(a: seq<int>, b: seq<int>): (r: seq<int>)
    requires |a| > 0 && |b| > 0
    ensures |r| == |a| + |b|
    ensures forall x :: x in r <==> x in a || x in b
  {
    [a[0]] + b[1..] + [b[0]] + a[1..]
  }

  /** The pointer swap of server/server.c:310-313 on `succ`, with `k` the
      kept ring's cell and `d` the other. */
  function SwapSuccessors(succ: seq<int>, k: nat, d: nat): (r: seq<int>)
    requires k < |succ| && d < |succ|
    ensures |r| == |succ|
    ensures r[k] == succ[d] && r[d] == succ[k]
    ensures forall i :: 0 <= i < |r| && i != k && i != d ==> r[i] == succ[i]
  {
    succ[d := succ[k]][k := succ[d]]
  }

  /** Where the members of `a` and `b` sit in their splice. */
  lemma SplicePositions(a: seq<int>, b: seq<int>)
    requires |a| > 0 && |b| > 0
    ensures var r := Splice(a, b);
      && r[0] == a[0] && r[|b|] == b[0]
      && (forall i :: 1 <= i < |b| ==> r[i] == b[i])
      && (forall i :: |b| < i < |r| ==> r[i] == a[i - |b|])
  {
  }

  /** The splice of two disjoint lists without repetitions has none. */
  lemma SpliceDistinct(a: seq<int>, b: seq<int>)
    requires |a| > 0 && |b| > 0 && Distinct(a) && Distinct(b)
    requires forall x :: x in a ==> x !in b
    ensures Distinct(Splice(a, b))
  {
    var r := Splice(a, b);
    SplicePositions(a, b);
    forall i, j | 0 <= i < j < |r| ensures r[i] != r[j] {
      var x, y := r[i], r[j];
      var xa, ya := i == 0 || i > |b|, j > |b|;
      var xi := if i == 0 then 0 else if i > |b| then i - |b| else if i == |b| then 0 else i;
      var yi := if j > |b| then j - |b| else if j == |b| then 0 else j;
      assert xa ==> x == a[xi] && x in a;
      assert !xa ==> x == b[xi] && x in b;
      assert ya ==> y == a[yi] && y in a;
      assert !ya ==> y == b[yi] && y in b;
      assert xa == ya ==> xi != yi;
    }
  }

  /** Swapping the successors of the first members of two disjoint rings
      joins them into their splice. */
  lemma SpliceRing(succ: seq<int>, a: seq<int>, b: seq<int>)
    requires IsRing(succ, a) && IsRing(succ, b)
    requires forall x :: x in a ==> x !in b
    ensures IsRing(SwapSuccessors(succ, a[0], b[0]), Splice(a, b))
  {
    var succ' := SwapSuccessors(succ, a[0], b[0]);
    var r := Splice(a, b);
    assert a[0] in a;
    SplicePositions(a, b);
    SpliceDistinct(a, b);
    forall k | 0 <= k < |r| ensures SuccAt(succ', r, k) {
      if k == 0 {
        assert SuccAt(succ, b, 0);
      } else if k < |b| {
        assert SuccAt(succ, b, k);
        assert b[k] in b;
        assert b[k] != a[0] && b[k] != b[0];
      } else if k == |b| {
        assert SuccAt(succ, a, 0);
      } else {
        assert SuccAt(succ, a, k - |b|);
        assert a[k - |b|] in a;
        assert a[k - |b|] != a[0] && a[k - |b|] != b[0];
      }
    }
  }

  /** A ring that contains neither swapped cell is untouched by the swap. */
  lemma OtherRing(succ: seq<int>, r: seq<int>, k: nat, d: nat)
    requires IsRing(succ, r) && k < |succ| && d < |succ| && k !in r && d !in r
    ensures IsRing(SwapSuccessors(succ, k, d), r)
  {
    forall i | 0 <= i < |r| ensures SuccAt(SwapSuccessors(succ, k, d), r, i) {
      assert SuccAt(succ, r, i);
    }
  }

  /** The set numbers after every member of set `from` was renumbered `to`
      (the relabelling of server/server.c:267). */
  function Relabel(labels: seq<int>, from: int, to: int): (r: seq<int>)
    ensures |r| == |labels|
    ensures forall i :: 0 <= i < |r| ==> r[i] == (if labels[i] == from then to else labels[i])
  {
    seq(|labels|, i requires 0 <= i < |labels| => if labels[i] == from then to else labels[i])
  }

  /** The sets after merging set `ds` into set `ks`. */
  ghost function Merged(rings: map<int, seq<int>>, ks: int, ds: int, a: seq<int>, b: seq<int>): map<int, seq<int>>
    requires |a| > 0 && |b| > 0
  {
    (rings - {ds})[ks := Splice(a, b)]
  }

  /** Renumbering set `ds` as `ks` and swapping the successors of a member of
      each gives again a partition, with the two rings spliced into one and
      one set fewer. */
  lemma MergePartition(labels: seq<int>, succ: seq<int>, rings: map<int, seq<int>>,
                       kc: nat, dc: nat, pa: nat, pb: nat)
    requires Partition(labels, succ, rings) && kc < |labels| && dc < |labels|
    requires labels[kc] != labels[dc] && labels[kc] in rings && labels[dc] in rings
    requires pa < |rings[labels[kc]]| && rings[labels[kc]][pa] == kc
    requires pb < |rings[labels[dc]]| && rings[labels[dc]][pb] == dc
    ensures var ks, ds := labels[kc], labels[dc];
      var a, b := Rotate(rings[ks], pa), Rotate(rings[ds], pb);
      var rings' := Merged(rings, ks, ds, a, b);
      && Partition(Relabel(labels, ds, ks), SwapSuccessors(succ, kc, dc), rings')
      && rings'.Keys == rings.Keys - {ds}
  {
    var ks, ds := labels[kc], labels[dc];
    var a, b := Rotate(rings[ks], pa), Rotate(rings[ds], pb);
    RotateRing(succ, rings[ks], pa);
    RotateRing(succ, rings[ds], pb);
    var labels', succ' := Relabel(labels, ds, ks), SwapSuccessors(succ, kc, dc);
    var rings' := Merged(rings, ks, ds, a, b);
    RingMembers(labels, succ, rings, ks);
    RingMembers(labels, succ, rings, ds);
    SpliceRing(succ, a, b);
    forall s | s in rings' ensures IsRing(succ', rings'[s]) && Labelled(labels', rings'[s], s) {
      if s == ks {
        forall k | 0 <= k < |rings'[s]| ensures labels'[rings'[s][k]] == s {
          assert rings'[s][k] in a || rings'[s][k] in b;
        }
      } else {
        RingMembers(labels, succ, rings, s);
        OtherRing(succ, rings[s], kc, dc);
      }
    }
    forall c | 0 <= c < |labels'| ensures Placed(labels', rings', c) {
      assert Placed(labels, rings, c);
      if labels[c] == ds {
        assert c in rings[ds];
        var i :| 0 <= i < |rings[ds]| && rings[ds][i] == c;
        assert c in b;
      } else if labels[c] == ks {
        assert c in rings[ks];
        var i :| 0 <= i < |rings[ks]| && rings[ks][i] == c;
        assert c in a;
      }
    }
  }

  /** The set numbers after the members `m` of a ring were renumbered
      `keep`, the others untouched: the state part-way through the relabelling
      loop of server/server.c:263-308. */
  function PartRelabel(labels: seq<int>, m: seq<int>, keep: int): (r: seq<int>)
    ensures |r| == |labels|
    ensures forall i :: 0 <= i < |r| ==> r[i] == (if i in m then keep else labels[i])
  {
    seq(|labels|, i requires 0 <= i < |labels| => if i in m then keep else labels[i])
  }

  /** Renumbering one more member. */
  lemma PartRelabelStep(labels: seq<int>, cells: seq<int>, j: nat, keep: int)
    requires j < |cells| && 0 <= cells[j] < |labels|
    ensures PartRelabel(labels, cells[..j + 1], keep) == PartRelabel(labels, cells[..j], keep)[cells[j] := keep]
  {
    assert cells[..j + 1] == cells[..j] + [cells[j]];
  }

  /** Renumbering every member of the ring of set `ds` is renumbering set `ds`. */
  lemma PartRelabelRing(labels: seq<int>, succ: seq<int>, rings: map<int, seq<int>>, ds: int,
                        m: seq<int>, keep: int)
    requires Partition(labels, succ, rings) && ds in rings
    requires forall x :: x in m <==> x in rings[ds]
    ensures PartRelabel(labels, m, keep) == Relabel(labels, ds, keep)
  {
    RingMembers(labels, succ, rings, ds);
    forall i | 0 <= i < |labels| ensures (i in m) == (labels[i] == ds) {
      assert Placed(labels, rings, i);
    }
  }

  /** The `sets` array of `create_game` (server/server.c:134-139 and 201):
      per cell its set number and the next cell of its set's ring. */
  class DisjointSets {
    const setNumber: array<nat>
    const nextInSet: array<nat>
    /** The sets, keyed by set number. */
    ghost var rings: map<int, seq<int>>

    ghost predicate Valid()
      reads this, setNumber, nextInSet
    {
      && setNumber != nextInSet
      && setNumber.Length == nextInSet.Length
      && Partition(setNumber[..], nextInSet[..], rings)
    }

    /** `dsk_malloc (sizeof (TmpSetInfo) * usize)`: `n` records, not yet
        initialised. */
    constructor (n: nat)
      ensures setNumber.Length == n && nextInSet.Length == n && setNumber != nextInSet
      ensures fresh(setNumber) && fresh(nextInSet)
    {
      setNumber := new nat[n];
      nextInSet := new nat[n];
    }

    /** Lines 227-231: every cell alone in a set numbered by the cell. */
    method Init()
      requires setNumber != nextInSet && setNumber.Length == nextInSet.Length
      modifies this, setNumber, nextInSet
      ensures Valid() && rings == Singletons(setNumber.Length)
      ensures forall i :: 0 <= i < setNumber.Length ==> setNumber[i] == i && nextInSet[i] == i
    {
      var n := setNumber.Length;
      var i := 0;
      while i < n
        invariant 0 <= i <= n
        invariant forall k :: 0 <= k < i ==> setNumber[k] == k && nextInSet[k] == k
      {
        setNumber[i] := i;
        nextInSet[i] := i;
        i := i + 1;
      }
      SingletonsPartition(n, setNumber[..], nextInSet[..]);
      rings := Singletons(n);
    }

    /** The ring splice of lines 310-313, once every member of `d`'s ring
        carries `k`'s set number: `d` and `k` exchange their successors.
        `labels` are the set numbers from before the relabelling, for which
        the rings were a partition. The two rings become one, under `k`'s
        set number, holding exactly the members of both; every other ring
        stays as it was. */
    method SpliceRings(k: nat, d: nat, ghost labels: seq<int>)
      requires setNumber != nextInSet && k < nextInSet.Length && d < nextInSet.Length
      requires Partition(labels, nextInSet[..], rings) && labels[k] != labels[d]
      requires setNumber[..] == Relabel(labels, labels[d], labels[k])
      modifies this, nextInSet
      ensures Valid()
      ensures nextInSet[..] == SwapSuccessors(old(nextInSet[..]), k, d)
      ensures labels[k] in old(rings) && labels[d] in old(rings)
      ensures rings.Keys == old(rings).Keys - {labels[d]} && |rings.Keys| == |old(rings).Keys| - 1
      ensures labels[k] in rings
      ensures forall x :: x in rings[labels[k]] <==> x in old(rings)[labels[k]] || x in old(rings)[labels[d]]
      ensures forall s :: s in rings && s != labels[k] ==> rings[s] == old(rings)[s]
    {
      ghost var succ := nextInSet[..];
      ghost var pa := PositionOnRing(labels, succ, rings, k);
      ghost var pb := PositionOnRing(labels, succ, rings, d);
      MergePartition(labels, succ, rings, k, d, pa, pb);
      RotateRing(succ, rings[labels[k]], pa);
      RotateRing(succ, rings[labels[d]], pb);
      var oldNext := nextInSet[d];
      nextInSet[d] := nextInSet[k];
      nextInSet[k] := oldNext;
      assert nextInSet[..] == SwapSuccessors(succ, k, d);
      rings := Merged(rings, labels[k], labels[d], Rotate(rings[labels[k]], pa), Rotate(rings[labels[d]], pb));
      assert old(rings).Keys == rings.Keys + {labels[d]};
    }
  }
}
