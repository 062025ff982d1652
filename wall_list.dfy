/** The candidate-wall list of `create_game`: an intrusive doubly-linked
    list threaded through the `tmp_walls` array (one node per wall index,
    server/server.c:126-132), whose first node is `wall_list`.

    A node's `prev`/`next` pointers are modelled as wall indices, with three
    non-index values: `NIL` for NULL, `UNLINKED` for the `(void*) 1` that
    `remove_tmp_wall` stores into a removed node, and `UNINIT` for the
    contents of a node that was never written after `dsk_malloc`. */
module WallList {
  import opened Util

  const NIL: int := -1
  const UNLINKED: int := -2
  const UNINIT: int := -3

  /** The node at position `k` of `l` has `next` pointing at the node after
      it, or NIL when it is the last. */
  ghost predicate NextAt(next: seq<int>, l: seq<int>, k: int)
    requires InRange(l, |next|) && 0 <= k < |l|
  {
    next[l[k]] == (if k + 1 < |l| then l[k + 1] else NIL)
  }

  /** The node at position `k` of `l` has `prev` pointing at the node before
      it, or NIL when it is the first. */
  ghost predicate PrevAt(prev: seq<int>, l: seq<int>, k: int)
    requires InRange(l, |prev|) && 0 <= k < |l|
  {
    prev[l[k]] == (if k == 0 then NIL else l[k - 1])
  }

  /** Node `i` holds a non-pointer in both fields. */
  ghost predicate Detached(prev: seq<int>, next: seq<int>, i: int)
    requires 0 <= i < |prev| == |next|
  {
    prev[i] < NIL && next[i] < NIL
  }

  /** `head` with the `prev`/`next` arrays encodes the list `l` of wall
      indices: consecutive nodes point at each other, the ends at NIL, and
      every node off the list holds a non-pointer in both fields. */
  ghost predicate Encodes(head: int, prev: seq<int>, next: seq<int>, l: seq<int>)
  {
    && |prev| == |next|
    && Distinct(l)
    && InRange(l, |next|)
    && head == (if l == [] then NIL else l[0])
    && (forall k :: 0 <= k < |l| ==> NextAt(next, l, k))
    && (forall k :: 0 <= k < |l| ==> PrevAt(prev, l, k))
    && (forall i :: 0 <= i < |next| && i !in l ==> Detached(prev, next, i))
  }

  /** The neighbours of the node at position `p`. */
  lemma Neighbours(head: int, prev: seq<int>, next: seq<int>, l: seq<int>, p: nat)
    requires Encodes(head, prev, next, l) && p < |l|
    ensures prev[l[p]] == (if p == 0 then NIL else l[p - 1])
    ensures next[l[p]] == (if p + 1 < |l| then l[p + 1] else NIL)
  {
    assert NextAt(next, l, p) && PrevAt(prev, l, p);
  }

  /** A node is on the list exactly when it is the head or has a predecessor:
      the test the model uses to detect that the source would unlink a node
      that is not on the list. */
  lemma LinkedTest(head: int, prev: seq<int>, next: seq<int>, l: seq<int>, i: int)
    requires Encodes(head, prev, next, l) && 0 <= i < |next|
    ensures i in l <==> i == head || prev[i] >= 0
  {
    if i in l {
      var k :| 0 <= k < |l| && l[k] == i;
      Neighbours(head, prev, next, l, k);
    }
  }

  /** `l` without its entry at position `p`. */
  function RemoveAt(l: seq<int>, p: nat): (r: seq<int>)
    requires p < |l|
    ensures |r| == |l| - 1
    ensures forall k :: 0 <= k < |r| ==> r[k] == (if k < p then l[k] else l[k + 1])
  {
    l[..p] + l[p + 1..]
  }

  /** The first node after unlinking node `e` (server/server.c:152-156). */
  function UnlinkedHead(head: int, prev: seq<int>, next: seq<int>, e: nat): (r: int)
    requires e < |prev| == |next|
    ensures r != head ==> prev[e] == NIL && r == next[e]
    ensures prev[e] == NIL ==> r == next[e]
  {
    if prev[e] == NIL then next[e] else head
  }

  /** The `next` fields after unlinking `e` (lines 157-158 and 161). */
  function UnlinkedNext(prev: seq<int>, next: seq<int>, e: nat): (r: seq<int>)
    requires e < |prev| == |next| && (prev[e] == NIL || 0 <= prev[e] < |next|)
    ensures |r| == |next| && r[e] == UNLINKED
    ensures forall i :: 0 <= i < |r| && i != e ==> r[i] == (if i == prev[e] then next[e] else next[i])
  {
    (if prev[e] == NIL then next else next[prev[e] := next[e]])[e := UNLINKED]
  }

  /** The `prev` fields after unlinking `e` (lines 159-161). */
  function UnlinkedPrev(prev: seq<int>, next: seq<int>, e: nat): (r: seq<int>)
    requires e < |prev| == |next| && (next[e] == NIL || 0 <= next[e] < |prev|)
    ensures |r| == |prev| && r[e] == UNLINKED
    ensures forall i :: 0 <= i < |r| && i != e ==> r[i] == (if i == next[e] then prev[e] else prev[i])
  {
    (if next[e] != NIL then prev[next[e] := prev[e]] else prev)[e := UNLINKED]
  }

  /** Removing an entry keeps a list free of repetitions. */
  lemma RemoveAtDistinct(l: seq<int>, p: nat)
    requires Distinct(l) && p < |l|
    ensures Distinct(RemoveAt(l, p))
    ensures forall i :: i in RemoveAt(l, p) <==> i in l && i != l[p]
  {
    var l' := RemoveAt(l, p);
    forall i, j | 0 <= i < j < |l'| ensures l'[i] != l'[j] {
      var i0 := if i < p then i else i + 1;
      var j0 := if j < p then j else j + 1;
      assert l'[i] == l[i0] && l'[j] == l[j0] && i0 < j0;
    }
    forall i | i in l && i != l[p] ensures i in l' {
      var k :| 0 <= k < |l| && l[k] == i;
      assert i == l'[if k < p then k else k - 1];
    }
  }

  /** After unlinking the node at position `p`, the `next` fields of the
      remaining nodes chain the shorter list. */
  lemma UnlinkNextLinks(head: int, prev: seq<int>, next: seq<int>, l: seq<int>, p: nat)
    requires Encodes(head, prev, next, l) && p < |l|
    ensures prev[l[p]] == NIL || 0 <= prev[l[p]] < |next|
    ensures InRange(RemoveAt(l, p), |next|)
    ensures forall k :: 0 <= k < |l| - 1 ==> NextAt(UnlinkedNext(prev, next, l[p]), RemoveAt(l, p), k)
  {
    var e := l[p];
    Neighbours(head, prev, next, l, p);
    var l', next' := RemoveAt(l, p), UnlinkedNext(prev, next, e);
    forall k | 0 <= k < |l'| ensures NextAt(next', l', k) {
      var k0 := if k < p then k else k + 1;
      assert l'[k] == l[k0];
      Neighbours(head, prev, next, l, k0);
      if k + 1 == p {
        assert l'[k] == prev[e];
      } else {
        assert l[k0] != e;
        if p > 0 { assert l[k0] != l[p - 1]; }
        if k + 1 < |l'| { assert l'[k + 1] == l[k0 + 1]; }
      }
    }
  }

  /** After unlinking the node at position `p`, the `prev` fields of the
      remaining nodes chain the shorter list. */
  lemma UnlinkPrevLinks(head: int, prev: seq<int>, next: seq<int>, l: seq<int>, p: nat)
    requires Encodes(head, prev, next, l) && p < |l|
    ensures next[l[p]] == NIL || 0 <= next[l[p]] < |prev|
    ensures InRange(RemoveAt(l, p), |prev|)
    ensures forall k :: 0 <= k < |l| - 1 ==> PrevAt(UnlinkedPrev(prev, next, l[p]), RemoveAt(l, p), k)
  {
    var e := l[p];
    Neighbours(head, prev, next, l, p);
    var l', prev' := RemoveAt(l, p), UnlinkedPrev(prev, next, e);
    forall k | 0 <= k < |l'| ensures PrevAt(prev', l', k) {
      var k0 := if k < p then k else k + 1;
      assert l'[k] == l[k0];
      Neighbours(head, prev, next, l, k0);
      if k == p {
        assert l'[k] == next[e];
      } else {
        assert l[k0] != e;
        if p + 1 < |l| { assert l[k0] != l[p + 1]; }
        if k > 0 { assert l'[k - 1] == l[k0 - 1]; }
      }
    }
  }

  /** Unlinking the node at position `p` of the list leaves exactly the list
      without that node, and marks the node itself UNLINKED. */
  lemma UnlinkEncodes(head: int, prev: seq<int>, next: seq<int>, l: seq<int>, p: nat)
    requires Encodes(head, prev, next, l) && p < |l|
    ensures var e := l[p];
      && (prev[e] == NIL || 0 <= prev[e] < |next|)
      && (next[e] == NIL || 0 <= next[e] < |prev|)
      && Encodes(UnlinkedHead(head, prev, next, e), UnlinkedPrev(prev, next, e),
                 UnlinkedNext(prev, next, e), RemoveAt(l, p))
  {
    var e := l[p];
    Neighbours(head, prev, next, l, p);
    UnlinkNextLinks(head, prev, next, l, p);
    UnlinkPrevLinks(head, prev, next, l, p);
    RemoveAtDistinct(l, p);
    var head', prev', next' := UnlinkedHead(head, prev, next, e), UnlinkedPrev(prev, next, e), UnlinkedNext(prev, next, e);
    var l' := RemoveAt(l, p);
    assert head' == (if l' == [] then NIL else l'[0]) by {
      if p == 0 && |l| > 1 { assert l'[0] == l[1]; }
      if p > 0 { assert l'[0] == l[0]; }
    }
    forall i | 0 <= i < |next'| && i !in l'
      ensures Detached(prev', next', i)
    {
      if i != e {
        assert i !in l;
        if p > 0 { assert i != l[p - 1]; }
        if p + 1 < |l| { assert i != l[p + 1]; }
      }
    }
  }

  /** Pushing a node that is not yet on the list onto its front
      (server/server.c:220-224) gives the list with that node first. */
  lemma PushFrontEncodes(head: int, prev: seq<int>, next: seq<int>, l: seq<int>, e: nat)
    requires Encodes(head, prev, next, l) && e < |next| && e !in l
    ensures Encodes(e, (if head != NIL then prev[e := NIL][head := e] else prev[e := NIL]),
                    next[e := head], [e] + l)
  {
    var l' := [e] + l;
    var prev' := if head != NIL then prev[e := NIL][head := e] else prev[e := NIL];
    var next' := next[e := head];
    if l != [] { Neighbours(head, prev, next, l, 0); }
    forall k | 0 <= k < |l'| ensures NextAt(next', l', k) && PrevAt(prev', l', k) {
      if k > 0 {
        assert l'[k] == l[k - 1] && l[k - 1] != e;
        Neighbours(head, prev, next, l, k - 1);
        if k > 1 { assert l[k - 1] != l[0]; }
      }
    }
    forall i, j | 0 <= i < j < |l'| ensures l'[i] != l'[j] {
      if i > 0 { assert l'[i] == l[i - 1]; }
      assert l'[j] == l[j - 1];
    }
    forall i | 0 <= i < |next'| && i !in l'
      ensures Detached(prev', next', i)
    {
      assert i != e && i !in l;
      assert i != head;
    }
  }

  /** `l` without the members of `s`, in the same order. */
  ghost function Filter(l: seq<int>, s: set<int>): (r: seq<int>)
    ensures |r| <= |l|
    ensures forall x :: x in r <==> x in l && x !in s
  {
    if l == [] then []
    else
      assert l == [l[0]] + l[1..];
      (if l[0] in s then [] else [l[0]]) + Filter(l[1..], s)
  }

  /** Filtering out values the list does not hold changes nothing. */
  lemma {:induction false} FilterNone(l: seq<int>, s: set<int>)
    requires forall x :: x in l ==> x !in s
    ensures Filter(l, s) == l
  {
    if l != [] {
      var x, t := l[0], l[1..];
      assert l == [x] + t;
      assert x !in s;
      FilterNone(t, s);
      assert Filter(l, s) == [x] + Filter(t, s);
    }
  }

  /** In a list without repetitions, removing the entry at a position is
      filtering out its value. */
  lemma {:induction false} FilterRemoveAt(l: seq<int>, p: nat)
    requires Distinct(l) && p < |l|
    ensures RemoveAt(l, p) == Filter(l, {l[p]})
  {
    if p == 0 {
      FilterNone(l[1..], {l[0]});
      assert RemoveAt(l, 0) == l[1..];
    } else {
      var t := l[1..];
      assert Distinct(t) by {
        forall i, j | 0 <= i < j < |t| ensures t[i] != t[j] {
          assert t[i] == l[i + 1] && t[j] == l[j + 1];
        }
      }
      assert t[p - 1] == l[p];
      FilterRemoveAt(t, p - 1);
      assert l[0] != l[p];
      assert Filter(l, {l[p]}) == [l[0]] + Filter(t, {l[p]});
      RemoveAtCons(l, p);
    }
  }

  /** Removing a later entry keeps the first one in front. */
  lemma RemoveAtCons(l: seq<int>, p: nat)
    requires 0 < p < |l|
    ensures RemoveAt(l, p) == [l[0]] + RemoveAt(l[1..], p - 1)
  {
    assert l[..p] == [l[0]] + l[1..][..p - 1];
    assert l[p + 1..] == l[1..][p..];
  }

  /** Filtering twice is filtering once by both sets. */
  lemma {:induction false} FilterFilter(l: seq<int>, a: set<int>, b: set<int>)
    ensures Filter(Filter(l, a), b) == Filter(l, a + b)
  {
    if l != [] {
      FilterFilter(l[1..], a, b);
      var x := l[0];
      if x in a {
        assert Filter(l, a) == Filter(l[1..], a);
        assert Filter(l, a + b) == Filter(l[1..], a + b);
      } else {
        var f := Filter(l, a);
        assert f == [x] + Filter(l[1..], a);
        assert f[1..] == Filter(l[1..], a);
        assert Filter(f, b) == (if x in b then [] else [x]) + Filter(f[1..], b);
        assert Filter(l, a + b) == (if x in b then [] else [x]) + Filter(l[1..], a + b);
      }
    }
  }

  /** One `if (wall_idx >= 0) remove_tmp_wall (...)` step on the candidate
      list: a negative index names no wall; removing a wall that is no longer
      on the list is a fault (`None`); otherwise the wall leaves the list. */
  ghost function DropOne(o: Option<seq<int>>, w: int): (r: Option<seq<int>>)
    ensures r.Some? ==> o.Some? && forall x :: x in r.value ==> x in o.value && (w >= 0 ==> x != w)
    ensures r.None? <==> o.None? || (w >= 0 && w !in o.value)
  {
    if w < 0 then o
    else match o
      case None => None
      case Some(l) => if w in l then Some(Filter(l, {w})) else None
  }

  /** The steps of `DropOne` for the walls `ws`, in order. */
  ghost function DropSeq(o: Option<seq<int>>, ws: seq<int>): (r: Option<seq<int>>)
    ensures r.Some? ==> o.Some? && forall x :: x in r.value ==> x in o.value && (x in ws ==> x < 0)
    decreases |ws|
  {
    if ws == [] then o else DropSeq(DropOne(o, ws[0]), ws[1..])
  }

  /** The wall indices `ws` names (its non-negative entries). */
  ghost function Named(ws: seq<int>): (r: set<int>)
    ensures forall x :: x in r <==> x in ws && x >= 0
  {
    set x | x in ws && x >= 0
  }

  /** No wall is named twice in `ws`. */
  ghost predicate NoRepeat(ws: seq<int>)
  {
    forall i, j :: 0 <= i < j < |ws| && ws[i] >= 0 ==> ws[i] != ws[j]
  }

  lemma {:induction false} DropSeqNone(ws: seq<int>)
    ensures DropSeq(None, ws) == None
    decreases |ws|
  {
    if ws != [] {
      DropSeqNone(ws[1..]);
    }
  }

  /** Dropping the walls `[w] + ws` is dropping `w`, then the walls `ws`. */
  lemma DropSeqCons(o: Option<seq<int>>, w: int, ws: seq<int>)
    ensures DropSeq(o, [w] + ws) == DropSeq(DropOne(o, w), ws)
  {
    assert ([w] + ws)[1..] == ws;
  }

  /** Dropping the walls `a + b` is dropping `a`, then `b`. */
  lemma {:induction false} DropSeqAppend(o: Option<seq<int>>, a: seq<int>, b: seq<int>)
    ensures DropSeq(o, a + b) == DropSeq(DropSeq(o, a), b)
    decreases |a|
  {
    if a == [] {
      assert a + b == b;
    } else {
      assert (a + b)[0] == a[0] && (a + b)[1..] == a[1..] + b;
      DropSeqAppend(DropOne(o, a[0]), a[1..], b);
    }
  }

  /** Dropping the walls `ws + [w]` is dropping `ws`, then `w`. */
  lemma DropSeqSnoc(o: Option<seq<int>>, ws: seq<int>, w: int)
    ensures DropSeq(o, ws + [w]) == DropOne(DropSeq(o, ws), w)
  {
    DropSeqAppend(o, ws, [w]);
    DropSeqCons(DropSeq(o, ws), w, []);
    assert [w] + [] == [w];
  }

  /** Dropping the walls `ws` from `l` got through the first `k` of them,
      leaving `rest`, and then met `ws[k]`, a wall that is not on `rest`. */
  ghost predicate StoppedAt(l: seq<int>, ws: seq<int>, k: int, rest: seq<int>)
  {
    0 <= k < |ws| && DropSeq(Some(l), ws[..k]) == Some(rest) && ws[k] >= 0 && ws[k] !in rest
  }

  /** Dropping one more wall of `ws` after its first `i`. */
  lemma DropPrefixStep(l: seq<int>, ws: seq<int>, i: nat, li: seq<int>, li': seq<int>)
    requires i < |ws| && DropSeq(Some(l), ws[..i]) == Some(li) && DropOne(Some(li), ws[i]) == Some(li')
    ensures DropSeq(Some(l), ws[..i + 1]) == Some(li')
  {
    assert ws[..i + 1] == ws[..i] + [ws[i]];
    DropSeqSnoc(Some(l), ws[..i], ws[i]);
  }

  /** Dropping the walls `ws` stops at `ws[i]` when that wall is not on the
      list the first `i` drops left. */
  lemma DropPrefixStops(l: seq<int>, ws: seq<int>, i: nat, li: seq<int>)
    requires i < |ws| && DropSeq(Some(l), ws[..i]) == Some(li) && DropOne(Some(li), ws[i]) == None
    ensures StoppedAt(l, ws, i, li) && DropSeq(Some(l), ws) == None
  {
    StoppedAtFails(l, ws, i, li);
  }

  /** A run of drops that stopped at some wall fails as a whole. */
  lemma StoppedAtFails(l: seq<int>, ws: seq<int>, k: int, rest: seq<int>)
    requires StoppedAt(l, ws, k, rest)
    ensures DropSeq(Some(l), ws) == None
  {
    assert ws == ws[..k] + ([ws[k]] + ws[k + 1..]);
    DropSeqAppend(Some(l), ws[..k], [ws[k]] + ws[k + 1..]);
    DropSeqCons(Some(rest), ws[k], ws[k + 1..]);
    DropSeqNone(ws[k + 1..]);
  }

  /** A sequence of walls has no repetition exactly when its tail has none
      and does not name its head again. */
  lemma NoRepeatCons(ws: seq<int>)
    requires ws != []
    ensures NoRepeat(ws) <==> NoRepeat(ws[1..]) && (ws[0] >= 0 ==> ws[0] !in ws[1..])
  {
    var w, rest := ws[0], ws[1..];
    if NoRepeat(rest) && (w >= 0 ==> w !in rest) {
      forall i, j | 0 <= i < j < |ws| && ws[i] >= 0 ensures ws[i] != ws[j] {
        assert ws[j] == rest[j - 1];
        if i > 0 {
          assert ws[i] == rest[i - 1];
        }
      }
    }
    if NoRepeat(ws) {
      forall i, j | 0 <= i < j < |rest| && rest[i] >= 0 ensures rest[i] != rest[j] {
        assert rest[i] == ws[i + 1] && rest[j] == ws[j + 1];
      }
      if w >= 0 {
        forall j | 0 <= j < |rest| ensures rest[j] != w {
          assert ws[0] == w && ws[j + 1] == rest[j];
        }
      }
    }
  }

  /** Removing the walls `ws` one after the other succeeds exactly when they
      are all distinct and all on the list, and then leaves the list without
      them. */
  lemma {:induction false} DropSeqMeaning(l: seq<int>, ws: seq<int>)
    ensures DropSeq(Some(l), ws).Some? <==> NoRepeat(ws) && forall x :: x in ws && x >= 0 ==> x in l
    ensures DropSeq(Some(l), ws).Some? ==> DropSeq(Some(l), ws).value == Filter(l, Named(ws))
    decreases |ws|
  {
    if ws == [] {
      FilterNone(l, {});
      assert Named(ws) == {};
    } else {
      var w, rest := ws[0], ws[1..];
      assert ws == [w] + rest;
      NoRepeatCons(ws);
      if w < 0 {
        DropSeqMeaning(l, rest);
        assert Named(ws) == Named(rest);
      } else if w in l {
        DropSeqMeaning(Filter(l, {w}), rest);
        if DropSeq(Some(l), ws).Some? {
          FilterFilter(l, {w}, Named(rest));
          assert {w} + Named(rest) == Named(ws);
        }
      } else {
        DropSeqNone(rest);
      }
    }
  }

  /** Unlinking wall `index` from the list `l`, in one step: its neighbours
      are real nodes or NIL, a node without predecessor is the head (the
      `dsk_assert` of server/server.c:154 holds), and the result encodes `l`
      without `index`. */
  lemma UnlinkFilter(head: int, prev: seq<int>, next: seq<int>, l: seq<int>, index: nat)
    requires Encodes(head, prev, next, l) && index in l
    ensures index < |prev| == |next|
    ensures prev[index] == NIL || 0 <= prev[index] < |next|
    ensures next[index] == NIL || 0 <= next[index] < |prev|
    ensures prev[index] == NIL ==> head == index
    ensures Encodes(UnlinkedHead(head, prev, next, index), UnlinkedPrev(prev, next, index),
                    UnlinkedNext(prev, next, index), Filter(l, {index}))
  {
    var p :| 0 <= p < |l| && l[p] == index;
    UnlinkEncodes(head, prev, next, l, p);
    Neighbours(head, prev, next, l, p);
    FilterRemoveAt(l, p);
  }

  /** The candidate list of `create_game`: the `tmp_walls` array (one node
      per wall index) and the `wall_list` pointer to its first node. */
  class CandidateList {
    const prev: array<int>
    const next: array<int>
    var head: int
    /** The wall indices on the list, first to last. */
    ghost var list: seq<int>

    ghost predicate Valid()
      reads this, prev, next
    {
      prev != next && Encodes(head, prev[..], next[..], list)
    }

    /** `dsk_malloc (sizeof (TmpWall) * usize * 2)` and
        `wall_list = NULL` (server/server.c:200 and 208): `n` nodes never
        written, and an empty list. */
    constructor (n: nat)
      ensures Valid() && list == [] && head == NIL
      ensures prev.Length == n && fresh(prev) && fresh(next)
      ensures forall i :: 0 <= i < n ==> prev[i] == UNINIT && next[i] == UNINIT
    {
      prev := new int[n](_ => UNINIT);
      next := new int[n](_ => UNINIT);
      head := NIL;
      list := [];
    }

    /** Whether wall `index` is on the list: the head, or a node with a
        predecessor. */
    method IsLinked(index: nat) returns (b: bool)
      requires Valid() && index < next.Length
      ensures b == (index in list)
    {
      LinkedTest(head, prev[..], next[..], list, index);
      b := index == head || prev[index] >= 0;
    }

    /** Lines 220-224 of `create_game`: push wall `e` onto the front. */
    method PushFront(e: nat)
      requires Valid() && e < next.Length && e !in list
      modifies this, prev, next
      ensures Valid() && list == [e] + old(list)
    {
      ghost var P, N := prev[..], next[..];
      PushFrontEncodes(head, P, N, list, e);
      prev[e] := NIL;
      next[e] := head;
      if head != NIL {
        prev[head] := e;
      }
      assert prev[..] == (if head != NIL then P[e := NIL][head := e] else P[e := NIL]);
      assert next[..] == N[e := head];
      head := e;
      list := [e] + list;
    }

    /** The pointer surgery of `remove_tmp_wall` (lines 152-161) for a wall
        on the list: the wall leaves the list and its node is marked with
        `(void*) 1`. */
    method Unlink(index: nat)
      requires Valid() && index in list
      modifies this, prev, next
      ensures Valid() && list == Filter(old(list), {index})
      ensures prev[index] == UNLINKED && next[index] == UNLINKED
    {
      ghost var H, P, N, L := head, prev[..], next[..], list;
      UnlinkFilter(H, P, N, L, index);
      Splice(index);
      list := Filter(L, {index});
    }

    /** The assignments of lines 152-161 on their own: the neighbours of
        node `index` are linked to each other (or the head moves past it),
        and the node is marked UNLINKED. */
    method Splice(index: nat)
      requires prev != next && index < prev.Length == next.Length
      requires prev[index] == NIL || 0 <= prev[index] < next.Length
      requires next[index] == NIL || 0 <= next[index] < prev.Length
      modifies this, prev, next
      ensures list == old(list)
      ensures head == UnlinkedHead(old(head), old(prev[..]), old(next[..]), index)
      ensures prev[..] == UnlinkedPrev(old(prev[..]), old(next[..]), index)
      ensures next[..] == UnlinkedNext(old(prev[..]), old(next[..]), index)
    {
      ghost var P, N := prev[..], next[..];
      if prev[index] == NIL {
        head := next[index];
      } else {
        next[prev[index]] := next[index];
      }
      assert next[..] == (if P[index] == NIL then N else N[P[index] := N[index]]);
      if next[index] != NIL {
        prev[next[index]] := prev[index];
      }
      assert prev[..] == (if N[index] != NIL then P[N[index] := P[index]] else P);
      prev[index], next[index] := UNLINKED, UNLINKED;
    }
  }
}
