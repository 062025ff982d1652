/** The maze generator inside `create_game` (server/server.c:141-320): a
    Kruskal-style pass over a randomly ordered list of candidate walls that
    knocks walls down in the game's `h_walls`/`v_walls` bitmaps while
    merging the disjoint sets of cells.

    Where the source would dereference a pointer that does not point at a
    list node (unlinking a wall that is no longer on the candidate list), or
    where its `dsk_assert` fails, the model stops with a fault outcome. */
module MazeGen {
  import opened Util
  import opened MazeWalls
  import opened WallList
  import opened SetRings
  import Scramble

  /** How a run of the generator ends. `SameSetFault(e)`: the `dsk_assert`
      at line 256 fails for the head wall `e`. `UnlinkedFault(c)`: while
      relabelling cell `c`, a scan names a wall that is not on the candidate
      list, which `remove_tmp_wall` cannot unlink. */
  datatype Outcome = Done | SameSetFault(wall: nat) | UnlinkedFault(cell: nat)

  /** `generate_ones` (lines 121-124): a fresh bitmap of `count` ones. */
  method GenerateOnes(count: nat) returns (a: array<byte>)
    ensures fresh(a) && a.Length == count
    ensures forall i :: 0 <= i < count ==> a[i] == 1
  {
    a := new byte[count](_ => 1);
  }

  /** The state `create_game` works on while it generates the maze. */
  class Generator {
    const width: nat
    const height: nat
    const wrap: bool
    /** The game's bitmaps: `hWalls[c]` for the wall with odd index `2c + 1`,
        `vWalls[c]` for the wall with even index `2c`. */
    const hWalls: array<byte>
    const vWalls: array<byte>
    /** `tmp_walls` and `wall_list`. */
    const walls: CandidateList
    /** `sets`. */
    const sets: DisjointSets
    /** The walls that were ever put on the candidate list. */
    ghost var enqueued: seq<int>

    /** Sizes of the buffers, as `create_game` allocates them. */
    ghost predicate Shape()
    {
      && 0 < width && 0 < height
      && hWalls.Length == width * height && vWalls.Length == width * height && hWalls != vWalls
      && walls.prev.Length == 2 * (width * height) && walls.next.Length == 2 * (width * height)
      && sets.setNumber.Length == width * height && sets.nextInSet.Length == width * height
    }

    /** The bitmap entry of wall `e`: `h_walls` for odd, `v_walls` for even
        indices, at `e / 2` (the choice `remove_tmp_wall` makes, lines
        162-165). */
    ghost function WallBit(e: nat): byte
      requires Shape() && e < 2 * (width * height)
      reads hWalls, vWalls
    {
      if e % 2 == 1 then hWalls[e / 2] else vWalls[e / 2]
    }

    /** The candidate list is well linked, and holds only enqueued walls. */
    ghost predicate ListOk()
      requires Shape()
      reads this, walls, walls.prev, walls.next
    {
      walls.Valid() && forall e :: e in walls.list ==> e in enqueued
    }

    /** A wall is down exactly when it was enqueued and has since left the
        candidate list. */
    ghost predicate BitsOk()
      requires Shape()
      reads this, walls, hWalls, vWalls
    {
      forall e :: 0 <= e < 2 * (width * height) ==>
        WallBit(e) == (if e in enqueued && e !in walls.list then 0 else 1)
    }

    ghost predicate Valid()
      reads this, walls, walls.prev, walls.next, hWalls, vWalls, sets, sets.setNumber, sets.nextInSet
    {
      Shape() && ListOk() && BitsOk() && sets.Valid()
    }

    /** The allocations of `create_game` (lines 188-189 and 200-201): both
        bitmaps all ones, the wall nodes and the set records not yet
        written, the candidate list empty. */
    constructor (w: nat, h: nat, wrap: bool)
      requires 0 < w && 0 < h
      ensures width == w && height == h && this.wrap == wrap
      ensures Shape() && ListOk() && BitsOk()
      ensures walls.list == [] && enqueued == []
      ensures forall i :: 0 <= i < w * h ==> hWalls[i] == 1 && vWalls[i] == 1
      ensures sets.setNumber != sets.nextInSet
      ensures fresh(hWalls) && fresh(vWalls) && fresh(walls) && fresh(walls.prev) && fresh(walls.next)
      ensures fresh(sets) && fresh(sets.setNumber) && fresh(sets.nextInSet)
    {
      width, height, this.wrap := w, h, wrap;
      var hw := GenerateOnes(w * h);
      var vw := GenerateOnes(w * h);
      hWalls, vWalls := hw, vw;
      walls := new CandidateList(2 * (w * h));
      sets := new DisjointSets(w * h);
      enqueued := [];
    }

    /** The last step of `remove_tmp_wall` (lines 160-165): clear the
        bitmap entry of wall `index` at the coordinates `x + y * width`
        computed from its cell. */
    method KnockDown(index: nat)
      requires Shape() && index < 2 * (width * height)
      modifies hWalls, vWalls
      ensures forall e :: 0 <= e < 2 * (width * height) ==>
        WallBit(e) == (if e == index then 0 else old(WallBit(e)))
    {
      CellCoords(width, height, index / 2);
      var x := (index / 2) % width;
      var y := (index / 2) / width;
      var h := index % 2;
      assert x + y * width == index / 2;
      if h == 1 {
        hWalls[x + y * width] := 0;
      } else {
        vWalls[x + y * width] := 0;
      }
      forall e | 0 <= e < 2 * (width * height)
        ensures WallBit(e) == (if e == index then 0 else old(WallBit(e)))
      {
        if e != index {
          assert e / 2 != index / 2 || e % 2 != index % 2;
        }
      }
    }

    /** `remove_tmp_wall` (lines 141-166) for a wall on the candidate list:
        the wall leaves the list and is knocked down in its bitmap. */
    method RemoveTmpWall(index: nat)
      requires Shape() && ListOk() && BitsOk() && index in walls.list
      modifies walls, walls.prev, walls.next, hWalls, vWalls
      ensures ListOk() && BitsOk()
      ensures walls.list == Filter(old(walls.list), {index})
      ensures walls.prev[index] == UNLINKED && walls.next[index] == UNLINKED
      ensures WallBit(index) == 0
    {
      ghost var l0 := walls.list;
      walls.Unlink(index);
      KnockDown(index);
      assert forall e :: e in walls.list <==> e in l0 && e != index;
    }

    /** One "maybe remove" step of the relabelling loop (e.g. lines 270-277):
        no wall when `wallIdx` is negative, otherwise `remove_tmp_wall`, which
        only makes sense for a wall still on the candidate list; for any other
        wall the result is `false` and nothing changes. */
    method DropWall(wallIdx: int) returns (ok: bool)
      requires Shape() && ListOk() && BitsOk() && wallIdx < 2 * (width * height)
      modifies walls, walls.prev, walls.next, hWalls, vWalls
      ensures ListOk() && BitsOk()
      ensures ok == DropOne(Some(old(walls.list)), wallIdx).Some?
      ensures ok ==> walls.list == DropOne(Some(old(walls.list)), wallIdx).value
      ensures !ok ==> walls.list == old(walls.list)
      ensures forall x :: x in walls.list ==> x in old(walls.list)
    {
      ok := true;
      if wallIdx >= 0 {
        ok := walls.IsLinked(wallIdx);
        if ok {
          RemoveTmpWall(wallIdx);
        }
      }
    }

    /** Scan `i` of a relabelled cell, naming `wallIdx`: the wall is
        removed when it is on the list. Stated against the scans `ws` of
        the cell and the list `l0` before the first of them. */
    method DropScan(ghost l0: seq<int>, ghost ws: seq<int>, i: nat, wallIdx: int) returns (ok: bool)
      requires Shape() && ListOk() && BitsOk() && wallIdx < 2 * (width * height)
      requires i < |ws| && ws[i] == wallIdx && DropSeq(Some(l0), ws[..i]) == Some(walls.list)
      modifies walls, walls.prev, walls.next, hWalls, vWalls
      ensures ListOk() && BitsOk()
      ensures ok ==> DropSeq(Some(l0), ws[..i + 1]) == Some(walls.list)
      ensures !ok ==> StoppedAt(l0, ws, i, walls.list)
      ensures forall x :: x in walls.list ==> x in old(walls.list)
    {
      ghost var li := walls.list;
      ok := DropWall(wallIdx);
      if ok {
        DropPrefixStep(l0, ws, i, li, walls.list);
      } else {
        DropPrefixStops(l0, ws, i, li);
      }
    }

    /** The four scans of the relabelled cell `c` (lines 267-304), with the
        set number `keep` of the kept ring: every wall they name is removed,
        in the order left, right, top, "bottom". The four indices read only
        set numbers, which removing a wall leaves alone, so they are computed
        first and then removed in that order. `ok` is false when one of them
        is not on the candidate list; the scans stop there, at scan `stop`. */
    method DropSameSetWalls(c: nat, keep: int) returns (ok: bool, ghost stop: nat)
      requires Shape() && ListOk() && BitsOk() && c < width * height
      modifies walls, walls.prev, walls.next, hWalls, vWalls
      ensures ListOk() && BitsOk()
      ensures var ws := ScanWalls(width, height, wrap, sets.setNumber[..], c, keep);
        && (ok == DropSeq(Some(old(walls.list)), ws).Some?)
        && (ok ==> walls.list == DropSeq(Some(old(walls.list)), ws).value)
        && (!ok ==> StoppedAt(old(walls.list), ws, stop, walls.list))
      ensures forall x :: x in walls.list ==> x in old(walls.list)
    {
      ghost var l0 := walls.list;
      var left := LeftWallIdx(width, height, wrap, sets.setNumber[..], c, keep);
      var right := RightWallIdx(width, height, wrap, sets.setNumber[..], c, keep);
      var top := TopWallIdx(width, height, wrap, sets.setNumber[..], c, keep);
      var bottom := BottomWallIdx(width, height, wrap, sets.setNumber[..], c, keep);
      var scans := [left, right, top, bottom];
      assert scans == ScanWalls(width, height, wrap, sets.setNumber[..], c, keep);
      for i := 0 to 4
        invariant ListOk() && BitsOk()
        invariant DropSeq(Some(l0), scans[..i]) == Some(walls.list)
        invariant forall x :: x in walls.list ==> x in l0
      {
        ok := DropScan(l0, scans, i, scans[i]);
        if !ok {
          StoppedAtFails(l0, scans, i, walls.list);
          return false, i;
        }
      }
      assert scans[..4] == scans;
      ok, stop := true, 0;
    }

    /** One step of the renumbering walk: cell `d` takes the number `keep`,
        then its scans remove the walls that now separate it from a
        neighbour of the same set. */
    method RenumberCell(d: nat, keep: nat) returns (ok: bool, ghost stop: nat)
      requires Shape() && ListOk() && BitsOk() && d < width * height
      modifies walls, walls.prev, walls.next, hWalls, vWalls, sets.setNumber
      ensures ListOk() && BitsOk()
      ensures sets.setNumber[..] == old(sets.setNumber[..])[d := keep]
      ensures var ws := ScanWalls(width, height, wrap, sets.setNumber[..], d, keep);
        && (ok == DropSeq(Some(old(walls.list)), ws).Some?)
        && (ok ==> walls.list == DropSeq(Some(old(walls.list)), ws).value)
        && (!ok ==> StoppedAt(old(walls.list), ws, stop, walls.list))
      ensures forall x :: x in walls.list ==> x in old(walls.list)
    {
      sets.setNumber[d] := keep;
      ok, stop := DropSameSetWalls(d, keep);
    }

    /** The candidate list the renumbering walk over the ring of `dring`'s
        set leaves, with `keep` as the new set number; `None` when a scan
        along the way names a wall that is not on the list at that point. */
    ghost function WalkOutcome(dring: nat, keep: int): Option<seq<int>>
      requires Shape() && dring < width * height
      reads walls, sets, sets.setNumber
    {
      WalkFrom(width, height, wrap, walls.list, sets.setNumber[..], sets.rings, dring, keep)
    }

    /** The do-while loop of lines 263-308: walk the ring of `dring`'s set,
        renumbering each member `keep` (the number of the other set) and
        letting its four scans remove the walls that now separate cells of
        one set. The walk stops at the first cell whose scan names a wall
        no longer on the candidate list, and returns that cell; otherwise
        the whole set is renumbered and the list is what `WalkOutcome`
        gives. */
    method RelabelRing(dring: nat, keep: nat) returns (fault: Option<nat>, ghost j: nat, ghost k: nat)
      requires Shape() && ListOk() && BitsOk() && sets.Valid() && dring < width * height
      modifies walls, walls.prev, walls.next, hWalls, vWalls, sets.setNumber
      ensures ListOk() && BitsOk()
      ensures forall x :: x in walls.list ==> x in old(walls.list)
      ensures fault.None? <==> old(WalkOutcome(dring, keep)).Some?
      ensures fault.None? ==> walls.list == old(WalkOutcome(dring, keep)).value
      ensures fault.None? ==> sets.setNumber[..] == Relabel(old(sets.setNumber[..]), old(sets.setNumber[dring]), keep)
      ensures fault.Some? ==>
        var rr := old(RingFrom(sets.rings, sets.setNumber[dring], dring));
        j < |rr| && rr[j] == fault.value &&
        sets.setNumber[..] == PartRelabel(old(sets.setNumber[..]), rr[..j + 1], keep)
      ensures fault.Some? ==> fault.value < width * height && sets.setNumber[fault.value] == keep
      ensures fault.Some? ==>
        exists l :: StoppedAt(l, ScanWalls(width, height, wrap, sets.setNumber[..], fault.value, keep), k, walls.list)
    {
      ghost var labels0, succ0, rings0, list0 := sets.setNumber[..], sets.nextInSet[..], sets.rings, walls.list;
      ghost var ds := labels0[dring];
      RingFromMember(labels0, succ0, rings0, dring);
      ghost var rr := RingFrom(rings0, ds, dring);
      ghost var outcome := WalkOutcome(dring, keep);
      assert outcome == DropSeq(Some(list0), RenumberScans(width, height, wrap, labels0, rr, keep, |rr|));
      fault, j, k := WalkRing(dring, keep, rr);
      if fault.None? {
        WalkCompletes(width, height, wrap, labels0, rr, keep, list0, j, walls.list);
        PartRelabelRing(labels0, succ0, rings0, ds, rr, keep);
      } else {
        WalkFails(width, height, wrap, labels0, rr, keep, list0, j, sets.setNumber[..], k, walls.list);
        ghost var lj := DropSeq(Some(list0), RenumberScans(width, height, wrap, labels0, rr, keep, j)).value;
        assert StoppedAt(lj, ScanWalls(width, height, wrap, sets.setNumber[..], fault.value, keep), k, walls.list);
      }
    }

    /** The loop of `RelabelRing` over the ring `rr` of `dring`'s set, read
        from `dring`: `j` is the position of the last cell renumbered, and
        either the walk went round the whole ring or its scans stopped at a
        wall that is not on the list. */
    method WalkRing(dring: nat, keep: nat, ghost rr: seq<int>) returns (fault: Option<nat>, ghost j: nat, ghost k: nat)
      requires Shape() && ListOk() && BitsOk() && sets.setNumber != sets.nextInSet
      requires IsRing(sets.nextInSet[..], rr) && rr[0] == dring && InRange(rr, width * height)
      modifies walls, walls.prev, walls.next, hWalls, vWalls, sets.setNumber
      ensures ListOk() && BitsOk()
      ensures forall x :: x in walls.list ==> x in old(walls.list)
      ensures j < |rr| && sets.setNumber[..] == PartRelabel(old(sets.setNumber[..]), rr[..j + 1], keep)
      ensures fault.None? ==> j + 1 == |rr|
      ensures fault.None? ==>
        DropSeq(Some(old(walls.list)), RenumberScans(width, height, wrap, old(sets.setNumber[..]), rr, keep, j + 1)) == Some(walls.list)
      ensures fault.Some? ==> fault.value == rr[j]
      ensures fault.Some? ==>
        var lj := DropSeq(Some(old(walls.list)), RenumberScans(width, height, wrap, old(sets.setNumber[..]), rr, keep, j));
        lj.Some? && StoppedAt(lj.value, ScanWalls(width, height, wrap, sets.setNumber[..], rr[j], keep), k, walls.list)
    {
      ghost var labels0, succ0, list0 := sets.setNumber[..], sets.nextInSet[..], walls.list;
      var d := dring;
      j, k := 0, 0;
      while true
        invariant 0 <= j < |rr| && d == rr[j]
        invariant sets.setNumber[..] == PartRelabel(labels0, rr[..j], keep)
        invariant ListOk() && BitsOk()
        invariant forall x :: x in walls.list ==> x in old(walls.list)
        invariant DropSeq(Some(list0), RenumberScans(width, height, wrap, labels0, rr, keep, j)) == Some(walls.list)
        decreases |rr| - j
      {
        var ok;
        ok, k := WalkCell(labels0, list0, rr, j, d, keep);
        if !ok {
          return Some(d), j, k;
        }
        assert SuccAt(succ0, rr, j);
        d := sets.nextInSet[d];
        if d == dring {
          RingCloses(succ0, rr, j);
          return None, j, 0;
        }
        j := j + 1;
      }
    }

    /** One pass of the loop body of `WalkRing`: the `j`-th cell `d` of the
        ring `rr` is renumbered and scanned, continuing the walk that started
        from the labels `labels0` and the list `list0`. */
    method WalkCell(ghost labels0: seq<int>, ghost list0: seq<int>, ghost rr: seq<int>, ghost j: nat, d: nat, keep: nat)
      returns (ok: bool, ghost k: nat)
      requires Shape() && ListOk() && BitsOk() && sets.setNumber != sets.nextInSet
      requires j < |rr| && d == rr[j] && InRange(rr, width * height) && |labels0| == width * height
      requires sets.setNumber[..] == PartRelabel(labels0, rr[..j], keep)
      requires DropSeq(Some(list0), RenumberScans(width, height, wrap, labels0, rr, keep, j)) == Some(walls.list)
      modifies walls, walls.prev, walls.next, hWalls, vWalls, sets.setNumber
      ensures ListOk() && BitsOk()
      ensures forall x :: x in walls.list ==> x in old(walls.list)
      ensures sets.setNumber[..] == PartRelabel(labels0, rr[..j + 1], keep)
      ensures ok ==> DropSeq(Some(list0), RenumberScans(width, height, wrap, labels0, rr, keep, j + 1)) == Some(walls.list)
      ensures !ok ==> StoppedAt(old(walls.list), ScanWalls(width, height, wrap, sets.setNumber[..], d, keep), k, walls.list)
    {
      PartRelabelStep(labels0, rr, j, keep);
      ghost var lj := walls.list;
      ok, k := RenumberCell(d, keep);
      if ok {
        WalkStep(width, height, wrap, labels0, rr, keep, list0, j, lj);
      }
    }

    /** One round of the main loop (lines 233-314) for the wall `e` at the
        head of the candidate list: `e`'s own cell and the cell the loop
        pairs it with must lie in different sets (the `dsk_assert`); the
        higher-numbered set is renumbered to the lower number, its walls
        that now separate cells of one set removed, and the two rings
        spliced into one. */
    method MergeFirstCandidate() returns (o: Outcome)
      requires Valid() && walls.head != NIL
      modifies walls, walls.prev, walls.next, hWalls, vWalls, sets, sets.setNumber, sets.nextInSet
      ensures ListOk() && BitsOk()
      ensures forall x :: x in walls.list ==> x in old(walls.list)
      ensures o.SameSetFault? <==>
        old(sets.setNumber[walls.head / 2] == sets.setNumber[PairedCell(width, height, walls.head)])
      ensures o.SameSetFault? ==> o.wall == old(walls.head) && walls.list == old(walls.list) && sets.setNumber[..] == old(sets.setNumber[..])
      ensures o.SameSetFault? ==>
        o.wall == walls.head && o.wall < 2 * (width * height) &&
        sets.setNumber[o.wall / 2] == sets.setNumber[PairedCell(width, height, o.wall)]
      ensures var a, b := old(sets.setNumber[walls.head / 2]), old(sets.setNumber[PairedCell(width, height, walls.head)]);
        var dc := if b < a then old(walls.head) / 2 else PairedCell(width, height, old(walls.head));
        var walk := old(WalkOutcome(dc, if b < a then b else a));
        && (o.UnlinkedFault? <==> a != b && walk.None?)
        && (o == Done ==> walk.Some? && walls.list == walk.value)
      ensures o.UnlinkedFault? ==>
        o.cell < width * height &&
        exists l, k :: StoppedAt(l, ScanWalls(width, height, wrap, sets.setNumber[..], o.cell, sets.setNumber[o.cell]), k, walls.list)
      ensures o != Done ==> sets.rings == old(sets.rings) && sets.nextInSet[..] == old(sets.nextInSet[..])
      ensures o.UnlinkedFault? ==>
        var a, b := old(sets.setNumber[walls.head / 2]), old(sets.setNumber[PairedCell(width, height, walls.head)]);
        var dc := if b < a then old(walls.head) / 2 else PairedCell(width, height, old(walls.head));
        var rr := old(RingFrom(sets.rings, sets.setNumber[dc], dc));
        exists j :: 0 <= j < |rr| && rr[j] == o.cell &&
          sets.setNumber[..] == PartRelabel(old(sets.setNumber[..]), rr[..j + 1], if b < a then b else a)
      ensures o == Done ==>
        var a, b := old(sets.setNumber[walls.head / 2]), old(sets.setNumber[PairedCell(width, height, walls.head)]);
        var ks, ds := if b < a then b else a, if b < a then a else b;
        && sets.Valid()
        && sets.setNumber[..] == Relabel(old(sets.setNumber[..]), ds, ks)
        && ks in old(sets.rings) && ds in old(sets.rings)
        && sets.rings.Keys == old(sets.rings).Keys - {ds}
        && |sets.rings.Keys| == |old(sets.rings).Keys| - 1
        && ks in sets.rings
        && (forall x :: x in sets.rings[ks] <==> x in old(sets.rings)[ks] || x in old(sets.rings)[ds])
        && (forall s :: s in sets.rings && s != ks ==> sets.rings[s] == old(sets.rings)[s])
    {
      var e := walls.head;
      assert e in walls.list;
      var si := e / 2;
      var osi := PairedCell(width, height, e);
      if sets.setNumber[osi] == sets.setNumber[si] {
        return SameSetFault(e);
      }
      var kring, dring := if sets.setNumber[osi] < sets.setNumber[si] then osi else si,
                          if sets.setNumber[osi] < sets.setNumber[si] then si else osi;
      ghost var labels0 := sets.setNumber[..];
      var fault;
      ghost var j, k;
      fault, j, k := RelabelRing(dring, sets.setNumber[kring]);
      if fault.Some? {
        assert sets.setNumber[..] == PartRelabel(labels0, RingFrom(sets.rings, labels0[dring], dring)[..j + 1], labels0[kring]);
        return UnlinkedFault(fault.value);
      }
      sets.SpliceRings(kring, dring, labels0);
      o := Done;
    }

    /** The main loop (lines 233-314): merge along the head of the candidate
        list until the list is empty or a fault stops the generator. Each
        completed round leaves one set fewer, which bounds the loop. When it
        completes, the walls knocked down are exactly the enqueued walls,
        and no wall that was down before stands up again. */
    method MergeAll() returns (o: Outcome, ghost list0: seq<int>, ghost labels0: seq<int>, ghost rings0: map<int, seq<int>>)
      requires Valid()
      modifies walls, walls.prev, walls.next, hWalls, vWalls, sets, sets.setNumber, sets.nextInSet
      ensures ListOk() && BitsOk()
      ensures forall x :: x in walls.list ==> x in old(walls.list)
      ensures forall e :: 0 <= e < 2 * (width * height) && old(WallBit(e)) == 0 ==> WallBit(e) == 0
      ensures o == Done ==> sets.Valid() && walls.list == []
      ensures o.SameSetFault? ==>
        o.wall == walls.head && o.wall < 2 * (width * height) &&
        sets.setNumber[o.wall / 2] == sets.setNumber[PairedCell(width, height, o.wall)]
      ensures o.UnlinkedFault? ==>
        o.cell < width * height &&
        exists l, k :: StoppedAt(l, ScanWalls(width, height, wrap, sets.setNumber[..], o.cell, sets.setNumber[o.cell]), k, walls.list)
      ensures o != Done ==>
        && FaultFrom(width, height, wrap, o, list0, labels0, rings0)
        && FaultLeaves(width, height, o, list0, labels0, rings0, walls.list, sets.setNumber[..], sets.nextInSet[..], sets.rings)
        && (forall x :: x in list0 ==> x in old(walls.list))
      ensures o == Done ==> forall e :: 0 <= e < 2 * (width * height) ==> (WallBit(e) == 0 <==> e in enqueued)
    {
      o := Done;
      list0, labels0, rings0 := walls.list, sets.setNumber[..], sets.rings;
      while walls.head != NIL
        invariant Valid() && o == Done
        invariant forall x :: x in walls.list ==> x in old(walls.list)
        decreases |sets.rings.Keys|
      {
        list0, labels0, rings0 := walls.list, sets.setNumber[..], sets.rings;
        o := MergeFirstCandidate();
        if o != Done {
          return;
        }
      }
    }

    /** Lines 208-225: the first `width * height` entries of `scramble`, in
        order, are pushed onto the front of the candidate list, except, without
        wrap, the walls on the top and left border. The other half of the
        scrambled walls is never enqueued. */
    method EnqueueCandidates(scramble: array<nat>)
      requires Shape() && ListOk() && BitsOk() && walls.list == [] && enqueued == []
      requires Scramble.IsPermutation(scramble[..], 2 * (width * height))
      modifies this, walls, walls.prev, walls.next
      ensures ListOk() && BitsOk()
      ensures walls.list == enqueued == Candidates(width, wrap, scramble[..width * height])
    {
      var i := 0;
      while i < width * height
        invariant 0 <= i <= width * height
        invariant ListOk() && BitsOk()
        invariant walls.list == enqueued == Candidates(width, wrap, scramble[..i])
      {
        var e := scramble[i];
        var h := e % 2;
        var x := (e / 2) % width;
        var y := e / (width * 2);
        CandidatesStep(width, wrap, scramble[..], i);
        assert scramble[..][..i + 1] == scramble[..i + 1] && scramble[..][..i] == scramble[..i];
        assert Eligible(width, wrap, e) == (wrap || !((h == 1 && y == 0) || (h == 0 && x == 0)));
        if wrap || !((h == 1 && y == 0) || (h == 0 && x == 0)) {
          CandidatesMembers(width, wrap, scramble[..i]);
          walls.PushFront(e);
          enqueued := [e] + enqueued;
        }
        i := i + 1;
      }
    }

    /** Lines 190-231: scramble the walls with the results of `rand()`
        given as `draws`, enqueue the first half of the scrambled walls, and
        give every cell a set of its own. */
    method Prepare(draws: seq<nat>)
      requires Shape() && ListOk() && BitsOk() && walls.list == [] && enqueued == []
      requires sets.setNumber != sets.nextInSet && |draws| >= 4 * (width * height)
      modifies this, walls, walls.prev, walls.next, sets, sets.setNumber, sets.nextInSet
      ensures Valid() && walls.list == enqueued && sets.rings == Singletons(width * height)
      ensures enqueued == Candidates(width, wrap, Scramble.Shuffle(Scramble.Identity(2 * (width * height)), draws, 2 * (width * height))[..width * height])
      ensures |enqueued| <= width * height
      ensures !wrap ==> forall e :: 0 <= e < 2 * (width * height) && !Eligible(width, false, e) ==> e !in enqueued
    {
      var scramble := Scramble.ScrambleWalls(2 * (width * height), draws);
      Scramble.ShufflePermutes(2 * (width * height), draws, 2 * (width * height));
      EnqueueCandidates(scramble);
      sets.Init();
      CandidatesMembers(width, wrap, scramble[..width * height]);
    }
  }

  /** The candidate list that renumbering the set of cell `dring` to `keep`
      leaves when the walk starts from candidate list `list`, cell labels
      `labels` and rings `rings`; `None` when a scan along the way names a
      wall that is no longer on the list. */
  ghost function WalkFrom(w: nat, h: nat, wrap: bool, list: seq<int>, labels: seq<int>,
                          rings: map<int, seq<int>>, dring: nat, keep: int): Option<seq<int>>
    requires 0 < w && 0 < h && |labels| == w * h && dring < w * h
  {
    var rr := RingFrom(rings, labels[dring], dring);
    DropSeq(Some(list), RenumberScans(w, h, wrap, labels, rr, keep, |rr|))
  }

  /** Fault `o` is what a round of the main loop reports when it starts from
      candidate list `list0`, cell labels `labels0` and rings `rings0`: the
      head `e` of the list and the cell paired with `e`'s cell carry the
      same label (the `dsk_assert` of line 256 fails, reported as
      `SameSetFault(e)`), or they carry different labels and the walk that
      renumbers the higher-numbered set names a wall no longer on the list,
      which `remove_tmp_wall` cannot unlink (reported as `UnlinkedFault`). */
  ghost predicate FaultFrom(w: nat, h: nat, wrap: bool, o: Outcome, list0: seq<int>, labels0: seq<int>,
                            rings0: map<int, seq<int>>)
    requires 0 < w && 0 < h
  {
    && o != Done
    && list0 != [] && 0 <= list0[0] < 2 * (w * h) && |labels0| == w * h
    && var e := list0[0];
       var a, b := labels0[e / 2], labels0[PairedCell(w, h, e)];
       var dc := if b < a then e / 2 else PairedCell(w, h, e);
       && (o.SameSetFault? ==> o.wall == e && a == b)
       && (o.UnlinkedFault? ==> a != b && WalkFrom(w, h, wrap, list0, labels0, rings0, dc, if b < a then b else a).None?)
  }

  /** The state a faulting round leaves, from candidate list `list0`,
      labels `labels0` and rings `rings0` that partitioned the cells: the
      rings and the `next_in_set` links are as they were and the list has
      nothing new; after `SameSetFault` nothing has changed, and after
      `UnlinkedFault(c)` the head wall's cells were in different sets and the
      walk has renumbered the members of the higher set's ring up to and
      including `c`. */
  ghost predicate FaultLeaves(w: nat, h: nat, o: Outcome, list0: seq<int>, labels0: seq<int>,
                              rings0: map<int, seq<int>>, list: seq<int>, labels: seq<int>,
                              succ: seq<int>, rings: map<int, seq<int>>)
    requires 0 < w && 0 < h
  {
    && list0 != [] && 0 <= list0[0] < 2 * (w * h) && |labels0| == w * h
    && rings == rings0 && Partition(labels0, succ, rings0)
    && (forall x :: x in list ==> x in list0)
    && (o.SameSetFault? ==> list == list0 && labels == labels0)
    && (o.UnlinkedFault? ==>
         var e := list0[0];
         var a, b := labels0[e / 2], labels0[PairedCell(w, h, e)];
         var dc := if b < a then e / 2 else PairedCell(w, h, e);
         var rr := RingFrom(rings0, labels0[dc], dc);
         a != b &&
         exists j :: 0 <= j < |rr| && rr[j] == o.cell && labels == PartRelabel(labels0, rr[..j + 1], if b < a then b else a))
  }

  /** A round that reports `UnlinkedFault` has already renumbered the first
      cell of the higher set's ring, so its labels differ from those it
      started from: the fault is never reported on a state the round left
      untouched. */
  lemma UnlinkedFaultRelabels(w: nat, h: nat, wrap: bool, o: Outcome, list0: seq<int>, labels0: seq<int>,
                              rings0: map<int, seq<int>>, list: seq<int>, labels: seq<int>,
                              succ: seq<int>, rings: map<int, seq<int>>)
    requires 0 < w && 0 < h && o.UnlinkedFault?
    requires FaultLeaves(w, h, o, list0, labels0, rings0, list, labels, succ, rings)
    ensures labels != labels0
  {
    var e := list0[0];
    var a, b := labels0[e / 2], labels0[PairedCell(w, h, e)];
    var dc := if b < a then e / 2 else PairedCell(w, h, e);
    assert a != b;
    RingFromMember(labels0, succ, rings0, dc);
    var rr := RingFrom(rings0, labels0[dc], dc);
    var j :| 0 <= j < |rr| && rr[j] == o.cell && labels == PartRelabel(labels0, rr[..j + 1], if b < a then b else a);
    PartRelabelFirst(labels0, rr, j, if b < a then b else a);
  }

  /** The first member of a walk is renumbered however far the walk got. */
  lemma PartRelabelFirst(labels: seq<int>, rr: seq<int>, j: nat, keep: int)
    requires j < |rr| && 0 <= rr[0] < |labels|
    ensures PartRelabel(labels, rr[..j + 1], keep)[rr[0]] == keep
  {
    assert rr[0] == rr[..j + 1][0];
  }

  /** The walls the renumbering walk names, in order: for each of the first
      `n` cells of the ring `cells`, its four scans, run once that cell and
      the cells before it carry `keep`. */
  ghost function RenumberScans(w: nat, h: nat, wrap: bool, labels: seq<int>, cells: seq<int>,
                               keep: int, n: nat): seq<int>
    requires 0 < w && 0 < h && |labels| == w * h && n <= |cells|
    decreases n
  {
    if n == 0 then [] else RenumberScans(w, h, wrap, labels, cells, keep, n - 1) + CellScans(w, h, wrap, labels, cells, keep, n - 1)
  }

  /** The scans of the `n`-th cell of the walk, run once it and the cells
      before it carry `keep`. */
  ghost function CellScans(w: nat, h: nat, wrap: bool, labels: seq<int>, cells: seq<int>, keep: int, n: nat): seq<int>
    requires 0 < w && 0 < h && |labels| == w * h && n < |cells|
  {
    var c := cells[n];
    if 0 <= c < w * h then ScanWalls(w, h, wrap, PartRelabel(labels, cells[..n + 1], keep), c, keep) else []
  }

  /** One more cell of the walk: its scans, run on the labels in which it
      and the cells before it carry `keep`, continue from the list the walk
      has reached. */
  lemma WalkStep(w: nat, h: nat, wrap: bool, labels: seq<int>, cells: seq<int>, keep: int,
                 l: seq<int>, j: nat, lj: seq<int>)
    requires 0 < w && 0 < h && |labels| == w * h && j < |cells| && 0 <= cells[j] < w * h
    requires DropSeq(Some(l), RenumberScans(w, h, wrap, labels, cells, keep, j)) == Some(lj)
    ensures DropSeq(Some(l), RenumberScans(w, h, wrap, labels, cells, keep, j + 1)) ==
            DropSeq(Some(lj), ScanWalls(w, h, wrap, PartRelabel(labels, cells[..j + 1], keep), cells[j], keep))
  {
    DropSeqAppend(Some(l), RenumberScans(w, h, wrap, labels, cells, keep, j), CellScans(w, h, wrap, labels, cells, keep, j));
  }

  /** A walk that went round the whole ring leaves the list it reached. */
  lemma WalkCompletes(w: nat, h: nat, wrap: bool, labels: seq<int>, cells: seq<int>, keep: int,
                      l: seq<int>, j: nat, rest: seq<int>)
    requires 0 < w && 0 < h && |labels| == w * h && j + 1 == |cells|
    requires DropSeq(Some(l), RenumberScans(w, h, wrap, labels, cells, keep, j + 1)) == Some(rest)
    ensures DropSeq(Some(l), RenumberScans(w, h, wrap, labels, cells, keep, |cells|)) == Some(rest)
    ensures cells[..j + 1] == cells
  {
    assert cells[..j + 1] == cells[..|cells|];
  }

  /** A walk whose scans at cell `cells[j]` stopped at a wall that is not on
      the list fails as a whole. */
  lemma WalkFails(w: nat, h: nat, wrap: bool, labels: seq<int>, cells: seq<int>, keep: int,
                  l: seq<int>, j: nat, labels': seq<int>, k: nat, rest: seq<int>)
    requires 0 < w && 0 < h && |labels| == w * h && j < |cells| && 0 <= cells[j] < w * h
    requires labels' == PartRelabel(labels, cells[..j + 1], keep)
    requires var lj := DropSeq(Some(l), RenumberScans(w, h, wrap, labels, cells, keep, j));
      lj.Some? && StoppedAt(lj.value, ScanWalls(w, h, wrap, labels', cells[j], keep), k, rest)
    ensures DropSeq(Some(l), RenumberScans(w, h, wrap, labels, cells, keep, |cells|)) == None
  {
    var lj := DropSeq(Some(l), RenumberScans(w, h, wrap, labels, cells, keep, j)).value;
    var ws := ScanWalls(w, h, wrap, labels', cells[j], keep);
    StoppedAtFails(lj, ws, k, rest);
    WalkStep(w, h, wrap, labels, cells, keep, l, j, lj);
    WalkStaysFailed(w, h, wrap, labels, cells, keep, l, j + 1, |cells|);
  }

  /** Once the walk has met a wall that is not on the list, it has failed
      for good. */
  lemma {:induction false} WalkStaysFailed(w: nat, h: nat, wrap: bool, labels: seq<int>, cells: seq<int>,
                                           keep: int, l: seq<int>, j: nat, n: nat)
    requires 0 < w && 0 < h && |labels| == w * h && j <= n <= |cells|
    requires DropSeq(Some(l), RenumberScans(w, h, wrap, labels, cells, keep, j)) == None
    ensures DropSeq(Some(l), RenumberScans(w, h, wrap, labels, cells, keep, n)) == None
    decreases n
  {
    if j < n {
      WalkStaysFailed(w, h, wrap, labels, cells, keep, l, j, n - 1);
      var more := CellScans(w, h, wrap, labels, cells, keep, n - 1);
      DropSeqAppend(Some(l), RenumberScans(w, h, wrap, labels, cells, keep, n - 1), more);
      DropSeqNone(more);
    }
  }

  /** The outer half of a permutation of the walls never reaches the
      candidate list built from its inner half. */
  lemma UnscrambledHalfStands(w: nat, h: nat, wrap: bool, s: seq<nat>)
    requires 0 < w && 0 < h && Scramble.IsPermutation(s, 2 * (w * h))
    ensures forall i :: w * h <= i < 2 * (w * h) ==> s[i] !in Candidates(w, wrap, s[..w * h])
  {
    CandidatesMembers(w, wrap, s[..w * h]);
  }

  /** `create_game`'s maze generation (lines 186-314) on a `w` by `h`
      universe, with the results of `rand()` given as `draws`: both bitmaps
      start all ones, the walls are scrambled, the first half of them
      enqueued, the sets initialised, and the main loop run. Only enqueued
      walls are ever knocked down, and at most `w * h` of the `2 * w * h`
      walls are enqueued; without wrap no border wall is ever knocked down. */
  method GenerateMaze(w: nat, h: nat, wrap: bool, draws: seq<nat>)
    returns (g: Generator, o: Outcome, ghost list0: seq<int>, ghost labels0: seq<int>, ghost rings0: map<int, seq<int>>)
    requires 0 < w && 0 < h && |draws| >= 4 * (w * h)
    ensures fresh(g) && g.width == w && g.height == h && g.wrap == wrap
    ensures g.Shape() && g.ListOk() && g.BitsOk()
    ensures g.enqueued == Candidates(w, wrap, Scramble.Shuffle(Scramble.Identity(2 * (w * h)), draws, 2 * (w * h))[..w * h])
    ensures |g.enqueued| <= w * h
    ensures forall e :: 0 <= e < 2 * (w * h) && e !in g.enqueued ==> g.WallBit(e) == 1
    ensures !wrap ==> forall e :: 0 <= e < 2 * (w * h) && !Eligible(w, false, e) ==> g.WallBit(e) == 1
    ensures o == Done ==> g.walls.list == [] && forall e :: 0 <= e < 2 * (w * h) ==> (g.WallBit(e) == 0 <==> e in g.enqueued)
    ensures o != Done ==>
      && FaultFrom(w, h, wrap, o, list0, labels0, rings0)
      && FaultLeaves(w, h, o, list0, labels0, rings0, g.walls.list, g.sets.setNumber[..], g.sets.nextInSet[..], g.sets.rings)
  {
    g := new Generator(w, h, wrap);
    g.Prepare(draws);
    o, list0, labels0, rings0 := g.MergeAll();
  }
}
