/** Geometry of the maze built by `create_game` (server/server.c:176-319).

    A universe is `w` cells wide and `h` cells high; cell `c` sits at column
    `c % w`, row `c / w`. Every cell owns two walls, numbered `2c` (its
    vertical wall, an entry of `v_walls`) and `2c + 1` (its horizontal wall,
    an entry of `h_walls`), so wall indices run over 0..2*w*h-1. This module
    gives the index arithmetic of the generator and the decisions it takes
    about single walls, as functions. */
module MazeWalls {
  import opened Util

  /** Cell `c` has column `c % w < w`, row `c / w < h`, and `c == column + row * w`. */
  lemma CellCoords(w: nat, h: nat, c: nat)
    requires 0 < w && c < w * h
    ensures c % w < w && c / w < h && c == c % w + (c / w) * w
  {
    DivMod(c, w);
    if c / w >= h {
      MulMono(h, c / w, w);
    }
  }

  /** The cell at column `x`, row `y` has index `x + y * w`, inside the universe. */
  lemma CellAt(w: nat, h: nat, x: nat, y: nat)
    requires x < w && y < h
    ensures x + y * w < w * h
    ensures (x + y * w) % w == x && (x + y * w) / w == y
  {
    MulMono(y, h - 1, w);
    assert (h - 1) * w == h * w - w;
    DivUnique(x + y * w, w, y, x);
  }

  /** Wall `e` is horizontal (an `h_walls` entry) when it is odd. */
  predicate IsHorizontal(e: nat)
  {
    e % 2 == 1
  }

  /** Column of wall `e`'s cell, as `create_game` computes it. */
  function WallColumn(w: nat, e: nat): (r: nat)
    requires w > 0
    ensures r < w
  {
    DivMod(e / 2, w);
    (e / 2) % w
  }

  /** Row of wall `e`'s cell, as `create_game` computes it (`e / (w * 2)`):
      the row of cell `e / 2` in a grid `w` cells wide. */
  function WallRow(w: nat, e: nat): (r: nat)
    requires w > 0
    ensures r == (e / 2) / w
  {
    var c := e / 2;
    DivMod(c, w);
    assert (c / w) * (w * 2) == 2 * ((c / w) * w);
    DivUnique(e, w * 2, c / w, 2 * (c % w) + e % 2);
    e / (w * 2)
  }

  /** The column/row that `create_game` computes for wall `e` are those of cell `e / 2`. */
  lemma WallCoords(w: nat, h: nat, e: nat)
    requires 0 < w && 0 < h && e < 2 * (w * h)
    ensures WallColumn(w, e) < w && WallRow(w, e) < h
    ensures e / 2 == WallColumn(w, e) + WallRow(w, e) * w
  {
    var c := e / 2;
    CellCoords(w, h, c);
    var q := c / w;
    assert q * (w * 2) == 2 * (q * w);
    DivUnique(e, w * 2, q, 2 * (c % w) + e % 2);
  }

  /** The left neighbour of cell `c`, wrapping from column 0 to column w-1. */
  function LeftOf(w: nat, h: nat, c: nat): (r: nat)
    requires 0 < w && c < w * h
    ensures r < w * h && r / w == c / w && r % w == (if c % w == 0 then w - 1 else c % w - 1)
  {
    CellCoords(w, h, c);
    var x, y := c % w, c / w;
    var r := if x == 0 then c + w - 1 else c - 1;
    CellAt(w, h, if x == 0 then w - 1 else x - 1, y);
    r
  }

  /** The right neighbour of cell `c`, wrapping from column w-1 to column 0. */
  function RightOf(w: nat, h: nat, c: nat): (r: nat)
    requires 0 < w && c < w * h
    ensures r < w * h && r / w == c / w && r % w == (if c % w == w - 1 then 0 else c % w + 1)
  {
    CellCoords(w, h, c);
    var x, y := c % w, c / w;
    var r := if x == w - 1 then c - w + 1 else c + 1;
    CellAt(w, h, if x == w - 1 then 0 else x + 1, y);
    r
  }

  /** A cell in row 0 plus `h - 1` rows lands in row `h - 1`, same column. */
  lemma DownToLastRow(w: nat, h: nat, c: nat)
    requires 0 < w && 0 < h && c < w
    ensures c + (h - 1) * w < w * h
    ensures (c + (h - 1) * w) % w == c % w && (c + (h - 1) * w) / w == h - 1
  {
    CellAt(w, h, c, h - 1);
    DivUnique(c, w, 0, c);
  }

  /** A cell below row 0 minus one row lands in the row above, same column. */
  lemma UpOneRow(w: nat, h: nat, c: nat)
    requires 0 < w && w <= c < w * h
    ensures (c - w) % w == c % w && (c - w) / w == c / w - 1
  {
    CellCoords(w, h, c);
    var x, y := c % w, c / w;
    assert y > 0;
    assert c - w == x + (y - 1) * w;
    DivUnique(c - w, w, y - 1, x);
  }

  /** The neighbour above cell `c`, wrapping from row 0 to row h-1. */
  function Above(w: nat, h: nat, c: nat): (r: nat)
    requires 0 < w && 0 < h && c < w * h
    ensures r < w * h && r % w == c % w && r / w == (if c / w == 0 then h - 1 else c / w - 1)
  {
    if c / w == 0 then
      DivMod(c, w);
      DownToLastRow(w, h, c);
      c + (h - 1) * w
    else
      DivMod(c, w);
      MulMono(1, c / w, w);
      UpOneRow(w, h, c);
      c - w
  }

  /** The enqueue filter of create_game (lines 215-219): without wrap, a
      horizontal wall in row 0 and a vertical wall in column 0 lie on the
      border and are never candidates. */
  predicate Eligible(w: nat, wrap: bool, e: nat)
    requires w > 0
    ensures !wrap && IsHorizontal(e) ==> (Eligible(w, wrap, e) <==> e >= 2 * w)
    ensures !wrap && !IsHorizontal(e) ==> (Eligible(w, wrap, e) <==> (e / 2) % w != 0)
    ensures wrap ==> Eligible(w, wrap, e)
  {
    wrap || !((IsHorizontal(e) && WallRow(w, e) == 0) || (!IsHorizontal(e) && WallColumn(w, e) == 0))
  }

  /** The candidate list after pushing the walls of `s`, in order, onto the
      front of an empty list, skipping those the filter rejects
      (server/server.c:208-225). */
  function Candidates(w: nat, wrap: bool, s: seq<nat>): (r: seq<nat>)
    requires w > 0
    ensures |r| <= |s|
  {
    if s == [] then []
    else
      var e := s[|s| - 1];
      var rest := Candidates(w, wrap, s[..|s| - 1]);
      if Eligible(w, wrap, e) then [e] + rest else rest
  }

  /** One more round of the enqueue loop: the wall `s[i]` goes to the front
      when it passes the filter. */
  lemma CandidatesStep(w: nat, wrap: bool, s: seq<nat>, i: nat)
    requires w > 0 && i < |s|
    ensures Candidates(w, wrap, s[..i + 1]) ==
      if Eligible(w, wrap, s[i]) then [s[i]] + Candidates(w, wrap, s[..i]) else Candidates(w, wrap, s[..i])
  {
    assert s[..i + 1][..i] == s[..i];
  }

  /** A wall is a candidate exactly when it occurs in `s` and passes the filter. */
  lemma {:induction false} CandidatesMembers(w: nat, wrap: bool, s: seq<nat>)
    requires w > 0
    ensures forall e :: e in Candidates(w, wrap, s) <==> e in s && Eligible(w, wrap, e)
  {
    if s != [] {
      CandidatesMembers(w, wrap, s[..|s| - 1]);
      assert s == s[..|s| - 1] + [s[|s| - 1]];
    }
  }

  /** Without wrap, no border wall is ever a candidate. */
  lemma NoBorderCandidates(w: nat, s: seq<nat>)
    requires w > 0
    ensures forall e :: e in Candidates(w, false, s) ==>
              !(IsHorizontal(e) && WallRow(w, e) == 0) && !(!IsHorizontal(e) && WallColumn(w, e) == 0)
  {
    CandidatesMembers(w, false, s);
  }

  /** The cell that the main loop pairs with wall `e`'s own cell `e / 2`
      (`osi`, server/server.c:240-255): for an odd (horizontal) wall the left
      neighbour, for an even (vertical) wall the neighbour above. */
  function PairedCell(w: nat, h: nat, e: nat): (r: nat)
    requires 0 < w && 0 < h && e < 2 * (w * h)
    ensures r < w * h
    ensures IsHorizontal(e) ==> r == LeftOf(w, h, e / 2)
    ensures !IsHorizontal(e) ==> r == Above(w, h, e / 2)
  {
    WallCoords(w, h, e);
    var c := e / 2;
    var x, y := WallColumn(w, e), WallRow(w, e);
    DivUnique(c, w, y, x);
    var r := if e % 2 == 1 then (if x == 0 then c + w - 1 else c - 1)
             else (if y == 0 then c + (h - 1) * w else c - w);
    assert e % 2 == 1 ==> r == LeftOf(w, h, c);
    assert e % 2 != 1 ==> r == Above(w, h, c);
    r
  }

  /** "Maybe remove left wall" (lines 270-277): the vertical wall of `c`
      when the cell to its left (wrapping only with `wrap`) is in `c`'s set;
      -1 for none. `keep` is the set number of the surviving ring. */
  function LeftWallIdx(w: nat, h: nat, wrap: bool, labels: seq<int>, c: nat, keep: int): (r: int)
    requires 0 < w && 0 < h && |labels| == w * h && c < w * h
    ensures r == -1 || r == 2 * c
    ensures -1 <= r < 2 * (w * h)
  {
    CellCoords(w, h, c);
    var x, y := c % w, c / w;
    if x > 0 && labels[c - 1] == labels[c] then 2 * (x + y * w)
    else if x == 0 && wrap && (CellAt(w, h, w - 1, y); labels[c + w - 1] == keep) then 2 * (x + y * w)
    else -1
  }

  /** "Maybe remove right wall" (lines 279-286). */
  function RightWallIdx(w: nat, h: nat, wrap: bool, labels: seq<int>, c: nat, keep: int): (r: int)
    requires 0 < w && 0 < h && |labels| == w * h && c < w * h
    ensures r == -1 || r == 2 * RightOf(w, h, c)
    ensures -1 <= r < 2 * (w * h)
  {
    CellCoords(w, h, c);
    var x, y := c % w, c / w;
    if x < w - 1 && (CellAt(w, h, x + 1, y); labels[c + 1] == labels[c]) then 2 * ((x + 1) + y * w)
    else if x == w - 1 && wrap && labels[c - w + 1] == keep then 2 * (0 + y * w)
    else -1
  }

  /** "Maybe remove top wall" (lines 288-295). */
  function TopWallIdx(w: nat, h: nat, wrap: bool, labels: seq<int>, c: nat, keep: int): (r: int)
    requires 0 < w && 0 < h && |labels| == w * h && c < w * h
    ensures r == -1 || r == 2 * c + 1
    ensures -1 <= r < 2 * (w * h)
  {
    CellCoords(w, h, c);
    var x, y := c % w, c / w;
    if y > 0 && (MulMono(1, y, w); labels[c - w] == labels[c]) then 2 * (x + y * w) + 1
    else if y == 0 && wrap && (CellAt(w, h, x, h - 1); assert c == x && w * (h - 1) == (h - 1) * w; labels[c + w * (h - 1)] == keep) then 2 * (x + y * w) + 1
    else -1
  }

  /** "Maybe remove bottom wall" (lines 297-304), as written: its test is the
      right-neighbour test again, and the wall it names is the horizontal wall
      of the right neighbour. */
  function BottomWallIdx(w: nat, h: nat, wrap: bool, labels: seq<int>, c: nat, keep: int): (r: int)
    requires 0 < w && 0 < h && |labels| == w * h && c < w * h
    ensures r == -1 || r == 2 * RightOf(w, h, c) + 1
    ensures -1 <= r < 2 * (w * h)
  {
    CellCoords(w, h, c);
    var x, y := c % w, c / w;
    if x < w - 1 && (CellAt(w, h, x + 1, y); labels[c + 1] == labels[c]) then 2 * ((x + 1) + y * w) + 1
    else if x == w - 1 && wrap && labels[c - w + 1] == keep then 2 * (0 + y * w) + 1
    else -1
  }

  /** The left scan of a relabelled cell `c` (whose new set number is
      `keep`) names `c`'s own vertical wall, exactly when the cell to its
      left (across the border only with wrap) is in the same set. */
  lemma LeftScan(w: nat, h: nat, wrap: bool, labels: seq<int>, c: nat, keep: int)
    requires 0 < w && 0 < h && |labels| == w * h && c < w * h && labels[c] == keep
    ensures var l := LeftWallIdx(w, h, wrap, labels, c, keep);
      && (l >= 0 <==> (c % w > 0 || wrap) && labels[LeftOf(w, h, c)] == keep)
      && (l >= 0 ==> l == 2 * c)
  {
    CellCoords(w, h, c);
  }

  /** The right scan names the vertical wall of the right neighbour, exactly
      when that neighbour is in the same set. */
  lemma RightScan(w: nat, h: nat, wrap: bool, labels: seq<int>, c: nat, keep: int)
    requires 0 < w && 0 < h && |labels| == w * h && c < w * h && labels[c] == keep
    ensures var r := RightWallIdx(w, h, wrap, labels, c, keep);
      && (r >= 0 <==> (c % w < w - 1 || wrap) && labels[RightOf(w, h, c)] == keep)
      && (r >= 0 ==> r == 2 * RightOf(w, h, c))
  {
    CellCoords(w, h, c);
  }

  /** The top scan names `c`'s own horizontal wall, exactly when the cell
      above is in the same set. */
  lemma TopScan(w: nat, h: nat, wrap: bool, labels: seq<int>, c: nat, keep: int)
    requires 0 < w && 0 < h && |labels| == w * h && c < w * h && labels[c] == keep
    ensures var t := TopWallIdx(w, h, wrap, labels, c, keep);
      && (t >= 0 <==> (c / w > 0 || wrap) && labels[Above(w, h, c)] == keep)
      && (t >= 0 ==> t == 2 * c + 1)
  {
    CellCoords(w, h, c);
  }

  /** The "bottom" scan, as written, names the horizontal wall of the RIGHT
      neighbour, exactly when the right neighbour is in the same set; the
      cell below plays no part. */
  lemma BottomScan(w: nat, h: nat, wrap: bool, labels: seq<int>, c: nat, keep: int)
    requires 0 < w && 0 < h && |labels| == w * h && c < w * h && labels[c] == keep
    ensures var b := BottomWallIdx(w, h, wrap, labels, c, keep);
      && (b >= 0 <==> (c % w < w - 1 || wrap) && labels[RightOf(w, h, c)] == keep)
      && (b >= 0 ==> b == 2 * RightOf(w, h, c) + 1)
  {
    CellCoords(w, h, c);
  }

  /** The `wall_idx` values of the four scans of cell `c`, in the order the
      source computes them (-1 where a scan names no wall). */
  function ScanWalls(w: nat, h: nat, wrap: bool, labels: seq<int>, c: nat, keep: int): (r: seq<int>)
    requires 0 < w && 0 < h && |labels| == w * h && c < w * h
    ensures |r| == 4 && forall k :: 0 <= k < 4 ==> -1 <= r[k] < 2 * (w * h)
  {
    [LeftWallIdx(w, h, wrap, labels, c, keep), RightWallIdx(w, h, wrap, labels, c, keep),
     TopWallIdx(w, h, wrap, labels, c, keep), BottomWallIdx(w, h, wrap, labels, c, keep)]
  }

  /** The "bottom wall" scan never consults the cell below: whatever that
      cell's set, it decides exactly as the right-wall scan, one wall index
      further on. */
  lemma BottomMirrorsRight(w: nat, h: nat, wrap: bool, labels: seq<int>, c: nat, keep: int)
    requires 0 < w && 0 < h && |labels| == w * h && c < w * h
    ensures var r := RightWallIdx(w, h, wrap, labels, c, keep);
      BottomWallIdx(w, h, wrap, labels, c, keep) == if r < 0 then -1 else r + 1
  {
  }

  /** The main loop and the scans disagree on which neighbour a wall index
      separates: for cell `c` of a universe at least 2 by 2, the main loop
      pairs its odd wall `2c + 1` with the cell to the left, while the top scan
      removes that same wall on the strength of the cell above; and it pairs
      the even wall `2c` with the cell above, while the left scan removes it on
      the strength of the cell to the left. */
  lemma PairingDisagreesWithScan(w: nat, h: nat, c: nat)
    requires 1 < w && 1 < h && c < w * h
    ensures PairedCell(w, h, 2 * c + 1) == LeftOf(w, h, c) != Above(w, h, c)
    ensures PairedCell(w, h, 2 * c) == Above(w, h, c) != LeftOf(w, h, c)
  {
    CellCoords(w, h, c);
  }
}
