/** The wall scramble of `create_game` (server/server.c:200-206): the array
    `scramble` starts as 0..n-1 and then receives n swaps of two randomly
    drawn positions (`swap_ints`, server/server.c:169-174). */
module Scramble {
  import opened Random

  /** `s` lists each of 0..n-1 exactly once. */
  ghost predicate IsPermutation(s: seq<nat>, n: nat)
  {
    && |s| == n
    && (forall i :: 0 <= i < n ==> s[i] < n)
    && (forall i, j :: 0 <= i < j < n ==> s[i] != s[j])
  }

  /** `s` with the entries at `i` and `j` exchanged. */
  function Swapped(s: seq<nat>, i: nat, j: nat): (r: seq<nat>)
    requires i < |s| && j < |s|
    ensures |r| == |s| && r[i] == s[j] && r[j] == s[i]
    ensures forall k :: 0 <= k < |s| && k != i && k != j ==> r[k] == s[k]
  {
    s[i := s[j]][j := s[i]]
  }

  function Identity(n: nat): (r: seq<nat>)
    ensures |r| == n && forall i :: 0 <= i < n ==> r[i] == i
  {
    seq(n, i requires 0 <= i => i)
  }

  /** The contents of `scramble` after the first `k` rounds of the swap loop;
      round `r` swaps the positions drawn by `draws[2r]` and `draws[2r+1]`. */
  function Shuffle(s: seq<nat>, draws: seq<nat>, k: nat): (r: seq<nat>)
    requires |s| > 0 && 2 * k <= |draws|
    ensures |r| == |s|
  {
    if k == 0 then s
    else
      Swapped(Shuffle(s, draws, k - 1),
              RandomIntRange(|s|, draws[2 * (k - 1)]),
              RandomIntRange(|s|, draws[2 * (k - 1) + 1]))
  }

  /** A swap keeps a permutation a permutation. */
  lemma SwappedPermutes(s: seq<nat>, n: nat, i: nat, j: nat)
    requires IsPermutation(s, n) && i < n && j < n
    ensures IsPermutation(Swapped(s, i, j), n)
  {
    var r := Swapped(s, i, j);
    forall a, b | 0 <= a < b < n ensures r[a] != r[b] {
      var a' := if a == i then j else if a == j then i else a;
      var b' := if b == i then j else if b == j then i else b;
      assert r[a] == s[a'] && r[b] == s[b'] && a' != b';
    }
  }

  /** Every prefix of the swap loop leaves a permutation of 0..n-1. */
  lemma {:induction false} ShufflePermutes(n: nat, draws: seq<nat>, k: nat)
    requires n > 0 && 2 * k <= |draws|
    ensures IsPermutation(Shuffle(Identity(n), draws, k), n)
  {
    if k > 0 {
      ShufflePermutes(n, draws, k - 1);
      SwappedPermutes(Shuffle(Identity(n), draws, k - 1), n,
                      RandomIntRange(n, draws[2 * (k - 1)]),
                      RandomIntRange(n, draws[2 * (k - 1) + 1]));
    }
  }

  ghost function Image(s: seq<nat>, k: nat): set<nat>
    requires k <= |s|
  {
    set i | 0 <= i < k :: s[i]
  }

  ghost function Below(n: nat): (r: set<nat>)
    ensures forall v: nat :: v in r <==> v < n
  {
    if n == 0 then {} else Below(n - 1) + {n - 1}
  }

  lemma {:induction false} ImageSize(s: seq<nat>, n: nat, k: nat)
    requires IsPermutation(s, n) && k <= n
    ensures |Image(s, k)| == k
  {
    if k > 0 {
      ImageSize(s, n, k - 1);
      assert Image(s, k) == Image(s, k - 1) + {s[k - 1]};
      assert s[k - 1] !in Image(s, k - 1);
    }
  }

  lemma {:induction false} BelowSize(n: nat)
    ensures |Below(n)| == n
  {
    if n > 0 {
      BelowSize(n - 1);
      var smaller := Below(n - 1);
      assert n - 1 !in smaller;
      assert Below(n) == smaller + {n - 1};
    }
  }

  lemma {:induction false} SubsetSize(a: set<nat>, b: set<nat>)
    requires a <= b
    ensures |a| <= |b|
  {
    if a != {} {
      var x :| x in a;
      SubsetSize(a - {x}, b - {x});
    }
  }

  /** Pigeonhole: a permutation of 0..n-1 contains every value below n, so the
      scramble is an ordering of all 2*usize wall indices. */
  lemma PermutationCoversRange(s: seq<nat>, n: nat)
    requires IsPermutation(s, n)
    ensures forall v :: 0 <= v < n ==> v in s
  {
    ImageSize(s, n, n);
    BelowSize(n);
    forall v | 0 <= v < n ensures v in s {
      if v !in Image(s, n) {
        SubsetSize(Image(s, n), Below(n) - {v});
        assert false;
      }
    }
  }

  /** `swap_ints`: exchange two entries of `a` (the positions may coincide). */
  method SwapInts(a: array<nat>, i: nat, j: nat)
    requires i < a.Length && j < a.Length
    modifies a
    ensures a[..] == Swapped(old(a[..]), i, j)
  {
    var tmp := a[i];
    a[i] := a[j];
    a[j] := tmp;
  }

  /** Lines 202-206 of create_game: fill `scramble` with 0..n-1, then do n
      random swaps, consuming two draws per swap. */
  method ScrambleWalls(n: nat, draws: seq<nat>) returns (scramble: array<nat>)
    requires n > 0 && |draws| >= 2 * n
    ensures fresh(scramble)
    ensures scramble[..] == Shuffle(Identity(n), draws, n)
  {
    scramble := new nat[n];
    var i := 0;
    while i < n
      invariant 0 <= i <= n
      invariant forall k :: 0 <= k < i ==> scramble[k] == k
    {
      scramble[i] := i;
      i := i + 1;
    }
    assert scramble[..] == Identity(n) by {
      assert forall k :: 0 <= k < n ==> scramble[..][k] == Identity(n)[k];
    }
    i := 0;
    while i < n
      invariant 0 <= i <= n
      invariant scramble[..] == Shuffle(Identity(n), draws, i)
    {
      var a := RandomIntRange(n, draws[2 * i]);
      var b := RandomIntRange(n, draws[2 * i + 1]);
      SwapInts(scramble, a, b);
      assert scramble[..] == Shuffle(Identity(n), draws, i + 1);
      i := i + 1;
    }
  }
}
