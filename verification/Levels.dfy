/** Arithmetic of skip-list positions: which node follows which on a level, given only the
    node heights, and how that changes when a node is put in or taken out. */
module Levels {

  ghost function InsertAt<T>(s: seq<T>, k: nat, x: T): (t: seq<T>)
    requires k <= |s|
    ensures |t| == |s| + 1
    ensures forall j {:trigger t[j]} :: 0 <= j < |t| ==> t[j] == if j < k then s[j] else if j == k then x else s[j - 1]
  {
    seq(|s| + 1, j requires 0 <= j <= |s| => if j < k then s[j] else if j == k then x else s[j - 1])
  }

  ghost function DropAt<T>(s: seq<T>, k: nat): (t: seq<T>)
    requires k < |s|
    ensures |t| == |s| - 1
    ensures forall j {:trigger t[j]} :: 0 <= j < |t| ==> t[j] == if j < k then s[j] else s[j + 1]
  {
    seq(|s| - 1, j requires 0 <= j < |s| - 1 => if j < k then s[j] else s[j + 1])
  }

  /** The first position after `p` whose height exceeds `i`; `|h|` if there is none. */
  ghost function NextTall(h: seq<nat>, p: nat, i: nat): (r: nat)
    requires p < |h|
    ensures p < r <= |h|
    ensures r < |h| ==> i < h[r]
    ensures forall j :: p < j < r ==> h[j] <= i
    decreases |h| - p
  {
    if p + 1 == |h| || i < h[p + 1] then p + 1 else NextTall(h, p + 1, i)
  }

  lemma {:induction false} NextTallIs(h: seq<nat>, p: nat, i: nat, r: nat)
    requires p < r <= |h|
    requires r < |h| ==> i < h[r]
    requires forall j :: p < j < r ==> h[j] <= i
    ensures NextTall(h, p, i) == r
  {
  }

  /** `p` is the last position before `k` that is taller than `i`. */
  ghost predicate IsPrev(h: seq<nat>, k: nat, i: nat, p: nat) {
    p < k <= |h| && i < h[p] && k <= NextTall(h, p, i)
  }

  lemma {:induction false} PrevUnique(h: seq<nat>, k: nat, i: nat, p: nat, p0: nat)
    requires IsPrev(h, k, i, p0)
    requires p < k && p != p0 && i < h[p]
    ensures NextTall(h, p, i) < k
  {
  }

  lemma {:induction false} NextAfterInsert(h: seq<nat>, k: nat, x: nat, i: nat, p: nat)
    requires 1 <= k <= |h| && p < |h|
    ensures var q := NextTall(h, p, i);
            NextTall(InsertAt(h, k, x), if p < k then p else p + 1, i)
            == if p < k <= q && i < x then k else if q < k then q else q + 1
  {
    var q := NextTall(h, p, i);
    NextTallIs(InsertAt(h, k, x), if p < k then p else p + 1, i,
               if p < k <= q && i < x then k else if q < k then q else q + 1);
  }

  lemma {:induction false} NextOfInserted(h: seq<nat>, k: nat, x: nat, i: nat, p: nat)
    requires IsPrev(h, k, i, p)
    ensures NextTall(InsertAt(h, k, x), k, i) == NextTall(h, p, i) + 1
  {
    NextTallIs(InsertAt(h, k, x), k, i, NextTall(h, p, i) + 1);
  }

  lemma {:induction false} NextAfterDrop(h: seq<nat>, k: nat, i: nat, p: nat)
    requires 1 <= k < |h| && p < |h| && p != k
    ensures var q := NextTall(h, p, i);
            NextTall(DropAt(h, k), if p < k then p else p - 1, i)
            == if q == k then NextTall(h, k, i) - 1 else if q < k then q else q - 1
  {
    var q := NextTall(h, p, i);
    NextTallIs(DropAt(h, k), if p < k then p else p - 1, i,
               if q == k then NextTall(h, k, i) - 1 else if q < k then q else q - 1);
  }
}
