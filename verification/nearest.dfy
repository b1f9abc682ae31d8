/** Nearest-timestamp selection: the reduce() fold both readers run over the
    stored timestamps, the closed form it computes, and the reference choices
    (latest not after the query, earliest overall) it is compared with. */
module Nearest {
  import opened Errors

  /** The binary operator both readers hand to reduce(): of two timestamps it
      keeps the later one not after q, and 0 when neither qualifies. */
  function Tst(q: int, x: nat, y: nat): (r: nat)
    ensures (x <= q || y <= q) ==> (r == x || r == y) && r <= q
    ensures x <= q ==> x <= r
    ensures y <= q ==> y <= r
    ensures x > q && y > q ==> r == 0
  {
    if y <= q && x <= q then (if y >= x then y else x)
    else if y <= q then y
    else if x <= q then x
    else 0
  }

  /** The left fold reduce() runs: its result is 0, the start value or a later
      timestamp, and is at least every timestamp not after q it has seen. */
  function FoldTst(q: int, acc: nat, ys: seq<nat>): (r: nat)
    ensures r == 0 || r == acc || r in ys
    ensures acc <= q ==> acc <= r <= q
    ensures forall t :: t in ys && t <= q ==> t <= r <= q
    decreases |ys|
  {
    if ys == [] then acc
    else
      assert forall t :: t in ys ==> t == ys[0] || t in ys[1..];
      FoldTst(q, Tst(q, acc, ys[0]), ys[1..])
  }

  /** reduce(tst, xs): TypeError on an empty sequence, the sole element of a
      one-element sequence (tst is never called), otherwise the left fold. */
  function ReduceTst(q: int, xs: seq<nat>): (r: Result<nat>)
    ensures r.Err? <==> xs == []
    ensures r.Err? ==> r.error == TypeError
  {
    if xs == [] then Err(TypeError) else Ok(FoldTst(q, xs[0], xs[1..]))
  }

  /** The latest timestamp of xs not after q, if there is one. */
  function Latest(q: int, xs: seq<nat>): (r: Option<nat>)
    ensures r.Some? ==> r.value in xs && r.value <= q
    ensures r.Some? ==> forall t :: t in xs && t <= q ==> t <= r.value
    ensures r.None? <==> forall t :: t in xs ==> t > q
    decreases |xs|
  {
    if xs == [] then None
    else
      var rest := Latest(q, xs[1..]);
      assert forall t :: t in xs ==> t == xs[0] || t in xs[1..];
      if xs[0] <= q && (rest.None? || rest.value < xs[0]) then Some(xs[0]) else rest
  }

  /** The earliest timestamp of xs. */
  function Earliest(xs: seq<nat>): (r: nat)
    requires xs != []
    ensures r in xs
    ensures forall t :: t in xs ==> r <= t
    decreases |xs|
  {
    if |xs| == 1 then xs[0]
    else
      var rest := Earliest(xs[1..]);
      assert forall t :: t in xs ==> t == xs[0] || t in xs[1..];
      if xs[0] <= rest then xs[0] else rest
  }

  /** What the fold yields on two or more timestamps: the latest not after q, or 0. */
  function LatestOrZero(q: int, xs: seq<nat>): nat {
    match Latest(q, xs)
    case Some(t) => t
    case None => 0
  }

  /** The documented approximate choice: the latest timestamp not after q,
      or, when every timestamp is after q, the earliest one. */
  function LatestOrEarliest(q: int, xs: seq<nat>): (r: nat)
    requires xs != []
    ensures r in xs
    ensures (exists t :: t in xs && t <= q) ==>
              r <= q && forall t :: t in xs && t <= q ==> t <= r
    ensures (forall t :: t in xs ==> t > q) ==> forall t :: t in xs ==> r <= t
  {
    match Latest(q, xs)
    case Some(t) => t
    case None => Earliest(xs)
  }

  /** The maximum is determined by its defining properties. */
  lemma LatestIs(q: int, xs: seq<nat>, m: nat)
    requires m in xs && m <= q
    requires forall t :: t in xs && t <= q ==> t <= m
    ensures Latest(q, xs) == Some(m)
  {
  }

  /** After one step of the fold, the accumulator and the rest of the
      sequence still have the same latest-or-zero as before. */
  lemma {:induction false} FoldClosedForm(q: int, acc: nat, ys: seq<nat>)
    requires ys != []
    ensures FoldTst(q, acc, ys) == LatestOrZero(q, [acc] + ys)
    decreases |ys|
  {
    var xs := [acc] + ys;
    var a := Tst(q, acc, ys[0]);
    var zs := [a] + ys[1..];
    assert forall t :: t in xs <==> t == acc || t == ys[0] || t in ys[1..];
    assert forall t :: t in zs <==> t == a || t in ys[1..];
    if |ys| == 1 {
      assert FoldTst(q, acc, ys) == a;
      assert zs == [a];
      if acc <= q || ys[0] <= q {
        LatestIs(q, xs, a);
      }
    } else {
      FoldClosedForm(q, a, ys[1..]);
      assert FoldTst(q, acc, ys) == LatestOrZero(q, zs);
      match Latest(q, zs)
      case Some(m) =>
        if m == a && !(acc <= q || ys[0] <= q) {
          // m is the 0 Tst returns when neither acc nor ys[0] qualifies, so any
          // timestamp of xs not after q is a 0 from ys[1..]
          if Latest(q, xs).Some? {
            assert Latest(q, xs).value in ys[1..];
          }
        } else {
          LatestIs(q, xs, m);
        }
      case None =>
        assert Latest(q, xs).None?;
    }
  }

  /** The fold in closed form: TypeError when empty, the sole element of a
      one-element sequence whatever q is, and otherwise the latest timestamp
      not after q, or 0 if there is none. */
  lemma ReduceTstClosedForm(q: int, xs: seq<nat>)
    ensures xs == [] ==> ReduceTst(q, xs) == Err(TypeError)
    ensures |xs| == 1 ==> ReduceTst(q, xs) == Ok(xs[0])
    ensures |xs| >= 2 ==> ReduceTst(q, xs) == Ok(LatestOrZero(q, xs))
  {
    if |xs| >= 2 {
      FoldClosedForm(q, xs[0], xs[1..]);
      assert [xs[0]] + xs[1..] == xs;
    }
  }

  /** The python/ reader's choice, fold result or, when that is 0, the first
      element after sorting, is the documented latest-or-earliest choice. */
  lemma FoldThenSortedFirstIsLatestOrEarliest(q: int, xs: seq<nat>, first: nat)
    requires xs != []
    requires first in xs && forall t :: t in xs ==> first <= t
    ensures var f := ReduceTst(q, xs).value;
            (if f == 0 then first else f) == LatestOrEarliest(q, xs)
  {
    ReduceTstClosedForm(q, xs);
    assert first == Earliest(xs);
  }

  /** The src/ reader's choice: RuntimeError (fold result 0) when two or more
      timestamps are all after q; a lone timestamp is chosen even after q. */
  lemma SrcFoldChoice(q: int, xs: seq<nat>)
    requires xs != []
    ensures |xs| >= 2 && (forall t :: t in xs ==> t > q) ==> ReduceTst(q, xs) == Ok(0)
    ensures |xs| >= 2 && (exists t :: t in xs && 0 < t <= q) ==>
              ReduceTst(q, xs) == Ok(LatestOrEarliest(q, xs)) && LatestOrEarliest(q, xs) != 0
    ensures |xs| == 1 ==> ReduceTst(q, xs) == Ok(xs[0])
  {
    ReduceTstClosedForm(q, xs);
  }

  /** The timestamps the store's tests keep for model/houdini, the queries
      they make against them, and one query that predates both. */
  lemma HoudiniQueries()
    ensures LatestOrEarliest(1503265459, [1503265457, 1503266406]) == 1503265457
    ensures LatestOrEarliest(1503266705, [1503265457, 1503266406]) == 1503266406
    ensures LatestOrEarliest(1503265999, [1503265457, 1503266406]) == 1503265457
    ensures LatestOrEarliest(1103265459, [1503265457, 1503266406]) == 1503265457
    ensures ReduceTst(1503265459, [1503265457, 1503266406]) == Ok(1503265457)
    ensures ReduceTst(1503266705, [1503265457, 1503266406]) == Ok(1503266406)
    ensures ReduceTst(1503265999, [1503265457, 1503266406]) == Ok(1503265457)
    ensures ReduceTst(1103265459, [1503265457, 1503266406]) == Ok(0)
  {
    ReduceTstClosedForm(1503265459, [1503265457, 1503266406]);
    ReduceTstClosedForm(1503266705, [1503265457, 1503266406]);
    ReduceTstClosedForm(1503265999, [1503265457, 1503266406]);
    ReduceTstClosedForm(1103265459, [1503265457, 1503266406]);
  }

  /** The earliest timestamp depends only on which timestamps there are. */
  lemma SameElementsSameEarliest(xs: seq<nat>, ys: seq<nat>)
    requires xs != [] && ys != []
    requires forall v :: v in xs <==> v in ys
    ensures Earliest(xs) == Earliest(ys)
  {
    var a, b := Earliest(xs), Earliest(ys);
    assert a <= b && b <= a;
  }

  ghost predicate Sorted(s: seq<nat>) {
    forall i, j :: 0 <= i < j < |s| ==> s[i] <= s[j]
  }

  /** list.sort(): sorts a in place into ascending order. */
  method SortAscending(a: array<nat>)
    modifies a
    ensures Sorted(a[..])
    ensures multiset(a[..]) == old(multiset(a[..]))
  {
    var i := 0;
    while i < a.Length
      invariant 0 <= i <= a.Length
      invariant Sorted(a[..i])
      invariant multiset(a[..]) == old(multiset(a[..]))
    {
      Insert(a, i);
      i := i + 1;
    }
    assert a[..a.Length] == a[..];
  }

  /** One step of the sort: moves a[i] down into the sorted prefix a[..i]. */
  method Insert(a: array<nat>, i: nat)
    requires i < a.Length && Sorted(a[..i])
    modifies a
    ensures Sorted(a[..i + 1])
    ensures multiset(a[..]) == old(multiset(a[..]))
  {
    var j := i;
    InsertStart(a[..], i);
    while j > 0 && a[j - 1] > a[j]
      invariant 0 <= j <= i
      invariant Inserting(a[..], i, j)
      invariant multiset(a[..]) == old(multiset(a[..]))
    {
      ghost var before := a[..];
      SwapStep(before, i, j);
      a[j - 1], a[j] := a[j], a[j - 1];
      assert a[..] == Swap(before, j);
      j := j - 1;
    }
    InsertDone(a[..], i, j);
  }

  /** s with s[j - 1] and s[j] exchanged. */
  function Swap(s: seq<nat>, j: nat): (t: seq<nat>)
    requires 0 < j < |s|
    ensures multiset(t) == multiset(s)
  {
    s[j - 1 := s[j]][j := s[j - 1]]
  }

  /** Midway through inserting s[i]: the element being moved sits at j, and
      s[..i + 1] is sorted except for it, everything after it being larger. */
  ghost predicate Inserting(s: seq<nat>, i: nat, j: nat) {
    && j <= i < |s|
    && (forall k, l :: 0 <= k < l <= i && l != j ==> s[k] <= s[l])
    && (forall l :: j < l <= i ==> s[j] <= s[l])
  }

  lemma InsertStart(s: seq<nat>, i: nat)
    requires i < |s| && Sorted(s[..i])
    ensures Inserting(s, i, i)
  {
    assert forall k, l :: 0 <= k < l < i ==> s[..i][k] <= s[..i][l];
  }

  lemma SwapStep(s: seq<nat>, i: nat, j: nat)
    requires 0 < j && Inserting(s, i, j) && s[j - 1] > s[j]
    ensures Inserting(Swap(s, j), i, j - 1)
  {
  }

  lemma InsertDone(s: seq<nat>, i: nat, j: nat)
    requires Inserting(s, i, j) && (j == 0 || s[j - 1] <= s[j])
    ensures Sorted(s[..i + 1])
  {
  }

  /** The first element of a sorted array is the earliest timestamp it holds. */
  lemma SortedFirstIsEarliest(s: seq<nat>)
    requires s != [] && Sorted(s)
    ensures s[0] == Earliest(s)
  {
    assert forall t :: t in s ==> s[0] <= t;
  }
}
