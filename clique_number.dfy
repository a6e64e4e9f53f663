/**
 * clique_number.py: a backtracking search for a matrix of k - 1 rows of k - 1 tuples of
 * length k - 1 over 1..k-1 in which every tuple agrees in exactly one coordinate with every
 * tuple of every earlier row. The recursive generators are functions returning, in order, the
 * sequence of what they yield; `adj_to_all` and `forbidden` are loops, proved against the
 * predicate and the set they compute.
 */
module CliqueNumber {

  import opened Wrappers
  import opened Colecoes
  import opened GrafoTimbral

  type Tuple = seq<nat>
  type Row = seq<Tuple>
  type Matrix = seq<Row>
  type Index = (nat, nat)

  // ---------------------------------------------------------------------------
  // adj_to_all (clique_number.py:2-8)
  // ---------------------------------------------------------------------------

  /** `sum(u[i] == v[i] for i in range(len(u)))`: agreements over the first |u| positions. */
  function Coincidence(u: Tuple, v: Tuple): nat
    requires |v| >= |u|
  {
    Concordancias(u, v[..|u|])
  }

  /** Every tuple of S agrees with u in exactly l of the first |u| positions. */
  predicate AdjacentToAll(u: Tuple, S: seq<Tuple>, l: nat)
    requires forall i :: 0 <= i < |S| ==> |S[i]| >= |u|
  {
    forall i :: 0 <= i < |S| ==> Coincidence(u, S[i]) == l
  }

  /** `adj_to_all(u, vtx_set, l)`: False at the first tuple whose coincidence is not l. */
  method AdjToAll(u: Tuple, vtxSet: seq<Tuple>, l: nat) returns (b: bool)
    requires forall i :: 0 <= i < |vtxSet| ==> |vtxSet[i]| >= |u|
    ensures b <==> AdjacentToAll(u, vtxSet, l)
  {
    for j := 0 to |vtxSet|
      invariant forall i :: 0 <= i < j ==> Coincidence(u, vtxSet[i]) == l
    {
      var coincidence := Coincidence(u, vtxSet[j]);
      if coincidence != l {
        return false;
      }
    }
    return true;
  }

  /** Any tuple is adjacent to all of an empty set. */
  lemma AdjacentToAllEmpty(u: Tuple, l: nat)
    ensures AdjacentToAll(u, [], l)
  {
  }

  /** Being adjacent to all of a concatenation is being adjacent to all of each part. */
  lemma AdjacentToAllConcat(u: Tuple, A: seq<Tuple>, B: seq<Tuple>, l: nat)
    requires forall i :: 0 <= i < |A| ==> |A[i]| >= |u|
    requires forall i :: 0 <= i < |B| ==> |B[i]| >= |u|
    ensures AdjacentToAll(u, A + B, l) <==> AdjacentToAll(u, A, l) && AdjacentToAll(u, B, l)
  {
    if AdjacentToAll(u, A + B, l) {
      forall i | 0 <= i < |A|
        ensures Coincidence(u, A[i]) == l
      {
        assert (A + B)[i] == A[i];
      }
      forall i | 0 <= i < |B|
        ensures Coincidence(u, B[i]) == l
      {
        assert (A + B)[|A| + i] == B[i];
      }
    }
    if AdjacentToAll(u, A, l) && AdjacentToAll(u, B, l) {
      forall i | 0 <= i < |A + B|
        ensures Coincidence(u, (A + B)[i]) == l
      {
        if i < |A| {
          assert (A + B)[i] == A[i];
        } else {
          assert (A + B)[i] == B[i - |A|];
        }
      }
    }
  }

  /** For tuples of one length k, being adjacent to all of S is being adjacent in the timbral
      graph with parameter l to each of them. */
  lemma AdjacentToAllTimbral(k: nat, l: nat, u: Tuple, S: seq<Tuple>)
    requires |u| == k && forall i :: 0 <= i < |S| ==> |S[i]| == k
    ensures AdjacentToAll(u, S, l) <==> forall i :: 0 <= i < |S| ==> Adjacentes(k, l, u, S[i])
  {
    forall i | 0 <= i < |S|
      ensures S[i][..|u|] == S[i]
    {
    }
  }

  // ---------------------------------------------------------------------------
  // Matrices
  // ---------------------------------------------------------------------------

  /** `[t for lin in m for t in lin]`. */
  function Flatten(m: Matrix): seq<Tuple>
  {
    if |m| == 0 then [] else m[0] + Flatten(m[1..])
  }

  lemma {:induction false} FlattenMembers(m: Matrix)
    ensures forall t :: t in Flatten(m) <==> exists a :: 0 <= a < |m| && t in m[a]
  {
    if |m| > 0 {
      FlattenMembers(m[1..]);
      forall t | t in Flatten(m)
        ensures exists a :: 0 <= a < |m| && t in m[a]
      {
        if t !in m[0] {
          assert t in Flatten(m[1..]);
          var a :| 0 <= a < |m[1..]| && t in m[1..][a];
          assert t in m[a + 1];
        }
      }
      forall t | exists a :: 0 <= a < |m| && t in m[a]
        ensures t in Flatten(m)
      {
        var a :| 0 <= a < |m| && t in m[a];
        if a > 0 {
          assert t in m[1..][a - 1];
        }
      }
    }
  }

  /** Every row of m holds k - 1 tuples of length k - 1. */
  predicate CompleteRows(k: nat, m: Matrix)
  {
    forall a :: 0 <= a < |m| ==> |m[a]| == k - 1 && forall b :: 0 <= b < |m[a]| ==> |m[a][b]| == k - 1
  }

  lemma CompleteRowsFlatten(k: nat, m: Matrix)
    requires CompleteRows(k, m)
    ensures forall i :: 0 <= i < |Flatten(m)| ==> |Flatten(m)[i]| == k - 1
  {
    FlattenMembers(m);
    forall i | 0 <= i < |Flatten(m)|
      ensures |Flatten(m)[i]| == k - 1
    {
      assert Flatten(m)[i] in Flatten(m);
      var a :| 0 <= a < |m| && Flatten(m)[i] in m[a];
    }
  }

  // ---------------------------------------------------------------------------
  // forbidden (clique_number.py:14-23)
  // ---------------------------------------------------------------------------

  /** Rows 0..i-1 of m have k - 1 tuples each, all long enough to have a position pos. */
  predicate Indexable(k: nat, m: Matrix, i: nat, pos: nat)
  {
    i <= |m| && forall a :: 0 <= a < i ==> |m[a]| >= k - 1 && forall b :: 0 <= b < k - 1 ==> |m[a][b]| > pos
  }

  /** The index pairs (a, b), a < i, b < k - 1, whose tuple holds el at position pos. */
  function ForbiddenSet(k: nat, el: nat, pos: nat, m: Matrix, i: nat): set<Index>
    requires Indexable(k, m, i, pos)
  {
    set a: nat, b: nat | a < i && b < k - 1 && m[a][b][pos] == el :: (a, b)
  }

  /** `forbidden(el, pos, m, i)`: the pairs collected row by row, then turned into a set. */
  method Forbidden(k: nat, el: nat, pos: nat, m: Matrix, i: nat) returns (r: set<Index>)
    requires Indexable(k, m, i, pos)
    ensures forall a: nat, b: nat :: (a, b) in r <==> a < i && b < k - 1 && m[a][b][pos] == el
    ensures r == ForbiddenSet(k, el, pos, m, i)
  {
    var indxs: seq<Index> := [];
    for iLin := 0 to i
      invariant forall a: nat, b: nat :: (a, b) in indxs <==> a < iLin && b < k - 1 && m[a][b][pos] == el
    {
      indxs := ForbiddenInRow(k, el, pos, m, iLin, indxs);
    }
    r := Elementos(indxs);
    forall p | p in ForbiddenSet(k, el, pos, m, i)
      ensures p in r
    {
      assert p == (p.0, p.1);
    }
    forall p | p in r
      ensures p in ForbiddenSet(k, el, pos, m, i)
    {
      assert p in indxs;
      assert p == (p.0, p.1);
    }
  }

  /** The inner loop of `forbidden` for row iLin. */
  method ForbiddenInRow(k: nat, el: nat, pos: nat, m: Matrix, iLin: nat, indxs0: seq<Index>) returns (indxs: seq<Index>)
    requires iLin < |m| && |m[iLin]| >= k - 1 && forall b :: 0 <= b < k - 1 ==> |m[iLin][b]| > pos
    ensures forall p :: p in indxs <==> p in indxs0 || (p.0 == iLin && p.1 < k - 1 && m[iLin][p.1][pos] == el)
  {
    indxs := indxs0;
    var jLin := 0;
    while jLin < k - 1
      invariant 0 <= jLin <= if k >= 1 then k - 1 else 0
      invariant forall p :: p in indxs <==> p in indxs0 || (p.0 == iLin && p.1 < jLin && m[iLin][p.1][pos] == el)
    {
      if m[iLin][jLin][pos] == el {
        indxs := indxs + [(iLin, jLin)];
      }
      jLin := jLin + 1;
    }
  }

  // ---------------------------------------------------------------------------
  // rec_build_tup (clique_number.py:26-46)
  // ---------------------------------------------------------------------------

  /** What `rec_build_tup(tup, mm, fbd)` works in: the rows of mm before its last are
      complete, the last row (the one being built) holds tuples of length k - 1, tup is not
      longer than k - 1, and the forbidden pairs point into the complete rows. */
  predicate TupleContext(k: nat, tup: Tuple, mm: Matrix, fbd: set<Index>)
  {
    k >= 2 && |mm| >= 1 && CompleteRows(k, mm[..|mm| - 1]) &&
    (forall s :: s in mm[|mm| - 1] ==> |s| == k - 1) &&
    |tup| <= k - 1 &&
    forall q :: q in fbd ==> q.0 < |mm| - 1 && q.1 < k - 1
  }

  /** `fbd_elems` at position pos: the values the forbidden tuples hold there, those of the
      tuples of the row being built, and those already in tup. */
  function ForbiddenElems(k: nat, tup: Tuple, mm: Matrix, fbd: set<Index>): set<nat>
    requires TupleContext(k, tup, mm, fbd) && |tup| < k - 1
  {
    var pos := |tup|;
    (set q | q in fbd :: mm[q.0][q.1][pos]) + (set t | t in mm[|mm| - 1] :: t[pos]) + Elementos(tup)
  }

  /** `set(range(x, k)) - excl`, in increasing order. */
  function Free(k: nat, excl: set<nat>, x: nat): (r: seq<nat>)
    ensures forall y :: y in r <==> x <= y < k && y !in excl
    decreases k - x
  {
    if x >= k then [] else (if x in excl then [] else [x]) + Free(k, excl, x + 1)
  }

  /** The tuples `rec_build_tup(tup, mm, fbd)` yields, in order. */
  function RecBuildTup(k: nat, tup: Tuple, mm: Matrix, fbd: set<Index>): seq<Tuple>
    requires TupleContext(k, tup, mm, fbd)
    decreases k - 1 - |tup|, 1, 0
  {
    if |tup| == k - 1 then
      CompleteRowsFlatten(k, mm[..|mm| - 1]);
      if AdjacentToAll(tup, Flatten(mm[..|mm| - 1]), 1) then [tup] else []
    else
      RecBuildTupFrom(k, tup, mm, fbd, Free(k, ForbiddenElems(k, tup, mm, fbd), 1))
  }

  /** `for x in xs: yield from rec_build_tup(tup + (x,), mm, fbd | forbidden(x, pos, mm, i))`. */
  function RecBuildTupFrom(k: nat, tup: Tuple, mm: Matrix, fbd: set<Index>, xs: seq<nat>): seq<Tuple>
    requires TupleContext(k, tup, mm, fbd) && |tup| < k - 1
    decreases k - 1 - |tup|, 0, |xs|
  {
    if |xs| == 0 then []
    else
      RecBuildTup(k, tup + [xs[0]], mm, fbd + ForbiddenSet(k, xs[0], |tup|, mm, |mm| - 1)) +
      RecBuildTupFrom(k, tup, mm, fbd, xs[1..])
  }

  /** The forbidden pairs point into the complete rows of mm. */
  predicate PointsIntoComplete(k: nat, mm: Matrix, fbd: set<Index>)
  {
    |mm| >= 1 && CompleteRows(k, mm[..|mm| - 1]) && forall q :: q in fbd ==> q.0 < |mm| - 1 && q.1 < k - 1
  }

  /** From position `from` on, the values of t lie in 1..k-1 and do not occur earlier in t. */
  predicate FreshValues(k: nat, from: nat, t: Tuple)
    requires |t| == k - 1
  {
    forall p :: from <= p < k - 1 ==> 1 <= t[p] < k && t[p] !in t[..p]
  }

  /** From position `from` on, t differs at each position from every tuple of row. */
  predicate DiffersFromRow(k: nat, from: nat, row: Row, t: Tuple)
    requires |t| == k - 1 && forall s :: s in row ==> |s| == k - 1
  {
    forall p, s :: from <= p < k - 1 && s in row ==> t[p] != s[p]
  }

  /** From position `from` on, t differs at each position from every forbidden tuple. */
  predicate AvoidsForbidden(k: nat, from: nat, mm: Matrix, fbd: set<Index>, t: Tuple)
    requires |t| == k - 1 && PointsIntoComplete(k, mm, fbd)
  {
    forall p, q :: from <= p < k - 1 && q in fbd ==> t[p] != mm[q.0][q.1][p]
  }

  /** Once t, from position `from` on, agrees with a tuple of a complete row, no later value
      of t agrees with that tuple again. */
  predicate Pruned(k: nat, from: nat, mm: Matrix, t: Tuple)
    requires |t| == k - 1 && PointsIntoComplete(k, mm, {})
  {
    forall q, p, a, b :: from <= q < p < k - 1 && 0 <= a < |mm| - 1 && 0 <= b < k - 1 && mm[a][b][q] == t[q] ==>
      mm[a][b][p] != t[p]
  }

  /** What every tuple yielded from (tup, mm, fbd) satisfies: it extends tup to length k - 1
      and has coincidence 1 with every tuple of the complete rows; each value appended lies in
      1..k-1, does not occur earlier in the tuple, differs from the value at its position of
      every tuple of the row being built and of every forbidden tuple; and once it agrees with
      a tuple of a complete row, no later value agrees with that tuple again. */
  ghost predicate TupleOk(k: nat, tup: Tuple, mm: Matrix, fbd: set<Index>, t: Tuple)
    requires TupleContext(k, tup, mm, fbd)
  {
    |t| == k - 1 && t[..|tup|] == tup &&
    (CompleteRowsFlatten(k, mm[..|mm| - 1]); AdjacentToAll(t, Flatten(mm[..|mm| - 1]), 1)) &&
    FreshValues(k, |tup|, t) &&
    DiffersFromRow(k, |tup|, mm[|mm| - 1], t) &&
    AvoidsForbidden(k, |tup|, mm, fbd, t) &&
    Pruned(k, |tup|, mm, t)
  }

  lemma FreshValuesStep(k: nat, tup: Tuple, x: nat, t: Tuple)
    requires |t| == k - 1 && |tup| < k - 1 && t[..|tup| + 1] == tup + [x]
    requires 1 <= x < k && x !in tup && FreshValues(k, |tup| + 1, t)
    ensures FreshValues(k, |tup|, t)
  {
    assert t[..|tup|] == t[..|tup| + 1][..|tup|] == tup;
    assert t[|tup|] == (tup + [x])[|tup|];
  }

  lemma DiffersFromRowStep(k: nat, pos: nat, row: Row, t: Tuple)
    requires |t| == k - 1 && pos < k - 1 && forall s :: s in row ==> |s| == k - 1
    requires forall s :: s in row ==> s[pos] != t[pos]
    requires DiffersFromRow(k, pos + 1, row, t)
    ensures DiffersFromRow(k, pos, row, t)
  {
  }

  lemma AvoidsForbiddenStep(k: nat, pos: nat, mm: Matrix, fbd: set<Index>, fbd2: set<Index>, t: Tuple)
    requires |t| == k - 1 && pos < k - 1 && PointsIntoComplete(k, mm, fbd2) && fbd <= fbd2
    requires forall q :: q in fbd ==> mm[q.0][q.1][pos] != t[pos]
    requires AvoidsForbidden(k, pos + 1, mm, fbd2, t)
    ensures PointsIntoComplete(k, mm, fbd) && AvoidsForbidden(k, pos, mm, fbd, t)
  {
  }

  lemma PrunedStep(k: nat, pos: nat, mm: Matrix, fbd2: set<Index>, t: Tuple)
    requires |t| == k - 1 && pos < k - 1 && PointsIntoComplete(k, mm, fbd2)
    requires Indexable(k, mm, |mm| - 1, pos) && ForbiddenSet(k, t[pos], pos, mm, |mm| - 1) <= fbd2
    requires AvoidsForbidden(k, pos + 1, mm, fbd2, t) && Pruned(k, pos + 1, mm, t)
    ensures Pruned(k, pos, mm, t)
  {
    forall q, p, a, b | pos <= q < p < k - 1 && 0 <= a < |mm| - 1 && 0 <= b < k - 1 && mm[a][b][q] == t[q]
      ensures mm[a][b][p] != t[p]
    {
      if q == pos {
        assert (a, b) in ForbiddenSet(k, t[pos], pos, mm, |mm| - 1);
      }
    }
  }

  /** One step of the recursion: a tuple fit for the extension by an admissible x is fit
      for tup. */
  lemma TupleOkStep(k: nat, tup: Tuple, mm: Matrix, fbd: set<Index>, x: nat, t: Tuple)
    requires TupleContext(k, tup, mm, fbd) && |tup| < k - 1
    requires 1 <= x < k && x !in ForbiddenElems(k, tup, mm, fbd)
    requires TupleContext(k, tup + [x], mm, fbd + ForbiddenSet(k, x, |tup|, mm, |mm| - 1))
    requires TupleOk(k, tup + [x], mm, fbd + ForbiddenSet(k, x, |tup|, mm, |mm| - 1), t)
    ensures TupleOk(k, tup, mm, fbd, t)
  {
    var pos := |tup|;
    var fbd2 := fbd + ForbiddenSet(k, x, pos, mm, |mm| - 1);
    var lin := mm[|mm| - 1];
    assert t[..pos] == t[..pos + 1][..pos] == tup;
    assert t[pos] == (tup + [x])[pos] == x;
    assert x !in tup by {
      assert x !in Elementos(tup);
    }
    FreshValuesStep(k, tup, x, t);
    forall s | s in lin
      ensures s[pos] != t[pos]
    {
      assert s[pos] in (set t' | t' in lin :: t'[pos]);
    }
    DiffersFromRowStep(k, pos, lin, t);
    forall q | q in fbd
      ensures mm[q.0][q.1][pos] != t[pos]
    {
      assert mm[q.0][q.1][pos] in (set q' | q' in fbd :: mm[q'.0][q'.1][pos]);
    }
    AvoidsForbiddenStep(k, pos, mm, fbd, fbd2, t);
    PrunedStep(k, pos, mm, fbd2, t);
  }

  /** Every tuple `rec_build_tup(tup, mm, fbd)` yields is fit for (tup, mm, fbd). */
  lemma {:induction false} RecBuildTupOk(k: nat, tup: Tuple, mm: Matrix, fbd: set<Index>)
    requires TupleContext(k, tup, mm, fbd)
    ensures forall t :: t in RecBuildTup(k, tup, mm, fbd) ==> TupleOk(k, tup, mm, fbd, t)
    decreases k - 1 - |tup|, 1, 0
  {
    if |tup| < k - 1 {
      var xs := Free(k, ForbiddenElems(k, tup, mm, fbd), 1);
      RecBuildTupFromOk(k, tup, mm, fbd, xs);
    }
  }

  lemma {:induction false} RecBuildTupFromOk(k: nat, tup: Tuple, mm: Matrix, fbd: set<Index>, xs: seq<nat>)
    requires TupleContext(k, tup, mm, fbd) && |tup| < k - 1
    requires forall x :: x in xs ==> 1 <= x < k && x !in ForbiddenElems(k, tup, mm, fbd)
    ensures forall t :: t in RecBuildTupFrom(k, tup, mm, fbd, xs) ==> TupleOk(k, tup, mm, fbd, t)
    decreases k - 1 - |tup|, 0, |xs|
  {
    if |xs| > 0 {
      var x := xs[0];
      var fbd2 := fbd + ForbiddenSet(k, x, |tup|, mm, |mm| - 1);
      RecBuildTupOk(k, tup + [x], mm, fbd2);
      assert x in xs;
      assert forall y :: y in xs[1..] ==> y in xs;
      RecBuildTupFromOk(k, tup, mm, fbd, xs[1..]);
      forall t | t in RecBuildTup(k, tup + [x], mm, fbd2)
        ensures TupleOk(k, tup, mm, fbd, t)
      {
        TupleOkStep(k, tup, mm, fbd, x, t);
      }
    }
  }

  // ---------------------------------------------------------------------------
  // rec_build_lin (clique_number.py:49-64)
  // ---------------------------------------------------------------------------

  /** `tuple(range(a, b))`. */
  function Range(a: nat, b: int): (r: Tuple)
    ensures |r| == if a <= b then b - a else 0
    decreases b - a
  {
    if a >= b then [] else [a] + Range(a + 1, b)
  }

  /** `init_tup` of line 57 for tuple j of row i. */
  function InitTup(k: nat, i: nat, j: nat): Tuple
  {
    if j != 0 then [j + 1] else if i != 1 then [1, i + 1] else Range(1, k - 1)
  }

  /** What `rec_build_lin(lin, m)` works in: k >= 3, the rows of m complete, row |m| below
      k - 1, and the partial row holding at most k - 1 tuples of length k - 1. */
  predicate RowContext(k: nat, lin: Row, m: Matrix)
  {
    k >= 3 && 1 <= |m| < k - 1 && CompleteRows(k, m) &&
    |lin| <= k - 1 && forall s :: s in lin ==> |s| == k - 1
  }

  /** How `frb` is built on line 60. `AsWritten` adds the pairs holding i + 1 at position 1
      for the first tuple of every row. `Guarded` adds them only when `init_tup` has a
      position 1: for row 1 with k = 3, `init_tup` is (1,) and position 1 is still free. */
  datatype Reading = AsWritten | Guarded

  /** `frb` of lines 59-60. */
  function InitForbidden(k: nat, rd: Reading, m: Matrix, j: nat): set<Index>
    requires k >= 3 && CompleteRows(k, m)
  {
    var i := |m|;
    var second := j == 0 && (rd == AsWritten || |InitTup(k, i, j)| >= 2);
    ForbiddenSet(k, j + 1, 0, m, i) + (if second then ForbiddenSet(k, i + 1, 1, m, i) else {})
  }

  /** Read as guarded, `frb` holds exactly the pairs of the complete rows whose tuple agrees
      with `init_tup` at position 0, or at position 1 where `init_tup` has one. */
  lemma InitForbiddenGuarded(k: nat, m: Matrix, j: nat)
    requires k >= 3 && CompleteRows(k, m)
    ensures forall a: nat, b: nat :: (a, b) in InitForbidden(k, Guarded, m, j) <==>
              a < |m| && b < k - 1 &&
              exists p :: 0 <= p < 2 && p < |InitTup(k, |m|, j)| && m[a][b][p] == InitTup(k, |m|, j)[p]
  {
    if j == 0 && |m| == 1 && k >= 4 {
      assert Range(1, k - 1) == [1] + Range(2, k - 1);
      assert Range(2, k - 1) == [2] + Range(3, k - 1);
    }
  }

  /** Read as written, `frb` for row 1 with k = 3 is {(0, 0), (0, 1)}: it holds the pair
      (0, 1), whose tuple (2, 2) agrees with `init_tup` = (1,) nowhere. */
  lemma InitForbiddenAsWritten()
    ensures InitForbidden(3, AsWritten, [FirstRow(3)], 0) == {(0, 0), (0, 1)}
    ensures InitTup(3, 1, 0) == [1] && FirstRow(3)[1] == [2, 2]
  {
    FirstRowThree();
    assert Range(1, 2) == [1];
    ForbiddenInRowZero([FirstRow(3)], 1, 0);
    ForbiddenInRowZero([FirstRow(3)], 2, 1);
  }

  lemma InitTupContext(k: nat, rd: Reading, lin: Row, m: Matrix)
    requires RowContext(k, lin, m) && |lin| < k - 1
    ensures TupleContext(k, InitTup(k, |m|, |lin|), m + [lin], InitForbidden(k, rd, m, |lin|))
  {
    assert (m + [lin])[..|m|] == m;
  }

  /** The rows `rec_build_lin(lin, m)` yields, in order. */
  function RecBuildLin(k: nat, rd: Reading, lin: Row, m: Matrix): seq<Row>
    requires RowContext(k, lin, m)
    decreases k - 1 - |lin|, 1, 0
  {
    if |lin| == k - 1 then [lin]
    else
      InitTupContext(k, rd, lin, m);
      var tups := RecBuildTup(k, InitTup(k, |m|, |lin|), m + [lin], InitForbidden(k, rd, m, |lin|));
      RecBuildTupOk(k, InitTup(k, |m|, |lin|), m + [lin], InitForbidden(k, rd, m, |lin|));
      RecBuildLinFrom(k, rd, lin, m, tups)
  }

  /** `for tup in tups: yield from rec_build_lin(lin + [tup], m)`. */
  function RecBuildLinFrom(k: nat, rd: Reading, lin: Row, m: Matrix, tups: seq<Tuple>): seq<Row>
    requires RowContext(k, lin, m) && |lin| < k - 1
    requires forall t :: t in tups ==> |t| == k - 1
    decreases k - 1 - |lin|, 0, |tups|
  {
    if |tups| == 0 then []
    else RecBuildLin(k, rd, lin + [tups[0]], m) + RecBuildLinFrom(k, rd, lin, m, tups[1..])
  }

  /** What tuple j of a row built on the complete rows m satisfies: it starts with
      `init_tup` for (|m|, j), has coincidence 1 with every tuple of m, and differs after that
      prefix, position by position, from every earlier tuple of the row. */
  ghost predicate NewTupleOk(k: nat, m: Matrix, row: Row, j: nat)
    requires CompleteRows(k, m) && j < |row| && forall j2 :: 0 <= j2 < |row| ==> |row[j2]| == k - 1
  {
    |InitTup(k, |m|, j)| <= k - 1 && row[j][..|InitTup(k, |m|, j)|] == InitTup(k, |m|, j) &&
    (CompleteRowsFlatten(k, m); AdjacentToAll(row[j], Flatten(m), 1)) &&
    forall j2, p :: 0 <= j2 < j && |InitTup(k, |m|, j)| <= p < k - 1 ==> row[j][p] != row[j2][p]
  }

  /** What every row yielded from (lin, m) satisfies: it extends lin to k - 1 tuples of length
      k - 1, each new one fit in the sense of NewTupleOk. */
  ghost predicate RowOk(k: nat, lin: Row, m: Matrix, row: Row)
    requires CompleteRows(k, m)
  {
    |row| == k - 1 && |lin| <= |row| && row[..|lin|] == lin &&
    (forall j :: 0 <= j < |row| ==> |row[j]| == k - 1) &&
    forall j :: |lin| <= j < |row| ==> NewTupleOk(k, m, row, j)
  }

  lemma {:induction false} RecBuildLinOk(k: nat, rd: Reading, lin: Row, m: Matrix)
    requires RowContext(k, lin, m)
    ensures forall row :: row in RecBuildLin(k, rd, lin, m) ==> RowOk(k, lin, m, row)
    decreases k - 1 - |lin|, 1, 0
  {
    if |lin| < k - 1 {
      InitTupContext(k, rd, lin, m);
      var init := InitTup(k, |m|, |lin|);
      var fbd := InitForbidden(k, rd, m, |lin|);
      var tups := RecBuildTup(k, init, m + [lin], fbd);
      RecBuildTupOk(k, init, m + [lin], fbd);
      RecBuildLinFromOk(k, rd, lin, m, tups);
    } else {
      assert RecBuildLin(k, rd, lin, m) == [lin];
      forall row | row in RecBuildLin(k, rd, lin, m)
        ensures RowOk(k, lin, m, row)
      {
        assert row == lin;
        assert row[..|lin|] == lin;
      }
    }
  }

  lemma {:induction false} RecBuildLinFromOk(k: nat, rd: Reading, lin: Row, m: Matrix, tups: seq<Tuple>)
    requires RowContext(k, lin, m) && |lin| < k - 1
    requires TupleContext(k, InitTup(k, |m|, |lin|), m + [lin], InitForbidden(k, rd, m, |lin|))
    requires forall t :: t in tups ==> TupleOk(k, InitTup(k, |m|, |lin|), m + [lin], InitForbidden(k, rd, m, |lin|), t)
    requires forall t :: t in tups ==> |t| == k - 1
    ensures forall row :: row in RecBuildLinFrom(k, rd, lin, m, tups) ==> RowOk(k, lin, m, row)
    decreases k - 1 - |lin|, 0, |tups|
  {
    if |tups| > 0 {
      var t := tups[0];
      assert t in tups;
      assert |t| == k - 1;
      RecBuildLinOk(k, rd, lin + [t], m);
      assert forall t2 :: t2 in tups[1..] ==> t2 in tups;
      RecBuildLinFromOk(k, rd, lin, m, tups[1..]);
      forall row | row in RecBuildLin(k, rd, lin + [t], m)
        ensures RowOk(k, lin, m, row)
      {
        RowOkStep(k, rd, lin, m, t, row);
      }
    }
  }

  /** The tuple yielded for position |lin| of a row is fit in the sense of NewTupleOk. */
  lemma NewTupleFromTupleOk(k: nat, rd: Reading, lin: Row, m: Matrix, row: Row)
    requires RowContext(k, lin, m) && |lin| < k - 1
    requires TupleContext(k, InitTup(k, |m|, |lin|), m + [lin], InitForbidden(k, rd, m, |lin|))
    requires |row| == k - 1 && forall j :: 0 <= j < |row| ==> |row[j]| == k - 1
    requires row[..|lin|] == lin
    requires TupleOk(k, InitTup(k, |m|, |lin|), m + [lin], InitForbidden(k, rd, m, |lin|), row[|lin|])
    ensures NewTupleOk(k, m, row, |lin|)
  {
    var j := |lin|;
    var mm := m + [lin];
    assert mm[..|mm| - 1] == m;
    assert mm[|mm| - 1] == lin;
    forall j2, p | 0 <= j2 < j && |InitTup(k, |m|, j)| <= p < k - 1
      ensures row[j][p] != row[j2][p]
    {
      assert row[j2] == lin[j2];
      assert lin[j2] in mm[|mm| - 1];
    }
  }

  /** One step of the recursion: a row fit for lin + [t], t yielded for lin, is fit for lin. */
  lemma RowOkStep(k: nat, rd: Reading, lin: Row, m: Matrix, t: Tuple, row: Row)
    requires RowContext(k, lin, m) && |lin| < k - 1
    requires TupleContext(k, InitTup(k, |m|, |lin|), m + [lin], InitForbidden(k, rd, m, |lin|))
    requires TupleOk(k, InitTup(k, |m|, |lin|), m + [lin], InitForbidden(k, rd, m, |lin|), t)
    requires RowOk(k, lin + [t], m, row)
    ensures RowOk(k, lin, m, row)
  {
    var j := |lin|;
    assert row[..j] == row[..j + 1][..j] == lin;
    assert row[j] == (lin + [t])[j] == t;
    NewTupleFromTupleOk(k, rd, lin, m, row);
  }

  /** A row fit for m completes m by one row. */
  lemma CompleteRowsExtend(k: nat, m: Matrix, row: Row)
    requires CompleteRows(k, m) && RowOk(k, [], m, row)
    ensures CompleteRows(k, m + [row])
  {
  }

  // ---------------------------------------------------------------------------
  // rec_build_mtx and find_l1_clique (clique_number.py:11-12, 67-81)
  // ---------------------------------------------------------------------------

  /** What `rec_build_mtx(m)` works in: 1 <= |m| <= k - 1 complete rows. */
  predicate MatrixContext(k: nat, m: Matrix)
  {
    k >= 2 && 1 <= |m| <= k - 1 && CompleteRows(k, m)
  }

  /** `rec_build_mtx(m)`: m once it has k - 1 rows; otherwise the first result found by
      extending m with the rows `rec_build_lin([], m)` yields, in order; None when none
      gives one. */
  function RecBuildMtx(k: nat, rd: Reading, m: Matrix): Option<Matrix>
    requires MatrixContext(k, m)
    decreases k - 1 - |m|, 1, 0
  {
    if |m| == k - 1 then Some(m)
    else
      var lins := RecBuildLin(k, rd, [], m);
      RecBuildLinOk(k, rd, [], m);
      assert forall i :: 0 <= i < |lins| ==> lins[i] in lins;
      FirstComplete(k, rd, m, lins)
  }

  /** `rec_build_mtx(m + [lin])` for a row lin fit for m. */
  function Extend(k: nat, rd: Reading, m: Matrix, lin: Row): Option<Matrix>
    requires MatrixContext(k, m) && |m| < k - 1 && RowOk(k, [], m, lin)
    decreases k - 1 - |m|, 0, 0
  {
    CompleteRowsExtend(k, m, lin);
    RecBuildMtx(k, rd, m + [lin])
  }

  /** The loop of lines 73-78 over the rows still to try. */
  function FirstComplete(k: nat, rd: Reading, m: Matrix, lins: seq<Row>): Option<Matrix>
    requires MatrixContext(k, m) && |m| < k - 1
    requires forall i :: 0 <= i < |lins| ==> RowOk(k, [], m, lins[i])
    decreases k - 1 - |m|, 0, |lins|
  {
    if |lins| == 0 then None
    else
      var result := Extend(k, rd, m, lins[0]);
      if result.Some? then result else FirstComplete(k, rd, m, lins[1..])
  }

  /** `matrix` of line 12: tuple i - 1 is (i,)*(k-1), for i in 1..k-1. */
  function FirstRow(k: nat): Row
    requires k >= 1
  {
    seq(k - 1, i requires 0 <= i < k - 1 => seq(k - 1, _ => i + 1))
  }

  /** `find_l1_clique(k)`, with line 60 read as rd. For k = 1 the search recurses without
      end (an empty row is yielded at every level); for k = 0 it returns None. Both are left
      out, so k >= 2 is required. */
  function FindL1Clique(k: nat, rd: Reading): Option<Matrix>
    requires k >= 2
  {
    assert CompleteRows(k, [FirstRow(k)]);
    RecBuildMtx(k, rd, [FirstRow(k)])
  }

  /** Every row after the first is fit for the rows before it. */
  ghost predicate MatrixOk(k: nat, M: Matrix)
  {
    CompleteRows(k, M) &&
    forall r :: 1 <= r < |M| ==> RowOk(k, [], M[..r], M[r])
  }

  /** A result of `rec_build_mtx(m)` has k - 1 complete rows, extends m, and each of its new
      rows is fit for the rows before it. */
  lemma {:induction false} RecBuildMtxOk(k: nat, rd: Reading, m: Matrix)
    requires MatrixContext(k, m)
    ensures RecBuildMtx(k, rd, m).Some? ==>
              var M := RecBuildMtx(k, rd, m).value;
              |M| == k - 1 && M[..|m|] == m && CompleteRows(k, M) &&
              forall r :: |m| <= r < |M| ==> RowOk(k, [], M[..r], M[r])
    decreases k - 1 - |m|, 1, 0
  {
    if |m| < k - 1 {
      RecBuildLinOk(k, rd, [], m);
      FirstCompleteOk(k, rd, m, RecBuildLin(k, rd, [], m));
    }
  }

  lemma {:induction false} FirstCompleteOk(k: nat, rd: Reading, m: Matrix, lins: seq<Row>)
    requires MatrixContext(k, m) && |m| < k - 1
    requires forall i :: 0 <= i < |lins| ==> RowOk(k, [], m, lins[i])
    ensures FirstComplete(k, rd, m, lins).Some? ==>
              var M := FirstComplete(k, rd, m, lins).value;
              |M| == k - 1 && M[..|m|] == m && CompleteRows(k, M) &&
              forall r :: |m| <= r < |M| ==> RowOk(k, [], M[..r], M[r])
    decreases k - 1 - |m|, 0, |lins|
  {
    if |lins| > 0 {
      var m2 := m + [lins[0]];
      CompleteRowsExtend(k, m, lins[0]);
      RecBuildMtxOk(k, rd, m2);
      FirstCompleteOk(k, rd, m, lins[1..]);
      if RecBuildMtx(k, rd, m2).Some? {
        var M := RecBuildMtx(k, rd, m2).value;
        assert M[..|m|] == M[..|m2|][..|m|] == m;
        assert M[..|m| + 1] == m2;
        assert M[|m|] == lins[0];
      }
    }
  }

  /** `rec_build_mtx` backtracks: from an incomplete m it returns None exactly when every row
      `rec_build_lin([], m)` yields leads to None, and otherwise the result reached through
      the first row that leads to one. */
  lemma {:induction false} FirstCompleteBacktracks(k: nat, rd: Reading, m: Matrix, lins: seq<Row>)
    requires MatrixContext(k, m) && |m| < k - 1
    requires forall i :: 0 <= i < |lins| ==> RowOk(k, [], m, lins[i])
    ensures FirstComplete(k, rd, m, lins).None? <==> forall i :: 0 <= i < |lins| ==> Extend(k, rd, m, lins[i]).None?
    ensures FirstComplete(k, rd, m, lins).Some? ==>
              exists i :: 0 <= i < |lins| && Extend(k, rd, m, lins[i]) == FirstComplete(k, rd, m, lins) &&
                forall j :: 0 <= j < i ==> Extend(k, rd, m, lins[j]).None?
    decreases |lins|
  {
    if |lins| > 0 {
      var rest := lins[1..];
      FirstCompleteBacktracks(k, rd, m, rest);
      if Extend(k, rd, m, lins[0]).None? {
        assert forall i :: 1 <= i < |lins| ==> lins[i] == rest[i - 1];
        if FirstComplete(k, rd, m, lins).Some? {
          var i :| 0 <= i < |rest| && Extend(k, rd, m, rest[i]) == FirstComplete(k, rd, m, rest) &&
                   forall j :: 0 <= j < i ==> Extend(k, rd, m, rest[j]).None?;
          assert lins[i + 1] == rest[i];
          forall j | 0 <= j < i + 1
            ensures Extend(k, rd, m, lins[j]).None?
          {
            if j > 0 {
              assert lins[j] == rest[j - 1];
            }
          }
        }
      }
    }
  }

  /** `find_l1_clique(k)` returns None or a matrix of k - 1 rows of k - 1 tuples of length
      k - 1 whose first row is `[(i,)*(k-1) for i in range(1, k)]` and each of whose later rows
      is fit for the rows before it. */
  lemma FindL1CliqueOk(k: nat, rd: Reading)
    requires k >= 2
    ensures FindL1Clique(k, rd).Some? ==>
              var M := FindL1Clique(k, rd).value;
              |M| == k - 1 && M[0] == FirstRow(k) && MatrixOk(k, M)
  {
    assert CompleteRows(k, [FirstRow(k)]);
    RecBuildMtxOk(k, rd, [FirstRow(k)]);
  }

  /** In a matrix fit row by row, any two tuples from different rows agree in exactly one
      coordinate: they are adjacent in the timbral graph (n, k - 1, 1). */
  lemma CliqueAcrossRows(k: nat, M: Matrix, r1: nat, r2: nat, b1: nat, b2: nat)
    requires MatrixOk(k, M)
    requires r1 < r2 < |M| && b1 < |M[r1]| && b2 < |M[r2]|
    ensures Concordancias(M[r2][b2], M[r1][b1]) == 1
    ensures Adjacentes(k - 1, 1, M[r1][b1], M[r2][b2])
  {
    var prev := M[..r2];
    assert RowOk(k, [], prev, M[r2]);
    assert NewTupleOk(k, prev, M[r2], b2);
    assert CompleteRows(k, prev);
    CompleteRowsFlatten(k, prev);
    FlattenMembers(prev);
    assert M[r1][b1] in prev[r1];
    var t := M[r1][b1];
    assert t in Flatten(prev);
    var i :| 0 <= i < |Flatten(prev)| && Flatten(prev)[i] == t;
    assert Coincidence(M[r2][b2], t) == 1;
    assert t[..|M[r2][b2]|] == t;
    AdjacenciaSimetrica(k - 1, 1, M[r1][b1], M[r2][b2]);
  }

  /** For k = 2 the first row alone is the answer. */
  lemma FindL1CliqueTwo(rd: Reading)
    ensures FindL1Clique(2, rd) == Some([[[1]]])
  {
    assert FirstRow(2)[0] == [1];
    assert FirstRow(2) == [[1]];
  }

  /** For k = 3 the search as written finds no second row, so it returns None: line 60 rules
      out (1, 2), the only tuple row 1 can start with. */
  lemma FindL1CliqueThree()
    ensures FindL1Clique(3, AsWritten) == None
  {
    var m := [FirstRow(3)];
    var mm := m + [[]];
    var fbd: set<Index> := {(0, 0), (0, 1)};
    InitForbiddenAsWritten();
    ElemsAsWritten();
    assert Free(3, {1, 2}, 1) == [];
    assert RecBuildTup(3, [1], mm, fbd) == RecBuildTupFrom(3, [1], mm, fbd, []) == [];
    assert RecBuildLin(3, AsWritten, [], m) == RecBuildLinFrom(3, AsWritten, [], m, []) == [];
  }

  /** Read as written, the values barred at position 1 for the first tuple of row 1 with
      k = 3 are all of 1..2. */
  lemma ElemsAsWritten()
    ensures var mm := [FirstRow(3)] + [[]];
            TupleContext(3, [1], mm, {(0, 0), (0, 1)}) &&
            ForbiddenElems(3, [1], mm, {(0, 0), (0, 1)}) == {1, 2}
  {
    FirstRowThree();
    var mm := [FirstRow(3)] + [[]];
    assert mm[..1] == [FirstRow(3)];
    assert Elementos([1]) == {1};
  }

  /** The first row for k = 3. */
  lemma FirstRowThree()
    ensures FirstRow(3) == [[1, 1], [2, 2]]
  {
    assert FirstRow(3)[0] == [1, 1];
    assert FirstRow(3)[1] == [2, 2];
  }

  /** The tuples (1, 2) and (2, 1) agree once with each tuple of the first row for k = 3. */
  lemma AgreementsThree()
    ensures Flatten([FirstRow(3)]) == [[1, 1], [2, 2]]
    ensures Coincidence([1, 2], [1, 1]) == 1 && Coincidence([1, 2], [2, 2]) == 1
    ensures Coincidence([2, 1], [1, 1]) == 1 && Coincidence([2, 1], [2, 2]) == 1
  {
    FirstRowThree();
    assert Flatten([FirstRow(3)]) == FirstRow(3) + Flatten([]);
    assert [1, 1][..2] == [1, 1] && [2, 2][..2] == [2, 2];
    assert [1, 2][1..] == [2] && [2, 1][1..] == [1];
    assert [1, 1][1..] == [1] && [2, 2][1..] == [2];
    assert Concordancias([2], [1]) == 0 && Concordancias([2], [2]) == 1;
    assert Concordancias([1], [1]) == 1 && Concordancias([1], [2]) == 0;
  }

  /** With the first row for k = 3, the only pair holding el in 1..2 at either position is
      (0, el - 1). */
  lemma ForbiddenInRowZero(mm: Matrix, el: nat, pos: nat)
    requires |mm| >= 1 && mm[0] == [[1, 1], [2, 2]] && pos < 2 && 1 <= el <= 2
    ensures ForbiddenSet(3, el, pos, mm, 1) == {(0, el - 1)}
  {
    forall q | q in ForbiddenSet(3, el, pos, mm, 1)
      ensures q == (0, el - 1)
    {
      assert q.1 == 0 || q.1 == 1;
    }
  }

  /** Read as guarded, `frb` for tuple j < 2 of row 1 with k = 3 is {(0, j)}. */
  lemma InitForbiddenThree(j: nat)
    requires j < 2
    ensures InitForbidden(3, Guarded, [FirstRow(3)], j) == {(0, j)}
  {
    FirstRowThree();
    assert |InitTup(3, 1, j)| == 1 by {
      assert Range(1, 2) == [1];
    }
    ForbiddenInRowZero([FirstRow(3)], j + 1, 0);
  }

  /** Each tuple of the row ((1, 2), (2, 1)) is fit for the first row for k = 3. */
  lemma NewTupleOkThree(j: nat)
    requires j < 2
    ensures CompleteRows(3, [FirstRow(3)]) && NewTupleOk(3, [FirstRow(3)], [[1, 2], [2, 1]], j)
  {
    FirstRowThree();
    AgreementsThree();
    assert Range(1, 2) == [1];
    assert [1, 2][..1] == [1] && [2, 1][..1] == [2];
  }

  /** The matrix with second row ((1, 2), (2, 1)) is fit row by row for k = 3, so a clique of
      the kind searched for exists there. */
  lemma CliqueThreeExists()
    ensures MatrixOk(3, [FirstRow(3), [[1, 2], [2, 1]]])
  {
    var M := [FirstRow(3), [[1, 2], [2, 1]]];
    FirstRowThree();
    assert M[..1] == [FirstRow(3)];
    NewTupleOkThree(0);
    NewTupleOkThree(1);
    assert RowOk(3, [], M[..1], M[1]);
  }

  /** Below the first row for k = 3, the tuples (1, 2) and (2, 1) are complete and agree
      once with each tuple of that row, so each is yielded. */
  lemma LeafThree(t: Tuple, last: Row, fbd: set<Index>)
    requires t == [1, 2] || t == [2, 1]
    requires (forall s :: s in last ==> |s| == 2) && forall q :: q in fbd ==> q.0 < 1 && q.1 < 2
    ensures TupleContext(3, t, [FirstRow(3)] + [last], fbd)
    ensures RecBuildTup(3, t, [FirstRow(3)] + [last], fbd) == [t]
  {
    var mm := [FirstRow(3)] + [last];
    FirstRowThree();
    AgreementsThree();
    assert mm[..1] == [FirstRow(3)];
  }

  /** The values barred at position 1 for the first tuple of row 1 with k = 3. */
  lemma ElemsTupleZero()
    ensures var mm := [FirstRow(3)] + [[]];
            TupleContext(3, [1], mm, {(0, 0)}) && ForbiddenElems(3, [1], mm, {(0, 0)}) == {1}
  {
    FirstRowThree();
    var mm := [FirstRow(3)] + [[]];
    assert mm[..1] == [FirstRow(3)];
    assert Elementos([1]) == {1};
  }

  /** The values barred at position 1 for the second tuple of row 1 with k = 3. */
  lemma ElemsTupleOne()
    ensures var mm := [FirstRow(3)] + [[[1, 2]]];
            TupleContext(3, [2], mm, {(0, 1)}) && ForbiddenElems(3, [2], mm, {(0, 1)}) == {2}
  {
    FirstRowThree();
    var mm := [FirstRow(3)] + [[[1, 2]]];
    assert mm[..1] == [FirstRow(3)];
    assert Elementos([2]) == {2};
  }

  /** When a single value is free at position |tup|, `rec_build_tup` yields what it yields
      once that value is appended. */
  lemma RecBuildTupSingle(k: nat, tup: Tuple, mm: Matrix, fbd: set<Index>, x: nat)
    requires TupleContext(k, tup, mm, fbd) && |tup| < k - 1
    requires Free(k, ForbiddenElems(k, tup, mm, fbd), 1) == [x]
    ensures RecBuildTup(k, tup, mm, fbd) == RecBuildTup(k, tup + [x], mm, fbd + ForbiddenSet(k, x, |tup|, mm, |mm| - 1))
  {
    var xs := [x];
    assert RecBuildTup(k, tup, mm, fbd) == RecBuildTupFrom(k, tup, mm, fbd, xs);
    assert xs[1..] == [];
    assert RecBuildTupFrom(k, tup, mm, fbd, xs[1..]) == [];
  }

  /** Read as guarded, tuple 0 of row 1 for k = 3 starts from (1,) with only (0, 0)
      forbidden, so position 1 takes 2. */
  lemma RowOneTupleZero()
    ensures RecBuildTup(3, [1], [FirstRow(3)] + [[]], InitForbidden(3, Guarded, [FirstRow(3)], 0)) == [[1, 2]]
  {
    var mm := [FirstRow(3)] + [[]];
    InitForbiddenThree(0);
    ElemsTupleZero();
    assert Free(3, {1}, 1) == [2];
    RecBuildTupSingle(3, [1], mm, {(0, 0)}, 2);
    FirstRowThree();
    ForbiddenInRowZero(mm, 2, 1);
    assert [1] + [2] == [1, 2];
    LeafThree([1, 2], [], {(0, 0), (0, 1)});
  }

  /** Read as guarded, tuple 1 of row 1 for k = 3 starts from (2,) with only (0, 1)
      forbidden, and the row holds 2 at position 1, so position 1 takes 1. */
  lemma RowOneTupleOne()
    ensures RecBuildTup(3, [2], [FirstRow(3)] + [[[1, 2]]], InitForbidden(3, Guarded, [FirstRow(3)], 1)) == [[2, 1]]
  {
    var mm := [FirstRow(3)] + [[[1, 2]]];
    InitForbiddenThree(1);
    ElemsTupleOne();
    assert Free(3, {2}, 1) == [1];
    RecBuildTupSingle(3, [2], mm, {(0, 1)}, 1);
    FirstRowThree();
    ForbiddenInRowZero(mm, 1, 1);
    assert [2] + [1] == [2, 1];
    LeafThree([2, 1], [[1, 2]], {(0, 1), (0, 0)});
  }

  /** When `rec_build_tup` yields a single tuple t for position |lin| of a row,
      `rec_build_lin(lin, m)` yields what `rec_build_lin(lin + [t], m)` does. */
  lemma RecBuildLinSingle(k: nat, rd: Reading, lin: Row, m: Matrix, t: Tuple)
    requires RowContext(k, lin, m) && |lin| < k - 1 && |t| == k - 1
    requires TupleContext(k, InitTup(k, |m|, |lin|), m + [lin], InitForbidden(k, rd, m, |lin|))
    requires RecBuildTup(k, InitTup(k, |m|, |lin|), m + [lin], InitForbidden(k, rd, m, |lin|)) == [t]
    ensures RecBuildLin(k, rd, lin, m) == RecBuildLin(k, rd, lin + [t], m)
  {
    assert [t][1..] == [];
    assert RecBuildLinFrom(k, rd, lin, m, [t]) == RecBuildLin(k, rd, lin + [t], m) + [];
  }

  /** Read as guarded, row 1 for k = 3 can only start with (1, 2). */
  lemma RowOneStepZero()
    ensures RecBuildLin(3, Guarded, [], [FirstRow(3)]) == RecBuildLin(3, Guarded, [[1, 2]], [FirstRow(3)])
  {
    var m := [FirstRow(3)];
    FirstRowThree();
    assert InitTup(3, 1, 0) == [1];
    InitTupContext(3, Guarded, [], m);
    RowOneTupleZero();
    RecBuildLinSingle(3, Guarded, [], m, [1, 2]);
    assert [] + [[1, 2]] == [[1, 2]];
  }

  /** Read as guarded, after (1, 2) row 1 for k = 3 can only go on with (2, 1). */
  lemma RowOneStepOne()
    ensures RecBuildLin(3, Guarded, [[1, 2]], [FirstRow(3)]) == [[[1, 2], [2, 1]]]
  {
    var m := [FirstRow(3)];
    FirstRowThree();
    assert InitTup(3, 1, 1) == [2];
    InitTupContext(3, Guarded, [[1, 2]], m);
    RowOneTupleOne();
    RecBuildLinSingle(3, Guarded, [[1, 2]], m, [2, 1]);
    assert [[1, 2]] + [[2, 1]] == [[1, 2], [2, 1]];
    RowOneComplete();
  }

  /** A row of k - 1 tuples is yielded as it is. */
  lemma RowOneComplete()
    ensures RowContext(3, [[1, 2], [2, 1]], [FirstRow(3)])
    ensures RecBuildLin(3, Guarded, [[1, 2], [2, 1]], [FirstRow(3)]) == [[[1, 2], [2, 1]]]
  {
    FirstRowThree();
  }

  /** When `rec_build_lin([], m)` yields a single row, `rec_build_mtx(m)` returns what
      `rec_build_mtx(m + [lin])` does. */
  lemma RecBuildMtxSingle(k: nat, rd: Reading, m: Matrix, lin: Row)
    requires MatrixContext(k, m) && k >= 3 && |m| < k - 1
    requires RecBuildLin(k, rd, [], m) == [lin]
    ensures RowOk(k, [], m, lin) && RecBuildMtx(k, rd, m) == Extend(k, rd, m, lin)
  {
    RecBuildLinOk(k, rd, [], m);
    assert lin in RecBuildLin(k, rd, [], m);
    assert [lin][1..] == [];
    assert FirstComplete(k, rd, m, []) == None;
    assert RecBuildMtx(k, rd, m) == FirstComplete(k, rd, m, [lin]);
  }

  /** Read as guarded, the search finds that matrix for k = 3. */
  lemma FindL1CliqueThreeGuarded()
    ensures FindL1Clique(3, Guarded) == Some([FirstRow(3), [[1, 2], [2, 1]]])
  {
    var m := [FirstRow(3)];
    var row := [[1, 2], [2, 1]];
    FirstRowThree();
    assert CompleteRows(3, m);
    RowOneStepZero();
    RowOneStepOne();
    RecBuildMtxSingle(3, Guarded, m, row);
    assert m + [row] == [FirstRow(3), row];
  }
}
