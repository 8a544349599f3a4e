/**
 * The backtracking search: pick the cell with fewest candidates among those
 * with more than one, try its candidates in ascending order, each on a fresh
 * copy of the store with the cell fixed and the choice propagated, and
 * return the first store the recursive search completes.
 */
module Search {
  import opened Topology
  import opened Wrappers
  import opened DomainStore
  import opened Cascade

  /**
   * The minimum-remaining-values choice among cells `from`..80: the first
   * cell, in row-major order, whose candidate count is more than one and
   * smallest among such cells; None when there is no such cell.
   */
  function SelectCell(s: seq<set<int>>, from: nat): (r: Option<Cell>)
    requires |s| == 81 && from <= 81
    ensures r.None? <==> forall j | from <= j < 81 :: |s[j]| <= 1
    ensures r.Some? ==> from <= r.value && |s[r.value]| > 1
    ensures r.Some? ==> forall j | from <= j < 81 && |s[j]| > 1 :: |s[r.value]| <= |s[j]|
    ensures r.Some? ==> forall j | from <= j < r.value && |s[j]| > 1 :: |s[r.value]| < |s[j]|
    decreases 81 - from
  {
    if from == 81 then None
    else
      var rest := SelectCell(s, from + 1);
      if |s[from]| <= 1 then rest
      else if rest.None? || |s[from]| <= |s[rest.value]| then Some(from)
      else rest
  }

  /** A non-empty set of integers has a least element. */
  lemma {:induction false} HasMin(x: set<int>)
    requires x != {}
    ensures exists m :: m in x && forall y | y in x :: m <= y
  {
    HasElement(x);
    var e :| e in x;
    if x == {e} {
      assert forall y | y in x :: y == e;
    } else {
      var rest := x - {e};
      assert x == rest + {e};
      HasMin(rest);
      var m :| m in rest && forall y | y in rest :: m <= y;
      var least := if e < m then e else m;
      forall y | y in x
        ensures least <= y
      {
        if y != e {
          assert y in rest;
        }
      }
      assert least in x;
    }
  }

  /**
   * Fixing cell c to one of its candidates and propagating successfully keeps
   * a live, settled store live and settled.
   */
  lemma AssignKeepsSettled(s: seq<set<int>>, b0: seq<set<int>>, b1: seq<set<int>>, c: Cell, v: int)
    requires |s| == 81 && Live(s) && Settled(s) && v in s[c]
    requires b0 == s[c := {v}]
    requires Within(b1, b0) && NoNewEmpty(b0, b1) && PeersCleared(b1, c, v)
    requires SinglesPropagated(b0, b1, -1)
    ensures Live(b1) && Settled(b1)
  {
    forall i: Cell, j: Cell | Peer(i, j) && |b1[i]| == 1
      ensures b1[i] !! b1[j]
    {
      if b1[i] == b0[i] && i != c {
        assert PairSettled(s, i, j);
      }
    }
  }

  /**
   * A branch that fixes cell c to v and then propagates successfully, followed
   * by a completed search of the propagated store, yields a store that only
   * narrows the original, runs no new cell empty, and keeps c fixed to v.
   */
  lemma BranchSucceeds(s: seq<set<int>>, b0: seq<set<int>>, b1: seq<set<int>>, res: seq<set<int>>,
                       c: Cell, v: int)
    requires |s| == 81 && v in s[c] && b0 == s[c := {v}]
    requires Within(b1, b0) && NoNewEmpty(b0, b1) && PeersCleared(b1, c, v)
    requires SinglesPropagated(b0, b1, -1)
    requires Assigned(res) && Within(res, b1) && NoNewEmpty(b1, res)
    requires Live(b1) && Settled(b1) ==> Settled(res)
    ensures Within(res, s) && NoNewEmpty(s, res) && res[c] == {v}
    ensures Live(s) && Settled(s) ==> Settled(res)
  {
    assert res[c] <= {v} && res[c] != {};
    if Live(s) && Settled(s) {
      AssignKeepsSettled(s, b0, b1, c, v);
    }
  }

  /** Every grid the store admits that gives c the value v, the store with c fixed to v admits. */
  lemma Restrict(s: seq<set<int>>, b0: seq<set<int>>, c: Cell, v: int)
    requires |s| == 81 && b0 == s[c := {v}]
    ensures forall sol | Admits(s, sol) && sol[c] == v :: Admits(b0, sol)
  {
  }

  /** The grids the store admits, restricted to consistent ones, give cell c a value in `values`. */
  ghost predicate ValuesCover(s: seq<set<int>>, c: Cell, values: set<int>)
    requires |s| == 81
  {
    forall sol | Consistent(sol) && Admits(s, sol) :: sol[c] in values
  }

  /**
   * A branch that fixes cell c to v and either fails to propagate, or
   * propagates to a store admitting no consistent grid, rules out v for c.
   */
  lemma BranchExcluded(s: seq<set<int>>, b0: seq<set<int>>, b1: seq<set<int>>, c: Cell, v: int)
    requires |s| == 81 && b0 == s[c := {v}] && |b1| == 81
    requires NoSolutionFrom(b0, c, v) ||
             (KeepsFrom(b0, b1, c, v) && !exists sol :: Consistent(sol) && Admits(b1, sol))
    ensures NoSolutionFrom(s, c, v)
  {
    Restrict(s, b0, c, v);
  }

  /** Branching on the least value still possible for c tries c's value in every admitted grid last-or-earlier. */
  lemma LeastBranch(s: seq<set<int>>, c: Cell, tried: set<int>, v: int, res: seq<set<int>>)
    requires |s| == 81 && |res| == 81 && ValuesCover(s, c, tried)
    requires forall y | y in tried :: v <= y
    requires res[c] == {v}
    ensures forall w, sol | w in res[c] && Consistent(sol) && Admits(s, sol) :: w <= sol[c]
  {
  }

  /**
   * One branch of the search: a copy of the store with cell c fixed to
   * `value`, propagated, and searched recursively. A result keeps c fixed
   * to `value`; no result means no consistent grid the store admits gives
   * c that value.
   */
  method Branch(a: array<set<int>>, c: Cell, value: int) returns (r: Option<array<set<int>>>)
    requires a.Length == 81 && value in a[c] && |a[c]| > 1
    ensures r.Some? ==> r.value.Length == 81 && Assigned(r.value[..]) && Within(r.value[..], a[..])
    ensures r.Some? ==> NoNewEmpty(a[..], r.value[..]) && r.value[c] == {value}
    ensures r.Some? && Live(a[..]) && Settled(a[..]) ==> Settled(r.value[..])
    ensures r.None? ==> NoSolutionFrom(a[..], c, value)
    decreases Total(a[..]), 0
  {
    ghost var s := a[..];
    var b := new set<int>[81];
    forall i | 0 <= i < 81 {
      b[i] := a[i];
    }
    b[c] := {value};
    ghost var b0 := b[..];
    assert b0 == s[c := {value}];
    assert b0[c] != s[c];
    TotalWithin(b0, s, c);
    var ok := Propagate(b, c, value);
    ghost var b1 := b[..];
    if ok {
      TotalWithin(b1, b0, 0);
      var result := LookForward(b);
      if result.Some? {
        BranchSucceeds(s, b0, b1, result.value[..], c, value);
        assert a[..] == s;
        return result;
      }
    }
    BranchExcluded(s, b0, b1, c, value);
    assert a[..] == s;
    return None;
  }

  /**
   * Searches for a completion of the store without modifying it. Returns a
   * store in which no cell has more than one candidate, each cell a subset of
   * the input's, and no cell empty that was not empty in the input; a store
   * with no multi-candidate cell is returned itself. When the input is live
   * and settled the result is settled too, that is, solved. When some
   * consistent grid is admitted by the input a result is found, and the
   * branching cell gets the least value any such grid gives it.
   */
  method LookForward(a: array<set<int>>) returns (r: Option<array<set<int>>>)
    requires a.Length == 81
    ensures r.Some? ==> r.value.Length == 81 && Assigned(r.value[..]) && Within(r.value[..], a[..])
    ensures r.Some? ==> NoNewEmpty(a[..], r.value[..])
    ensures Assigned(a[..]) ==> r == Some(a)
    ensures r.Some? && Live(a[..]) && Settled(a[..]) ==> Settled(r.value[..])
    ensures (exists sol :: Consistent(sol) && Admits(a[..], sol)) ==> r.Some?
    ensures r.Some? && !Assigned(a[..]) ==>
              var c := SelectCell(a[..], 0).value;
              |r.value[c]| == 1 &&
              forall v, sol | v in r.value[c] && Consistent(sol) && Admits(a[..], sol) :: v <= sol[c]
    decreases Total(a[..]), 1
  {
    var chosen := SelectCell(a[..], 0);
    if chosen.None? {
      return Some(a);
    }
    ghost var s := a[..];
    var c := chosen.value;
    var remaining := a[c];
    while remaining != {}
      invariant remaining <= s[c]
      invariant ValuesCover(s, c, remaining)
      decreases remaining
    {
      HasMin(remaining);
      var value :| value in remaining && forall y | y in remaining :: value <= y;
      ghost var tried := remaining;
      remaining := remaining - {value};
      var result := Branch(a, c, value);
      if result.Some? {
        LeastBranch(s, c, tried, value, result.value[..]);
        return result;
      }
    }
    return None;
  }
}
