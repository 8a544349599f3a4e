/**
 * The solver's main program: load the board, run the fixpoint propagator
 * once, then search. Displaying the result is not modelled; the outcome is
 * the store the search returns, or none.
 */
module Solver {
  import opened Topology
  import opened Wrappers
  import opened DomainStore
  import opened Fixpoint
  import opened Search

  /**
   * The store the tokens describe, before any propagation: no cell is empty,
   * and a cell holds a single candidate exactly when its token is below 10.
   */
  ghost function Loaded(tokens: seq<int>): (s: seq<set<int>>)
    requires |tokens| >= 81
    ensures |s| == 81 && Live(s)
    ensures forall c | 0 <= c < 81 :: |s[c]| == 1 <==> tokens[c] < 10
  {
    seq(81, c requires 0 <= c < 81 => Interpret(tokens[c]))
  }

  /** Every cell is given a value by its token. */
  ghost predicate AllGiven(tokens: seq<int>)
    requires |tokens| >= 81
  {
    forall c | 0 <= c < 81 :: tokens[c] < 10
  }

  /** Two peers are given the same value. */
  ghost predicate Clash(tokens: seq<int>)
    requires |tokens| >= 81
  {
    exists i: Cell, j: Cell :: Peer(i, j) && tokens[i] < 10 && tokens[i] == tokens[j]
  }

  /** Two peers narrowed from the same singleton in a settled store: one of them is empty. */
  lemma SettledPairEmpty(s: seq<set<int>>, i: Cell, j: Cell, v: int)
    requires |s| == 81 && PairSettled(s, i, j) && s[i] <= {v} && s[j] <= {v}
    ensures s[i] == {} || s[j] == {}
  {
    WithinSingleton(s[i], v);
    WithinSingleton(s[j], v);
  }

  /**
   * Narrowing a fully given board to a settled store empties a cell whenever
   * two peers were given the same value, and leaves no cell with more than
   * one candidate.
   */
  lemma ClashLeavesEmpty(tokens: seq<int>, s: seq<set<int>>)
    requires |tokens| >= 81 && AllGiven(tokens) && Clash(tokens)
    requires |s| == 81 && Within(s, Loaded(tokens)) && Settled(s)
    ensures Assigned(s) && !Live(s)
  {
    var t := Loaded(tokens);
    forall c | 0 <= c < 81
      ensures |s[c]| <= 1
    {
      assert t[c] == {tokens[c]};
      WithinSingleton(s[c], tokens[c]);
    }
    var i: Cell, j: Cell :| Peer(i, j) && tokens[i] < 10 && tokens[i] == tokens[j];
    assert t[i] == {tokens[i]} && t[j] == {tokens[i]};
    assert PairSettled(s, i, j);
    SettledPairEmpty(s, i, j, tokens[i]);
  }

  /** A store that admits some grid has no empty cell. */
  lemma AdmitsLive(s: seq<set<int>>, sol: seq<int>)
    requires Admits(s, sol)
    ensures Live(s)
  {
    forall c | 0 <= c < |s|
      ensures s[c] != {}
    {
      assert sol[c] in s[c];
    }
  }

  /** A narrowing that keeps every consistent grid has no empty cell when there is such a grid. */
  lemma KeptLive(t: seq<set<int>>, s: seq<set<int>>)
    requires KeepsSolutions(t, s)
    ensures forall sol | Consistent(sol) && Admits(t, sol) :: Live(s)
  {
    forall sol | Consistent(sol) && Admits(t, sol)
      ensures Live(s)
    {
      AdmitsLive(s, sol);
    }
  }

  /**
   * A store the search returns from a live, settled narrowing of the board
   * is a solved grid that respects the board's tokens.
   */
  lemma Reported(tokens: seq<int>, applied: seq<set<int>>, s: seq<set<int>>)
    requires |tokens| >= 81 && |applied| == 81 && Within(applied, Loaded(tokens))
    requires Live(applied) && Settled(applied)
    requires |s| == 81 && Assigned(s) && Within(s, applied) && NoNewEmpty(applied, s) && Settled(s)
    ensures Live(s) && Consistent(Values(s)) && Admits(Loaded(tokens), Values(s))
  {
    SolvedStore(s);
    var sol := Values(s);
    assert Admits(s, sol);
  }

  /** A board whose every token is 1 is fully given and clashes. */
  lemma ClashingGridAccepted()
    ensures var ones := seq(81, _ => 1); AllGiven(ones) && Clash(ones)
  {
    var ones := seq(81, _ => 1);
    assert Peer(0, 1);
    assert ones[0] < 10 && ones[0] == ones[1];
  }

  /**
   * The main program as it stands: a result is reported whenever the search
   * returns a store, and the search returns any store without a
   * multi-candidate cell, so a fully given board with two equal peers is
   * reported solved with an empty cell.
   */
  method SolveAsWritten(tokens: seq<int>) returns (r: Result<Option<array<set<int>>>, LoadError>)
    ensures r.Failure? <==> |tokens| < 81
    ensures r.Success? && r.value.Some? ==>
              r.value.value.Length == 81 && Assigned(r.value.value[..]) &&
              Within(r.value.value[..], Loaded(tokens))
    ensures r.Success? && AllGiven(tokens) && Clash(tokens) ==>
              r.value.Some? && r.value.value.Length == 81 && !Live(r.value.value[..])
  {
    var loaded := LoadBoard(tokens);
    if loaded.Failure? {
      return Failure(loaded.error);
    }
    var a := loaded.value;
    assert a[..] == Loaded(tokens);
    ApplyConstraints(a);
    ghost var applied := a[..];
    if AllGiven(tokens) && Clash(tokens) {
      ClashLeavesEmpty(tokens, applied);
    }
    var solution := LookForward(a);
    assert a[..] == applied;
    return Success(solution);
  }

  /** Reports whether some cell has no candidate left. */
  method HasEmptyCell(a: array<set<int>>) returns (found: bool)
    requires a.Length == 81
    ensures found <==> !Live(a[..])
  {
    for c := 0 to 81
      invariant forall d | 0 <= d < c :: a[d] != {}
    {
      if a[c] == {} {
        return true;
      }
    }
    return false;
  }

  /**
   * The main program with the empty-cell check the search lacks: after the
   * fixpoint propagator, a board with an empty cell has no solution. A store
   * is reported exactly when the board has a consistent completion, and the
   * store reported is one: each cell holds one value, taken from its token,
   * and no two peers share one.
   */
  method Solve(tokens: seq<int>) returns (r: Result<Option<array<set<int>>>, LoadError>)
    ensures r.Failure? <==> |tokens| < 81
    ensures r.Success? && r.value.Some? ==>
              var s := r.value.value[..];
              |s| == 81 && Live(s) && Assigned(s) && Settled(s) &&
              Consistent(Values(s)) && Admits(Loaded(tokens), Values(s))
    ensures r.Success? ==>
              (r.value.Some? <==> exists sol :: Consistent(sol) && Admits(Loaded(tokens), sol))
  {
    var loaded := LoadBoard(tokens);
    if loaded.Failure? {
      return Failure(loaded.error);
    }
    var a := loaded.value;
    ghost var t := a[..];
    assert t == Loaded(tokens);
    ApplyConstraints(a);
    ghost var applied := a[..];
    KeptLive(t, applied);
    var empty := HasEmptyCell(a);
    if empty {
      return Success(None);
    }
    var solution := LookForward(a);
    if solution.Some? {
      Reported(tokens, applied, solution.value[..]);
    }
    return Success(solution);
  }
}
