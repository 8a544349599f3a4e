/**
 * The domain store: one candidate set per cell, indexed in row-major order.
 *
 * The solver keeps the store in a dictionary from cell name to a mutable set;
 * here the imperative code holds it in an `array<set<int>>` of length 81 and
 * the contracts talk about its contents `a[..]`, a `seq<set<int>>`.
 * Candidates are plain integers: the loader accepts any token below 10,
 * so a store may hold values outside 1..9.
 */
module DomainStore {
  import opened Topology
  import opened Wrappers

  /** The candidate set of a cell about which nothing is known. */
  function Digits(): set<int>
  {
    {1, 2, 3, 4, 5, 6, 7, 8, 9}
  }

  /**
   * One input token read as a candidate set: below 10 it is a given, otherwise
   * a blank. The set is never empty; it is a single candidate exactly when the
   * token is below 10, and then the token itself; a blank holds the nine
   * digits; only a token of 0 or less yields a value that is not a digit.
   */
  function Interpret(token: int): (x: set<int>)
    ensures x != {}
    ensures |x| == 1 <==> token < 10
    ensures token < 10 ==> token in x
    ensures token >= 10 ==> forall v :: v in x <==> 1 <= v <= 9
    ensures 1 <= token <= 9 || token >= 10 ==> x <= Digits()
  {
    DigitsCount();
    if token < 10 then {token} else Digits()
  }

  datatype LoadError = MissingLine(cell: Cell)

  /**
   * Builds the store from the input tokens, one per cell in row-major order:
   * every cell starts with all nine digits and a token below 10 overwrites it
   * with that single value. The input runs out before the 81st cell is read
   * when there are fewer than 81 tokens; tokens after the 81st are not read.
   */
  method LoadBoard(tokens: seq<int>) returns (r: Result<array<set<int>>, LoadError>)
    ensures r.Failure? <==> |tokens| < 81
    ensures r.Failure? ==> r.error == MissingLine(|tokens|)
    ensures r.Success? ==> fresh(r.value) && r.value.Length == 81
    ensures r.Success? ==> forall c | 0 <= c < 81 :: r.value[c] == Interpret(tokens[c])
  {
    var store := new set<int>[81](_ => Digits());
    for c := 0 to 81
      invariant c <= |tokens|
      invariant forall d | 0 <= d < c :: store[d] == Interpret(tokens[d])
      invariant forall d | c <= d < 81 :: store[d] == Digits()
    {
      if c >= |tokens| {
        return Failure(MissingLine(c));
      }
      var keyValue := tokens[c];
      if keyValue < 10 {
        store[c] := {keyValue};
      }
    }
    return Success(store);
  }

  /** The nine digits, and nothing else. */
  lemma DigitsCount()
    ensures |Digits()| == 9
    ensures forall v :: v in Digits() <==> 1 <= v <= 9
  {
  }

  /** Every cell of `s` is a subset of the same cell of `t`. */
  ghost predicate Within(s: seq<set<int>>, t: seq<set<int>>)
  {
    |s| == |t| && forall c | 0 <= c < |s| :: s[c] <= t[c]
  }

  /** No cell has run out of candidates. */
  ghost predicate Live(s: seq<set<int>>)
  {
    forall c | 0 <= c < |s| :: s[c] != {}
  }

  /** No cell has more than one candidate: the search has nothing left to branch on. */
  ghost predicate Assigned(s: seq<set<int>>)
  {
    forall c | 0 <= c < |s| :: |s[c]| <= 1
  }

  /** Every cell that is empty in `s` was already empty in `t`. */
  ghost predicate NoNewEmpty(t: seq<set<int>>, s: seq<set<int>>)
    requires |s| == |t|
  {
    forall c | 0 <= c < |s| :: s[c] == {} ==> t[c] == {}
  }

  /** If cell i holds a single value, cell j does not hold it. */
  ghost predicate PairSettled(s: seq<set<int>>, i: Cell, j: Cell)
    requires |s| == 81
  {
    |s[i]| == 1 ==> s[i] !! s[j]
  }

  /** Every singleton's value is absent from all its peers. */
  ghost predicate Settled(s: seq<set<int>>)
    requires |s| == 81
  {
    forall i: Cell, j: Cell | Peer(i, j) :: PairSettled(s, i, j)
  }

  /** The same property group by group, as the fixpoint pass checks it. */
  ghost predicate GroupSettled(s: seq<set<int>>, g: GroupId)
    requires |s| == 81
  {
    forall k1: Slot, k2: Slot | k1 != k2 :: PairSettled(s, Member(g, k1), Member(g, k2))
  }

  /** A complete grid in which no two peers share a value. */
  ghost predicate Consistent(sol: seq<int>)
  {
    |sol| == 81 && forall i: Cell, j: Cell | Peer(i, j) :: sol[i] != sol[j]
  }

  /** A solved Sudoku: consistent and every value a digit. */
  ghost predicate IsSolution(sol: seq<int>)
  {
    Consistent(sol) && forall c | 0 <= c < 81 :: 1 <= sol[c] <= 9
  }

  /** The grid `sol` picks one candidate of every cell of the store. */
  ghost predicate Admits(s: seq<set<int>>, sol: seq<int>)
  {
    |sol| == |s| && forall c | 0 <= c < |s| :: sol[c] in s[c]
  }

  /**
   * Nothing was removed that a solution needs: every consistent grid that `t`
   * admits, `s` admits too, and every live, settled narrowing of `t` is a
   * narrowing of `s`.
   */
  ghost predicate KeepsSolutions(t: seq<set<int>>, s: seq<set<int>>)
  {
    && (forall sol | Consistent(sol) && Admits(t, sol) :: Admits(s, sol))
    && (forall S: seq<set<int>> {:trigger Within(S, t)} | |S| == 81 && Live(S) && Settled(S) && Within(S, t) ::
          Within(S, s))
  }

  /** The total number of candidates in the store; every propagation step lowers it. */
  function Total(s: seq<set<int>>): nat
  {
    if s == [] then 0 else |s[0]| + Total(s[1..])
  }

  lemma ProperSubsetSmaller(x: set<int>, y: set<int>)
    requires x <= y && x != y
    ensures |x| < |y|
  {
    var extra := y - x;
    assert y == x + extra;
    assert extra != {};
  }

  /** Shrinking cells never raises the total, and shrinking one strictly lowers it. */
  lemma {:induction false} TotalWithin(s: seq<set<int>>, t: seq<set<int>>, c: int)
    requires Within(s, t)
    ensures Total(s) <= Total(t)
    ensures 0 <= c < |s| && s[c] != t[c] ==> Total(s) < Total(t)
  {
    if s != [] {
      if s[0] != t[0] {
        ProperSubsetSmaller(s[0], t[0]);
      }
      assert |s[0]| <= |t[0]| by {
        if s[0] == t[0] {
        } else {
          ProperSubsetSmaller(s[0], t[0]);
        }
      }
      TotalWithin(s[1..], t[1..], c - 1);
    }
  }

  /** A set with one element that contains x is {x}. */
  lemma SingletonIs(x: set<int>, v: int)
    requires |x| == 1 && v in x
    ensures x == {v}
  {
    var rest := x - {v};
    assert x == {v} + rest;
    assert |rest| == 0;
  }

  /** The fixpoint pass's group-wise check is the peer-wise property. */
  lemma GroupSettledAll(s: seq<set<int>>)
    requires |s| == 81
    requires forall g: GroupId :: GroupSettled(s, g)
    ensures Settled(s)
  {
    forall i: Cell, j: Cell | Peer(i, j)
      ensures PairSettled(s, i, j)
    {
      var g, ki, kj := PeerGroup(i, j);
      assert GroupSettled(s, g);
    }
  }

  /** A subset of a singleton is empty or the singleton itself. */
  lemma WithinSingleton(x: set<int>, v: int)
    requires x <= {v}
    ensures x == {} || x == {v}
    ensures |x| <= 1
  {
    if x != {} {
      HasElement(x);
      var y :| y in x;
      assert x == {v};
    }
  }

  /** A non-empty candidate set has an element to pick. */
  lemma HasElement(x: set<int>)
    requires x != {}
    ensures exists v :: v in x
  {
    if forall v :: v !in x {
      assert false;
    }
  }

  /** Some candidate of a non-empty set; the only one of a singleton. */
  ghost function Pick(x: set<int>): (v: int)
    requires x != {}
    ensures v in x
  {
    HasElement(x);
    var v :| v in x; v
  }

  /** The value of every cell of a fully assigned live store. */
  ghost function Values(s: seq<set<int>>): (sol: seq<int>)
    requires |s| == 81 && Live(s) && Assigned(s)
    ensures Admits(s, sol)
  {
    seq(81, c requires 0 <= c < 81 => Pick(s[c]))
  }

  /**
   * A live, fully assigned store whose singletons are settled is a solved
   * grid: it admits exactly one grid, and that grid is consistent; it is a
   * Sudoku solution when every candidate is a digit.
   */
  lemma SolvedStore(s: seq<set<int>>)
    requires |s| == 81 && Live(s) && Assigned(s) && Settled(s)
    ensures Consistent(Values(s))
    ensures forall sol | Admits(s, sol) :: sol == Values(s)
    ensures (forall c | 0 <= c < 81 :: s[c] <= Digits()) ==> IsSolution(Values(s))
  {
    var sol := Values(s);
    forall c | 0 <= c < 81
      ensures s[c] == {sol[c]}
    {
      SingletonIs(s[c], sol[c]);
    }
    forall i: Cell, j: Cell | Peer(i, j)
      ensures sol[i] != sol[j]
    {
      assert PairSettled(s, i, j);
    }
    forall other | Admits(s, other)
      ensures other == sol
    {
      assert forall c | 0 <= c < 81 :: other[c] in {sol[c]};
    }
  }

  /** A store built from a filled, valid grid is fully assigned, settled and admits only that grid. */
  lemma FilledGridLoads(tokens: seq<int>, s: seq<set<int>>)
    requires |tokens| >= 81 && IsSolution(tokens[..81])
    requires |s| == 81 && forall c | 0 <= c < 81 :: s[c] == Interpret(tokens[c])
    ensures Live(s) && Assigned(s) && Settled(s)
    ensures forall sol | Admits(s, sol) :: sol == tokens[..81]
  {
    forall c | 0 <= c < 81
      ensures s[c] == {tokens[c]}
    {
      assert tokens[..81][c] == tokens[c];
    }
    forall i: Cell, j: Cell | Peer(i, j)
      ensures PairSettled(s, i, j)
    {
      assert tokens[..81][i] != tokens[..81][j];
    }
    forall sol | Admits(s, sol)
      ensures sol == tokens[..81]
    {
      assert forall c | 0 <= c < 81 :: sol[c] in {tokens[c]};
    }
  }
}
