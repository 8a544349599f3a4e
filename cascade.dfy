/**
 * The cascade propagator used during search: after `cell` has been given
 * `value`, remove `value` from every peer of `cell`, visiting the groups that
 * contain `cell` in order and their cells in order. A peer left empty stops
 * the cascade with a failure; a peer left with one candidate has that
 * candidate propagated the same way, recursively, before the visit goes on.
 */
module Cascade {
  import opened Topology
  import opened DomainStore

  /** No peer of cell c holds v. */
  ghost predicate PeersCleared(s: seq<set<int>>, c: Cell, v: int)
    requires |s| == 81
  {
    forall j: Cell | Peer(c, j) :: v !in s[j]
  }

  /**
   * Every cell other than `except` that `s` holds as a singleton but `t`
   * did not has had its value removed from all its peers.
   */
  ghost predicate SinglesPropagated(t: seq<set<int>>, s: seq<set<int>>, except: int)
    requires |s| == |t| == 81
  {
    forall i: Cell, j: Cell | Peer(i, j) && i != except && |s[i]| == 1 && s[i] != t[i] :: s[i] !! s[j]
  }

  /**
   * Nothing was removed that giving cell c the value v does not rule out:
   * every consistent grid that `t` admits and that gives c the value v, `s`
   * admits too, and so is every live, settled narrowing of `t` that fixes c
   * to v a narrowing of `s`.
   */
  ghost predicate KeepsFrom(t: seq<set<int>>, s: seq<set<int>>, c: Cell, v: int)
    requires |t| == 81
  {
    && (forall sol | Consistent(sol) && Admits(t, sol) && sol[c] == v :: Admits(s, sol))
    && (forall S: seq<set<int>> {:trigger Within(S, t)} | |S| == 81 && Live(S) && Settled(S) && Within(S, t) && S[c] == {v} ::
          Within(S, s))
  }

  /** No consistent grid that `t` admits gives cell c the value v. */
  ghost predicate NoSolutionFrom(t: seq<set<int>>, c: Cell, v: int)
    requires |t| == 81
  {
    forall sol | Consistent(sol) && Admits(t, sol) :: sol[c] != v
  }

  /** No live, settled narrowing of `t` fixes cell c to v. */
  ghost predicate NoNarrowingFrom(t: seq<set<int>>, c: Cell, v: int)
    requires |t| == 81
  {
    forall S: seq<set<int>> {:trigger Within(S, t)} | |S| == 81 && Live(S) && Settled(S) && Within(S, t) :: S[c] != {v}
  }

  /**
   * Every peer of `c` in the groups before g, and in group g before position k,
   * has lost v.
   */
  ghost predicate Visited(s: seq<set<int>>, c: Cell, v: int, g: int, k: int)
    requires |s| == 81
  {
    forall g': GroupId, k': Slot | (g' < g || (g' == g && k' < k)) && InGroup(c, g') && Member(g', k') != c ::
      v !in s[Member(g', k')]
  }

  /** What holds of the store `s` at each step of a cascade that started from `a0`. */
  ghost predicate Progress(a0: seq<set<int>>, s: seq<set<int>>, c: Cell, v: int, g: int, k: int)
  {
    && |a0| == 81 && Within(s, a0) && NoNewEmpty(a0, s)
    && SinglesPropagated(a0, s, -1) && KeepsFrom(a0, s, c, v) && Visited(s, c, v, g, k)
  }

  /** A position holding `c` itself, or a peer without v, needs no removal. */
  lemma VisitedStep(s: seq<set<int>>, c: Cell, v: int, g: GroupId, k: Slot)
    requires |s| == 81 && Visited(s, c, v, g, k)
    requires Member(g, k) == c || v !in s[Member(g, k)]
    ensures Visited(s, c, v, g, k + 1)
  {
  }

  /** Finishing group g, or skipping it when it does not contain c, moves the visit to the next group. */
  lemma VisitedNext(s: seq<set<int>>, c: Cell, v: int, g: GroupId)
    requires |s| == 81
    requires Visited(s, c, v, g, 9) || (!InGroup(c, g) && Visited(s, c, v, g, 0))
    ensures Visited(s, c, v, g + 1, 0)
  {
  }

  /** The visit of all 27 groups has cleared every peer. */
  lemma VisitedAll(s: seq<set<int>>, c: Cell, v: int)
    requires |s| == 81 && Visited(s, c, v, 27, 0)
    ensures PeersCleared(s, c, v)
  {
    forall j: Cell | Peer(c, j)
      ensures v !in s[j]
    {
      var g, ki, kj := PeerGroup(c, j);
      MemberInGroup(g, ki);
    }
  }

  /** Removing v from a cell that holds it lowers the total, and empties a cell only if that one runs empty. */
  lemma DiscardShrinks(a0: seq<set<int>>, s: seq<set<int>>, p: Cell, v: int)
    requires |a0| == 81 && Within(s, a0) && NoNewEmpty(a0, s) && v in s[p]
    ensures var t := s[p := s[p] - {v}];
      && Within(t, a0) && Total(t) < Total(a0)
      && (t[p] == {} ==> !NoNewEmpty(a0, t))
      && (t[p] != {} ==> NoNewEmpty(a0, t))
  {
    var t := s[p := s[p] - {v}];
    assert v in a0[p] && v !in t[p];
    TotalWithin(t, a0, p);
  }

  /** Removing v from a peer of c loses no grid giving c the value v. */
  lemma DiscardKeeps(a0: seq<set<int>>, s: seq<set<int>>, c: Cell, v: int, p: Cell)
    requires |a0| == 81 && |s| == 81 && Peer(c, p) && KeepsFrom(a0, s, c, v)
    ensures var t := s[p := s[p] - {v}];
      && KeepsFrom(a0, t, c, v)
      && (t[p] == {} ==> NoSolutionFrom(a0, c, v) && NoNarrowingFrom(a0, c, v))
  {
    var t := s[p := s[p] - {v}];
    forall sol | Consistent(sol) && Admits(a0, sol) && sol[c] == v
      ensures Admits(t, sol)
    {
      assert sol[p] != sol[c];
      assert sol[p] in s[p];
    }
    forall S: seq<set<int>> | |S| == 81 && Live(S) && Settled(S) && Within(S, a0) && S[c] == {v}
      ensures Within(S, t)
    {
      assert PairSettled(S, c, p);
    }
    if t[p] == {} {
      forall S: seq<set<int>> | |S| == 81 && Live(S) && Settled(S) && Within(S, a0)
        ensures S[c] != {v}
      {
        assert S[p] != {};
      }
    }
  }

  /** Removing v from the k-th cell of group g advances the visit past it. */
  lemma DiscardVisited(s: seq<set<int>>, c: Cell, v: int, g: GroupId, k: Slot)
    requires |s| == 81 && Visited(s, c, v, g, k)
    ensures var p := Member(g, k); Visited(s[p := s[p] - {v}], c, v, g, k + 1)
  {
  }

  /** Removing v from p keeps earlier propagated singles propagated; p itself is pending if it is left with one. */
  lemma DiscardSingles(a0: seq<set<int>>, s: seq<set<int>>, p: Cell, v: int)
    requires |a0| == 81 && |s| == 81 && SinglesPropagated(a0, s, -1)
    ensures var t := s[p := s[p] - {v}];
      && SinglesPropagated(a0, t, p)
      && (|t[p]| != 1 ==> SinglesPropagated(a0, t, -1))
  {
    var t := s[p := s[p] - {v}];
    forall i: Cell, j: Cell | Peer(i, j) && i != p && |t[i]| == 1 && t[i] != a0[i]
      ensures t[i] !! t[j]
    {
      assert s[i] !! s[j];
    }
  }

  /**
   * Removing v from the k-th cell of a group of c, a peer holding v: the
   * total drops, no wanted grid is lost, and either the peer runs empty (no
   * grid gives c the value v), or it keeps two or more candidates (the
   * cascade goes on), or it is down to one (and must be propagated).
   */
  lemma Discard(a0: seq<set<int>>, s: seq<set<int>>, c: Cell, v: int, g: GroupId, k: Slot)
    requires Progress(a0, s, c, v, g, k) && InGroup(c, g)
    requires Member(g, k) != c && v in s[Member(g, k)]
    ensures var p := Member(g, k); var t := s[p := s[p] - {v}];
      && Within(t, a0) && Total(t) < Total(a0)
      && KeepsFrom(a0, t, c, v) && Visited(t, c, v, g, k + 1)
      && SinglesPropagated(a0, t, p)
      && (t[p] == {} ==> !NoNewEmpty(a0, t) && NoSolutionFrom(a0, c, v) && NoNarrowingFrom(a0, c, v))
      && (t[p] != {} ==> NoNewEmpty(a0, t))
      && (|t[p]| != 1 ==> SinglesPropagated(a0, t, -1))
  {
    var p := Member(g, k);
    var kc := SlotOf(c, g);
    GroupPeers(g, kc, k);
    DiscardShrinks(a0, s, p, v);
    DiscardKeeps(a0, s, c, v, p);
    DiscardVisited(s, c, v, g, k);
    DiscardSingles(a0, s, p, v);
  }

  /**
   * After a peer p was reduced to {next} and the recursive cascade from p
   * succeeded, the invariant of the visit holds again.
   */
  lemma Resumed(a0: seq<set<int>>, t: seq<set<int>>, u: seq<set<int>>, c: Cell, v: int,
                g: GroupId, k: Slot, p: Cell, next: int)
    requires |a0| == 81 && Within(t, a0) && NoNewEmpty(a0, t) && SinglesPropagated(a0, t, p)
    requires KeepsFrom(a0, t, c, v) && Visited(t, c, v, g, k + 1) && t[p] == {next}
    requires Within(u, t) && NoNewEmpty(t, u) && PeersCleared(u, p, next)
    requires SinglesPropagated(t, u, -1) && KeepsFrom(t, u, p, next)
    ensures Progress(a0, u, c, v, g, k + 1)
  {
    forall sol | Consistent(sol) && Admits(a0, sol) && sol[c] == v
      ensures Admits(u, sol)
    {
      assert sol[p] in t[p];
    }
    forall S: seq<set<int>> | |S| == 81 && Live(S) && Settled(S) && Within(S, a0) && S[c] == {v}
      ensures Within(S, u)
    {
      assert Within(S, t);
      WithinSingleton(S[p], next);
    }
    forall i: Cell, j: Cell | Peer(i, j) && |u[i]| == 1 && u[i] != a0[i]
      ensures u[i] !! u[j]
    {
      if u[i] == t[i] && i != p {
        assert t[i] !! t[j];
      }
    }
  }

  /** A failed recursive cascade fails the whole cascade. */
  lemma Failed(a0: seq<set<int>>, t: seq<set<int>>, u: seq<set<int>>, c: Cell, v: int, p: Cell, next: int)
    requires |a0| == 81 && Within(t, a0) && KeepsFrom(a0, t, c, v) && t[p] == {next}
    requires Within(u, t) && !NoNewEmpty(t, u) && NoSolutionFrom(t, p, next) && NoNarrowingFrom(t, p, next)
    ensures !NoNewEmpty(a0, u) && NoSolutionFrom(a0, c, v) && NoNarrowingFrom(a0, c, v)
  {
    forall S: seq<set<int>> | |S| == 81 && Live(S) && Settled(S) && Within(S, a0)
      ensures S[c] != {v}
    {
      if S[c] == {v} {
        assert Within(S, t);
        WithinSingleton(S[p], next);
      }
    }
  }

  /**
   * Propagates the assignment of `value` to `cell` through the store. The
   * result is true exactly when no cell ran empty in the cascade. Sets only
   * shrink. On success no peer of `cell` holds `value`, every cell the
   * cascade reduced to one candidate has had that candidate removed from its
   * own peers, and every consistent grid giving `cell` the value `value` is
   * still admitted, as is every live, settled narrowing of the store that
   * fixes `cell` to `value`; on failure there is no such grid and no such
   * narrowing.
   */
  method Propagate(a: array<set<int>>, cell: Cell, value: int) returns (ok: bool)
    requires a.Length == 81
    modifies a
    ensures Within(a[..], old(a[..]))
    ensures ok <==> NoNewEmpty(old(a[..]), a[..])
    ensures ok ==> PeersCleared(a[..], cell, value)
    ensures ok ==> SinglesPropagated(old(a[..]), a[..], -1)
    ensures ok ==> KeepsFrom(old(a[..]), a[..], cell, value)
    ensures !ok ==> NoSolutionFrom(old(a[..]), cell, value) && NoNarrowingFrom(old(a[..]), cell, value)
    decreases Total(a[..])
  {
    ghost var a0 := a[..];
    for g := 0 to 27
      invariant Progress(a0, a[..], cell, value, g, 0)
    {
      var constraint := Group(g);
      InGroupIff(cell, g);
      if cell in constraint {
        for k := 0 to 9
          invariant Progress(a0, a[..], cell, value, g, k)
        {
          var peer := constraint[k];
          if peer != cell && value in a[peer] {
            Discard(a0, a[..], cell, value, g, k);
            ghost var before := a[..];
            a[peer] := a[peer] - {value};
            assert a[..] == before[peer := before[peer] - {value}];
            if |a[peer]| == 0 {
              return false;
            } else if |a[peer]| == 1 {
              HasElement(a[peer]);
              var nextValue :| nextValue in a[peer];
              SingletonIs(a[peer], nextValue);
              ghost var t := a[..];
              var propagated := Propagate(a, peer, nextValue);
              if !propagated {
                Failed(a0, t, a[..], cell, value, peer, nextValue);
                return false;
              }
              Resumed(a0, t, a[..], cell, value, g, k, peer, nextValue);
            }
          } else {
            VisitedStep(a[..], cell, value, g, k);
          }
        }
      }
      VisitedNext(a[..], cell, value, g);
    }
    VisitedAll(a[..], cell, value);
    return true;
  }
}
