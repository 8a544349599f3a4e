/**
 * The whole-board fixpoint propagator run once on the loaded board: pass over
 * every group again and again, removing each singleton's value from the other
 * cells of the group, until a pass removes nothing. It does not look for
 * cells that run empty.
 *
 * The solver writes this as one `while` loop around two nested `for` loops
 * over groups and their cells, with a third loop over the group for each
 * singleton found; here the body of the `while` is `Pass` and the innermost
 * loop is `Eliminate`.
 */
module Fixpoint {
  import opened Topology
  import opened DomainStore

  /** Removing a singleton's value from one of its peers loses no consistent grid and no live, settled narrowing. */
  lemma DiscardKeepsSolutions(s: seq<set<int>>, i: Cell, j: Cell, v: int)
    requires |s| == 81 && Peer(i, j) && s[i] == {v}
    ensures KeepsSolutions(s, s[j := s[j] - {v}])
  {
    forall sol | Consistent(sol) && Admits(s, sol)
      ensures Admits(s[j := s[j] - {v}], sol)
    {
      assert sol[i] in s[i];
    }
    forall S: seq<set<int>> | |S| == 81 && Live(S) && Settled(S) && Within(S, s)
      ensures Within(S, s[j := s[j] - {v}])
    {
      WithinSingleton(S[i], v);
      assert PairSettled(S, i, j);
    }
  }

  /** Keeping solutions is transitive. */
  lemma KeepsSolutionsTrans(s: seq<set<int>>, t: seq<set<int>>, u: seq<set<int>>)
    ensures KeepsSolutions(s, t) && KeepsSolutions(t, u) ==> KeepsSolutions(s, u)
  {
  }

  /** A settled store is settled group by group. */
  lemma SettledGroups(s: seq<set<int>>, g: GroupId)
    requires |s| == 81 && Settled(s)
    ensures GroupSettled(s, g)
  {
    forall k1: Slot, k2: Slot | k1 != k2
      ensures PairSettled(s, Member(g, k1), Member(g, k2))
    {
      GroupPeers(g, k1, k2);
    }
  }

  /**
   * The store after the innermost loop has visited the first `upto` cells of
   * group g, removing v from each of them except the k-th.
   */
  ghost function Stripped(s: seq<set<int>>, g: GroupId, k: Slot, v: int, upto: nat): (t: seq<set<int>>)
    requires |s| == 81 && upto <= 9
    ensures |t| == 81
  {
    if upto == 0 then s
    else
      var t := Stripped(s, g, k, v, upto - 1);
      var c := Member(g, upto - 1);
      if upto - 1 == k then t else t[c := t[c] - {v}]
  }

  /**
   * After the whole group has been visited, the k-th cell is unchanged, every
   * other cell of the group has lost v, and every cell outside the group is
   * unchanged.
   */
  lemma {:induction false} StrippedCells(s: seq<set<int>>, g: GroupId, k: Slot, v: int, upto: nat)
    requires |s| == 81 && upto <= 9
    ensures forall k3: Slot | k3 < upto && k3 != k ::
              Stripped(s, g, k, v, upto)[Member(g, k3)] == s[Member(g, k3)] - {v}
    ensures forall k3: Slot | upto <= k3 || k3 == k :: Stripped(s, g, k, v, upto)[Member(g, k3)] == s[Member(g, k3)]
    ensures forall c: Cell | !InGroup(c, g) :: Stripped(s, g, k, v, upto)[c] == s[c]
  {
    MembersDistinct(g);
    if upto > 0 {
      StrippedCells(s, g, k, v, upto - 1);
    }
  }

  /** Stripping only shrinks cells. */
  lemma {:induction false} StrippedWithin(s: seq<set<int>>, g: GroupId, k: Slot, v: int, upto: nat)
    requires |s| == 81 && upto <= 9
    ensures Within(Stripped(s, g, k, v, upto), s)
  {
    if upto > 0 {
      StrippedWithin(s, g, k, v, upto - 1);
    }
  }

  /** Stripping leaves the k-th cell of the group alone. */
  lemma {:induction false} StrippedOwn(s: seq<set<int>>, g: GroupId, k: Slot, v: int, upto: nat)
    requires |s| == 81 && upto <= 9
    ensures Stripped(s, g, k, v, upto)[Member(g, k)] == s[Member(g, k)]
  {
    if upto > 0 {
      StrippedOwn(s, g, k, v, upto - 1);
      if Member(g, k) == Member(g, upto - 1) {
        MemberInjective(g, k, upto - 1);
      }
    }
  }

  /** Stripping v from one more cell of the group, other than the k-th, loses nothing that stripping the earlier cells kept. */
  lemma StrippedKeepsStep(s: seq<set<int>>, g: GroupId, k: Slot, v: int, upto: nat)
    requires |s| == 81 && 0 < upto <= 9 && upto - 1 != k && s[Member(g, k)] == {v}
    ensures KeepsSolutions(Stripped(s, g, k, v, upto - 1), Stripped(s, g, k, v, upto))
  {
    var t := Stripped(s, g, k, v, upto - 1);
    var j := Member(g, upto - 1);
    assert Stripped(s, g, k, v, upto) == t[j := t[j] - {v}];
    StrippedOwn(s, g, k, v, upto - 1);
    GroupPeers(g, k, upto - 1);
    DiscardKeepsSolutions(t, Member(g, k), j, v);
  }

  /** While cell k holds just v, stripping v from its group loses no consistent grid. */
  lemma {:induction false} StrippedKeeps(s: seq<set<int>>, g: GroupId, k: Slot, v: int, upto: nat)
    requires |s| == 81 && upto <= 9 && s[Member(g, k)] == {v}
    ensures KeepsSolutions(s, Stripped(s, g, k, v, upto))
  {
    if upto == 0 {
      assert Stripped(s, g, k, v, upto) == s;
    } else {
      StrippedKeeps(s, g, k, v, upto - 1);
      if upto - 1 != k {
        StrippedKeepsStep(s, g, k, v, upto);
        KeepsSolutionsTrans(s, Stripped(s, g, k, v, upto - 1), Stripped(s, g, k, v, upto));
      } else {
        assert Stripped(s, g, k, v, upto) == Stripped(s, g, k, v, upto - 1);
      }
    }
  }

  /** Stripping changes the store exactly when some other cell of the group holds v. */
  lemma StrippedChanges(s: seq<set<int>>, g: GroupId, k: Slot, v: int)
    requires |s| == 81
    ensures Stripped(s, g, k, v, 9) == s <==> forall k3: Slot | k3 != k :: v !in s[Member(g, k3)]
  {
    var r := Stripped(s, g, k, v, 9);
    StrippedCells(s, g, k, v, 9);
    if forall k3: Slot | k3 != k :: v !in s[Member(g, k3)] {
      forall c: Cell
        ensures r[c] == s[c]
      {
        if InGroup(c, g) {
          var k3 := SlotOf(c, g);
          assert r[Member(g, k3)] == s[Member(g, k3)];
        }
      }
    }
  }

  /** A store that stripping changed has fewer candidates in total. */
  lemma StrippedTotal(s: seq<set<int>>, g: GroupId, k: Slot, v: int)
    requires |s| == 81
    ensures Stripped(s, g, k, v, 9) != s ==> Total(Stripped(s, g, k, v, 9)) < Total(s)
  {
    var r := Stripped(s, g, k, v, 9);
    StrippedWithin(s, g, k, v, 9);
    if r != s {
      var d :| 0 <= d < 81 && r[d] != s[d];
      TotalWithin(r, s, d);
    }
  }

  /** Some cell of group g other than the k-th, among its first `upto`, holds v. */
  ghost predicate HeldElsewhere(s: seq<set<int>>, g: GroupId, k: Slot, v: int, upto: int)
    requires |s| == 81
  {
    exists k3: Slot | k3 < upto && k3 != k :: v in s[Member(g, k3)]
  }

  lemma HeldElsewhereStep(s: seq<set<int>>, g: GroupId, k: Slot, v: int, upto: Slot)
    requires |s| == 81
    ensures HeldElsewhere(s, g, k, v, upto + 1) <==>
            HeldElsewhere(s, g, k, v, upto) || (upto != k && v in s[Member(g, upto)])
  {
    if HeldElsewhere(s, g, k, v, upto + 1) {
      var k3: Slot :| k3 < upto + 1 && k3 != k && v in s[Member(g, k3)];
      if k3 < upto {
        assert HeldElsewhere(s, g, k, v, upto);
      }
    }
    if upto != k && v in s[Member(g, upto)] {
      assert HeldElsewhere(s, g, k, v, upto + 1);
    }
    if HeldElsewhere(s, g, k, v, upto) {
      var k3: Slot :| k3 < upto && k3 != k && v in s[Member(g, k3)];
      assert HeldElsewhere(s, g, k, v, upto + 1);
    }
  }

  /**
   * The innermost loop: cell k of group g holds the single value `value`;
   * remove it from every other cell of the group. Reports whether anything
   * was removed.
   */
  method Eliminate(a: array<set<int>>, g: GroupId, k: Slot, value: int) returns (removed: bool)
    requires a.Length == 81 && a[Member(g, k)] == {value}
    modifies a
    ensures a[..] == Stripped(old(a[..]), g, k, value, 9)
    ensures removed <==> HeldElsewhere(old(a[..]), g, k, value, 9)
  {
    ghost var a0 := a[..];
    var constraint := Group(g);
    var cellId := constraint[k];
    MembersDistinct(g);
    removed := false;
    for k2 := 0 to 9
      invariant a[..] == Stripped(a0, g, k, value, k2)
      invariant removed <==> HeldElsewhere(a0, g, k, value, k2)
    {
      var key := constraint[k2];
      ghost var before := a[..];
      StrippedCells(a0, g, k, value, k2);
      assert before[key] == a0[key];
      HeldElsewhereStep(a0, g, k, value, k2);
      if key != cellId && value in a[key] {
        a[key] := a[key] - {value};
        removed := true;
        assert a[..] == before[key := before[key] - {value}];
      } else if key != cellId {
        assert before[key] - {value} == before[key];
        assert before[key := before[key] - {value}] == before;
      }
    }
  }

  /**
   * What one singleton's elimination does to the visit of group g that began
   * at `a0`: sets still only shrink, nothing a solution needs is lost, cells
   * outside the group still hold their values from `a0`; a removal lowers the
   * total, no removal leaves the singleton settled against its group, and a
   * settled store is left as it was.
   */
  lemma SweepStep(a0: seq<set<int>>, prev: seq<set<int>>, g: GroupId, k: Slot, v: int)
    requires |a0| == 81 && |prev| == 81 && prev[Member(g, k)] == {v}
    requires Within(prev, a0) && KeepsSolutions(a0, prev)
    requires forall c: Cell | !InGroup(c, g) :: prev[c] == a0[c]
    requires Settled(a0) ==> prev == a0
    ensures var post := Stripped(prev, g, k, v, 9);
      && Within(post, a0) && KeepsSolutions(a0, post)
      && (forall c: Cell | !InGroup(c, g) :: post[c] == a0[c])
      && (HeldElsewhere(prev, g, k, v, 9) ==> Total(post) < Total(a0))
      && (!HeldElsewhere(prev, g, k, v, 9) ==> post == prev)
      && (!HeldElsewhere(prev, g, k, v, 9) ==>
            forall k2: Slot | k2 != k :: PairSettled(post, Member(g, k), Member(g, k2)))
      && (Settled(a0) ==> !HeldElsewhere(prev, g, k, v, 9))
  {
    var post := Stripped(prev, g, k, v, 9);
    if Settled(a0) {
      SettledGroups(prev, g);
      assert forall k3: Slot | k3 != k :: PairSettled(prev, Member(g, k), Member(g, k3));
    }
    StrippedKeeps(prev, g, k, v, 9);
    StrippedWithin(prev, g, k, v, 9);
    StrippedChanges(prev, g, k, v);
    StrippedTotal(prev, g, k, v);
    StrippedCells(prev, g, k, v, 9);
    KeepsSolutionsTrans(a0, prev, post);
    TotalWithin(prev, a0, 0);
    if !HeldElsewhere(prev, g, k, v, 9) {
      forall k2: Slot | k2 != k
        ensures PairSettled(post, Member(g, k), Member(g, k2))
      {
        assert post[Member(g, k2)] == prev[Member(g, k2)] - {v};
      }
    }
  }

  /**
   * The visit of one group within a pass: every singleton of the group, in
   * order, has its value removed from the other cells of the group. Cells
   * outside the group are left as they were. Reports whether anything was
   * removed; when nothing was, the store is unchanged and the group settled.
   */
  method SweepGroup(a: array<set<int>>, g: GroupId) returns (changed: bool)
    requires a.Length == 81
    modifies a
    ensures Within(a[..], old(a[..])) && KeepsSolutions(old(a[..]), a[..])
    ensures changed ==> Total(a[..]) < Total(old(a[..]))
    ensures !changed ==> a[..] == old(a[..]) && GroupSettled(a[..], g)
    ensures Settled(old(a[..])) ==> !changed
    ensures forall c: Cell | !InGroup(c, g) :: a[c] == old(a[c])
  {
    ghost var a0 := a[..];
    changed := false;
    var constraint := Group(g);
    for k := 0 to 9
      invariant Within(a[..], a0) && KeepsSolutions(a0, a[..])
      invariant changed ==> Total(a[..]) < Total(a0)
      invariant !changed ==> a[..] == a0
      invariant !changed ==> forall k1: Slot, k2: Slot | k1 < k && k1 != k2 ::
                               PairSettled(a[..], Member(g, k1), Member(g, k2))
      invariant Settled(a0) ==> !changed
      invariant forall c: Cell | !InGroup(c, g) :: a[c] == a0[c]
    {
      var cellId := constraint[k];
      if |a[cellId]| == 1 {
        HasElement(a[cellId]);
        var uniqueValue :| uniqueValue in a[cellId];
        SingletonIs(a[cellId], uniqueValue);
        ghost var prev := a[..];
        var removed := Eliminate(a, g, k, uniqueValue);
        SweepStep(a0, prev, g, k, uniqueValue);
        if removed {
          changed := true;
        }
      }
    }
  }

  /**
   * One pass over every group. Reports whether anything was removed; when
   * nothing was, the store is unchanged and settled.
   */
  method Pass(a: array<set<int>>) returns (dirty: bool)
    requires a.Length == 81
    modifies a
    ensures Within(a[..], old(a[..])) && KeepsSolutions(old(a[..]), a[..])
    ensures dirty ==> Total(a[..]) < Total(old(a[..]))
    ensures !dirty ==> a[..] == old(a[..]) && Settled(a[..])
    ensures Settled(old(a[..])) ==> !dirty
  {
    ghost var a0 := a[..];
    dirty := false;
    for g := 0 to 27
      invariant Within(a[..], a0) && KeepsSolutions(a0, a[..])
      invariant dirty ==> Total(a[..]) < Total(a0)
      invariant !dirty ==> a[..] == a0
      invariant !dirty ==> forall g': GroupId | g' < g :: GroupSettled(a[..], g')
      invariant Settled(a0) ==> !dirty
    {
      ghost var prev := a[..];
      var changed := SweepGroup(a, g);
      KeepsSolutionsTrans(a0, prev, a[..]);
      if changed {
        TotalWithin(prev, a0, 0);
        dirty := true;
      }
    }
    if !dirty {
      GroupSettledAll(a[..]);
    }
  }

  /**
   * Runs passes over all groups until one removes nothing. Afterwards every
   * cell's set is a subset of what it was, every singleton's value is gone
   * from its peers (a fixpoint), and no consistent grid the board admitted
   * has been ruled out. A board already at the fixpoint is left as it is,
   * so a second call changes nothing.
   */
  method ApplyConstraints(a: array<set<int>>)
    requires a.Length == 81
    modifies a
    ensures Within(a[..], old(a[..]))
    ensures Settled(a[..])
    ensures KeepsSolutions(old(a[..]), a[..])
    ensures Settled(old(a[..])) ==> a[..] == old(a[..])
  {
    ghost var a0 := a[..];
    var dirty := true;
    while dirty
      invariant Within(a[..], a0) && KeepsSolutions(a0, a[..])
      invariant !dirty ==> Settled(a[..])
      invariant Settled(a0) ==> a[..] == a0
      decreases Total(a[..]), dirty
    {
      ghost var prev := a[..];
      dirty := Pass(a);
      KeepsSolutionsTrans(a0, prev, a[..]);
    }
  }
}
