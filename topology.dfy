/**
 * The static structure of the board: 81 cells and 27 constraint groups.
 *
 * A cell is its position in the row-major list of cell names
 * (A1, B1, ..., I1, A2, ..., I9), so cell `c` is column `c % 9` and
 * row `c / 9`. The groups are listed as the solver lists them: the nine
 * rows, then the nine columns, then the nine 3x3 blocks, blocks ordered
 * row-major and the cells of a block row-major inside it.
 */
module Topology {

  type Cell = c: int | 0 <= c < 81

  /** Index of a constraint group: 0..8 rows, 9..17 columns, 18..26 blocks. */
  type GroupId = g: int | 0 <= g < 27

  type Slot = k: int | 0 <= k < 9

  function Row(c: Cell): Slot { c / 9 }

  function Col(c: Cell): Slot { c % 9 }

  function Block(c: Cell): Slot { (Row(c) / 3) * 3 + Col(c) / 3 }

  /** The cell's name as the solver spells it: column letter, then row digit. */
  function Name(c: Cell): (name: string)
    ensures |name| == 2 && 'A' <= name[0] <= 'I' && '1' <= name[1] <= '9'
  {
    [('A' as int + Col(c)) as char, ('1' as int + Row(c)) as char]
  }

  /** The k-th cell of group g, in the order the solver lists the group. */
  function Member(g: GroupId, k: Slot): Cell
  {
    if g < 9 then g * 9 + k
    else if g < 18 then k * 9 + (g - 9)
    else
      var b := g - 18;
      ((b / 3) * 3 + k / 3) * 9 + (b % 3) * 3 + k % 3
  }

  /** The cells of group g, as the solver lists them: nine different cells, all in that row, column or block. */
  function Group(g: GroupId): (cells: seq<Cell>)
    ensures |cells| == 9
    ensures forall k | 0 <= k < 9 :: InGroup(cells[k], g)
    ensures forall k1, k2 | 0 <= k1 < 9 && 0 <= k2 < 9 && k1 != k2 :: cells[k1] != cells[k2]
  {
    MembersDistinct(g);
    seq(9, k requires 0 <= k < 9 => Member(g, k))
  }

  /** The list of constraint groups: nine rows, then nine columns, then nine blocks, each of nine different cells. */
  function Groups(): (groups: seq<seq<Cell>>)
    ensures |groups| == 27
    ensures forall g | 0 <= g < 27 :: |groups[g]| == 9
    ensures forall g, k | 0 <= g < 27 && 0 <= k < 9 :: InGroup(groups[g][k], g)
    ensures forall g, k1, k2 | 0 <= g < 27 && 0 <= k1 < 9 && 0 <= k2 < 9 && k1 != k2 ::
              groups[g][k1] != groups[g][k2]
  {
    seq(27, g requires 0 <= g < 27 => Group(g))
  }

  /** Whether cell c belongs to group g, by coordinates. */
  predicate InGroup(c: Cell, g: GroupId)
  {
    if g < 9 then Row(c) == g
    else if g < 18 then Col(c) == g - 9
    else Block(c) == g - 18
  }

  /** Two distinct cells that share a row, a column or a block. */
  predicate Peer(i: Cell, j: Cell)
  {
    i != j && (Row(i) == Row(j) || Col(i) == Col(j) || Block(i) == Block(j))
  }

  /** Division by 9 recovers quotient and remainder. */
  lemma DivMod9(q: int, r: int)
    requires 0 <= r < 9
    ensures (q * 9 + r) / 9 == q && (q * 9 + r) % 9 == r
  {
  }

  /** Division by 3 recovers quotient and remainder. */
  lemma DivMod3(q: int, r: int)
    requires 0 <= r < 3
    ensures (q * 3 + r) / 3 == q && (q * 3 + r) % 3 == r
  {
  }

  /** The k-th cell of block b sits at block-row k / 3 and block-column k % 3 of that block. */
  lemma MemberInBlock(b: Slot, k: Slot)
    ensures Row(Member(18 + b, k)) == (b / 3) * 3 + k / 3
    ensures Col(Member(18 + b, k)) == (b % 3) * 3 + k % 3
    ensures Block(Member(18 + b, k)) == b
  {
    var bq, br, kq, kr := b / 3, b % 3, k / 3, k % 3;
    assert 0 <= bq < 3 && 0 <= br < 3 && 0 <= kq < 3 && 0 <= kr < 3;
    var r: int, c: int := bq * 3 + kq, br * 3 + kr;
    assert Member(18 + b, k) == r * 9 + c;
    DivMod9(r, c);
    DivMod3(bq, kq);
    DivMod3(br, kr);
    assert b == bq * 3 + br;
  }

  lemma MemberInGroup(g: GroupId, k: Slot)
    ensures InGroup(Member(g, k), g)
    ensures g < 9 ==> Col(Member(g, k)) == k
    ensures 9 <= g < 18 ==> Row(Member(g, k)) == k
    ensures 18 <= g ==> Row(Member(g, k)) % 3 == k / 3 && Col(Member(g, k)) % 3 == k % 3
  {
    if g < 9 {
      DivMod9(g, k);
    } else if g < 18 {
      DivMod9(k, g - 9);
    } else {
      var b := g - 18;
      MemberInBlock(b, k);
      DivMod3(b / 3, k / 3);
      DivMod3(b % 3, k % 3);
    }
  }

  /** Each cell of a group sits at one position of it, found from its coordinates. */
  lemma SlotOf(c: Cell, g: GroupId) returns (k: Slot)
    requires InGroup(c, g)
    ensures Member(g, k) == c
  {
    var r: int, col: int := Row(c), Col(c);
    assert c == r * 9 + col;
    if g < 9 {
      k := col;
    } else if g < 18 {
      k := r;
    } else {
      k := (r % 3) * 3 + col % 3;
      var b := g - 18;
      DivMod3(r / 3, col / 3);
      DivMod3(r % 3, col % 3);
      assert b / 3 == r / 3 && b % 3 == col / 3;
      assert k / 3 == r % 3 && k % 3 == col % 3;
      assert r == (r / 3) * 3 + r % 3 && col == (col / 3) * 3 + col % 3;
    }
  }

  lemma MemberInjective(g: GroupId, k1: Slot, k2: Slot)
    requires Member(g, k1) == Member(g, k2)
    ensures k1 == k2
  {
    MemberInGroup(g, k1);
    MemberInGroup(g, k2);
  }

  /** The nine positions of a group hold nine different cells, all of the group. */
  lemma MembersDistinct(g: GroupId)
    ensures forall k1: Slot, k2: Slot | k1 != k2 :: Member(g, k1) != Member(g, k2)
    ensures forall k: Slot :: InGroup(Member(g, k), g)
  {
    forall k1: Slot, k2: Slot | k1 != k2
      ensures Member(g, k1) != Member(g, k2)
    {
      if Member(g, k1) == Member(g, k2) {
        MemberInjective(g, k1, k2);
      }
    }
    forall k: Slot {
      MemberInGroup(g, k);
    }
  }

  /** Membership in the listed group is membership by coordinates. */
  lemma InGroupIff(c: Cell, g: GroupId)
    ensures c in Group(g) <==> InGroup(c, g)
  {
    if c in Group(g) {
      var k :| 0 <= k < 9 && Group(g)[k] == c;
      MemberInGroup(g, k);
    }
    if InGroup(c, g) {
      var k := SlotOf(c, g);
      assert Group(g)[k] == c;
    }
  }

  /** Two different cells of one group are peers. */
  lemma GroupPeers(g: GroupId, k1: Slot, k2: Slot)
    requires k1 != k2
    ensures Peer(Member(g, k1), Member(g, k2))
  {
    MemberInGroup(g, k1);
    MemberInGroup(g, k2);
    if Member(g, k1) == Member(g, k2) {
      MemberInjective(g, k1, k2);
    }
  }

  /** Peers always share a group: the group and both positions in it. */
  lemma PeerGroup(i: Cell, j: Cell) returns (g: GroupId, ki: Slot, kj: Slot)
    requires Peer(i, j)
    ensures Member(g, ki) == i && Member(g, kj) == j && ki != kj
  {
    if Row(i) == Row(j) {
      g := Row(i);
    } else if Col(i) == Col(j) {
      g := 9 + Col(i);
    } else {
      g := 18 + Block(i);
    }
    ki := SlotOf(i, g);
    kj := SlotOf(j, g);
  }

  /** Every cell lies in exactly three groups: its row, its column and its block. */
  lemma GroupsOfCell(c: Cell)
    ensures (set g: GroupId | c in Group(g)) == {Row(c), 9 + Col(c), 18 + Block(c)}
    ensures |set g: GroupId | c in Group(g)| == 3
  {
    forall g: GroupId
      ensures c in Group(g) <==> g in {Row(c), 9 + Col(c), 18 + Block(c)}
    {
      InGroupIff(c, g);
    }
    var three: set<GroupId> := {Row(c), 9 + Col(c), 18 + Block(c)};
    assert three == {Row(c)} + {9 + Col(c)} + {18 + Block(c)};
  }

  /** The names of the 81 cells are pairwise different. */
  lemma NamesDistinct(i: Cell, j: Cell)
    requires Name(i) == Name(j)
    ensures i == j
  {
    assert Name(i)[0] == Name(j)[0] && Name(i)[1] == Name(j)[1];
  }
}
