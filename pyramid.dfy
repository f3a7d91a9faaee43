/**
 * The pyramid graph of the solver: node ids, nodes, the shape of the input rows,
 * the node every cell becomes, and the entries of the replay trace.
 */
module Pyramid {

  datatype Option<T> = None | Some(value: T)

  /** A node id. The component concatenates the row and column digits into a string;
      here the id keeps the two numbers apart (see StringId below for the string form). */
  datatype Id = Id(row: nat, col: nat)

  /** A pyramid node: its id, its value and the ids of its children, left then right. */
  datatype Node = Node(id: Id, val: int, neighbors: seq<Id>)

  /** One entry of the search trace: a leaf's outcome marker, or the id of a node visited. */
  datatype Token = Good | Bad | Visit(id: Id)

  /** Row i holds at least i + 1 values: every node the search can reach then has both children. */
  predicate WellShaped(rows: seq<seq<int>>)
  {
    forall i :: 0 <= i < |rows| ==> |rows[i]| > i
  }

  /** Row i holds exactly i + 1 values. */
  predicate Triangular(rows: seq<seq<int>>)
  {
    forall i :: 0 <= i < |rows| ==> |rows[i]| == i + 1
  }

  /** The id names a cell of the input. */
  predicate IsCell(rows: seq<seq<int>>, id: Id)
  {
    id.row < |rows| && id.col < |rows[id.row]|
  }

  /** The children of cell (i, j) in a pyramid of the given height: none in the last row. */
  function Neighbors(height: nat, i: nat, j: nat): seq<Id>
  {
    if i + 1 < height then [Id(i + 1, j), Id(i + 1, j + 1)] else []
  }

  /** The node that cell (i, j) of the input becomes. */
  function CellNode(rows: seq<seq<int>>, i: nat, j: nat): Node
    requires IsCell(rows, Id(i, j))
  {
    Node(Id(i, j), rows[i][j], Neighbors(|rows|, i, j))
  }

  /** g holds exactly one node per cell of rows, and that node is the cell's. */
  ghost predicate IsPyramidOf(g: map<Id, Node>, rows: seq<seq<int>>)
  {
    && (forall id :: id in g <==> IsCell(rows, id))
    && (forall id :: id in g ==> g[id] == CellNode(rows, id.row, id.col))
  }

  /** In the pyramid of a triangular input, every node carries its own id and its cell's value,
      a last-row node has no children, any other node has exactly (i+1, j) and (i+1, j+1),
      and every child it names is a node of the pyramid. */
  lemma PyramidNeighbors(g: map<Id, Node>, rows: seq<seq<int>>, id: Id)
    requires Triangular(rows) && IsPyramidOf(g, rows)
    requires id in g
    ensures g[id].id == id && g[id].val == rows[id.row][id.col]
    ensures id.row == |rows| - 1 ==> g[id].neighbors == []
    ensures id.row < |rows| - 1 ==> g[id].neighbors == [Id(id.row + 1, id.col), Id(id.row + 1, id.col + 1)]
    ensures forall k :: 0 <= k < |g[id].neighbors| ==> g[id].neighbors[k] in g
  {
    var n := g[id];
    if id.row < |rows| - 1 {
      assert IsCell(rows, n.neighbors[0]) && IsCell(rows, n.neighbors[1]);
    }
  }

  function DigitChar(d: nat): char
    requires d < 10
  {
    "0123456789"[d]
  }

  /** The decimal numeral of n, as JavaScript writes a number into a string. */
  function Decimal(n: nat): (s: string)
    ensures |s| >= 1 && (|s| == 1 <==> n < 10)
    ensures forall k :: 0 <= k < |s| ==> '0' <= s[k] <= '9'
    decreases n
  {
    if n < 10 then [DigitChar(n)] else Decimal(n / 10) + [DigitChar(n % 10)]
  }

  /** The number a string of decimal digits stands for, most significant digit first. */
  function NumeralValue(s: string): int
  {
    if s == [] then 0 else 10 * NumeralValue(s[..|s| - 1]) + (s[|s| - 1] as int - '0' as int)
  }

  lemma DigitCharValue(d: nat)
    requires d < 10
    ensures DigitChar(d) as int - '0' as int == d
  {}

  /** The digits of Decimal(n) stand for n. */
  lemma {:induction false} DecimalValue(n: nat)
    ensures NumeralValue(Decimal(n)) == n
    decreases n
  {
    var s := Decimal(n);
    if n < 10 {
      DigitCharValue(n);
      assert s[..|s| - 1] == [];
    } else {
      DecimalValue(n / 10);
      DigitCharValue(n % 10);
      assert s[..|s| - 1] == Decimal(n / 10);
    }
  }

  /** The component's own id for cell (i, j): the row digits followed by the column digits. */
  function StringId(i: nat, j: nat): (s: string)
    ensures |s| >= 2 && (|s| == 2 <==> i < 10 && j < 10)
  {
    Decimal(i) + Decimal(j)
  }

  /** While rows and columns stay below ten, the string id names one cell only. */
  lemma StringIdInjectiveBelowTen(i: nat, j: nat, i': nat, j': nat)
    requires i < 10 && j < 10 && i' < 10 && j' < 10
    requires StringId(i, j) == StringId(i', j')
    ensures i == i' && j == j'
  {
    assert StringId(i, j)[0] == StringId(i', j')[0];
    assert StringId(i, j)[1] == StringId(i', j')[1];
  }

  /** Cells (10, 10) and (101, 0) of any triangular input of at least 102 rows both get
      the string id "1010", so the second one stored replaces the first. */
  lemma StringIdsCollide(rows: seq<seq<int>>)
    requires Triangular(rows) && |rows| >= 102
    ensures IsCell(rows, Id(10, 10)) && IsCell(rows, Id(101, 0)) && Id(10, 10) != Id(101, 0)
    ensures StringId(10, 10) == StringId(101, 0) == "1010"
  {
    assert Decimal(10) == "10";
    assert Decimal(101) == Decimal(10) + "1";
  }
}
