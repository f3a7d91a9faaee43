/**
 * The reference the search is judged against: the root-to-leaf paths of a pyramid written
 * as strings of turns ('L' keeps the column, 'R' moves one column right), the running
 * product along a path, and the first path, in L-before-R order, whose product is the target.
 */
module Paths {
  import opened Pyramid

  /** The column reached from column j by one turn. */
  function Step(j: nat, c: char): nat
  {
    if c == 'L' then j else j + 1
  }

  predicate IsTurns(w: string)
  {
    forall k :: 0 <= k < |w| ==> w[k] == 'L' || w[k] == 'R'
  }

  /** The running product after walking w down from cell (i, j), having started with mult:
      each step multiplies in the value of the cell it enters. */
  function Accumulate(rows: seq<seq<int>>, i: nat, j: nat, mult: int, w: string): int
    requires WellShaped(rows) && j <= i && i + |w| < |rows|
    decreases |w|
  {
    if w == [] then mult
    else
      var j' := Step(j, w[0]);
      Accumulate(rows, i + 1, j', mult * rows[i + 1][j'], w[1..])
  }

  /** w leads from cell (i, j) down to the last row, and its running product is target. */
  predicate Succeeds(rows: seq<seq<int>>, i: nat, j: nat, target: int, mult: int, w: string)
    requires WellShaped(rows) && j <= i < |rows|
  {
    IsTurns(w) && i + |w| == |rows| - 1 && Accumulate(rows, i, j, mult, w) == target
  }

  /** ws with turn c put in front of each string. */
  function Prefixed(c: char, ws: seq<string>): (r: seq<string>)
    ensures |r| == |ws| && forall k :: 0 <= k < |ws| ==> r[k] == [c] + ws[k]
  {
    if ws == [] then [] else [[c] + ws[0]] + Prefixed(c, ws[1..])
  }

  /** Every turn string of length n, with all L-first strings before all R-first ones. */
  function LeafPaths(n: nat): (ws: seq<string>)
    ensures forall k :: 0 <= k < |ws| ==> |ws[k]| == n && IsTurns(ws[k])
  {
    if n == 0 then [""] else Prefixed('L', LeafPaths(n - 1)) + Prefixed('R', LeafPaths(n - 1))
  }

  function Pow2(n: nat): nat
  {
    if n == 0 then 1 else 2 * Pow2(n - 1)
  }

  /** A pyramid with n rows below a node has 2^n turn strings from that node to a leaf. */
  lemma {:induction false} LeafPathsCount(n: nat)
    ensures |LeafPaths(n)| == Pow2(n)
  {
    if n > 0 {
      LeafPathsCount(n - 1);
    }
  }

  /** A turn put in front of a string of LeafPaths(n - 1) gives a string of LeafPaths(n). */
  lemma PrefixedIn(n: nat, c: char, v: string)
    requires n > 0 && (c == 'L' || c == 'R') && v in LeafPaths(n - 1)
    ensures [c] + v in LeafPaths(n)
  {
    var sub := LeafPaths(n - 1);
    var k :| 0 <= k < |sub| && sub[k] == v;
    var half := Prefixed(c, sub);
    assert half[k] == [c] + v;
    if c == 'L' {
      assert LeafPaths(n) == half + Prefixed('R', sub);
    } else {
      assert LeafPaths(n) == Prefixed('L', sub) + half;
    }
  }

  /** LeafPaths(n) holds every turn string of length n. */
  lemma {:induction false} LeafPathsComplete(n: nat, w: string)
    requires IsTurns(w) && |w| == n
    ensures w in LeafPaths(n)
  {
    if n == 0 {
      assert w == "";
    } else {
      var c, v := w[0], w[1..];
      assert c == 'L' || c == 'R';
      LeafPathsComplete(n - 1, v);
      assert w == [c] + v;
      PrefixedIn(n, c, v);
    }
  }

  /** The first of ws whose running product from (i, j) is target. */
  function FirstMatch(rows: seq<seq<int>>, i: nat, j: nat, target: int, mult: int, ws: seq<string>): (r: Option<string>)
    requires WellShaped(rows) && j <= i < |rows|
    requires forall k :: 0 <= k < |ws| ==> i + |ws[k]| == |rows| - 1
    ensures r.Some? ==> r.value in ws
  {
    if ws == [] then None
    else if Accumulate(rows, i, j, mult, ws[0]) == target then Some(ws[0])
    else FirstMatch(rows, i, j, target, mult, ws[1..])
  }

  /** The brute-force answer: the first turn string from (i, j) to the last row, in L-before-R
      order, whose running product equals target; None when there is none. */
  function FirstSolution(rows: seq<seq<int>>, i: nat, j: nat, target: int, mult: int): (r: Option<string>)
    requires WellShaped(rows) && j <= i < |rows|
    ensures r.Some? ==> |r.value| == |rows| - 1 - i && IsTurns(r.value)
  {
    FirstMatch(rows, i, j, target, mult, LeafPaths(|rows| - 1 - i))
  }

  /** Prepends turn c to a found string. */
  function Turn(c: char, o: Option<string>): Option<string>
  {
    match o
    case Some(w) => Some([c] + w)
    case None => None
  }

  lemma {:induction false} FirstMatchAppend(rows: seq<seq<int>>, i: nat, j: nat, target: int, mult: int,
                                            a: seq<string>, b: seq<string>)
    requires WellShaped(rows) && j <= i < |rows|
    requires forall k :: 0 <= k < |a| ==> i + |a[k]| == |rows| - 1
    requires forall k :: 0 <= k < |b| ==> i + |b[k]| == |rows| - 1
    ensures FirstMatch(rows, i, j, target, mult, a + b) ==
            if FirstMatch(rows, i, j, target, mult, a).Some? then FirstMatch(rows, i, j, target, mult, a)
            else FirstMatch(rows, i, j, target, mult, b)
  {
    if a == [] {
      assert a + b == b;
    } else {
      assert (a + b)[0] == a[0];
      assert (a + b)[1..] == a[1..] + b;
      FirstMatchAppend(rows, i, j, target, mult, a[1..], b);
    }
  }

  lemma {:induction false} FirstMatchPrefixed(rows: seq<seq<int>>, i: nat, j: nat, target: int, mult: int,
                                              c: char, ws: seq<string>)
    requires WellShaped(rows) && j <= i < |rows| - 1
    requires forall k :: 0 <= k < |ws| ==> i + 1 + |ws[k]| == |rows| - 1
    ensures FirstMatch(rows, i, j, target, mult, Prefixed(c, ws)) ==
            Turn(c, FirstMatch(rows, i + 1, Step(j, c), target, mult * rows[i + 1][Step(j, c)], ws))
  {
    if ws != [] {
      var p := Prefixed(c, ws);
      assert p[0] == [c] + ws[0];
      assert p[0][0] == c && p[0][1..] == ws[0];
      assert p[1..] == Prefixed(c, ws[1..]);
      FirstMatchPrefixed(rows, i, j, target, mult, c, ws[1..]);
    }
  }

  /** At a leaf the only path is the empty one, and it succeeds exactly when mult is target. */
  lemma {:induction false} FirstSolutionLeaf(rows: seq<seq<int>>, i: nat, j: nat, target: int, mult: int)
    requires WellShaped(rows) && j <= i == |rows| - 1
    ensures FirstSolution(rows, i, j, target, mult) == if mult == target then Some("") else None
  {
    var ws := LeafPaths(0);
    assert ws == [""] && ws[1..] == [];
    assert Accumulate(rows, i, j, mult, ws[0]) == mult;
  }

  /** Scanning the strings of one half of LeafPaths, all starting with turn c, finds the
      child's first solution behind c. */
  lemma {:induction false} FirstMatchHalf(rows: seq<seq<int>>, i: nat, j: nat, target: int, mult: int, c: char)
    requires WellShaped(rows) && j <= i < |rows| - 1
    ensures FirstMatch(rows, i, j, target, mult, Prefixed(c, LeafPaths(|rows| - 2 - i))) ==
            Turn(c, FirstSolution(rows, i + 1, Step(j, c), target, mult * rows[i + 1][Step(j, c)]))
  {
    FirstMatchPrefixed(rows, i, j, target, mult, c, LeafPaths(|rows| - 2 - i));
  }

  /** Above the last row, the first solution is the left child's first solution behind an 'L'
      if there is one, and otherwise the right child's behind an 'R'. */
  lemma {:induction false} FirstSolutionSplit(rows: seq<seq<int>>, i: nat, j: nat, target: int, mult: int)
    requires WellShaped(rows) && j <= i < |rows| - 1
    ensures var left := FirstSolution(rows, i + 1, j, target, mult * rows[i + 1][j]);
            var right := FirstSolution(rows, i + 1, j + 1, target, mult * rows[i + 1][j + 1]);
            FirstSolution(rows, i, j, target, mult) == if left.Some? then Turn('L', left) else Turn('R', right)
  {
    var sub := LeafPaths(|rows| - 2 - i);
    var ls, rs := Prefixed('L', sub), Prefixed('R', sub);
    assert LeafPaths(|rows| - 1 - i) == ls + rs;
    FirstMatchAppend(rows, i, j, target, mult, ls, rs);
    FirstMatchHalf(rows, i, j, target, mult, 'L');
    FirstMatchHalf(rows, i, j, target, mult, 'R');
  }

  /** The answer as the depth-first search reaches it: at a leaf, whether the running product
      is target; above it, the left child's answer behind an 'L', and only when that fails
      the right child's behind an 'R'. */
  function LeftFirst(rows: seq<seq<int>>, i: nat, j: nat, target: int, mult: int): (r: Option<string>)
    requires WellShaped(rows) && j <= i < |rows|
    ensures r.Some? ==> |r.value| == |rows| - 1 - i && IsTurns(r.value)
    decreases |rows| - i
  {
    if i == |rows| - 1 then
      if mult == target then Some("") else None
    else
      var left := LeftFirst(rows, i + 1, j, target, mult * rows[i + 1][j]);
      if left.Some? then Turn('L', left)
      else Turn('R', LeftFirst(rows, i + 1, j + 1, target, mult * rows[i + 1][j + 1]))
  }

  /** The depth-first answer is the brute-force one: the first turn string, in the enumeration
      order of LeafPaths, whose running product is target. */
  lemma {:induction false} LeftFirstIsFirstSolution(rows: seq<seq<int>>, i: nat, j: nat, target: int, mult: int)
    requires WellShaped(rows) && j <= i < |rows|
    ensures LeftFirst(rows, i, j, target, mult) == FirstSolution(rows, i, j, target, mult)
    decreases |rows| - i
  {
    if i == |rows| - 1 {
      FirstSolutionLeaf(rows, i, j, target, mult);
    } else {
      FirstSolutionSplit(rows, i, j, target, mult);
      LeftFirstIsFirstSolution(rows, i + 1, j, target, mult * rows[i + 1][j]);
      LeftFirstIsFirstSolution(rows, i + 1, j + 1, target, mult * rows[i + 1][j + 1]);
    }
  }

  lemma TurnCons(c: char, v: string)
    ensures ([c] + v)[0] == c && ([c] + v)[1..] == v
  {
  }

  /** A found string is a path to the last row whose running product is target. */
  lemma {:induction false} LeftFirstSound(rows: seq<seq<int>>, i: nat, j: nat, target: int, mult: int)
    requires WellShaped(rows) && j <= i < |rows|
    ensures LeftFirst(rows, i, j, target, mult).Some? ==>
            Succeeds(rows, i, j, target, mult, LeftFirst(rows, i, j, target, mult).value)
    decreases |rows| - i
  {
    if i < |rows| - 1 {
      var lm, rm := mult * rows[i + 1][j], mult * rows[i + 1][j + 1];
      var left := LeftFirst(rows, i + 1, j, target, lm);
      var right := LeftFirst(rows, i + 1, j + 1, target, rm);
      if left.Some? {
        LeftFirstSound(rows, i + 1, j, target, lm);
        TurnCons('L', left.value);
      } else if right.Some? {
        LeftFirstSound(rows, i + 1, j + 1, target, rm);
        TurnCons('R', right.value);
      }
    }
  }

  /** a comes no later than b in the search's order: at the first turn where they differ,
      a goes left and b goes right. */
  predicate TurnOrderLeq(a: string, b: string)
  {
    if a == [] then b == []
    else
      && |b| == |a|
      && ((a[0] == 'L' && b[0] == 'R') || (a[0] == b[0] && TurnOrderLeq(a[1..], b[1..])))
  }

  lemma TurnOrderCons(c: char, v: string, w: string)
    requires |w| == |v| + 1
    requires (c == 'L' && w[0] == 'R') || (c == w[0] && TurnOrderLeq(v, w[1..]))
    ensures TurnOrderLeq([c] + v, w)
  {
    TurnCons(c, v);
  }

  /** A successful path's tail succeeds from the child its first turn enters. */
  lemma SucceedsStep(rows: seq<seq<int>>, i: nat, j: nat, target: int, mult: int, w: string)
    requires WellShaped(rows) && j <= i < |rows| - 1
    requires Succeeds(rows, i, j, target, mult, w)
    ensures w != [] && (w[0] == 'L' || w[0] == 'R')
    ensures Succeeds(rows, i + 1, Step(j, w[0]), target, mult * rows[i + 1][Step(j, w[0])], w[1..])
  {
  }

  /** Whenever some path from (i, j) succeeds, the search finds one, and the one it finds
      comes no later, in L-before-R order, than that path. */
  lemma {:induction false} LeftFirstLeast(rows: seq<seq<int>>, i: nat, j: nat, target: int, mult: int, w: string)
    requires WellShaped(rows) && j <= i < |rows|
    requires Succeeds(rows, i, j, target, mult, w)
    ensures LeftFirst(rows, i, j, target, mult).Some?
    ensures TurnOrderLeq(LeftFirst(rows, i, j, target, mult).value, w)
    decreases |rows| - i
  {
    if i < |rows| - 1 {
      SucceedsStep(rows, i, j, target, mult, w);
      var lm, rm := mult * rows[i + 1][j], mult * rows[i + 1][j + 1];
      var left := LeftFirst(rows, i + 1, j, target, lm);
      if w[0] == 'L' {
        LeftFirstLeast(rows, i + 1, j, target, lm, w[1..]);
        TurnOrderCons('L', left.value, w);
      } else if left.Some? {
        TurnOrderCons('L', left.value, w);
      } else {
        LeftFirstLeast(rows, i + 1, j + 1, target, rm, w[1..]);
        TurnOrderCons('R', LeftFirst(rows, i + 1, j + 1, target, rm).value, w);
      }
    }
  }

  /** The search from (i, j) finds a solution exactly when some path from (i, j) to the last row
      has running product target. */
  lemma FoundIffSolvable(rows: seq<seq<int>>, i: nat, j: nat, target: int, mult: int)
    requires WellShaped(rows) && j <= i < |rows|
    ensures LeftFirst(rows, i, j, target, mult).Some? <==> exists w :: Succeeds(rows, i, j, target, mult, w)
  {
    LeftFirstSound(rows, i, j, target, mult);
    if w :| Succeeds(rows, i, j, target, mult, w) {
      LeftFirstLeast(rows, i, j, target, mult, w);
    }
  }

  /** The nodes along w from cell (i, j) in the order the search pushes them onto goodPath:
      the nodes of the rest of the turns, leaf first, then the node of (i, j) itself. */
  function GoodNodes(rows: seq<seq<int>>, i: nat, j: nat, w: string): (g: seq<Node>)
    requires WellShaped(rows) && j <= i && i + |w| < |rows|
    ensures |g| == |w| + 1 && g[|w|] == CellNode(rows, i, j)
    decreases |w|
  {
    (if w == [] then [] else GoodNodes(rows, i + 1, Step(j, w[0]), w[1..])) + [CellNode(rows, i, j)]
  }

  function ValProduct(ns: seq<Node>): int
  {
    if ns == [] then 1 else ns[0].val * ValProduct(ns[1..])
  }

  lemma {:induction false} ValProductAppend(a: seq<Node>, n: Node)
    ensures ValProduct(a + [n]) == ValProduct(a) * n.val
  {
    if a != [] {
      assert (a + [n])[1..] == a[1..] + [n];
      ValProductAppend(a[1..], n);
    } else {
      assert a + [n] == [n];
    }
  }

  /** Taking the first turn c from (i, j): the child's nodes, then the node of (i, j). */
  lemma GoodNodesCons(rows: seq<seq<int>>, i: nat, j: nat, c: char, w: string)
    requires WellShaped(rows) && j <= i && i + 1 + |w| < |rows|
    ensures GoodNodes(rows, i, j, [c] + w) == GoodNodes(rows, i + 1, Step(j, c), w) + [CellNode(rows, i, j)]
  {
    assert ([c] + w)[0] == c && ([c] + w)[1..] == w;
  }

  /** g is a path read leaf first: entry k is the node of a cell of row bottom - k, and each
      entry is a child of the one after it. */
  predicate LeafFirstChain(rows: seq<seq<int>>, bottom: int, g: seq<Node>)
  {
    && (forall k :: 0 <= k < |g| ==>
          g[k].id.row == bottom - k && IsCell(rows, g[k].id) && g[k] == CellNode(rows, g[k].id.row, g[k].id.col))
    && (forall k :: 0 <= k < |g| - 1 ==> g[k].id in g[k + 1].neighbors)
  }

  /** A chain stays a chain when the parent of its last entry is put after it. */
  lemma LeafFirstChainAppend(rows: seq<seq<int>>, bottom: int, h: seq<Node>, n: Node)
    requires LeafFirstChain(rows, bottom, h) && h != []
    requires n.id.row == bottom - |h| && IsCell(rows, n.id) && n == CellNode(rows, n.id.row, n.id.col)
    requires h[|h| - 1].id in n.neighbors
    ensures LeafFirstChain(rows, bottom, h + [n])
  {
    var g := h + [n];
    forall k | 0 <= k < |g|
      ensures g[k].id.row == bottom - k && IsCell(rows, g[k].id) && g[k] == CellNode(rows, g[k].id.row, g[k].id.col)
    {
      if k < |h| {
        assert g[k] == h[k];
      }
    }
    forall k | 0 <= k < |g| - 1
      ensures g[k].id in g[k + 1].neighbors
    {
      if k < |h| - 1 {
        assert g[k] == h[k] && g[k + 1] == h[k + 1];
      }
    }
  }

  /** The nodes along w, leaf first, form a chain from the row w ends in up to row i. */
  lemma {:induction false} GoodNodesShape(rows: seq<seq<int>>, i: nat, j: nat, w: string)
    requires WellShaped(rows) && j <= i && i + |w| < |rows|
    ensures LeafFirstChain(rows, i + |w|, GoodNodes(rows, i, j, w))
    decreases |w|
  {
    var here := CellNode(rows, i, j);
    if w == [] {
      assert GoodNodes(rows, i, j, w) == [here];
    } else {
      var j' := Step(j, w[0]);
      var h := GoodNodes(rows, i + 1, j', w[1..]);
      GoodNodesShape(rows, i + 1, j', w[1..]);
      assert h[|h| - 1].id == Id(i + 1, j');
      assert here.neighbors == [Id(i + 1, j), Id(i + 1, j + 1)];
      LeafFirstChainAppend(rows, i + |w|, h, here);
      assert GoodNodes(rows, i, j, w) == h + [here];
    }
  }

  /** The running product along w, started at mult times the value of (i, j), is mult times the
      product of the values of all the nodes along w. */
  lemma {:induction false} AccumulateIsProduct(rows: seq<seq<int>>, i: nat, j: nat, mult: int, w: string)
    requires WellShaped(rows) && j <= i && i + |w| < |rows|
    ensures Accumulate(rows, i, j, mult * rows[i][j], w) == mult * ValProduct(GoodNodes(rows, i, j, w))
    decreases |w|
  {
    var here := CellNode(rows, i, j);
    if w == [] {
      assert GoodNodes(rows, i, j, w) == [here] && [here][1..] == [];
    } else {
      var j' := Step(j, w[0]);
      var h := GoodNodes(rows, i + 1, j', w[1..]);
      AccumulateIsProduct(rows, i + 1, j', mult * rows[i][j], w[1..]);
      assert GoodNodes(rows, i, j, w) == h + [here];
      ValProductAppend(h, here);
      assert (mult * rows[i][j]) * ValProduct(h) == mult * (ValProduct(h) * rows[i][j]);
    }
  }

  /** The winning path as the component keeps it (leaf first, root last): one node per row,
      each entry a child of the one after it. */
  lemma WinningPathShape(rows: seq<seq<int>>, target: int, w: string)
    requires WellShaped(rows) && |rows| > 0
    requires LeftFirst(rows, 0, 0, target, rows[0][0]) == Some(w)
    ensures var g := GoodNodes(rows, 0, 0, w);
            |g| == |rows| && g[|g| - 1].id == Id(0, 0) && LeafFirstChain(rows, |rows| - 1, g)
  {
    assert |w| == |rows| - 1;
    GoodNodesShape(rows, 0, 0, w);
  }

  /** The product of the values along the winning path is the target. */
  lemma WinningPathProduct(rows: seq<seq<int>>, target: int, w: string)
    requires WellShaped(rows) && |rows| > 0
    requires LeftFirst(rows, 0, 0, target, rows[0][0]) == Some(w)
    ensures ValProduct(GoodNodes(rows, 0, 0, w)) == target
  {
    LeftFirstSound(rows, 0, 0, target, rows[0][0]);
    AccumulateIsProduct(rows, 0, 0, 1, w);
    assert 1 * rows[0][0] == rows[0][0];
  }
}
