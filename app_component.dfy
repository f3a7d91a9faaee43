/**
 * The solver part of the application's component: it builds the pyramid graph from the input
 * rows, searches it depth first, left first, for a root-to-leaf path whose product of values is
 * the target, and records the trace the page replays, the winning nodes and the answer.
 */
module App {
  import opened Pyramid
  import opened Paths
  import opened Traces

  /** Cell id names a cell of a row before i, or of row i before column j. */
  predicate Done(rows: seq<seq<int>>, i: nat, j: nat, id: Id)
  {
    IsCell(rows, id) && (id.row < i || (id.row == i && id.col < j))
  }

  /** Storing cell (i, j) extends the cells done by exactly that cell. */
  lemma DoneNext(rows: seq<seq<int>>, i: nat, j: nat)
    requires i < |rows| && j < |rows[i]|
    ensures forall id :: Done(rows, i, j + 1, id) <==> Done(rows, i, j, id) || id == Id(i, j)
  {}

  /** After the last cell of row i, the cells done are those of the rows before i + 1. */
  lemma DoneRow(rows: seq<seq<int>>, i: nat)
    requires i < |rows|
    ensures forall id :: Done(rows, i, |rows[i]|, id) <==> Done(rows, i + 1, 0, id)
  {}

  /** The node the search stands on is its cell's node; it has no children exactly in the last
      row, and otherwise its children (i+1, j) and (i+1, j+1) are in the pyramid. */
  lemma StartNode(pyramid: map<Id, Node>, rows: seq<seq<int>>, start: Node)
    requires WellShaped(rows) && IsPyramidOf(pyramid, rows)
    requires start.id in pyramid && pyramid[start.id] == start && start.id.col <= start.id.row
    ensures start.id.row < |rows| && start == CellNode(rows, start.id.row, start.id.col)
    ensures |start.neighbors| == 0 <==> start.id.row == |rows| - 1
    ensures start.id.row < |rows| - 1 ==>
              var i, j := start.id.row, start.id.col;
              && start.neighbors == [Id(i + 1, j), Id(i + 1, j + 1)]
              && Id(i + 1, j) in pyramid && pyramid[Id(i + 1, j)] == CellNode(rows, i + 1, j)
              && Id(i + 1, j + 1) in pyramid && pyramid[Id(i + 1, j + 1)] == CellNode(rows, i + 1, j + 1)
  {
    var i, j := start.id.row, start.id.col;
    assert IsCell(rows, start.id) && start == CellNode(rows, i, j);
    if i < |rows| - 1 {
      var l, r := Id(i + 1, j), Id(i + 1, j + 1);
      assert IsCell(rows, l) && IsCell(rows, r);
      assert l in pyramid && pyramid[l] == CellNode(rows, l.row, l.col);
      assert r in pyramid && pyramid[r] == CellNode(rows, r.row, r.col);
    }
  }

  /** The answer of a search and the component's trace, winning path and output text after it. */
  datatype Effect = Effect(found: bool, trace: seq<Token>, good: seq<Node>, text: string)

  /** A node's last step once its child search has ended with e: it appends itself to the
      trace, and when the child succeeded it pushes itself onto the winning nodes. */
  function Up(e: Effect, here: Node): Effect
  {
    Effect(e.found, e.trace + [Visit(here.id)], if e.found then e.good + [here] else e.good, e.text)
  }

  /** The effect of the component's search from cell id, step by step as it runs: a leaf
      appends its marker and itself, and on success pushes itself onto the winning nodes and
      makes path the answer; a node above the last row appends itself, searches its left child,
      and unless that succeeded appends itself again and searches its right child, and then
      takes its last step Up. */
  function Search(rows: seq<seq<int>>, id: Id, target: int, mult: int, path: string,
                  trace0: seq<Token>, good0: seq<Node>, text0: string): Effect
    requires WellShaped(rows) && id.col <= id.row < |rows|
    decreases |rows| - id.row
  {
    var i, j := id.row, id.col;
    if i == |rows| - 1 then
      if target == mult then Effect(true, trace0 + [Good, Visit(id)], good0 + [CellNode(rows, i, j)], path)
      else Effect(false, trace0 + [Bad, Visit(id)], good0, text0)
    else
      var el := Search(rows, Id(i + 1, j), target, mult * rows[i + 1][j], path + "L", trace0 + [Visit(id)], good0, text0);
      if el.found then Up(el, CellNode(rows, i, j))
      else
        var er := Search(rows, Id(i + 1, j + 1), target, mult * rows[i + 1][j + 1], path + "R", el.trace + [Visit(id)], el.good, el.text);
        Up(er, CellNode(rows, i, j))
  }

  /** e is what the search from cell id with running product mult, reached along path, leaves
      behind, read off the reference: it found a path exactly when the depth-first reference
      finds a winning path w; the trace grew by Trace; on success the winning nodes grew by the
      nodes along w, leaf first, and the answer is path followed by w, and on failure both are
      as they were. */
  predicate Explains(rows: seq<seq<int>>, id: Id, target: int, mult: int, path: string,
                     trace0: seq<Token>, good0: seq<Node>, text0: string, e: Effect)
    requires WellShaped(rows) && id.col <= id.row < |rows|
  {
    var r := LeftFirst(rows, id.row, id.col, target, mult);
    && e.found == r.Some?
    && e.trace == trace0 + Trace(rows, id.row, id.col, target, mult)
    && e.good == good0 + (if r.Some? then GoodNodes(rows, id.row, id.col, r.value) else [])
    && e.text == (if r.Some? then path + r.value else text0)
  }

  /** At a leaf, the search succeeds exactly when the product is the target: it appends the
      marker and the leaf, and on success the leaf alone is the winning path and path the answer. */
  lemma ExplainsLeaf(rows: seq<seq<int>>, i: nat, j: nat, target: int, mult: int, path: string,
                     trace0: seq<Token>, good0: seq<Node>, text0: string)
    requires WellShaped(rows) && j <= i == |rows| - 1
    ensures Explains(rows, Id(i, j), target, mult, path, trace0, good0, text0,
                     if target == mult then Effect(true, trace0 + [Good, Visit(Id(i, j))], good0 + [CellNode(rows, i, j)], path)
                     else Effect(false, trace0 + [Bad, Visit(Id(i, j))], good0, text0))
  {
    assert GoodNodes(rows, i, j, "") == [CellNode(rows, i, j)];
    assert path + "" == path;
  }

  /** Regrouping of the appends one level of the search makes around a child's. */
  lemma Regroup<T>(s0: seq<T>, x: T, a: seq<T>, b: seq<T>)
    ensures s0 + [x] + a + [x] == s0 + ([x] + a + [x])
    ensures s0 + [x] + a + [x] + b + [x] == s0 + ([x] + a + [x] + b + [x])
    ensures s0 + a + [x] == s0 + (a + [x])
    ensures s0 + [x] + a == s0 + ([x] + a)
  {}

  /** Above the last row, a left child that succeeds makes the node succeed: the trace wraps the
      left child's in two visits of the node, and the node follows the left child's winning nodes. */
  lemma ExplainsLeftFound(rows: seq<seq<int>>, i: nat, j: nat, target: int, mult: int, path: string,
                          trace0: seq<Token>, good0: seq<Node>, text0: string, el: Effect)
    requires WellShaped(rows) && j <= i < |rows| - 1
    requires Explains(rows, Id(i + 1, j), target, mult * rows[i + 1][j], path + "L", trace0 + [Visit(Id(i, j))], good0, text0, el)
    requires el.found
    ensures Explains(rows, Id(i, j), target, mult, path, trace0, good0, text0, Up(el, CellNode(rows, i, j)))
  {
    var wl := LeftFirst(rows, i + 1, j, target, mult * rows[i + 1][j]).value;
    TraceLeftFound(rows, i, j, target, mult);
    GoodNodesCons(rows, i, j, 'L', wl);
    Regroup(trace0, Visit(Id(i, j)), Trace(rows, i + 1, j, target, mult * rows[i + 1][j]), []);
    Regroup(good0, CellNode(rows, i, j), GoodNodes(rows, i + 1, j, wl), []);
    Regroup(path, 'L', wl, []);
  }

  /** Above the last row, when both children fail the node fails: the trace gains a visit of
      the node after each child, and the winning nodes and the answer are as they were. */
  lemma ExplainsBothFailed(rows: seq<seq<int>>, i: nat, j: nat, target: int, mult: int, path: string,
                           trace0: seq<Token>, good0: seq<Node>, text0: string, el: Effect, er: Effect)
    requires WellShaped(rows) && j <= i < |rows| - 1
    requires Explains(rows, Id(i + 1, j), target, mult * rows[i + 1][j], path + "L", trace0 + [Visit(Id(i, j))], good0, text0, el)
    requires !el.found
    requires Explains(rows, Id(i + 1, j + 1), target, mult * rows[i + 1][j + 1], path + "R", el.trace + [Visit(Id(i, j))], el.good, el.text, er)
    requires !er.found
    ensures Explains(rows, Id(i, j), target, mult, path, trace0, good0, text0, Up(er, CellNode(rows, i, j)))
  {
    TraceLeftFailed(rows, i, j, target, mult);
    Regroup(trace0, Visit(Id(i, j)), Trace(rows, i + 1, j, target, mult * rows[i + 1][j]),
            Trace(rows, i + 1, j + 1, target, mult * rows[i + 1][j + 1]));
  }

  /** Above the last row, a right child that succeeds after the left one failed makes the node
      succeed: the trace gains a visit of the node after each child, and the node follows the
      right child's winning nodes. */
  lemma ExplainsRightFound(rows: seq<seq<int>>, i: nat, j: nat, target: int, mult: int, path: string,
                           trace0: seq<Token>, good0: seq<Node>, text0: string, el: Effect, er: Effect)
    requires WellShaped(rows) && j <= i < |rows| - 1
    requires Explains(rows, Id(i + 1, j), target, mult * rows[i + 1][j], path + "L", trace0 + [Visit(Id(i, j))], good0, text0, el)
    requires !el.found
    requires Explains(rows, Id(i + 1, j + 1), target, mult * rows[i + 1][j + 1], path + "R", el.trace + [Visit(Id(i, j))], el.good, el.text, er)
    requires er.found
    ensures Explains(rows, Id(i, j), target, mult, path, trace0, good0, text0, Up(er, CellNode(rows, i, j)))
  {
    var rm := mult * rows[i + 1][j + 1];
    var wr := LeftFirst(rows, i + 1, j + 1, target, rm).value;
    TraceLeftFailed(rows, i, j, target, mult);
    assert LeftFirst(rows, i, j, target, mult) == Some("R" + wr);
    assert el.good == good0 && el.text == text0;
    Regroup(trace0, Visit(Id(i, j)), Trace(rows, i + 1, j, target, mult * rows[i + 1][j]), Trace(rows, i + 1, j + 1, target, rm));
    GoodNodesCons(rows, i, j, 'R', wr);
    Regroup(good0, CellNode(rows, i, j), GoodNodes(rows, i + 1, j + 1, wr), []);
    Regroup(path, 'R', wr, []);
  }

  /** What the search does is what its reference says: it finds a path exactly when the
      depth-first reference does, the trace grows by Trace, and on success the winning nodes
      (leaf first) and the answer path followed by the winner are recorded. */
  lemma {:induction false} SearchMeaning(rows: seq<seq<int>>, id: Id, target: int, mult: int, path: string,
                                         trace0: seq<Token>, good0: seq<Node>, text0: string)
    requires WellShaped(rows) && id.col <= id.row < |rows|
    ensures Explains(rows, id, target, mult, path, trace0, good0, text0, Search(rows, id, target, mult, path, trace0, good0, text0))
    decreases |rows| - id.row
  {
    var i, j := id.row, id.col;
    assert id == Id(i, j);
    if i == |rows| - 1 {
      ExplainsLeaf(rows, i, j, target, mult, path, trace0, good0, text0);
    } else {
      var here := CellNode(rows, i, j);
      var lm := mult * rows[i + 1][j];
      var el := Search(rows, Id(i + 1, j), target, lm, path + "L", trace0 + [Visit(id)], good0, text0);
      SearchMeaning(rows, Id(i + 1, j), target, lm, path + "L", trace0 + [Visit(id)], good0, text0);
      if el.found {
        assert Search(rows, id, target, mult, path, trace0, good0, text0) == Up(el, here);
        ExplainsLeftFound(rows, i, j, target, mult, path, trace0, good0, text0, el);
      } else {
        var rm := mult * rows[i + 1][j + 1];
        var er := Search(rows, Id(i + 1, j + 1), target, rm, path + "R", el.trace + [Visit(id)], el.good, el.text);
        assert Search(rows, id, target, mult, path, trace0, good0, text0) == Up(er, here);
        SearchMeaning(rows, Id(i + 1, j + 1), target, rm, path + "R", el.trace + [Visit(id)], el.good, el.text);
        if er.found {
          ExplainsRightFound(rows, i, j, target, mult, path, trace0, good0, text0, el, er);
        } else {
          ExplainsBothFailed(rows, i, j, target, mult, path, trace0, good0, text0, el, er);
        }
      }
    }
  }

  class AppComponent {
    /** The target product, as the number the component reads from its target text. */
    var target: int
    /** The text of the input form. */
    var inputText: string
    /** The answer shown to the user. Here only the search writes it: the winning turns.
        "No Solution" is what Solve returns; storing that return value here is not modelled. */
    var outputText: string
    /** The parsed input: one sequence of values per pyramid row. */
    var inputNumbers: seq<seq<int>>
    /** The pyramid graph the last solve built, if any. */
    var graph: Option<map<Id, Node>>
    /** The search trace the page replays. */
    var allPaths: seq<Token>
    /** The winning nodes, leaf first. */
    var goodPath: seq<Node>
    /** Set once the replay has shown the winning path. The replay is not modelled, so here
        it is only ever cleared. */
    var goodPathFound: bool

    constructor()
      ensures target == 0 && inputText == "" && outputText == "" && inputNumbers == [] && graph == None
      ensures allPaths == [] && goodPath == [] && !goodPathFound
    {
      target := 0;
      inputText := "";
      outputText := "";
      inputNumbers := [];
      graph := None;
      allPaths := [];
      goodPath := [];
      goodPathFound := false;
    }

    /** Stores one node per cell of rows into nodes: cell (i, j) becomes the node with id (i, j),
        value rows[i][j], and, outside the last row, the children (i+1, j) and (i+1, j+1).
        Nodes already present under other ids are kept. */
    method BuildPyramid(rows: seq<seq<int>>, nodes: map<Id, Node>) returns (built: map<Id, Node>)
      ensures forall id :: id in built <==> id in nodes || IsCell(rows, id)
      ensures forall id :: IsCell(rows, id) ==> built[id] == CellNode(rows, id.row, id.col)
      ensures forall id :: id in nodes && !IsCell(rows, id) ==> built[id] == nodes[id]
    {
      built := nodes;
      for i := 0 to |rows|
        invariant forall id :: id in built <==> id in nodes || Done(rows, i, 0, id)
        invariant forall id :: Done(rows, i, 0, id) ==> built[id] == CellNode(rows, id.row, id.col)
        invariant forall id :: id in nodes && !Done(rows, i, 0, id) ==> built[id] == nodes[id]
      {
        for j := 0 to |rows[i]|
          invariant forall id :: id in built <==> id in nodes || Done(rows, i, j, id)
          invariant forall id :: Done(rows, i, j, id) ==> built[id] == CellNode(rows, id.row, id.col)
          invariant forall id :: id in nodes && !Done(rows, i, j, id) ==> built[id] == nodes[id]
        {
          var connections := [];
          if i + 1 < |rows| {
            connections := [Id(i + 1, j), Id(i + 1, j + 1)];
          }
          assert Node(Id(i, j), rows[i][j], connections) == CellNode(rows, i, j);
          DoneNext(rows, i, j);
          built := built[Id(i, j) := Node(Id(i, j), rows[i][j], connections)];
        }
        DoneRow(rows, i);
      }
    }

    /** The depth-first search from start with running product mult, path being the turns taken
        to reach it. It answers whether some path from start to the last row has product target,
        appends Trace to allPaths, and on success appends the winning nodes (leaf first) to
        goodPath and sets outputText to path followed by the winning turns; the winner is the
        first solution in L-before-R order. */
    method FindPath(pyramid: map<Id, Node>, start: Node, target: int, mult: int, path: string,
                    ghost rows: seq<seq<int>>) returns (found: bool)
      requires WellShaped(rows) && IsPyramidOf(pyramid, rows)
      requires start.id in pyramid && pyramid[start.id] == start && start.id.col <= start.id.row
      modifies this`allPaths, this`goodPath, this`outputText
      ensures Effect(found, allPaths, goodPath, outputText) ==
                Search(rows, start.id, target, mult, path, old(allPaths), old(goodPath), old(outputText))
      decreases |rows| - start.id.row
    {
      StartNode(pyramid, rows, start);
      if |start.neighbors| == 0 {
        if target == mult {
          allPaths := allPaths + [Good, Visit(start.id)];
          goodPath := goodPath + [start];
          outputText := path;
          return true;
        }
        allPaths := allPaths + [Bad, Visit(start.id)];
        return false;
      }
      allPaths := allPaths + [Visit(start.id)];
      var left, right := start.neighbors[0], start.neighbors[1];
      var leftNode := pyramid[left];
      var rightNode := pyramid[right];
      var movingLeft := FindPath(pyramid, leftNode, target, mult * leftNode.val, path + "L", rows);
      allPaths := allPaths + [Visit(start.id)];
      if movingLeft {
        goodPath := goodPath + [start];
        return movingLeft;
      }
      var movingRight := FindPath(pyramid, rightNode, target, mult * rightNode.val, path + "R", rows);
      allPaths := allPaths + [Visit(start.id)];
      if movingRight {
        goodPath := goodPath + [start];
        return movingRight;
      }
      return false;
    }

    /** Builds the pyramid of inputNumbers into a fresh map, keeps it as graph, and searches it
        from the root "00" with the root's value as the starting product. Returns the winning
        turns, or "No Solution" when there is no root or no path reaches the target. */
    method Solve() returns (text: string)
      requires WellShaped(inputNumbers)
      modifies this`graph, this`allPaths, this`goodPath, this`outputText
      ensures graph.Some? && IsPyramidOf(graph.value, inputNumbers)
      ensures |inputNumbers| == 0 ==>
                && text == "No Solution"
                && allPaths == old(allPaths) && goodPath == old(goodPath) && outputText == old(outputText)
      ensures |inputNumbers| > 0 ==>
                var r := LeftFirst(inputNumbers, 0, 0, target, inputNumbers[0][0]);
                && Explains(inputNumbers, Id(0, 0), target, inputNumbers[0][0], "", old(allPaths), old(goodPath), old(outputText),
                            Effect(r.Some?, allPaths, goodPath, outputText))
                && text == (if r.Some? then r.value else "No Solution")
      ensures |inputNumbers| == 1 ==>
                var v := inputNumbers[0][0];
                && allPaths == old(allPaths) + [if v == target then Good else Bad, Visit(Id(0, 0))]
                && text == (if v == target then "" else "No Solution")
    {
      var pyramid := BuildPyramid(inputNumbers, map[]);
      graph := Some(pyramid);
      if Id(0, 0) in pyramid {
        var start := pyramid[Id(0, 0)];
        SearchMeaning(inputNumbers, Id(0, 0), target, start.val, "", allPaths, goodPath, outputText);
        var found := FindPath(pyramid, start, target, start.val, "", inputNumbers);
        if found {
          assert "" + LeftFirst(inputNumbers, 0, 0, target, start.val).value == outputText;
          return outputText;
        }
      }
      return "No Solution";
    }

    /** Clears the target, the input text, the answer, the trace and the winning path; the
        other fields keep their values. */
    method Reset()
      modifies this`target, this`inputText, this`outputText, this`allPaths, this`goodPath, this`goodPathFound
      ensures target == 0 && inputText == "" && outputText == ""
      ensures allPaths == [] && goodPath == [] && !goodPathFound
    {
      target := 0;
      inputText := "";
      outputText := "";
      allPaths := [];
      goodPath := [];
      goodPathFound := false;
    }
  }
}
