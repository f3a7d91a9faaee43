/**
 * The trace the search leaves for the replay: node ids as it enters and leaves nodes,
 * and at each leaf a Good or Bad marker followed by the leaf's id.
 */
module Traces {
  import opened Pyramid
  import opened Paths

  /** The entries the search appends while it explores from cell (i, j) with running product mult. */
  function Trace(rows: seq<seq<int>>, i: nat, j: nat, target: int, mult: int): seq<Token>
    requires WellShaped(rows) && j <= i < |rows|
    decreases |rows| - i
  {
    if i == |rows| - 1 then
      [if mult == target then Good else Bad, Visit(Id(i, j))]
    else
      var here := Visit(Id(i, j));
      var lm := mult * rows[i + 1][j];
      var left := Trace(rows, i + 1, j, target, lm);
      if LeftFirst(rows, i + 1, j, target, lm).Some? then [here] + left + [here]
      else [here] + left + [here] + Trace(rows, i + 1, j + 1, target, mult * rows[i + 1][j + 1]) + [here]
  }

  /** One level of the search when the left child leads to the target: the right child is
      never entered, and the answer is L followed by the left child's answer. */
  lemma TraceLeftFound(rows: seq<seq<int>>, i: nat, j: nat, target: int, mult: int)
    requires WellShaped(rows) && j <= i < |rows| - 1
    requires LeftFirst(rows, i + 1, j, target, mult * rows[i + 1][j]).Some?
    ensures Trace(rows, i, j, target, mult) ==
              [Visit(Id(i, j))] + Trace(rows, i + 1, j, target, mult * rows[i + 1][j]) + [Visit(Id(i, j))]
    ensures LeftFirst(rows, i, j, target, mult) == Some("L" + LeftFirst(rows, i + 1, j, target, mult * rows[i + 1][j]).value)
  {}

  /** One level of the search when the left child fails: the right child is explored after it,
      and the answer is R followed by the right child's answer, if any. */
  lemma TraceLeftFailed(rows: seq<seq<int>>, i: nat, j: nat, target: int, mult: int)
    requires WellShaped(rows) && j <= i < |rows| - 1
    requires LeftFirst(rows, i + 1, j, target, mult * rows[i + 1][j]).None?
    ensures Trace(rows, i, j, target, mult) ==
              [Visit(Id(i, j))] + Trace(rows, i + 1, j, target, mult * rows[i + 1][j]) + [Visit(Id(i, j))]
              + Trace(rows, i + 1, j + 1, target, mult * rows[i + 1][j + 1]) + [Visit(Id(i, j))]
    ensures LeftFirst(rows, i, j, target, mult) == Turn('R', LeftFirst(rows, i + 1, j + 1, target, mult * rows[i + 1][j + 1]))
  {}

  /* ---------- After the Good marker: the winning path, leaf first ---------- */

  /** The ids of the nodes along w from (i, j), leaf first and (i, j) last: the order in
      which the search, having found the target, pushes them as it returns. */
  function WinTrace(i: nat, j: nat, w: string): seq<Token>
    decreases |w|
  {
    if w == [] then [Visit(Id(i, j))] else WinTrace(i + 1, Step(j, w[0]), w[1..]) + [Visit(Id(i, j))]
  }

  lemma WinTraceCons(i: nat, j: nat, c: char, w: string)
    ensures WinTrace(i, j, [c] + w) == WinTrace(i + 1, Step(j, c), w) + [Visit(Id(i, j))]
  {
    assert ([c] + w)[0] == c && ([c] + w)[1..] == w;
  }

  /** The visits of a sequence of nodes, in the same order. */
  function VisitIds(ns: seq<Node>): (t: seq<Token>)
    ensures |t| == |ns| && forall k :: 0 <= k < |ns| ==> t[k] == Visit(ns[k].id)
  {
    if ns == [] then [] else [Visit(ns[0].id)] + VisitIds(ns[1..])
  }

  lemma VisitIdsAppend(a: seq<Node>, n: Node)
    ensures VisitIds(a + [n]) == VisitIds(a) + [Visit(n.id)]
  {
    var l, r := VisitIds(a + [n]), VisitIds(a) + [Visit(n.id)];
    assert forall k :: 0 <= k < |l| ==> l[k] == r[k];
  }

  lemma WinTraceStep(rows: seq<seq<int>>, i: nat, j: nat, w: string)
    requires WellShaped(rows) && j <= i && i + |w| < |rows| && w != []
    requires WinTrace(i + 1, Step(j, w[0]), w[1..]) == VisitIds(GoodNodes(rows, i + 1, Step(j, w[0]), w[1..]))
    ensures WinTrace(i, j, w) == VisitIds(GoodNodes(rows, i, j, w))
  {
    assert w == [w[0]] + w[1..];
    GoodNodesCons(rows, i, j, w[0], w[1..]);
    VisitIdsAppend(GoodNodes(rows, i + 1, Step(j, w[0]), w[1..]), CellNode(rows, i, j));
  }

  /** The winning trace is the ids of the goodPath the search builds: the nodes along w, leaf first. */
  lemma {:induction false} WinTraceIsGoodPath(rows: seq<seq<int>>, i: nat, j: nat, w: string)
    requires WellShaped(rows) && j <= i && i + |w| < |rows|
    ensures WinTrace(i, j, w) == VisitIds(GoodNodes(rows, i, j, w))
    decreases |w|
  {
    if w == [] {
      var g := GoodNodes(rows, i, j, w);
      assert g == [CellNode(rows, i, j)] && g[1..] == [];
    } else {
      WinTraceIsGoodPath(rows, i + 1, Step(j, w[0]), w[1..]);
      WinTraceStep(rows, i, j, w);
    }
  }

  /** t is some entries without a Good one, then Good, then s. */
  predicate EndsWithGood(t: seq<Token>, s: seq<Token>)
  {
    && |t| > |s|
    && t[|t| - |s| - 1] == Good
    && t[|t| - |s|..] == s
    && Good !in t[..|t| - |s| - 1]
  }

  lemma EndsWithGoodWrap(h: Token, l: seq<Token>, s: seq<Token>)
    requires h != Good && EndsWithGood(l, s)
    ensures EndsWithGood([h] + l + [h], s + [h])
  {
    var t := [h] + l + [h];
    assert t[..|t| - |s| - 2] == [h] + l[..|l| - |s| - 1];
    assert t[|t| - |s| - 2] == l[|l| - |s| - 1];
    assert t[|t| - |s| - 1..] == l[|l| - |s|..] + [h];
  }

  lemma EndsWithGoodAfter(h: Token, l: seq<Token>, r: seq<Token>, s: seq<Token>)
    requires h != Good && Good !in l && EndsWithGood(r, s)
    ensures EndsWithGood([h] + l + [h] + r + [h], s + [h])
  {
    var t := [h] + l + [h] + r + [h];
    var p := [h] + l + [h];
    assert t == p + r + [h];
    assert t[..|t| - |s| - 2] == p + r[..|r| - |s| - 1];
    assert t[|t| - |s| - 2] == r[|r| - |s| - 1];
    assert t[|t| - |s| - 1..] == r[|r| - |s|..] + [h];
  }

  /** The Good marker of a search from (i, j): when it finds the target along w, the trace holds
      a single Good marker followed by exactly the ids of the nodes along w, leaf first; when it
      finds nothing, the trace holds no Good marker. */
  predicate GoodSuffix(rows: seq<seq<int>>, i: nat, j: nat, target: int, mult: int)
    requires WellShaped(rows) && j <= i < |rows|
  {
    var r := LeftFirst(rows, i, j, target, mult);
    var t := Trace(rows, i, j, target, mult);
    if r.Some? then EndsWithGood(t, WinTrace(i, j, r.value)) else Good !in t
  }

  /** A leaf enters Good and its own id when its product is the target, Bad and its id otherwise. */
  lemma GoodSuffixLeaf(rows: seq<seq<int>>, i: nat, j: nat, target: int, mult: int)
    requires WellShaped(rows) && j <= i == |rows| - 1
    ensures GoodSuffix(rows, i, j, target, mult)
  {
    var t := Trace(rows, i, j, target, mult);
    assert t[..0] == [] && t[1..] == [Visit(Id(i, j))];
  }

  lemma GoodSuffixLeftFound(rows: seq<seq<int>>, i: nat, j: nat, target: int, mult: int)
    requires WellShaped(rows) && j <= i < |rows| - 1
    requires LeftFirst(rows, i + 1, j, target, mult * rows[i + 1][j]).Some?
    requires GoodSuffix(rows, i + 1, j, target, mult * rows[i + 1][j])
    ensures GoodSuffix(rows, i, j, target, mult)
  {
    var lm := mult * rows[i + 1][j];
    var wl := LeftFirst(rows, i + 1, j, target, lm).value;
    TraceLeftFound(rows, i, j, target, mult);
    WinTraceCons(i, j, 'L', wl);
    EndsWithGoodWrap(Visit(Id(i, j)), Trace(rows, i + 1, j, target, lm), WinTrace(i + 1, j, wl));
  }

  lemma GoodSuffixLeftFailed(rows: seq<seq<int>>, i: nat, j: nat, target: int, mult: int)
    requires WellShaped(rows) && j <= i < |rows| - 1
    requires LeftFirst(rows, i + 1, j, target, mult * rows[i + 1][j]).None?
    requires GoodSuffix(rows, i + 1, j, target, mult * rows[i + 1][j])
    requires GoodSuffix(rows, i + 1, j + 1, target, mult * rows[i + 1][j + 1])
    ensures GoodSuffix(rows, i, j, target, mult)
  {
    var lm, rm := mult * rows[i + 1][j], mult * rows[i + 1][j + 1];
    TraceLeftFailed(rows, i, j, target, mult);
    var r := LeftFirst(rows, i + 1, j + 1, target, rm);
    if r.Some? {
      WinTraceCons(i, j, 'R', r.value);
      EndsWithGoodAfter(Visit(Id(i, j)), Trace(rows, i + 1, j, target, lm), Trace(rows, i + 1, j + 1, target, rm),
                        WinTrace(i + 1, j + 1, r.value));
    }
  }

  /** Every search, from every cell, leaves its Good marker as GoodSuffix describes. */
  lemma {:induction false} TraceGoodSuffix(rows: seq<seq<int>>, i: nat, j: nat, target: int, mult: int)
    requires WellShaped(rows) && j <= i < |rows|
    ensures GoodSuffix(rows, i, j, target, mult)
    decreases |rows| - i
  {
    if i == |rows| - 1 {
      GoodSuffixLeaf(rows, i, j, target, mult);
    } else {
      var lm, rm := mult * rows[i + 1][j], mult * rows[i + 1][j + 1];
      TraceGoodSuffix(rows, i + 1, j, target, lm);
      if LeftFirst(rows, i + 1, j, target, lm).Some? {
        GoodSuffixLeftFound(rows, i, j, target, mult);
      } else {
        TraceGoodSuffix(rows, i + 1, j + 1, target, rm);
        GoodSuffixLeftFailed(rows, i, j, target, mult);
      }
    }
  }

  /* ---------- A failed search tries every leaf below it ---------- */

  /** The number of Bad markers of a failed search from (i, j): one per path to the last row. */
  predicate BadCount(rows: seq<seq<int>>, i: nat, j: nat, target: int, mult: int)
    requires WellShaped(rows) && j <= i < |rows|
  {
    LeftFirst(rows, i, j, target, mult).None? ==> multiset(Trace(rows, i, j, target, mult))[Bad] == Pow2(|rows| - 1 - i)
  }

  lemma CountAround(h: Token, l: seq<Token>, r: seq<Token>, x: Token)
    requires x != h
    ensures multiset([h] + l + [h] + r + [h])[x] == multiset(l)[x] + multiset(r)[x]
  {}

  lemma BadCountLeftFailed(rows: seq<seq<int>>, i: nat, j: nat, target: int, mult: int)
    requires WellShaped(rows) && j <= i < |rows| - 1
    requires LeftFirst(rows, i + 1, j, target, mult * rows[i + 1][j]).None?
    requires BadCount(rows, i + 1, j, target, mult * rows[i + 1][j])
    requires BadCount(rows, i + 1, j + 1, target, mult * rows[i + 1][j + 1])
    ensures BadCount(rows, i, j, target, mult)
  {
    var lm, rm := mult * rows[i + 1][j], mult * rows[i + 1][j + 1];
    TraceLeftFailed(rows, i, j, target, mult);
    CountAround(Visit(Id(i, j)), Trace(rows, i + 1, j, target, lm), Trace(rows, i + 1, j + 1, target, rm), Bad);
  }

  /** A search that finds nothing has tried all 2^n paths from (i, j) to the last row,
      n being the number of rows below it: its trace holds one Bad marker for each. */
  lemma {:induction false} TraceBadCount(rows: seq<seq<int>>, i: nat, j: nat, target: int, mult: int)
    requires WellShaped(rows) && j <= i < |rows|
    ensures BadCount(rows, i, j, target, mult)
    decreases |rows| - i
  {
    if i < |rows| - 1 {
      var lm, rm := mult * rows[i + 1][j], mult * rows[i + 1][j + 1];
      if LeftFirst(rows, i + 1, j, target, lm).Some? {
        TraceLeftFound(rows, i, j, target, mult);
      } else {
        TraceBadCount(rows, i + 1, j, target, lm);
        TraceBadCount(rows, i + 1, j + 1, target, rm);
        BadCountLeftFailed(rows, i, j, target, mult);
      }
    }
  }

  /* ---------- Every marker is followed by the id of a leaf ---------- */

  /** Every Good or Bad entry of t is followed by the id of a node in row r. */
  predicate MarkersFollowedBy(t: seq<Token>, r: nat)
  {
    forall k :: 0 <= k < |t| && !t[k].Visit? ==> k + 1 < |t| && t[k + 1].Visit? && t[k + 1].id.row == r
  }

  lemma MarkersFollowedByAppend(a: seq<Token>, b: seq<Token>, r: nat)
    requires MarkersFollowedBy(a, r) && MarkersFollowedBy(b, r)
    ensures MarkersFollowedBy(a + b, r)
  {
    forall k | 0 <= k < |a + b| && !(a + b)[k].Visit?
      ensures k + 1 < |a + b| && (a + b)[k + 1].Visit? && (a + b)[k + 1].id.row == r
    {
      if k < |a| {
        assert (a + b)[k] == a[k] && (a + b)[k + 1] == a[k + 1];
      } else {
        assert (a + b)[k] == b[k - |a|] && (a + b)[k + 1] == b[k - |a| + 1];
      }
    }
  }

  lemma MarkersFollowedByAround(h: Id, l: seq<Token>, r: nat)
    requires MarkersFollowedBy(l, r)
    ensures MarkersFollowedBy([Visit(h)] + l + [Visit(h)], r)
  {
    MarkersFollowedByAppend([Visit(h)], l, r);
    MarkersFollowedByAppend([Visit(h)] + l, [Visit(h)], r);
  }

  lemma MarkersFollowedByStep(rows: seq<seq<int>>, i: nat, j: nat, target: int, mult: int)
    requires WellShaped(rows) && j <= i < |rows| - 1
    requires MarkersFollowedBy(Trace(rows, i + 1, j, target, mult * rows[i + 1][j]), |rows| - 1)
    requires MarkersFollowedBy(Trace(rows, i + 1, j + 1, target, mult * rows[i + 1][j + 1]), |rows| - 1)
    ensures MarkersFollowedBy(Trace(rows, i, j, target, mult), |rows| - 1)
  {
    var lm, rm := mult * rows[i + 1][j], mult * rows[i + 1][j + 1];
    var left, right := Trace(rows, i + 1, j, target, lm), Trace(rows, i + 1, j + 1, target, rm);
    MarkersFollowedByAround(Id(i, j), left, |rows| - 1);
    if LeftFirst(rows, i + 1, j, target, lm).Some? {
      TraceLeftFound(rows, i, j, target, mult);
    } else {
      TraceLeftFailed(rows, i, j, target, mult);
      var p := [Visit(Id(i, j))] + left + [Visit(Id(i, j))];
      MarkersFollowedByAppend(p, right, |rows| - 1);
      MarkersFollowedByAppend(p + right, [Visit(Id(i, j))], |rows| - 1);
    }
  }

  /** In the trace, every Good or Bad marker is immediately followed by the id of a leaf:
      the replay never meets a marker it cannot place. */
  lemma {:induction false} TraceMarkersFollowedByLeaf(rows: seq<seq<int>>, i: nat, j: nat, target: int, mult: int)
    requires WellShaped(rows) && j <= i < |rows|
    ensures MarkersFollowedBy(Trace(rows, i, j, target, mult), |rows| - 1)
    decreases |rows| - i
  {
    if i < |rows| - 1 {
      TraceMarkersFollowedByLeaf(rows, i + 1, j, target, mult * rows[i + 1][j]);
      TraceMarkersFollowedByLeaf(rows, i + 1, j + 1, target, mult * rows[i + 1][j + 1]);
      MarkersFollowedByStep(rows, i, j, target, mult);
    }
  }

  /* ---------- Which node ids the trace holds ---------- */

  /** Every id in t lies in the part of a pyramid of height n below (i, j):
      a row r with i <= r < n and a column between j and j + (r - i). */
  predicate StaysBelow(t: seq<Token>, i: nat, j: nat, n: nat)
  {
    forall x :: x in t && x.Visit? ==> i <= x.id.row < n && j <= x.id.col <= j + (x.id.row - i)
  }

  lemma StaysBelowStep(rows: seq<seq<int>>, i: nat, j: nat, target: int, mult: int)
    requires WellShaped(rows) && j <= i < |rows| - 1
    requires StaysBelow(Trace(rows, i + 1, j, target, mult * rows[i + 1][j]), i + 1, j, |rows|)
    requires StaysBelow(Trace(rows, i + 1, j + 1, target, mult * rows[i + 1][j + 1]), i + 1, j + 1, |rows|)
    ensures StaysBelow(Trace(rows, i, j, target, mult), i, j, |rows|)
  {
    if LeftFirst(rows, i + 1, j, target, mult * rows[i + 1][j]).Some? {
      TraceLeftFound(rows, i, j, target, mult);
    } else {
      TraceLeftFailed(rows, i, j, target, mult);
    }
  }

  /** The search from (i, j) only ever visits nodes below (i, j). */
  lemma {:induction false} TraceStaysBelow(rows: seq<seq<int>>, i: nat, j: nat, target: int, mult: int)
    requires WellShaped(rows) && j <= i < |rows|
    ensures StaysBelow(Trace(rows, i, j, target, mult), i, j, |rows|)
    decreases |rows| - i
  {
    if i < |rows| - 1 {
      TraceStaysBelow(rows, i + 1, j, target, mult * rows[i + 1][j]);
      TraceStaysBelow(rows, i + 1, j + 1, target, mult * rows[i + 1][j + 1]);
      StaysBelowStep(rows, i, j, target, mult);
    }
  }

  lemma NotBelow(t: seq<Token>, i: nat, j: nat, n: nat, id: Id)
    requires StaysBelow(t, i, j, n)
    requires !(i <= id.row < n && j <= id.col <= j + (id.row - i))
    ensures Visit(id) !in t
  {}

  lemma VisitsAround(h: Token, l: seq<Token>)
    requires h !in l
    ensures var t := [h] + l + [h]; t[0] == h && t[|t| - 1] == h && multiset(t)[h] == 2
  {}

  lemma VisitsAroundBoth(h: Token, l: seq<Token>, r: seq<Token>)
    requires h !in l && h !in r
    ensures var t := [h] + l + [h] + r + [h]; t[0] == h && t[|t| - 1] == h && multiset(t)[h] == 3
  {}

  /** When the left child leads to the target, the search pushes the node's id twice, on entry
      and after the left recursion, and never enters the right child. */
  lemma TraceNodeLeftFound(rows: seq<seq<int>>, i: nat, j: nat, target: int, mult: int)
    requires WellShaped(rows) && j <= i < |rows| - 1
    requires LeftFirst(rows, i + 1, j, target, mult * rows[i + 1][j]).Some?
    ensures var t := Trace(rows, i, j, target, mult);
            && t[0] == Visit(Id(i, j)) && t[|t| - 1] == Visit(Id(i, j))
            && multiset(t)[Visit(Id(i, j))] == 2
            && Visit(Id(i + 1, j + 1)) !in t
  {
    var lm := mult * rows[i + 1][j];
    var left := Trace(rows, i + 1, j, target, lm);
    TraceStaysBelow(rows, i + 1, j, target, lm);
    NotBelow(left, i + 1, j, |rows|, Id(i, j));
    NotBelow(left, i + 1, j, |rows|, Id(i + 1, j + 1));
    TraceLeftFound(rows, i, j, target, mult);
    VisitsAround(Visit(Id(i, j)), left);
  }

  /** When the left child fails, the search pushes the node's id three times: on entry, after
      the left recursion and after the right one. */
  lemma TraceNodeLeftFailed(rows: seq<seq<int>>, i: nat, j: nat, target: int, mult: int)
    requires WellShaped(rows) && j <= i < |rows| - 1
    requires LeftFirst(rows, i + 1, j, target, mult * rows[i + 1][j]).None?
    ensures var t := Trace(rows, i, j, target, mult);
            && t[0] == Visit(Id(i, j)) && t[|t| - 1] == Visit(Id(i, j))
            && multiset(t)[Visit(Id(i, j))] == 3
  {
    var lm, rm := mult * rows[i + 1][j], mult * rows[i + 1][j + 1];
    var left, right := Trace(rows, i + 1, j, target, lm), Trace(rows, i + 1, j + 1, target, rm);
    TraceStaysBelow(rows, i + 1, j, target, lm);
    TraceStaysBelow(rows, i + 1, j + 1, target, rm);
    NotBelow(left, i + 1, j, |rows|, Id(i, j));
    NotBelow(right, i + 1, j + 1, |rows|, Id(i, j));
    TraceLeftFailed(rows, i, j, target, mult);
    VisitsAroundBoth(Visit(Id(i, j)), left, right);
  }
}
