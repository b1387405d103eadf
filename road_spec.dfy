/** The road network of DSARoadGraph.py described on values: the directed
    edge records, the pairing of each road's two records, cutting records out
    of the list, the labels adjacent to a vertex, reachability, and the
    (parent, child) list a traversal records.  The class in road_graph.dfy is
    proved against these definitions. */
module RoadSpec {
  import opened Wrappers

  /** `_DSAGraphEdge`: a directed record from one location to another, with
      the road's name and length.  Endpoints are held by label: labels are
      unique in a graph, so a label names its vertex object. */
  datatype Edge = Edge(from: string, to: string, roadName: string, distance: int)

  /** The record for the same road in the other direction. */
  function Reverse(e: Edge): Edge
  {
    Edge(e.to, e.from, e.roadName, e.distance)
  }

  /** Some record runs from `a` to `b`. */
  ghost predicate HasRecord(s: seq<Edge>, a: string, b: string)
  {
    exists e | e in s :: e.from == a && e.to == b
  }

  /** `addEdge` appends a road's record and then its reverse, so the list is
      a run of such pairs. */
  ghost predicate Paired(s: seq<Edge>)
  {
    if s == [] then true
    else |s| >= 2 && s[1] == Reverse(s[0]) && Paired(s[2..])
  }

  /** A paired list has an even length, so `getEdgeCount` halves it exactly. */
  lemma {:induction false} PairedEven(s: seq<Edge>)
    requires Paired(s)
    ensures |s| % 2 == 0
  {
    if s != [] {
      PairedEven(s[2..]);
    }
  }

  /** Appending a road and its reverse keeps the list paired. */
  lemma {:induction false} PairedAppend(s: seq<Edge>, e: Edge)
    requires Paired(s)
    ensures Paired(s + [e, Reverse(e)])
  {
    if s != [] {
      PairedAppend(s[2..], e);
      assert (s + [e, Reverse(e)])[2..] == s[2..] + [e, Reverse(e)];
    }
  }

  /** In a paired list every record has its reverse: roads are two-way. */
  lemma {:induction false} PairedReverse(s: seq<Edge>, a: string, b: string)
    requires Paired(s) && HasRecord(s, a, b)
    ensures HasRecord(s, b, a)
  {
    var e :| e in s && e.from == a && e.to == b;
    if e == s[0] {
      assert s[1] in s;
    } else if e == s[1] {
      assert s[0] in s;
    } else {
      assert e in s[2..];
      PairedReverse(s[2..], a, b);
      var f :| f in s[2..] && f.from == b && f.to == a;
      assert f in s;
    }
  }

  /** What a deletion cuts out: every record touching one vertex
      (`deleteVertex`), or the records between two vertices in either
      direction (`deleteEdge`). */
  datatype Cut = Touching(v: string) | Between(a: string, b: string)

  predicate Cuts(c: Cut, e: Edge)
  {
    match c
    case Touching(v) => e.from == v || e.to == v
    case Between(a, b) => (e.from == a && e.to == b) || (e.from == b && e.to == a)
  }

  /** The list with the cut records spliced out, the others in their order. */
  function Without(s: seq<Edge>, c: Cut): (r: seq<Edge>)
    ensures |r| <= |s|
  {
    if s == [] then []
    else (if Cuts(c, s[0]) then [] else [s[0]]) + Without(s[1..], c)
  }

  /** The cut takes exactly the records it names and keeps all others. */
  lemma {:induction false} WithoutMembers(s: seq<Edge>, c: Cut)
    ensures forall e :: e in Without(s, c) <==> e in s && !Cuts(c, e)
  {
    if s != [] {
      WithoutMembers(s[1..], c);
      assert forall e :: e in s <==> e == s[0] || e in s[1..];
    }
  }

  lemma {:induction false} WithoutAppend(s: seq<Edge>, t: seq<Edge>, c: Cut)
    ensures Without(s + t, c) == Without(s, c) + Without(t, c)
  {
    if s == [] {
      assert s + t == t;
    } else {
      WithoutAppend(s[1..], t, c);
      AppendTail(s, t);
      JoinHeads(Without(s + t, c), Without(s, c), Without(s[1..] + t, c), Without(s[1..], c),
                Without(t, c), if Cuts(c, s[0]) then [] else [s[0]]);
    }
  }

  lemma AppendTail(s: seq<Edge>, t: seq<Edge>)
    requires s != []
    ensures (s + t)[0] == s[0] && (s + t)[1..] == s[1..] + t
  {
  }

  lemma JoinHeads(l: seq<Edge>, r: seq<Edge>, lt: seq<Edge>, rt: seq<Edge>, w: seq<Edge>, head: seq<Edge>)
    requires l == head + lt && r == head + rt && lt == rt + w
    ensures l == r + w
  {
  }

  /** Something is cut exactly when the list gets shorter. */
  lemma {:induction false} WithoutShorter(s: seq<Edge>, c: Cut)
    ensures |Without(s, c)| < |s| <==> exists e | e in s :: Cuts(c, e)
  {
    if s != [] {
      WithoutShorter(s[1..], c);
      assert forall e | e in s[1..] :: e in s;
    }
  }

  /** One step of the splice loop: `edges` is the list with the cut
      records of `s[..k]` already gone, `i` the position of `s[k]` in it.
      Unlinking `s[k]` when the cut takes it, or stepping past it, gives the
      same shape for `k + 1`. */
  lemma SpliceStep(s: seq<Edge>, c: Cut, k: int, edges: seq<Edge>, i: int)
    requires 0 <= k < |s|
    requires edges == Without(s[..k], c) + s[k..] && i == |Without(s[..k], c)|
    ensures i < |edges| && edges[i] == s[k]
    ensures Cuts(c, s[k]) ==>
              edges[..i] + edges[i + 1..] == Without(s[..k + 1], c) + s[k + 1..]
              && i == |Without(s[..k + 1], c)|
    ensures !Cuts(c, s[k]) ==>
              edges == Without(s[..k + 1], c) + s[k + 1..]
              && i + 1 == |Without(s[..k + 1], c)|
  {
    var w := Without(s[..k], c);
    WithoutNext(s, c, k);
    var rest := s[k + 1..];
    assert s[k..] == [s[k]] + rest;
    assert edges == w + ([s[k]] + rest);
    if Cuts(c, s[k]) {
      assert edges[..i] == w;
      assert edges[i + 1..] == rest;
    } else {
      assert edges == (w + [s[k]]) + rest;
    }
  }

  /** The cut of one more record of `s`. */
  lemma WithoutNext(s: seq<Edge>, c: Cut, k: int)
    requires 0 <= k < |s|
    ensures Without(s[..k + 1], c) == Without(s[..k], c) + (if Cuts(c, s[k]) then [] else [s[k]])
  {
    assert s[..k + 1] == s[..k] + [s[k]];
    WithoutAppend(s[..k], [s[k]], c);
    WithoutSingle(s[k], c);
  }

  lemma WithoutSingle(x: Edge, c: Cut)
    ensures Without([x], c) == if Cuts(c, x) then [] else [x]
  {
    assert [x][1..] == [];
  }

  /** Both cuts take a road's two records together, so the list stays paired. */
  lemma {:induction false} WithoutPaired(s: seq<Edge>, c: Cut)
    requires Paired(s)
    ensures Paired(Without(s, c))
  {
    if s != [] {
      assert Cuts(c, s[1]) == Cuts(c, s[0]);
      WithoutTwo(s, c);
      WithoutPaired(s[2..], c);
      var rest := Without(s[2..], c);
      if !Cuts(c, s[0]) {
        var w := [s[0], s[1]] + rest;
        assert w[1] == Reverse(w[0]);
        assert w[2..] == rest;
      } else {
        assert Without(s, c) == rest;
      }
    }
  }

  /** A cut that takes both or neither of the first two records. */
  lemma WithoutTwo(s: seq<Edge>, c: Cut)
    requires |s| >= 2 && Cuts(c, s[1]) == Cuts(c, s[0])
    ensures Without(s, c) == (if Cuts(c, s[0]) then [] else [s[0], s[1]]) + Without(s[2..], c)
  {
    assert s[1..][1..] == s[2..];
  }

  /** The first record the cut takes: the record `getEdge` returns, for the
      cut between its two labels. */
  function FirstCut(s: seq<Edge>, c: Cut): (r: Option<Edge>)
    ensures r.None? <==> forall e | e in s :: !Cuts(c, e)
    ensures r.Some? ==> r.value in s && Cuts(c, r.value)
  {
    if s == [] then None
    else if Cuts(c, s[0]) then Some(s[0])
    else FirstCut(s[1..], c)
  }

  lemma {:induction false} FirstCutSkips(s: seq<Edge>, t: seq<Edge>, c: Cut)
    requires FirstCut(s, c) == None
    ensures FirstCut(s + t, c) == FirstCut(t, c)
  {
    if s == [] {
      assert s + t == t;
    } else {
      assert (s + t)[0] == s[0] && (s + t)[1..] == s[1..] + t;
      FirstCutSkips(s[1..], t, c);
    }
  }

  /** What a successful `addEdge` leaves: the list stays paired and gains
      one road, both directions are adjacent, and the road's record is what
      `getEdge` finds in either argument order. */
  lemma RoadAdded(s: seq<Edge>, a: string, b: string, name: string, distance: int)
    requires Paired(s) && !HasRecord(s, a, b)
    ensures var t := s + [Edge(a, b, name, distance), Edge(b, a, name, distance)];
      && Paired(t) && |t| / 2 == |s| / 2 + 1
      && HasRecord(t, a, b) && HasRecord(t, b, a)
      && FirstCut(t, Between(a, b)) == Some(Edge(a, b, name, distance))
      && FirstCut(t, Between(b, a)) == Some(Edge(a, b, name, distance))
  {
    var e := Edge(a, b, name, distance);
    var t := s + [e, Reverse(e)];
    PairedAppend(s, e);
    PairedEven(s);
    assert t[|s|] == e && t[|s| + 1] == Reverse(e);
    if !(forall f | f in s :: !Cuts(Between(a, b), f)) {
      var f :| f in s && Cuts(Between(a, b), f);
      assert HasRecord(s, b, a);
      PairedReverse(s, b, a);
    }
    FirstCutSkips(s, [e, Reverse(e)], Between(a, b));
    FirstCutSkips(s, [e, Reverse(e)], Between(b, a));
  }

  /** The labels at the far end of every record leaving `v`, in record order:
      the adjacency list `getAdjacent` collects before sorting. */
  function Targets(s: seq<Edge>, v: string): (r: seq<string>)
    ensures forall x :: x in r <==> HasRecord(s, v, x)
  {
    if s == [] then []
    else
      var last := s[|s| - 1];
      assert forall e :: e in s <==> e in s[..|s| - 1] || e == last;
      Targets(s[..|s| - 1], v) + (if last.from == v then [last.to] else [])
  }

  /** Scanning one more record extends the adjacency list by its target
      when it leaves `v`. */
  lemma TargetsStep(s: seq<Edge>, i: int, v: string)
    requires 0 <= i < |s|
    ensures Targets(s[..i + 1], v) ==
              Targets(s[..i], v) + (if s[i].from == v then [s[i].to] else [])
  {
    assert s[..i + 1][..i] == s[..i];
  }

  /** `p` follows records: each label has a record to the next. */
  ghost predicate Walk(s: seq<Edge>, p: seq<string>)
  {
    forall k | 0 <= k < |p| - 1 :: HasRecord(s, p[k], p[k + 1])
  }

  /** `b` can be reached from `a` along records (what `is_path` decides). */
  ghost predicate Reachable(s: seq<Edge>, a: string, b: string)
  {
    exists p :: |p| > 0 && p[0] == a && p[|p| - 1] == b && Walk(s, p)
  }

  /** No record leaves the set `C`. */
  ghost predicate Closed(s: seq<Edge>, C: set<string>)
  {
    forall e | e in s && e.from in C :: e.to in C
  }

  lemma ReachableFromSelf(s: seq<Edge>, a: string)
    ensures Reachable(s, a, a)
  {
    assert Walk(s, [a]);
  }

  /** A reachable vertex's record leads to another reachable vertex. */
  lemma ReachableStep(s: seq<Edge>, a: string, v: string, w: string)
    requires Reachable(s, a, v) && HasRecord(s, v, w)
    ensures Reachable(s, a, w)
  {
    var p :| |p| > 0 && p[0] == a && p[|p| - 1] == v && Walk(s, p);
    var q := p + [w];
    forall k | 0 <= k < |q| - 1
      ensures HasRecord(s, q[k], q[k + 1])
    {
      if k < |p| - 1 {
        assert q[k] == p[k] && q[k + 1] == p[k + 1];
      }
    }
    assert Walk(s, q);
  }

  lemma {:induction false} WalkStaysIn(s: seq<Edge>, p: seq<string>, C: set<string>)
    requires |p| > 0 && Walk(s, p) && p[0] in C && Closed(s, C)
    ensures p[|p| - 1] in C
  {
    if |p| > 1 {
      var q := p[..|p| - 1];
      assert Walk(s, q) by {
        forall k | 0 <= k < |q| - 1
          ensures HasRecord(s, q[k], q[k + 1])
        {
          assert q[k] == p[k] && q[k + 1] == p[k + 1];
        }
      }
      WalkStaysIn(s, q, C);
      assert HasRecord(s, p[|p| - 2], p[|p| - 1]);
    }
  }

  /** A set that holds `a` and that no record leaves holds everything
      reachable from `a`. */
  lemma ClosedHoldsReachable(s: seq<Edge>, C: set<string>, a: string, b: string)
    requires a in C && Closed(s, C) && Reachable(s, a, b)
    ensures b in C
  {
    var p :| |p| > 0 && p[0] == a && p[|p| - 1] == b && Walk(s, p);
    WalkStaysIn(s, p, C);
  }

  lemma {:induction false} WalkBack(s: seq<Edge>, p: seq<string>)
    requires Paired(s) && |p| > 0 && Walk(s, p)
    ensures Reachable(s, p[|p| - 1], p[0])
  {
    if |p| == 1 {
      ReachableFromSelf(s, p[0]);
    } else {
      var q := p[1..];
      assert Walk(s, q) by {
        forall k | 0 <= k < |q| - 1
          ensures HasRecord(s, q[k], q[k + 1])
        {
          assert q[k] == p[k + 1] && q[k + 1] == p[k + 2];
        }
      }
      WalkBack(s, q);
      assert HasRecord(s, p[0], p[1]);
      PairedReverse(s, p[0], p[1]);
      ReachableStep(s, p[|p| - 1], p[1], p[0]);
    }
  }

  /** Roads are two-way, so reachability is symmetric: `is_path(a, b)` and
      `is_path(b, a)` agree. */
  lemma ReachableSymmetric(s: seq<Edge>, a: string, b: string)
    requires Paired(s) && Reachable(s, a, b)
    ensures Reachable(s, b, a)
  {
    var p :| |p| > 0 && p[0] == a && p[|p| - 1] == b && Walk(s, p);
    WalkBack(s, p);
  }

  /** The children recorded in a traversal's (parent, child) list. */
  ghost function ChildSet(t: seq<(string, string)>): set<string>
  {
    if t == [] then {} else ChildSet(t[..|t| - 1]) + {t[|t| - 1].1}
  }

  /** The (parent, child) pairs a traversal from `start` records form a tree
      rooted there, pair by pair: each pair follows a record, its parent is
      the root or an earlier child, and its child is neither the root nor an
      earlier child. */
  ghost predicate SpanningTree(s: seq<Edge>, start: string, t: seq<(string, string)>)
  {
    if t == [] then true
    else
      var n := |t| - 1;
      && SpanningTree(s, start, t[..n])
      && HasRecord(s, t[n].0, t[n].1)
      && (t[n].0 == start || t[n].0 in ChildSet(t[..n]))
      && t[n].1 != start && t[n].1 !in ChildSet(t[..n])
  }

  lemma {:induction false} ChildSetHolds(t: seq<(string, string)>)
    ensures forall k | 0 <= k < |t| :: t[k].1 in ChildSet(t)
  {
    if t != [] {
      var n := |t| - 1;
      ChildSetHolds(t[..n]);
      assert forall k | 0 <= k < n :: t[..n][k] == t[k];
    }
  }

  /** A tree's children are distinct and differ from the root, so it has
      as many children as pairs. */
  lemma {:induction false} TreeCard(s: seq<Edge>, start: string, t: seq<(string, string)>)
    requires SpanningTree(s, start, t)
    ensures |ChildSet(t)| == |t| && start !in ChildSet(t)
  {
    if t != [] {
      TreeCard(s, start, t[..|t| - 1]);
    }
  }

  /** Every child of a tree is the target of some record. */
  lemma {:induction false} TreeInside(s: seq<Edge>, start: string, t: seq<(string, string)>, D: set<string>)
    requires SpanningTree(s, start, t)
    requires forall e | e in s :: e.to in D
    ensures ChildSet(t) <= D
  {
    if t != [] {
      var n := |t| - 1;
      TreeInside(s, start, t[..n], D);
      var e :| e in s && e.from == t[n].0 && e.to == t[n].1;
    }
  }

  /** A traversal tree read as a whole: every pair follows a record, no
      child is the root, and no label is recorded as a child twice. */
  lemma {:induction false} TreePairs(s: seq<Edge>, start: string, t: seq<(string, string)>)
    requires SpanningTree(s, start, t)
    ensures forall k | 0 <= k < |t| :: HasRecord(s, t[k].0, t[k].1) && t[k].1 != start
    ensures forall j, k | 0 <= j < k < |t| :: t[j].1 != t[k].1
  {
    if t != [] {
      var n := |t| - 1;
      TreePairs(s, start, t[..n]);
      ChildSetHolds(t[..n]);
      assert forall k | 0 <= k < n :: t[..n][k] == t[k];
    }
  }

  /** Every child of a traversal tree is reachable from its root. */
  lemma {:induction false} TreeReaches(s: seq<Edge>, start: string, t: seq<(string, string)>)
    requires SpanningTree(s, start, t)
    ensures forall u | u in ChildSet(t) :: Reachable(s, start, u)
  {
    if t != [] {
      var n := |t| - 1;
      TreeReaches(s, start, t[..n]);
      if t[n].0 == start {
        ReachableFromSelf(s, start);
      }
      ReachableStep(s, start, t[n].0, t[n].1);
    }
  }

  /** A finished traversal from `start`: a tree rooted there from which no
      record leads out. */
  ghost predicate Traversal(s: seq<Edge>, start: string, t: seq<(string, string)>)
  {
    SpanningTree(s, start, t) && Closed(s, {start} + ChildSet(t))
  }

  /** Recording one more (parent, child) pair, with the parent already in
      the tree and the child new, keeps it a tree. */
  lemma TreeGrows(s: seq<Edge>, start: string, t: seq<(string, string)>, v: string, w: string)
    requires SpanningTree(s, start, t) && HasRecord(s, v, w)
    requires v == start || v in ChildSet(t)
    requires w != start && w !in ChildSet(t)
    ensures SpanningTree(s, start, t + [(v, w)])
    ensures ChildSet(t + [(v, w)]) == ChildSet(t) + {w}
  {
    assert (t + [(v, w)])[..|t|] == t;
  }

  /** A traversal that leaves no record leaving its tree has reached exactly
      the vertices reachable from its root. */
  lemma TraversalReach(s: seq<Edge>, start: string, t: seq<(string, string)>)
    requires Traversal(s, start, t)
    ensures forall u :: Reachable(s, start, u) <==> u == start || u in ChildSet(t)
  {
    TreeReaches(s, start, t);
    ReachableFromSelf(s, start);
    forall u | Reachable(s, start, u)
      ensures u == start || u in ChildSet(t)
    {
      ClosedHoldsReachable(s, {start} + ChildSet(t), start, u);
    }
  }

  /** The loop invariant of the searches: every label waiting in `pending`
      (the queue or the stack) is flagged, and every record leaving a flagged
      label that is not waiting leads to a flagged label. */
  ghost predicate Frontier(s: seq<Edge>, C: set<string>, pending: seq<string>)
  {
    && (forall x | x in pending :: x in C)
    && (forall e | e in s && e.from in C && e.from !in pending :: e.to in C)
  }

  /** Flagging a label and putting it in the queue or on the stack, with
      nothing taken out, keeps the invariant. */
  lemma FrontierGrows(s: seq<Edge>, C: set<string>, pending: seq<string>, w: string, pending': seq<string>)
    requires Frontier(s, C, pending)
    requires w in pending' && forall x | x in pending :: x in pending'
    requires forall x | x in pending' :: x in C || x == w
    ensures Frontier(s, C + {w}, pending')
  {
  }

  /** A label whose records all lead to flagged labels no longer needs to
      wait. */
  lemma FrontierDone(s: seq<Edge>, C: set<string>, v: string, pending: seq<string>)
    requires Frontier(s, C, [v] + pending)
    requires forall x | HasRecord(s, v, x) :: x in C
    ensures Frontier(s, C, pending)
  {
    forall e | e in s && e.from in C && e.from !in pending
      ensures e.to in C
    {
      if e.from == v {
        assert HasRecord(s, v, e.to);
      }
    }
  }

  /** The state of a search from `start` between two steps: `C` holds the
      flagged labels, which are the root and the children recorded so far,
      the recorded pairs form a tree, and `pending` is the queue or the
      stack of labels still to expand. */
  ghost predicate Search(s: seq<Edge>, start: string, C: set<string>, t: seq<(string, string)>, pending: seq<string>)
  {
    && C == {start} + ChildSet(t)
    && SpanningTree(s, start, t)
    && Frontier(s, C, pending)
  }

  /** A search begins with the root flagged and waiting. */
  lemma SearchStarts(s: seq<Edge>, start: string)
    ensures Search(s, start, {start}, [], [start])
  {
  }

  /** Recording the pair (v, w) for a record v→w to an unflagged label,
      flagging w and queueing it at the back, keeps the search state. */
  lemma SearchQueues(s: seq<Edge>, start: string, C: set<string>, t: seq<(string, string)>,
                     v: string, queue: seq<string>, w: string)
    requires Search(s, start, C, t, [v] + queue)
    requires v in C && HasRecord(s, v, w) && w !in C
    ensures Search(s, start, C + {w}, t + [(v, w)], [v] + (queue + [w]))
  {
    TreeGrows(s, start, t, v, w);
    FrontierGrows(s, C, [v] + queue, w, [v] + (queue + [w]));
  }

  /** The same, pushing w on top of the stack. */
  lemma SearchStacks(s: seq<Edge>, start: string, C: set<string>, t: seq<(string, string)>,
                     pending: seq<string>, v: string, w: string)
    requires Search(s, start, C, t, pending)
    requires v in C && HasRecord(s, v, w) && w !in C
    ensures Search(s, start, C + {w}, t + [(v, w)], [w] + pending)
  {
    TreeGrows(s, start, t, v, w);
    FrontierGrows(s, C, pending, w, [w] + pending);
  }

  /** A label taken from the front whose records all lead to flagged labels
      is finished with. */
  lemma SearchExpands(s: seq<Edge>, start: string, C: set<string>, t: seq<(string, string)>,
                      v: string, pending: seq<string>)
    requires Search(s, start, C, t, [v] + pending)
    requires forall x | HasRecord(s, v, x) :: x in C
    ensures Search(s, start, C, t, pending)
  {
    FrontierDone(s, C, v, pending);
  }

  /** When nothing waits, the recorded pairs are a finished traversal, and
      the flagged labels are exactly the ones reachable from the root. */
  lemma SearchEnds(s: seq<Edge>, start: string, C: set<string>, t: seq<(string, string)>)
    requires Search(s, start, C, t, [])
    ensures Traversal(s, start, t)
    ensures forall u :: Reachable(s, start, u) <==> u in C
  {
    TraversalReach(s, start, t);
  }

  /** Flagging labels of `E` shrinks the set of unflagged ones: the
      searches terminate. */
  lemma Shrinks(E: set<string>, C0: set<string>, C1: set<string>)
    requires C0 <= C1 <= E && C0 != C1
    ensures E - C1 < E - C0
  {
    var w :| w in C1 && w !in C0;
    assert w in E - C0;
  }
}
