/** The order in which `breadthFirstSearch` and `depthFirstSearch`
    (DSARoadGraph.py) record their (parent, child) pairs, as value
    definitions.  Both meet a vertex's neighbours least label first, because
    `getAdjacent` sorts them; the breadth-first search expands vertices in
    the order it queued them, the depth-first search always goes on from
    the top of its stack. */
module SearchOrder {
  import opened Sorts
  import opened StringOrder
  import opened RoadSpec

  /** A search between two steps: the flagged labels, the recorded pairs
      and the queue or stack of labels still to expand (front or top
      first). */
  datatype State = State(flagged: set<string>, tree: seq<(string, string)>, pending: seq<string>)

  /** The state both searches start from: only the root flagged and
      waiting, nothing recorded. */
  function Begin(start: string): (st: State)
    ensures st.pending == [start] && st.tree == [] && start in st.flagged && |st.flagged| == 1
  {
    State({start}, [], [start])
  }

  /** The neighbours of `v` whose flag is down. */
  ghost function Unflagged(s: seq<Edge>, v: string, C: set<string>): set<string>
  {
    set x | x in Targets(s, v) && x !in C
  }

  /** Every label some record leads to. */
  ghost function Ends(s: seq<Edge>): set<string>
  {
    set e | e in s :: e.to
  }

  /** `m` is a label of `U` above none of the others. */
  ghost predicate IsLeast(U: set<string>, m: string)
  {
    m in U && forall x | x in U :: !Less(x, m)
  }

  lemma {:induction false} LeastExists(U: set<string>)
    requires U != {}
    ensures exists m :: IsLeast(U, m)
    decreases |U|
  {
    var y :| y in U;
    LessIrreflexive(y);
    if U == {y} {
      assert IsLeast(U, y);
    } else {
      var rest := U - {y};
      assert |rest| < |U|;
      LeastExists(rest);
      var m :| IsLeast(rest, m);
      LeastOfTwo(U, rest, y, m);
    }
  }

  /** The least of `U - {y}` and `y` is the least of `U`. */
  lemma LeastOfTwo(U: set<string>, rest: set<string>, y: string, m: string)
    requires rest == U - {y} && y in U && IsLeast(rest, m)
    ensures IsLeast(U, y) || IsLeast(U, m)
  {
    LessIrreflexive(y);
    if Less(y, m) {
      forall x | x in U
        ensures !Less(x, y)
      {
        if x != y && Less(x, y) {
          LessTransitive(x, y, m);
        }
      }
      assert IsLeast(U, y);
    } else {
      assert IsLeast(U, m);
    }
  }

  /** The least label of a non-empty set. */
  ghost function Least(U: set<string>): (m: string)
    requires U != {}
    ensures m in U && forall x | x in U :: !Less(x, m)
  {
    LeastExists(U);
    var m :| IsLeast(U, m);
    m
  }

  /** A label of `U` that is above none of the others is the least one. */
  lemma LeastUnique(U: set<string>, m: string)
    requires m in U && forall x | x in U :: !Less(x, m)
    ensures m == Least(U)
  {
    LessTotal(m, Least(U));
  }

  /** Flagging one of them leaves one unflagged neighbour fewer. */
  lemma FewerUnflagged(s: seq<Edge>, v: string, C: set<string>, w: string)
    requires w in Unflagged(s, v, C)
    ensures Unflagged(s, v, C + {w}) == Unflagged(s, v, C) - {w}
    ensures |Unflagged(s, v, C + {w})| < |Unflagged(s, v, C)|
  {
    assert Unflagged(s, v, C + {w}) == Unflagged(s, v, C) - {w};
  }

  /** What `breadthFirstSearch` does with a vertex `v` it has dequeued:
      each unflagged neighbour, least label first, is recorded with `v` as
      its parent, flagged and queued at the back. */
  ghost function Expand(s: seq<Edge>, v: string, st: State): (r: State)
    ensures st.flagged <= r.flagged
    ensures forall x | x in r.flagged && x !in st.flagged :: HasRecord(s, v, x)
    ensures r.flagged == st.flagged ==> r == st
    decreases |Unflagged(s, v, st.flagged)|
  {
    var U := Unflagged(s, v, st.flagged);
    if U == {} then st
    else
      var w := Least(U);
      FewerUnflagged(s, v, st.flagged, w);
      Expand(s, v, State(st.flagged + {w}, st.tree + [(v, w)], st.pending + [w]))
  }

  /** What `depthFirstSearch` does with a vertex `v` it has popped: the
      least unflagged neighbour, if there is one, is recorded with `v` as
      its parent and flagged, and `v` and then the neighbour are pushed
      back; otherwise `v` is done with. */
  ghost function Descend(s: seq<Edge>, v: string, st: State): (r: State)
    ensures st.flagged <= r.flagged
    ensures forall x | x in r.flagged && x !in st.flagged :: HasRecord(s, v, x)
    ensures r.flagged == st.flagged ==> r == st
  {
    var U := Unflagged(s, v, st.flagged);
    if U == {} then st
    else
      var w := Least(U);
      State(st.flagged + {w}, st.tree + [(v, w)], [w, v] + st.pending)
  }

  /** Expanding `v` starts with its least unflagged neighbour. */
  lemma ExpandTakes(s: seq<Edge>, v: string, st: State, w: string)
    requires w in Unflagged(s, v, st.flagged) && w == Least(Unflagged(s, v, st.flagged))
    ensures Expand(s, v, st) == Expand(s, v, State(st.flagged + {w}, st.tree + [(v, w)], st.pending + [w]))
  {
  }

  /** With no unflagged neighbour left, expanding `v` changes nothing. */
  lemma ExpandDone(s: seq<Edge>, v: string, st: State)
    requires Unflagged(s, v, st.flagged) == {}
    ensures Expand(s, v, st) == st
  {
  }

  /** One step of the walk over the sorted neighbour list of `v`: the
      first entry whose flag is down is the one `Expand` takes next. */
  lemma ExpandWalk(s: seq<Edge>, v: string, list: seq<string>, st: State, i: int)
    requires forall x :: x in list <==> HasRecord(s, v, x)
    requires SortedBy(list, Less) && 0 <= i < |list| && list[i] !in st.flagged
    requires forall j | 0 <= j < i :: list[j] in st.flagged
    ensures Expand(s, v, st) ==
              Expand(s, v, State(st.flagged + {list[i]}, st.tree + [(v, list[i])], st.pending + [list[i]]))
  {
    FirstIsLeast(s, v, list, st.flagged, i);
    ExpandTakes(s, v, st, list[i]);
  }

  /** After the walk every neighbour is flagged and `Expand` has nothing
      left to do. */
  lemma ExpandWalked(s: seq<Edge>, v: string, list: seq<string>, st: State)
    requires forall x :: x in list <==> HasRecord(s, v, x)
    requires forall j | 0 <= j < |list| :: list[j] in st.flagged
    ensures Expand(s, v, st) == st
  {
    forall x | HasRecord(s, v, x)
      ensures x in st.flagged
    {
      var j :| 0 <= j < |list| && list[j] == x;
    }
    NoneLeft(s, v, st.flagged);
    ExpandDone(s, v, st);
  }

  /** The walk of `breadthFirstSearch` over a neighbour list of `v`, entry
      by entry: an entry whose flag is down is recorded with `v` as its
      parent, flagged and queued at the back. */
  ghost function Scan(v: string, list: seq<string>, st: State): State
  {
    if list == [] then st
    else
      var w := list[0];
      Scan(v, list[1..], if w in st.flagged then st
                         else State(st.flagged + {w}, st.tree + [(v, w)], st.pending + [w]))
  }

  /** Scanning the rest of the sorted neighbour list of `v`, with every
      earlier entry flagged, is expanding `v`. */
  lemma {:induction false} ScanExpands(s: seq<Edge>, v: string, list: seq<string>, k: int, st: State)
    requires forall x :: x in list <==> HasRecord(s, v, x)
    requires SortedBy(list, Less) && 0 <= k <= |list|
    requires forall j | 0 <= j < k :: list[j] in st.flagged
    ensures Scan(v, list[k..], st) == Expand(s, v, st)
    decreases |list| - k
  {
    if k == |list| {
      assert list[k..] == [];
      ExpandWalked(s, v, list, st);
    } else {
      var w := list[k];
      assert list[k..][0] == w && list[k..][1..] == list[k + 1..];
      if w in st.flagged {
        ScanExpands(s, v, list, k + 1, st);
      } else {
        var st' := State(st.flagged + {w}, st.tree + [(v, w)], st.pending + [w]);
        ScanExpands(s, v, list, k + 1, st');
        ExpandWalk(s, v, list, st, k);
      }
    }
  }

  /** A step that flags only neighbours of `v` either flags nothing or
      leaves fewer record targets unflagged: the searches terminate. */
  lemma Progress(s: seq<Edge>, v: string, st: State, r: State)
    requires st.flagged <= r.flagged
    requires forall x | x in r.flagged && x !in st.flagged :: HasRecord(s, v, x)
    ensures r.flagged != st.flagged ==> |Ends(s) - r.flagged| < |Ends(s) - st.flagged|
  {
    if r.flagged != st.flagged {
      var w :| w in r.flagged && w !in st.flagged;
      assert HasRecord(s, v, w);
      var e :| e in s && e.from == v && e.to == w;
      assert w in Ends(s) - st.flagged;
      SmallerSet(Ends(s) - r.flagged, Ends(s) - st.flagged, w);
    }
  }

  lemma SmallerSet(A: set<string>, B: set<string>, w: string)
    requires A <= B && w in B && w !in A
    ensures |A| < |B|
  {
    assert B == A + (B - A);
    assert w in B - A;
  }

  /** The pairs `breadthFirstSearch` records from the state `st` on: the
      front of the queue is taken off and expanded until the queue is
      empty. */
  ghost function Bfs(s: seq<Edge>, st: State): seq<(string, string)>
    decreases |Ends(s) - st.flagged|, |st.pending|
  {
    if st.pending == [] then st.tree
    else
      var rest := State(st.flagged, st.tree, st.pending[1..]);
      var next := Expand(s, st.pending[0], rest);
      Progress(s, st.pending[0], rest, next);
      Bfs(s, next)
  }

  /** The pairs `depthFirstSearch` records from the state `st` on: the top
      of the stack is popped and descended from until the stack is empty. */
  ghost function Dfs(s: seq<Edge>, st: State): seq<(string, string)>
    decreases |Ends(s) - st.flagged|, |st.pending|
  {
    if st.pending == [] then st.tree
    else
      var rest := State(st.flagged, st.tree, st.pending[1..]);
      var next := Descend(s, st.pending[0], rest);
      Progress(s, st.pending[0], rest, next);
      Dfs(s, next)
  }

  /** `rt` is `t` followed by one pair per label of `U`, each with parent
      `v`, in strictly ascending order of the child. */
  ghost predicate Appended(rt: seq<(string, string)>, t: seq<(string, string)>, v: string, U: set<string>)
  {
    && |t| + |U| == |rt| && rt[..|t|] == t
    && (forall k | |t| <= k < |rt| :: rt[k].0 == v && rt[k].1 in U)
    && (forall k, m | |t| <= k < m < |rt| :: Less(rt[k].1, rt[m].1))
  }

  /** Expanding `v` appends one pair per unflagged neighbour, each with `v`
      as its parent, in strictly ascending order of the child, and flags
      exactly those neighbours. */
  lemma {:induction false} ExpandOrder(s: seq<Edge>, v: string, st: State)
    ensures Appended(Expand(s, v, st).tree, st.tree, v, Unflagged(s, v, st.flagged))
    ensures Expand(s, v, st).flagged == st.flagged + Unflagged(s, v, st.flagged)
    decreases |Unflagged(s, v, st.flagged)|
  {
    var U := Unflagged(s, v, st.flagged);
    if U != {} {
      var w := Least(U);
      FewerUnflagged(s, v, st.flagged, w);
      var st' := State(st.flagged + {w}, st.tree + [(v, w)], st.pending + [w]);
      ExpandOrder(s, v, st');
      AppendedStep(Expand(s, v, st').tree, st.tree, v, w, U);
    }
  }

  /** Putting the least label of `U` in front of ascending pairs from the
      rest of `U` gives ascending pairs from `U`. */
  lemma AppendedStep(rt: seq<(string, string)>, t: seq<(string, string)>, v: string, w: string, U: set<string>)
    requires Appended(rt, t + [(v, w)], v, U - {w})
    requires w in U && forall x | x in U :: !Less(x, w)
    ensures Appended(rt, t, v, U)
  {
    var n := |t|;
    var pre := t + [(v, w)];
    assert |pre| == n + 1 && pre[n] == (v, w) && pre[..n] == t;
    assert rt[..n + 1] == pre;
    assert rt[..n] == pre[..n];
    assert rt[n] == rt[..n + 1][n];
    forall k, m | n <= k < m < |rt|
      ensures Less(rt[k].1, rt[m].1)
    {
      if k == n {
        var x := rt[m].1;
        assert x in U - {w};
        LessTotal(w, x);
      }
    }
    assert |U - {w}| == |U| - 1;
  }

  /** Expanding a flagged vertex that waits at the front keeps a valid
      search state, with the vertex taken off. */
  lemma {:induction false} ExpandSearches(s: seq<Edge>, start: string, v: string, st: State)
    requires v in st.flagged && Search(s, start, st.flagged, st.tree, [v] + st.pending)
    ensures var r := Expand(s, v, st); Search(s, start, r.flagged, r.tree, r.pending)
    decreases |Unflagged(s, v, st.flagged)|
  {
    var U := Unflagged(s, v, st.flagged);
    if U == {} {
      forall x | HasRecord(s, v, x)
        ensures x in st.flagged
      {
        assert x in Targets(s, v);
      }
      SearchExpands(s, start, st.flagged, st.tree, v, st.pending);
    } else {
      var w := Least(U);
      FewerUnflagged(s, v, st.flagged, w);
      SearchQueues(s, start, st.flagged, st.tree, v, st.pending, w);
      ExpandSearches(s, start, v, State(st.flagged + {w}, st.tree + [(v, w)], st.pending + [w]));
    }
  }

  /** Descending from a flagged vertex on top of the stack keeps a valid
      search state. */
  lemma DescendSearches(s: seq<Edge>, start: string, v: string, st: State)
    requires v in st.flagged && Search(s, start, st.flagged, st.tree, [v] + st.pending)
    ensures var r := Descend(s, v, st); Search(s, start, r.flagged, r.tree, r.pending)
  {
    var U := Unflagged(s, v, st.flagged);
    if U == {} {
      forall x | HasRecord(s, v, x)
        ensures x in st.flagged
      {
        assert x in Targets(s, v);
      }
      SearchExpands(s, start, st.flagged, st.tree, v, st.pending);
    } else {
      var w := Least(U);
      SearchStacks(s, start, st.flagged, st.tree, [v] + st.pending, v, w);
      assert [w] + ([v] + st.pending) == [w, v] + st.pending;
    }
  }

  /** From any valid search state the breadth-first order ends in a
      finished traversal from the root. */
  lemma {:induction false} BfsTraversal(s: seq<Edge>, start: string, st: State)
    requires Search(s, start, st.flagged, st.tree, st.pending)
    ensures Traversal(s, start, Bfs(s, st))
    decreases |Ends(s) - st.flagged|, |st.pending|
  {
    if st.pending == [] {
      SearchEnds(s, start, st.flagged, st.tree);
    } else {
      var v := st.pending[0];
      var rest := State(st.flagged, st.tree, st.pending[1..]);
      assert st.pending == [v] + rest.pending;
      var next := Expand(s, v, rest);
      ExpandSearches(s, start, v, rest);
      Progress(s, v, rest, next);
      BfsTraversal(s, start, next);
    }
  }

  /** From any valid search state the depth-first order ends in a finished
      traversal from the root. */
  lemma {:induction false} DfsTraversal(s: seq<Edge>, start: string, st: State)
    requires Search(s, start, st.flagged, st.tree, st.pending)
    ensures Traversal(s, start, Dfs(s, st))
    decreases |Ends(s) - st.flagged|, |st.pending|
  {
    if st.pending == [] {
      SearchEnds(s, start, st.flagged, st.tree);
    } else {
      var v := st.pending[0];
      var rest := State(st.flagged, st.tree, st.pending[1..]);
      assert st.pending == [v] + rest.pending;
      var next := Descend(s, v, rest);
      DescendSearches(s, start, v, rest);
      Progress(s, v, rest, next);
      DfsTraversal(s, start, next);
    }
  }

  /** In a sorted list, the first label outside `C` is below no other
      label outside `C`. */
  lemma LeastUnvisited(list: seq<string>, C: set<string>, at: int)
    requires SortedBy(list, Less) && 0 <= at < |list|
    requires forall j | 0 <= j < at :: list[j] in C
    ensures forall x | x in list && x !in C :: !Less(x, list[at])
  {
    forall x | x in list && x !in C
      ensures !Less(x, list[at])
    {
      var k :| 0 <= k < |list| && list[k] == x;
      if k == at {
        LessIrreflexive(x);
      }
    }
  }

  /** A neighbour of `v` whose flag is down and that is above no other such
      neighbour is the one both searches take next. */
  lemma LeastNeighbour(s: seq<Edge>, v: string, C: set<string>, w: string)
    requires HasRecord(s, v, w) && w !in C
    requires forall x | HasRecord(s, v, x) && x !in C :: !Less(x, w)
    ensures w in Unflagged(s, v, C) && w == Least(Unflagged(s, v, C))
  {
    LeastUnique(Unflagged(s, v, C), w);
  }

  /** When every neighbour of `v` is flagged, no step records anything. */
  lemma NoneLeft(s: seq<Edge>, v: string, C: set<string>)
    requires forall x | HasRecord(s, v, x) :: x in C
    ensures Unflagged(s, v, C) == {}
  {
    forall x | x in Targets(s, v)
      ensures x in C
    {
      assert HasRecord(s, v, x);
    }
    assert forall x :: x !in Unflagged(s, v, C);
  }

  /** Walking the sorted neighbour list of `v`, the first entry whose flag
      is down is the least unflagged neighbour. */
  lemma FirstIsLeast(s: seq<Edge>, v: string, list: seq<string>, C: set<string>, i: int)
    requires forall x :: x in list <==> HasRecord(s, v, x)
    requires SortedBy(list, Less) && 0 <= i < |list| && list[i] !in C
    requires forall j | 0 <= j < i :: list[j] in C
    ensures list[i] in Unflagged(s, v, C) && list[i] == Least(Unflagged(s, v, C))
  {
    LeastUnvisited(list, C, i);
    LeastNeighbour(s, v, C, list[i]);
  }
}
