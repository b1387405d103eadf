/** `DSAGraph` (DSARoadGraph.py): the road network.  The vertex list holds
    the locations' labels and the edge list the directed road records, both
    in insertion order; the visited flags of the vertex objects are the set
    of labels whose flag is up.  Every method is proved against the value
    definitions of RoadSpec. */
module RoadGraph {
  import opened Wrappers
  import opened Sorts
  import opened StringOrder
  import opened RoadSpec
  import opened SearchOrder
  import Queue
  import Stack

  /** VertexNotFoundError, DuplicateVertexError and DuplicateEdgeError. */
  datatype GraphError = VertexNotFound | DuplicateVertex | DuplicateEdge

  /** No label occurs twice. */
  ghost predicate Distinct(s: seq<string>)
  {
    forall i, j | 0 <= i < j < |s| :: s[i] != s[j]
  }

  /** A list of distinct labels has as many labels as entries. */
  lemma {:induction false} DistinctCount(s: seq<string>)
    requires Distinct(s)
    ensures |set x | x in s| == |s|
  {
    if s != [] {
      DistinctCount(s[1..]);
      assert (set x | x in s) == (set x | x in s[1..]) + {s[0]};
      assert s[0] !in s[1..];
    }
  }

  /** The list with the first occurrence of `x` spliced out. */
  function Remove(s: seq<string>, x: string): (r: seq<string>)
    ensures x in s ==> |r| == |s| - 1
    ensures x !in s ==> r == s
    ensures forall y | y in r :: y in s
    ensures forall y | y in s && y != x :: y in r
    ensures Distinct(s) ==> Distinct(r) && x !in r
  {
    if s == [] then []
    else if s[0] == x then
      assert Distinct(s) ==> forall i | 0 <= i < |s| - 1 :: s[1..][i] == s[i + 1] != s[0];
      s[1..]
    else
      assert Distinct(s) ==> s[0] !in s[1..];
      [s[0]] + Remove(s[1..], x)
  }

  lemma {:induction false} RemoveAt(s: seq<string>, x: string, i: int)
    requires 0 <= i < |s| && s[i] == x && x !in s[..i]
    ensures Remove(s, x) == s[..i] + s[i + 1..]
  {
    if i == 0 {
      assert Remove(s, x) == s[1..];
    } else {
      var t := s[1..];
      assert s[..i][0] == s[0];
      assert s[0] != x;
      assert t[..i - 1] == s[1..i];
      assert forall y | y in t[..i - 1] :: y in s[..i];
      RemoveAt(t, x, i - 1);
      assert Remove(s, x) == [s[0]] + Remove(t, x);
      assert t[i..] == s[i + 1..];
      assert s[..i] == [s[0]] + t[..i - 1];
      ConsJoin(Remove(s, x), s[0], Remove(t, x), t[..i - 1], t[i..], s[..i]);
    }
  }

  lemma ConsJoin(r: seq<string>, h: string, rt: seq<string>, a: seq<string>, b: seq<string>, p: seq<string>)
    requires r == [h] + rt && rt == a + b && p == [h] + a
    ensures r == p + b
  {
  }

  /** `s[i]` is a least label, and every earlier label is strictly greater:
      `getLowestLabel` keeps the first of equal labels. */
  ghost predicate LowestAt(s: seq<string>, i: int)
  {
    && 0 <= i < |s|
    && (forall j | 0 <= j < |s| :: !Less(s[j], s[i]))
    && (forall j | 0 <= j < i :: Less(s[i], s[j]))
  }

  /** The shape every graph keeps: unique labels, records joining two
      different vertices of the graph, records in road/reverse pairs. */
  ghost predicate Network(V: seq<string>, s: seq<Edge>)
  {
    && Distinct(V)
    && (forall e | e in s :: e.from in V && e.to in V && e.from != e.to)
    && Paired(s)
  }

  /** The labels of a vertex list as a set. */
  ghost function Labels(V: seq<string>): set<string>
  {
    set x | x in V
  }

  lemma RecordEnds(V: seq<string>, s: seq<Edge>, v: string, w: string)
    requires Network(V, s) && HasRecord(s, v, w)
    ensures v in V && w in V
  {
  }

  /** Two lists with the same multiset hold the same labels. */
  lemma SameMembers(a: seq<string>, b: seq<string>)
    requires multiset(a) == multiset(b)
    ensures forall x :: x in a <==> x in b
  {
    forall x ensures x in a <==> x in b {
      assert x in a <==> x in multiset(a);
      assert x in b <==> x in multiset(b);
    }
  }

  lemma SubsetCard(A: set<string>, B: set<string>)
    requires A <= B
    ensures |A| <= |B|
  {
    assert B == A + (B - A);
  }

  /** A search tree over a network stays inside the vertex list, so it has
      fewer pairs than there are vertices. */
  lemma SearchBounded(V: seq<string>, S: seq<Edge>, start: string, t: seq<(string, string)>)
    requires Network(V, S) && start in V && SpanningTree(S, start, t)
    ensures {start} + ChildSet(t) <= Labels(V) && |t| < |V|
  {
    TreeCard(S, start, t);
    TreeInside(S, start, t, Labels(V));
    DistinctCount(V);
    SubsetCard({start} + ChildSet(t), Labels(V));
  }

  class DSAGraph {
    /** Vertex labels in insertion order (the `vertices` list). */
    var vertices: seq<string>
    /** Directed road records in insertion order (the `edges` list). */
    var edges: seq<Edge>
    /** Labels of the vertices whose `_visited` flag is set. */
    var visited: set<string>

    /** Labels are unique, every record joins two different vertices of the
        graph, records come in road/reverse pairs, and only vertices of the
        graph carry a visited flag. */
    ghost predicate Valid()
      reads this
    {
      Network(vertices, edges) && visited <= Labels(vertices)
    }

    constructor ()
      ensures Valid()
      ensures vertices == [] && edges == [] && visited == {}
    {
      vertices := [];
      edges := [];
      visited := {};
    }

    /** `addVertex`: appends a new label, or fails with `DuplicateVertex`
        and changes nothing. */
    method AddVertex(name: string) returns (r: Result<(), GraphError>)
      requires Valid()
      modifies this
      ensures Valid() && edges == old(edges) && visited == old(visited)
      ensures name in old(vertices) ==> r == Err(DuplicateVertex) && vertices == old(vertices)
      ensures name !in old(vertices) ==> r == Ok(()) && vertices == old(vertices) + [name]
    {
      var present := HasVertex(name);
      if !present {
        vertices := vertices + [name];
        r := Ok(());
      } else {
        r := Err(DuplicateVertex);
      }
    }

    /** `addEdge`: appends the record a→b and then b→a with the road's name
        and length.  Fails, adding nothing, with `VertexNotFound` when a
        label is missing or both labels name the same vertex, and with
        `DuplicateEdge` when a record a→b exists. */
    method AddEdge(a: string, b: string, roadName: string, distance: int) returns (r: Result<(), GraphError>)
      requires Valid()
      modifies this
      ensures Valid() && vertices == old(vertices) && visited == old(visited)
      ensures a !in vertices || b !in vertices ==> r == Err(VertexNotFound) && edges == old(edges)
      ensures a in vertices && b in vertices && a == b ==> r == Err(VertexNotFound) && edges == old(edges)
      ensures a in vertices && b in vertices && a != b && HasRecord(old(edges), a, b) ==>
                r == Err(DuplicateEdge) && edges == old(edges)
      ensures a in vertices && b in vertices && a != b && !HasRecord(old(edges), a, b) ==>
                r == Ok(()) &&
                edges == old(edges) + [Edge(a, b, roadName, distance), Edge(b, a, roadName, distance)]
    {
      var vertex1 := GetVertex(a);
      var vertex2 := GetVertex(b);
      if vertex1.None? || vertex2.None? {
        return Err(VertexNotFound);
      }
      if vertex1 == vertex2 {
        return Err(VertexNotFound);
      }
      var adjacent := IsAdjacent(a, b);
      if adjacent == Ok(false) {
        var edge := Edge(a, b, roadName, distance);
        PairedAppend(edges, edge);
        edges := edges + [edge, Reverse(edge)];
        r := Ok(());
      } else {
        r := Err(DuplicateEdge);
      }
    }

    /** `hasVertex`: a scan of the vertex list that stops at the label. */
    method HasVertex(name: string) returns (found: bool)
      ensures found <==> name in vertices
    {
      found := false;
      var i := 0;
      while i < |vertices| && !found
        invariant 0 <= i <= |vertices|
        invariant found <==> name in vertices[..i]
      {
        if vertices[i] == name {
          found := true;
        }
        i := i + 1;
      }
      assert vertices[..|vertices|] == vertices;
    }

    /** `getVertexCount`: the number of locations. */
    method GetVertexCount() returns (n: nat)
      requires Valid()
      ensures n == |set v | v in vertices|
    {
      DistinctCount(vertices);
      n := |vertices|;
    }

    /** `getVertex`: the position of the vertex with that label (the first,
        so the only one), or None. */
    method GetVertex(name: string) returns (r: Option<nat>)
      ensures r == None <==> name !in vertices
      ensures r.Some? ==> r.value < |vertices| && vertices[r.value] == name && name !in vertices[..r.value]
    {
      r := None;
      var i := 0;
      while i < |vertices| && r == None
        invariant 0 <= i <= |vertices|
        invariant r == None ==> name !in vertices[..i]
        invariant r.Some? ==> r.value < i && vertices[r.value] == name && name !in vertices[..r.value]
      {
        if vertices[i] == name {
          r := Some(i);
        }
        i := i + 1;
      }
      assert vertices[..|vertices|] == vertices;
    }

    /** `getEdge`: the first record between the two labels in either
        direction, or None; `VertexNotFound` when a label is missing. */
    method GetEdge(a: string, b: string) returns (r: Result<Option<Edge>, GraphError>)
      ensures a !in vertices || b !in vertices ==> r == Err(VertexNotFound)
      ensures a in vertices && b in vertices ==> r == Ok(FirstCut(edges, Between(a, b)))
    {
      var vertex1 := GetVertex(a);
      var vertex2 := GetVertex(b);
      if vertex1.None? || vertex2.None? {
        return Err(VertexNotFound);
      }
      var found: Option<Edge> := None;
      var i := 0;
      while i < |edges| && found == None
        invariant 0 <= i <= |edges|
        invariant FirstCut(edges, Between(a, b)) ==
                  if found.Some? then found else FirstCut(edges[i..], Between(a, b))
      {
        assert edges[i..][0] == edges[i] && edges[i..][1..] == edges[i + 1..];
        if Cuts(Between(a, b), edges[i]) {
          found := Some(edges[i]);
        }
        i := i + 1;
      }
      r := Ok(found);
    }

    /** `getEdgeCount`: the number of roads, each stored as two records. */
    method GetEdgeCount() returns (n: nat)
      requires Valid()
      ensures 2 * n == |edges|
    {
      PairedEven(edges);
      n := |edges| / 2;
    }

    /** `getAdjacent`: the labels every record leaving the vertex leads to,
        sorted ascending with `selectionSort`; `VertexNotFound` for an
        unknown label. */
    method GetAdjacent(name: string) returns (r: Result<seq<string>, GraphError>)
      ensures name !in vertices ==> r == Err(VertexNotFound)
      ensures name in vertices ==> r.Ok?
      ensures r.Ok? ==> SortedBy(r.value, Less)
      ensures r.Ok? ==> multiset(r.value) == multiset(Targets(edges, name))
      ensures r.Ok? ==> forall x :: x in r.value <==> HasRecord(edges, name, x)
    {
      var vertex := GetVertex(name);
      if vertex.None? {
        return Err(VertexNotFound);
      }
      var adjacent: seq<string> := [];
      var i := 0;
      while i < |edges|
        invariant 0 <= i <= |edges|
        invariant adjacent == Targets(edges[..i], name)
      {
        TargetsStep(edges, i, name);
        if edges[i].from == name {
          adjacent := adjacent + [edges[i].to];
        }
        i := i + 1;
      }
      assert edges[..|edges|] == edges;
      var labelArray := new string[|adjacent|](k requires 0 <= k < |adjacent| => adjacent[k]);
      assert labelArray[..] == adjacent;
      LessIsStrictWeakOrder();
      var sortedLabels := SelectionSort(labelArray, Less);
      SameMembers(sortedLabels[..], adjacent);
      r := Ok(sortedLabels[..]);
    }

    /** `isAdjacent`: whether a record a→b exists; `VertexNotFound` when a
        label is missing. */
    method IsAdjacent(a: string, b: string) returns (r: Result<bool, GraphError>)
      ensures a !in vertices || b !in vertices ==> r == Err(VertexNotFound)
      ensures a in vertices && b in vertices ==> r == Ok(HasRecord(edges, a, b))
    {
      var vertex1 := GetVertex(a);
      var vertex2 := GetVertex(b);
      if vertex1.None? || vertex2.None? {
        return Err(VertexNotFound);
      }
      var result := false;
      var i := 0;
      while i < |edges|
        invariant 0 <= i <= |edges|
        invariant result <==> HasRecord(edges[..i], a, b)
      {
        assert edges[..i + 1] == edges[..i] + [edges[i]];
        if edges[i].from == a && edges[i].to == b {
          result := true;
        }
        i := i + 1;
      }
      assert edges[..|edges|] == edges;
      r := Ok(result);
    }

    /** `clearVisited`: lowers every vertex's flag. */
    method ClearVisited()
      requires Valid()
      modifies this
      ensures Valid() && vertices == old(vertices) && edges == old(edges)
      ensures visited == {}
    {
      var i := 0;
      while i < |vertices|
        invariant 0 <= i <= |vertices|
        invariant Valid() && vertices == old(vertices) && edges == old(edges)
        invariant forall v | v in visited :: v in vertices[i..]
      {
        visited := visited - {vertices[i]};
        i := i + 1;
      }
    }

    /** `getLowestLabel`: the position of the least label, the first one of
        equal labels, or None for an empty graph. */
    method GetLowestLabel() returns (r: Option<nat>)
      ensures r == None <==> vertices == []
      ensures r.Some? ==> LowestAt(vertices, r.value)
    {
      if vertices == [] {
        return None;
      }
      var lowest := 0;
      var i := 1;
      LessIrreflexive(vertices[0]);
      while i < |vertices|
        invariant 1 <= i <= |vertices| && 0 <= lowest < i
        invariant forall j | 0 <= j < i :: !Less(vertices[j], vertices[lowest])
        invariant forall j | 0 <= j < lowest :: Less(vertices[lowest], vertices[j])
      {
        if Less(vertices[i], vertices[lowest]) {
          forall j | 0 <= j < i
            ensures !Less(vertices[j], vertices[i]) && Less(vertices[i], vertices[j])
          {
            if Less(vertices[j], vertices[i]) {
              LessTransitive(vertices[j], vertices[i], vertices[lowest]);
            }
            LessTotal(vertices[i], vertices[j]);
          }
          LessIrreflexive(vertices[i]);
          lowest := i;
        }
        i := i + 1;
      }
      r := Some(lowest);
    }

    /** `getUnvisitedAdjacent`: the first label of the sorted adjacency list
        whose flag is down, so the least unvisited neighbour, or None when
        every neighbour is visited. */
    method GetUnvisitedAdjacent(name: string) returns (r: Result<Option<string>, GraphError>)
      ensures name !in vertices ==> r == Err(VertexNotFound)
      ensures name in vertices ==> r.Ok?
      ensures r == Ok(None) ==> forall x | HasRecord(edges, name, x) :: x in visited
      ensures r.Ok? && r.value.Some? ==>
                var w := r.value.value;
                && HasRecord(edges, name, w) && w !in visited
                && forall x | HasRecord(edges, name, x) && x !in visited :: !Less(x, w)
    {
      var adjacent := GetAdjacent(name);
      if adjacent.Err? {
        return Err(adjacent.error);
      }
      var list := adjacent.value;
      var unvisited, at := FirstUnvisited(list);
      if unvisited.Some? {
        LeastUnvisited(list, visited, at);
      }
      r := Ok(unvisited);
    }

    /** The walk of `getUnvisitedAdjacent` over the adjacency list: the
        first label whose flag is down, or None when every flag is up. */
    method FirstUnvisited(list: seq<string>) returns (unvisited: Option<string>, ghost at: int)
      ensures unvisited == None ==> forall x | x in list :: x in visited
      ensures unvisited.Some? ==>
                && 0 <= at < |list| && list[at] == unvisited.value && unvisited.value !in visited
                && forall j | 0 <= j < at :: list[j] in visited
    {
      unvisited, at := None, 0;
      var i := 0;
      while i < |list|
        invariant 0 <= i <= |list|
        invariant unvisited == None ==> forall j | 0 <= j < i :: list[j] in visited
        invariant unvisited.Some? ==>
                    && 0 <= at < i && list[at] == unvisited.value && unvisited.value !in visited
                    && forall j | 0 <= j < at :: list[j] in visited
      {
        if list[i] !in visited && unvisited == None {
          unvisited := Some(list[i]);
          at := i;
        }
        i := i + 1;
      }
    }

    /** `breadthFirstSearch`: from the least label, a queue of vertices to
        expand; each unvisited neighbour, in ascending label order, is
        recorded with its parent, flagged and queued.  Returns the recorded
        (parent, child) pairs, or `VertexNotFound` for an empty graph.  The
        pairs form a tree that reaches every vertex reachable from the start
        (TraversalReach), and the flags mark exactly that tree. */
    method BreadthFirstSearch() returns (r: Result<seq<(string, string)>, GraphError>)
      requires Valid()
      modifies this
      ensures Valid() && vertices == old(vertices) && edges == old(edges)
      ensures r.Err? <==> vertices == []
      ensures r.Err? ==> r.error == VertexNotFound
      ensures r.Ok? ==> exists i | LowestAt(vertices, i) ::
                && r.value == Bfs(edges, Begin(vertices[i]))
                && Traversal(edges, vertices[i], r.value) && visited == {vertices[i]} + ChildSet(r.value)
    {
      ClearVisited();
      var low := GetLowestLabel();
      if low.None? {
        return Err(VertexNotFound);
      }
      ghost var V, S := vertices, edges;
      var start := vertices[low.value];
      visited := visited + {start};
      var queue := [start];
      SearchStarts(S, start);
      var tree := [];
      ghost var order := Bfs(S, Begin(start));
      while queue != []
        invariant vertices == V && edges == S
        invariant Search(S, start, visited, tree, queue)
        invariant Bfs(S, State(visited, tree, queue)) == order
        decreases |V| - |tree|, |queue|
      {
        SearchBounded(V, S, start, tree);
        ghost var before := State(visited, tree, queue);
        var v := queue[0];
        queue := queue[1..];
        tree, queue := EnqueueUnvisited(start, v, queue, tree);
        assert Bfs(S, before) == Bfs(S, State(visited, tree, queue));
      }
      SearchEnds(S, start, visited, tree);
      SearchBounded(V, S, start, tree);
      r := Ok(tree);
    }

    /** The inner loop of `breadthFirstSearch`: every neighbour of `v`, in
        ascending label order, whose flag is down is recorded with `v` as
        its parent, flagged and queued at the back; afterwards `v` has no
        unflagged neighbour. */
    method EnqueueUnvisited(ghost start: string, v: string, queue: seq<string>, tree: seq<(string, string)>)
      returns (tree': seq<(string, string)>, queue': seq<string>)
      requires v in visited && visited <= Labels(vertices)
      requires Search(edges, start, visited, tree, [v] + queue)
      modifies this`visited
      ensures |tree'| >= |tree| && (|tree'| == |tree| ==> queue' == queue)
      ensures Search(edges, start, visited, tree', queue')
      ensures State(visited, tree', queue') == Expand(edges, v, State(old(visited), tree, queue))
    {
      var adjacent := GetAdjacent(v);
      tree', queue' := EnqueueAll(v, adjacent.value, queue, tree);
      ExpandSearches(edges, start, v, State(old(visited), tree, queue));
      ExpandOrder(edges, v, State(old(visited), tree, queue));
    }

    /** The loop of `breadthFirstSearch` over the sorted neighbour list of
        `v`: each neighbour whose flag is down is recorded with `v` as its
        parent, flagged and queued at the back, which is `Expand`. */
    method EnqueueAll(v: string, list: seq<string>, queue: seq<string>, tree: seq<(string, string)>)
      returns (tree': seq<(string, string)>, queue': seq<string>)
      requires forall x :: x in list <==> HasRecord(edges, v, x)
      requires SortedBy(list, Less)
      modifies this`visited
      ensures State(visited, tree', queue') == Expand(edges, v, State(old(visited), tree, queue))
    {
      tree', queue' := tree, queue;
      ghost var start := State(visited, tree, queue);
      var i := 0;
      while i < |list|
        invariant 0 <= i <= |list|
        invariant Scan(v, list[i..], State(visited, tree', queue')) == Scan(v, list, start)
      {
        var w := list[i];
        assert list[i..][0] == w && list[i..][1..] == list[i + 1..];
        if w !in visited {
          tree' := tree' + [(v, w)];
          visited := visited + {w};
          queue' := queue' + [w];
        }
        i := i + 1;
      }
      assert list[i..] == [] && list[0..] == list;
      ScanExpands(edges, v, list, 0, start);
    }

    /** `depthFirstSearch`: from the least label, a stack of vertices; the
        top is popped and, while it has an unvisited neighbour, the least
        such neighbour is recorded with it as parent, flagged, and both are
        pushed back.  Returns the recorded (parent, child) pairs, or
        `VertexNotFound` for an empty graph; like the breadth-first search
        it records a tree over every vertex reachable from the start. */
    method DepthFirstSearch() returns (r: Result<seq<(string, string)>, GraphError>)
      requires Valid()
      modifies this
      ensures Valid() && vertices == old(vertices) && edges == old(edges)
      ensures r.Err? <==> vertices == []
      ensures r.Err? ==> r.error == VertexNotFound
      ensures r.Ok? ==> exists i | LowestAt(vertices, i) ::
                && r.value == Dfs(edges, Begin(vertices[i]))
                && Traversal(edges, vertices[i], r.value) && visited == {vertices[i]} + ChildSet(r.value)
    {
      ClearVisited();
      var low := GetLowestLabel();
      if low.None? {
        return Err(VertexNotFound);
      }
      ghost var V, S := vertices, edges;
      var start := vertices[low.value];
      visited := visited + {start};
      var stack := [start];
      SearchStarts(S, start);
      var tree := [];
      ghost var order := Dfs(S, Begin(start));
      while stack != []
        invariant vertices == V && edges == S
        invariant Search(S, start, visited, tree, stack)
        invariant Dfs(S, State(visited, tree, stack)) == order
        decreases |V| - |tree|, |stack|
      {
        SearchBounded(V, S, start, tree);
        ghost var before := State(visited, tree, stack);
        var v := stack[0];
        stack := stack[1..];
        tree, stack := PushUnvisited(start, v, stack, tree);
        assert Dfs(S, before) == Dfs(S, State(visited, tree, stack));
      }
      SearchEnds(S, start, visited, tree);
      SearchBounded(V, S, start, tree);
      r := Ok(tree);
    }

    /** One step of the depth-first searches after `v` is popped: when `v`
        has an unflagged neighbour, the least one is recorded with `v` as its
        parent and flagged, and `v` and then the neighbour are pushed back;
        otherwise `v` is done with. */
    method PushUnvisited(ghost start: string, v: string, stack: seq<string>, tree: seq<(string, string)>)
      returns (tree': seq<(string, string)>, stack': seq<string>)
      requires v in visited && visited <= Labels(vertices)
      requires Search(edges, start, visited, tree, [v] + stack)
      modifies this`visited
      ensures |tree'| >= |tree| && (|tree'| == |tree| ==> stack' == stack && visited == old(visited))
      ensures |tree'| > |tree| ==> exists w :: stack' == [w, v] + stack && visited == old(visited) + {w}
      ensures Search(edges, start, visited, tree', stack')
      ensures State(visited, tree', stack') == Descend(edges, v, State(old(visited), tree, stack))
    {
      var next := GetUnvisitedAdjacent(v);
      if next.value.Some? {
        var w := next.value.value;
        LeastNeighbour(edges, v, visited, w);
        SearchStacks(edges, start, visited, tree, [v] + stack, v, w);
        tree' := tree + [(v, w)];
        visited := visited + {w};
        stack' := [v] + stack;
        stack' := [w] + stack';
        assert stack' == [w, v] + stack;
      } else {
        NoneLeft(edges, v, visited);
        SearchExpands(edges, start, visited, tree, v, stack);
        tree', stack' := tree, stack;
      }
    }

    /** `is_path`: a depth-first search from `source` that notes when it
        pops `destination`; true exactly when `destination` is reachable
        along records.  `VertexNotFound` when either label is missing. */
    method IsPath(source: string, destination: string) returns (r: Result<bool, GraphError>)
      requires Valid()
      modifies this
      ensures Valid() && vertices == old(vertices) && edges == old(edges)
      ensures source !in vertices || destination !in vertices ==> r == Err(VertexNotFound)
      ensures source in vertices && destination in vertices ==>
                r == Ok(Reachable(edges, source, destination))
      ensures source !in vertices || destination !in vertices ==> visited == old(visited)
      // the search leaves the flag up on every vertex it reached
      ensures source in vertices && destination in vertices ==>
                forall u :: u in visited <==> Reachable(edges, source, u)
    {
      var sourceVertex := GetVertex(source);
      var destVertex := GetVertex(destination);
      if sourceVertex.None? || destVertex.None? {
        return Err(VertexNotFound);
      }
      ClearVisited();
      ghost var V, S := vertices, edges;
      visited := visited + {source};
      var stack := [source];
      SearchStarts(S, source);
      var tree := [];  // the search tree this search would record; never returned
      var pathFound := false;
      while stack != []
        invariant vertices == V && edges == S
        invariant Search(S, source, visited, tree, stack)
        invariant pathFound ==> destination in visited
        invariant destination in visited ==> pathFound || destination in stack
        decreases |V| - |tree|, |stack|
      {
        SearchBounded(V, S, source, tree);
        var v := stack[0];
        stack := stack[1..];
        if v == destination {
          pathFound := true;
        }
        tree, stack := PushUnvisited(source, v, stack, tree);
      }
      SearchEnds(S, source, visited, tree);
      SearchBounded(V, S, source, tree);
      r := Ok(pathFound);
    }

    /** The shared splice loop of `deleteVertex` and `deleteEdge`: walks the
        record list once, unlinking every record the cut takes; reports
        whether it unlinked any. */
    method SpliceOut(c: Cut) returns (removed: bool)
      modifies this
      ensures vertices == old(vertices) && visited == old(visited)
      ensures edges == Without(old(edges), c)
      ensures removed <==> exists e | e in old(edges) :: Cuts(c, e)
    {
      ghost var s := old(edges);
      removed := false;
      var i := 0;
      ghost var k := 0;
      while i < |edges|
        invariant 0 <= k <= |s|
        invariant vertices == old(vertices) && visited == old(visited)
        invariant edges == Without(s[..k], c) + s[k..]
        invariant i == |Without(s[..k], c)| <= k
        invariant removed <==> i < k
        decreases |s| - k
      {
        SpliceStep(s, c, k, edges, i);
        if Cuts(c, edges[i]) {
          edges := edges[..i] + edges[i + 1..];
          removed := true;
        } else {
          i := i + 1;
        }
        k := k + 1;
      }
      assert s[..k] == s;
      WithoutShorter(s, c);
    }

    /** `deleteVertex`: unlinks every record touching the vertex, then the
        vertex itself (its flag goes with it); other vertices and records
        keep their order.  `VertexNotFound` for an unknown label. */
    method DeleteVertex(name: string) returns (r: Result<(), GraphError>)
      requires Valid()
      modifies this
      ensures Valid()
      ensures name !in old(vertices) ==>
                r == Err(VertexNotFound) && vertices == old(vertices) && edges == old(edges) && visited == old(visited)
      ensures name in old(vertices) ==>
                && r == Ok(())
                && edges == Without(old(edges), Touching(name))
                && vertices == Remove(old(vertices), name)
                && visited == old(visited) - {name}
    {
      var vertex := GetVertex(name);
      if vertex.None? {
        return Err(VertexNotFound);
      }
      var _ := SpliceOut(Touching(name));
      WithoutPaired(old(edges), Touching(name));
      WithoutMembers(old(edges), Touching(name));
      UnlinkVertex(name);
      visited := visited - {name};
      r := Ok(());
    }

    /** The vertex loop of `deleteVertex`: walks the vertex list and
        unlinks the first vertex with the label, keeping the others in
        order. */
    method UnlinkVertex(name: string)
      modifies this
      ensures vertices == Remove(old(vertices), name)
      ensures edges == old(edges) && visited == old(visited)
    {
      var deleted := false;
      var i := 0;
      while i < |vertices|
        invariant 0 <= i <= |vertices|
        invariant edges == old(edges) && visited == old(visited)
        invariant !deleted ==> vertices == old(vertices) && name !in vertices[..i]
        invariant deleted ==> vertices == Remove(old(vertices), name)
        decreases |vertices| - i
      {
        if vertices[i] == name && !deleted {
          RemoveAt(vertices, name, i);
          vertices := vertices[..i] + vertices[i + 1..];
          deleted := true;
        } else {
          i := i + 1;
        }
      }
      assert vertices[..|vertices|] == vertices;
    }

    /** `deleteEdge`: unlinks the records between the two labels in both
        directions and nothing else, and reports whether there were any.
        `VertexNotFound` when a label is missing. */
    method DeleteEdge(a: string, b: string) returns (r: Result<bool, GraphError>)
      requires Valid()
      modifies this
      ensures Valid() && vertices == old(vertices) && visited == old(visited)
      ensures a !in vertices || b !in vertices ==> r == Err(VertexNotFound) && edges == old(edges)
      ensures a in vertices && b in vertices ==>
                r == Ok(HasRecord(old(edges), a, b)) && edges == Without(old(edges), Between(a, b))
    {
      var vertex1 := GetVertex(a);
      var vertex2 := GetVertex(b);
      if vertex1.None? || vertex2.None? {
        return Err(VertexNotFound);
      }
      var edgeDeleted := SpliceOut(Between(a, b));
      WithoutPaired(old(edges), Between(a, b));
      WithoutMembers(old(edges), Between(a, b));
      if HasRecord(old(edges), b, a) {
        PairedReverse(old(edges), b, a);
      }
      r := Ok(edgeDeleted);
    }
  }
}
