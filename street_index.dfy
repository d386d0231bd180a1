/**
 * The location index of `AugmentedStreetMapGraph` (bearmap/AugmentedStreetMapGraph.java):
 * cleaned names go into a prefix trie with a map back to the original names, and the
 * points of nodes that have neighbours map back to their nodes for nearest-point lookup.
 * The street graph and the nearest-point set are inputs whose code is not part of this model.
 */
module StreetIndex {
  import opened Wrappers
  import opened Strings
  import opened TrieNode
  import opened Trie
  import opened CleanStrings

  /** A street-graph node: `id()`, `lon()`, `lat()`, `name()` (absent for `null`). */
  datatype GraphNode = GraphNode(id: int, lon: real, lat: real, name: Option<string>)

  /** The street graph as read: its node list and each node's neighbour ids. */
  datatype StreetMapGraph = StreetMapGraph(nodes: seq<GraphNode>, adjacent: map<int, seq<int>>)

  /** A point `(x, y) = (lon, lat)`, equal when the coordinates are. */
  datatype Point = Point(x: real, y: real)

  /** `neighbors(id)`: no entry means no neighbours. */
  function Neighbors(g: StreetMapGraph, id: int): seq<int>
  {
    if id in g.adjacent then g.adjacent[id] else []
  }

  function PointOf(n: GraphNode): Point
  {
    Point(n.lon, n.lat)
  }

  /** The node's point is indexed: it has at least one neighbour. */
  predicate Registered(g: StreetMapGraph, n: GraphNode)
  {
    |Neighbors(g, n.id)| > 0
  }

  /** The key a node's name is indexed under: its cleaned form, when the name exists and cleans to something. */
  function CleanedName(n: GraphNode): Option<string>
  {
    if n.name.Some? && CleanString(n.name.value) != [] then Some(CleanString(n.name.value)) else None
  }

  /** `map_name` after the constructor's loop has seen `ns`: cleaned name to original name, later nodes overwriting. */
  function NameMap(ns: seq<GraphNode>): map<string, string>
  {
    if ns == [] then map[]
    else
      var last := ns[|ns| - 1];
      var m := NameMap(ns[..|ns| - 1]);
      if CleanedName(last).Some? then m[CleanedName(last).value := last.name.value] else m
  }

  /** `map` after the loop has seen `ns`: the point of each registered node to that node, later nodes overwriting. */
  function PointMap(g: StreetMapGraph, ns: seq<GraphNode>): map<Point, GraphNode>
  {
    if ns == [] then map[]
    else
      var last := ns[|ns| - 1];
      var m := PointMap(g, ns[..|ns| - 1]);
      if Registered(g, last) then m[PointOf(last) := last] else m
  }

  /** `points` after the loop has seen `ns`: the points of the registered nodes, in order. */
  function RegisteredPoints(g: StreetMapGraph, ns: seq<GraphNode>): seq<Point>
  {
    if ns == [] then []
    else
      var last := ns[|ns| - 1];
      RegisteredPoints(g, ns[..|ns| - 1]) + (if Registered(g, last) then [PointOf(last)] else [])
  }

  /** The name map's keys are exactly the cleaned names of the nodes seen. */
  lemma {:induction false} NameMapKeys(ns: seq<GraphNode>, c: string)
    ensures c in NameMap(ns) <==> exists j :: 0 <= j < |ns| && CleanedName(ns[j]) == Some(c)
  {
    if ns != [] {
      var init := ns[..|ns| - 1];
      NameMapKeys(init, c);
      if exists j :: 0 <= j < |ns| && CleanedName(ns[j]) == Some(c) {
        var j :| 0 <= j < |ns| && CleanedName(ns[j]) == Some(c);
        if j < |ns| - 1 {
          assert init[j] == ns[j];
        }
      }
      if exists j :: 0 <= j < |init| && CleanedName(init[j]) == Some(c) {
        var j :| 0 <= j < |init| && CleanedName(init[j]) == Some(c);
        assert ns[j] == init[j];
      }
    }
  }

  /** Last write wins: a cleaned name maps to the original name of the last node that cleans to it. */
  lemma {:induction false} NameMapLastWins(ns: seq<GraphNode>, j: nat)
    requires j < |ns| && CleanedName(ns[j]).Some?
    requires forall k :: j < k < |ns| ==> CleanedName(ns[k]) != CleanedName(ns[j])
    ensures CleanedName(ns[j]).value in NameMap(ns)
    ensures NameMap(ns)[CleanedName(ns[j]).value] == ns[j].name.value
  {
    var init := ns[..|ns| - 1];
    if j < |ns| - 1 {
      assert init[j] == ns[j];
      NameMapLastWins(init, j);
    }
  }

  /** Every original name in the map cleans to its key. */
  lemma {:induction false} NameMapCleans(ns: seq<GraphNode>)
    ensures forall c :: c in NameMap(ns) ==> CleanString(NameMap(ns)[c]) == c
  {
    if ns != [] {
      NameMapCleans(ns[..|ns| - 1]);
    }
  }

  /** The point map holds exactly the points of registered nodes, each mapped to a registered node at that point. */
  lemma {:induction false} PointMapEntries(g: StreetMapGraph, ns: seq<GraphNode>, p: Point)
    ensures p in PointMap(g, ns) <==> exists j :: 0 <= j < |ns| && Registered(g, ns[j]) && PointOf(ns[j]) == p
    ensures p in PointMap(g, ns) ==> PointOf(PointMap(g, ns)[p]) == p && Registered(g, PointMap(g, ns)[p])
    ensures p in PointMap(g, ns) <==> p in RegisteredPoints(g, ns)
  {
    if ns != [] {
      var init := ns[..|ns| - 1];
      PointMapEntries(g, init, p);
      if exists j :: 0 <= j < |ns| && Registered(g, ns[j]) && PointOf(ns[j]) == p {
        var j :| 0 <= j < |ns| && Registered(g, ns[j]) && PointOf(ns[j]) == p;
        if j < |ns| - 1 {
          assert init[j] == ns[j];
        }
      }
      if exists j :: 0 <= j < |init| && Registered(g, init[j]) && PointOf(init[j]) == p {
        var j :| 0 <= j < |init| && Registered(g, init[j]) && PointOf(init[j]) == p;
        assert ns[j] == init[j];
      }
    }
  }

  /** What the index invariant needs of the three maps built from the whole node list. */
  lemma IndexFacts(g: StreetMapGraph)
    ensures forall c :: c in NameMap(g.nodes) ==> CleanString(NameMap(g.nodes)[c]) == c
    ensures forall p :: p in PointMap(g, g.nodes) <==> p in RegisteredPoints(g, g.nodes)
    ensures forall p :: p in PointMap(g, g.nodes) ==>
      PointOf(PointMap(g, g.nodes)[p]) == p && Registered(g, PointMap(g, g.nodes)[p])
  {
    NameMapCleans(g.nodes);
    forall p
      ensures p in PointMap(g, g.nodes) <==> p in RegisteredPoints(g, g.nodes)
      ensures p in PointMap(g, g.nodes) ==>
        PointOf(PointMap(g, g.nodes)[p]) == p && Registered(g, PointMap(g, g.nodes)[p])
    {
      PointMapEntries(g, g.nodes, p);
    }
  }

  /** One more node seen: how the three loop states grow. */
  lemma IndexStep(g: StreetMapGraph, i: nat)
    requires i < |g.nodes|
    ensures var n := g.nodes[i];
      && NameMap(g.nodes[..i + 1]) ==
        (if CleanedName(n).Some? then NameMap(g.nodes[..i])[CleanedName(n).value := n.name.value] else NameMap(g.nodes[..i]))
      && PointMap(g, g.nodes[..i + 1]) ==
        (if Registered(g, n) then PointMap(g, g.nodes[..i])[PointOf(n) := n] else PointMap(g, g.nodes[..i]))
      && RegisteredPoints(g, g.nodes[..i + 1]) ==
        RegisteredPoints(g, g.nodes[..i]) + (if Registered(g, n) then [PointOf(n)] else [])
  {
    assert g.nodes[..i + 1][..i] == g.nodes[..i];
  }

  /** Squared Euclidean distance from `p` to `(x, y)`, coordinates taken as plane coordinates. */
  function SqDist(p: Point, x: real, y: real): real
  {
    (p.x - x) * (p.x - x) + (p.y - y) * (p.y - y)
  }

  /** `nearest(x, y)` of the point set: a point of `ps` at least as close to `(x, y)` as every other. */
  function Nearest(ps: seq<Point>, x: real, y: real): (p: Point)
    requires |ps| > 0
    ensures p in ps
    ensures forall q :: q in ps ==> SqDist(p, x, y) <= SqDist(q, x, y)
  {
    if |ps| == 1 then ps[0]
    else
      var rest := Nearest(ps[1..], x, y);
      assert forall q :: q in ps ==> q == ps[0] || q in ps[1..];
      if SqDist(ps[0], x, y) <= SqDist(rest, x, y) then ps[0] else rest
  }

  class AugmentedStreetMapGraph {
    const graph: StreetMapGraph
    /** `map_name`: cleaned name to original name. */
    var mapName: map<string, string>
    /** `map`: point to the node registered there. */
    var nodeAt: map<Point, GraphNode>
    /** The points the nearest-point set was built from. */
    var points: seq<Point>
    var trie: MyTrieSet

    /** The trie holds exactly the cleaned names; each maps back to a name that cleans to it; the points are the registered ones. */
    ghost predicate Valid()
      reads this, trie
    {
      trie.Valid() && trie.keys == mapName.Keys &&
      (forall c :: c in mapName ==> CleanString(mapName[c]) == c) &&
      (forall p :: p in nodeAt <==> p in points) &&
      (forall p :: p in nodeAt ==> PointOf(nodeAt[p]) == p && Registered(graph, nodeAt[p]))
    }

    /**
     * `new AugmentedStreetMapGraph(g)`: indexes every node of the graph, then keeps the
     * results and the trie.
     */
    constructor (g: StreetMapGraph)
      ensures Valid() && fresh(trie) && graph == g
      ensures mapName == NameMap(g.nodes) && trie.keys == mapName.Keys
      ensures nodeAt == PointMap(g, g.nodes) && points == RegisteredPoints(g, g.nodes)
    {
      var t, names, at, pts := IndexNodes(g);
      IndexFacts(g);
      graph := g;
      mapName := names;
      nodeAt := at;
      points := pts;
      trie := t;
    }

    /**
     * The constructor's loop: each node whose name cleans to something non-empty puts
     * the cleaned name in the trie and in `map_name`; each node with a neighbour puts
     * its point in `map` and `points`.
     */
    static method IndexNodes(g: StreetMapGraph)
      returns (t: MyTrieSet, names: map<string, string>, at: map<Point, GraphNode>, pts: seq<Point>)
      ensures fresh(t) && t.Valid() && t.keys == names.Keys
      ensures names == NameMap(g.nodes) && at == PointMap(g, g.nodes) && pts == RegisteredPoints(g, g.nodes)
    {
      t := new MyTrieSet();
      names := map[];
      at := map[];
      pts := [];
      var i := 0;
      while i < |g.nodes|
        invariant 0 <= i <= |g.nodes|
        invariant fresh(t) && t.Valid()
        invariant names == NameMap(g.nodes[..i]) && t.keys == names.Keys
        invariant at == PointMap(g, g.nodes[..i]) && pts == RegisteredPoints(g, g.nodes[..i])
      {
        var node := g.nodes[i];
        IndexStep(g, i);
        names := IndexName(t, names, node);
        if |Neighbors(g, node.id)| > 0 {
          at := at[Point(node.lon, node.lat) := node];
          pts := pts + [Point(node.lon, node.lat)];
        }
        i := i + 1;
      }
      assert g.nodes[..i] == g.nodes;
    }

    /** The name half of the loop body: a name that cleans to something non-empty goes into `map_name` and the trie. */
    static method IndexName(t: MyTrieSet, names: map<string, string>, node: GraphNode) returns (names': map<string, string>)
      requires t.Valid() && t.keys == names.Keys
      modifies t
      ensures t.Valid() && t.keys == names'.Keys
      ensures names' == if CleanedName(node).Some? then names[CleanedName(node).value := node.name.value] else names
    {
      names' := names;
      var uncleaned := node.name;
      if uncleaned.Some? {
        var cleaned := CleanString(uncleaned.value);
        if |cleaned| != 0 {
          names' := names'[cleaned := uncleaned.value];
          t.Add(cleaned);
        }
      }
    }

    /**
     * `closest(lon, lat)`: the id of the node registered at the point the nearest-point
     * set returns; `None` when no node has a neighbour, so the set is empty.
     */
    function Closest(lon: real, lat: real): (r: Option<int>)
      reads this, trie
      requires Valid()
      ensures r.None? <==> points == []
      ensures r.Some? ==> exists p :: (p in nodeAt && nodeAt[p].id == r.value && Registered(graph, nodeAt[p]) &&
        forall q :: q in points ==> SqDist(PointOf(nodeAt[p]), lon, lat) <= SqDist(q, lon, lat))
    {
      if points == [] then None
      else
        var ans := Nearest(points, lon, lat);
        Some(nodeAt[ans].id)
    }

    /**
     * `getLocationsByPrefix(prefix)`: the original names of the trie's answer for the
     * cleaned prefix, in the trie's order. `None` where the source throws: the cleaned
     * prefix is empty, or no cleaned name starts with it.
     */
    method GetLocationsByPrefix(prefix: string) returns (r: Option<seq<string>>)
      requires Valid()
      ensures var p := CleanString(prefix);
        r.None? <==> p == [] || forall c :: c in mapName ==> !IsPrefix(p, c)
      ensures r.Some? ==> var p := CleanString(prefix);
        var keys := trie.PrefixKeys(p).value;
        Sorted(keys) && (forall c :: c in keys <==> c in mapName && IsPrefix(p, c)) &&
        |r.value| == |keys| &&
        forall i :: 0 <= i < |keys| ==> r.value[i] == mapName[keys[i]] && IsPrefix(p, CleanString(r.value[i]))
    {
      var p := CleanString(prefix);
      var keys := trie.KeysWithPrefix(p);
      if keys.None? {
        return None;
      }
      var ks := keys.value;
      assert forall j :: 0 <= j < |ks| ==> ks[j] in mapName && IsPrefix(p, ks[j]);
      var result := OriginalNames(mapName, ks, p);
      r := Some(result);
    }

    /** The loop of `getLocationsByPrefix`: the original name of each cleaned key, in order. */
    static method OriginalNames(names: map<string, string>, ks: seq<string>, p: string) returns (result: seq<string>)
      requires forall j :: 0 <= j < |ks| ==> ks[j] in names && IsPrefix(p, ks[j])
      requires forall c :: c in names ==> CleanString(names[c]) == c
      ensures |result| == |ks|
      ensures forall j :: 0 <= j < |ks| ==> result[j] == names[ks[j]] && IsPrefix(p, CleanString(result[j]))
    {
      result := [];
      var i := 0;
      while i < |ks|
        invariant 0 <= i <= |ks|
        invariant |result| == i
        invariant forall j :: 0 <= j < i ==> result[j] == names[ks[j]] && IsPrefix(p, CleanString(result[j]))
      {
        result := result + [names[ks[i]]];
        i := i + 1;
      }
    }
  }
}
