/** ConcreteEdgesGraph: a weighted directed graph on string labels,
    represented by a vertex set and a list of immutable edges. The
    representation invariant, the abstract weights and the effect of each
    mutator are functions on values; the class methods are proved to update
    their fields exactly as those functions say. */
module EdgesGraph {

  /** `Edge`: an immutable weighted directed edge. */
  datatype Edge = Edge(source: string, target: string, weight: int)

  /** The Edge rep invariant, asserted by its checkRep: non-empty, distinct
      endpoints and a positive weight. */
  predicate EdgeOk(e: Edge)
  {
    |e.source| > 0 && |e.target| > 0 && e.source != e.target && e.weight > 0
  }

  /** The Edge constructor, whose checkRep asserts the invariant. */
  function MakeEdge(source: string, target: string, weight: int): (e: Edge)
    requires |source| > 0 && |target| > 0 && source != target && weight > 0
    ensures EdgeOk(e)
    ensures e.source == source && e.target == target && e.weight == weight
  {
    Edge(source, target, weight)
  }

  predicate Joins(e: Edge, s: string, t: string)
  {
    e.source == s && e.target == t
  }

  /** No ordered pair of vertices has two edges. */
  predicate OnePerPair(es: seq<Edge>)
  {
    forall i, j :: 0 <= i < j < |es| ==> !Joins(es[j], es[i].source, es[i].target)
  }

  /** The graph's representation invariant: every edge is a valid Edge whose
      endpoints are both in the vertex set, and each ordered pair has at most
      one edge. */
  predicate RepOk(vs: set<string>, es: seq<Edge>)
  {
    (forall i :: 0 <= i < |es| ==> EdgeOk(es[i]) && es[i].source in vs && es[i].target in vs)
    && OnePerPair(es)
  }

  /** The position of the first edge from `s` to `t`, or -1: where the
      search loop of `set` stops. */
  function FindEdge(es: seq<Edge>, s: string, t: string): (i: int)
    ensures -1 <= i < |es|
    ensures i >= 0 ==> Joins(es[i], s, t)
    ensures forall k :: 0 <= k < |es| && (i < 0 || k < i) ==> !Joins(es[k], s, t)
  {
    if |es| == 0 then -1
    else if Joins(es[0], s, t) then 0
    else
      var k := FindEdge(es[1..], s, t);
      if k < 0 then -1 else k + 1
  }

  /** The abstract graph: the weight of the edge from `s` to `t`, or 0 when
      there is none. */
  function Weight(es: seq<Edge>, s: string, t: string): int
  {
    var i := FindEdge(es, s, t);
    if i < 0 then 0 else es[i].weight
  }

  /** With at most one edge per pair, any edge from `s` to `t` is the one
      the search finds. */
  lemma FoundIsOnly(es: seq<Edge>, j: int, s: string, t: string)
    requires OnePerPair(es)
    requires 0 <= j < |es| && Joins(es[j], s, t)
    ensures FindEdge(es, s, t) == j
    ensures Weight(es, s, t) == es[j].weight
  {
  }

  /** In a valid graph the weight is positive exactly when there is an edge. */
  lemma WeightPositive(vs: set<string>, es: seq<Edge>, s: string, t: string)
    requires RepOk(vs, es)
    ensures Weight(es, s, t) > 0 <==> FindEdge(es, s, t) >= 0
    ensures Weight(es, s, t) >= 0
    ensures Weight(es, s, t) > 0 ==> s in vs && t in vs && s != t
  {
  }

  // ------------------------------------------------------------------ set

  /** The edge list after `set(s, t, w)`: an existing edge is removed and,
      for a positive weight, a new one is appended at the end; a missing
      edge is appended only for a positive weight. */
  function SetEdges(es: seq<Edge>, s: string, t: string, w: int): seq<Edge>
  {
    var i := FindEdge(es, s, t);
    if i >= 0 then es[..i] + es[i + 1..] + (if w == 0 then [] else [Edge(s, t, w)])
    else if w != 0 then es + [Edge(s, t, w)]
    else es
  }

  /** The vertex set after `set(s, t, w)`: only a new edge adds vertices. */
  function SetVertices(vs: set<string>, es: seq<Edge>, s: string, t: string, w: int): set<string>
  {
    if FindEdge(es, s, t) < 0 && w != 0 then vs + {s, t} else vs
  }

  /** The search stops at the first edge from `s` to `t`. */
  lemma FindIs(es: seq<Edge>, s: string, t: string, i: int)
    requires 0 <= i < |es| && Joins(es[i], s, t)
    requires forall k :: 0 <= k < i ==> !Joins(es[k], s, t)
    ensures FindEdge(es, s, t) == i
  {
  }

  /** Where each edge after `set` comes from: the old edge at `src`, which is
      never the replaced one, or (for `src == -1`) the new edge. */
  lemma SetEdgesOrigin(es: seq<Edge>, s: string, t: string, w: int, k: int) returns (src: int)
    requires 0 <= k < |SetEdges(es, s, t, w)|
    ensures -1 <= src < |es|
    ensures src >= 0 ==> SetEdges(es, s, t, w)[k] == es[src] && src != FindEdge(es, s, t)
    ensures src >= 0 ==> src == (if 0 <= FindEdge(es, s, t) <= k then k + 1 else k)
    ensures src < 0 ==> SetEdges(es, s, t, w)[k] == Edge(s, t, w) && k == |SetEdges(es, s, t, w)| - 1
  {
    var i := FindEdge(es, s, t);
    var r := SetEdges(es, s, t, w);
    if i >= 0 {
      var cut := es[..i] + es[i + 1..];
      assert r == cut + (if w == 0 then [] else [Edge(s, t, w)]);
      if k < i {
        src := k;
        assert r[k] == cut[k];
      } else if k < |es| - 1 {
        src := k + 1;
        assert r[k] == cut[k];
      } else {
        src := -1;
      }
    } else if k < |es| {
      src := k;
      assert r[k] == es[k];
    } else {
      src := -1;
    }
  }

  /** Every old edge except the one from `s` to `t` survives `set`, at a
      known position. */
  lemma SetEdgesKeep(es: seq<Edge>, s: string, t: string, w: int, k: int) returns (k': int)
    requires 0 <= k < |es| && !Joins(es[k], s, t)
    ensures 0 <= k' < |SetEdges(es, s, t, w)| && SetEdges(es, s, t, w)[k'] == es[k]
  {
    var i := FindEdge(es, s, t);
    var r := SetEdges(es, s, t, w);
    if i >= 0 {
      var cut := es[..i] + es[i + 1..];
      assert r == cut + (if w == 0 then [] else [Edge(s, t, w)]);
      k' := if k < i then k else k - 1;
      assert cut[k'] == es[k];
    } else {
      k' := k;
    }
  }

  /** With one edge per pair, no edge other than the found one joins its
      endpoints. */
  lemma OnlyOne(es: seq<Edge>, i: int, j: int)
    requires OnePerPair(es)
    requires 0 <= i < |es| && 0 <= j < |es| && i != j
    ensures !Joins(es[j], es[i].source, es[i].target)
  {
    if j < i {
      assert !Joins(es[i], es[j].source, es[j].target);
    }
  }

  /** `set` keeps at most one edge per pair. */
  lemma SetOnePerPair(es: seq<Edge>, s: string, t: string, w: int)
    requires OnePerPair(es)
    ensures OnePerPair(SetEdges(es, s, t, w))
  {
    var r := SetEdges(es, s, t, w);
    var i := FindEdge(es, s, t);
    forall a, b | 0 <= a < b < |r|
      ensures !Joins(r[b], r[a].source, r[a].target)
    {
      var sa := SetEdgesOrigin(es, s, t, w, a);
      var sb := SetEdgesOrigin(es, s, t, w, b);
      if sb >= 0 {
        OnlyOne(es, sa, sb);
      } else if i >= 0 {
        OnlyOne(es, i, sa);
      }
    }
  }

  /** After `set(s, t, w)` with weight 0 no edge joins `s` to `t`. */
  lemma SetZeroLeavesNone(es: seq<Edge>, s: string, t: string)
    requires OnePerPair(es)
    ensures FindEdge(SetEdges(es, s, t, 0), s, t) < 0
  {
    var r := SetEdges(es, s, t, 0);
    var i := FindEdge(es, s, t);
    forall k | 0 <= k < |r|
      ensures !Joins(r[k], s, t)
    {
      var src := SetEdgesOrigin(es, s, t, 0, k);
      if i >= 0 {
        OnlyOne(es, i, src);
      }
    }
  }

  /** `set(s, t, w)` leaves the weight from `s` to `t` equal to `w`. */
  lemma SetWeightOfPair(es: seq<Edge>, s: string, t: string, w: int)
    requires OnePerPair(es) && w >= 0
    ensures Weight(SetEdges(es, s, t, w), s, t) == w
  {
    var r := SetEdges(es, s, t, w);
    SetOnePerPair(es, s, t, w);
    if w != 0 {
      assert r[|r| - 1] == Edge(s, t, w);
      FoundIsOnly(r, |r| - 1, s, t);
    } else {
      SetZeroLeavesNone(es, s, t);
    }
  }

  /** `set(s, t, w)` changes no other weight. */
  lemma SetWeightOfOthers(es: seq<Edge>, s: string, t: string, w: int, a: string, b: string)
    requires OnePerPair(es)
    requires a != s || b != t
    ensures Weight(SetEdges(es, s, t, w), a, b) == Weight(es, a, b)
  {
    var r := SetEdges(es, s, t, w);
    SetOnePerPair(es, s, t, w);
    var j := FindEdge(es, a, b);
    if j >= 0 {
      var j' := SetEdgesKeep(es, s, t, w, j);
      FoundIsOnly(r, j', a, b);
    } else {
      forall k | 0 <= k < |r|
        ensures !Joins(r[k], a, b)
      {
        var src := SetEdgesOrigin(es, s, t, w, k);
      }
    }
  }

  /** `set` preserves the representation invariant, provided that a new edge
      is a valid Edge (the Edge constructor asserts it). */
  lemma SetKeepsRep(vs: set<string>, es: seq<Edge>, s: string, t: string, w: int)
    requires RepOk(vs, es) && w >= 0
    requires w > 0 ==> |s| > 0 && |t| > 0 && s != t
    ensures RepOk(SetVertices(vs, es, s, t, w), SetEdges(es, s, t, w))
  {
    var r := SetEdges(es, s, t, w);
    var vs' := SetVertices(vs, es, s, t, w);
    SetOnePerPair(es, s, t, w);
    var i := FindEdge(es, s, t);
    forall k | 0 <= k < |r|
      ensures EdgeOk(r[k]) && r[k].source in vs' && r[k].target in vs'
    {
      var src := SetEdgesOrigin(es, s, t, w, k);
      if i >= 0 {
        assert es[i].source in vs && es[i].target in vs;
      }
    }
  }

  /** Everything `set` promises about the abstract graph, in one place. */
  lemma SetMeaning(vs: set<string>, es: seq<Edge>, s: string, t: string, w: int)
    requires RepOk(vs, es) && w >= 0
    requires w > 0 ==> |s| > 0 && |t| > 0 && s != t
    ensures RepOk(SetVertices(vs, es, s, t, w), SetEdges(es, s, t, w))
    ensures Weight(SetEdges(es, s, t, w), s, t) == w
    ensures forall a, b :: a != s || b != t ==>
              Weight(SetEdges(es, s, t, w), a, b) == Weight(es, a, b)
  {
    SetKeepsRep(vs, es, s, t, w);
    SetWeightOfPair(es, s, t, w);
    forall a, b | a != s || b != t
      ensures Weight(SetEdges(es, s, t, w), a, b) == Weight(es, a, b)
    {
      SetWeightOfOthers(es, s, t, w, a, b);
    }
  }

  // --------------------------------------------------------------- remove

  /** `edges.removeIf(...)`: the edges that touch neither endpoint `v`, in
      their original order. */
  function WithoutVertex(es: seq<Edge>, v: string): (r: seq<Edge>)
    ensures |r| <= |es|
    ensures forall k :: 0 <= k < |r| ==> r[k] in es && r[k].source != v && r[k].target != v
    ensures forall k :: 0 <= k < |es| && es[k].source != v && es[k].target != v ==> es[k] in r
  {
    if |es| == 0 then []
    else
      var rest := WithoutVertex(es[1..], v);
      assert forall e :: e in es[1..] ==> e in es;
      if es[0].source == v || es[0].target == v then rest else [es[0]] + rest
  }

  lemma TailOnePerPair(es: seq<Edge>)
    requires OnePerPair(es) && |es| > 0
    ensures OnePerPair(es[1..])
  {
    var tail := es[1..];
    forall i, j | 0 <= i < j < |tail|
      ensures !Joins(tail[j], tail[i].source, tail[i].target)
    {
      assert tail[i] == es[i + 1] && tail[j] == es[j + 1];
    }
  }

  /** No later edge shares the first edge's endpoints. */
  lemma HeadUnique(es: seq<Edge>, e: Edge)
    requires OnePerPair(es) && |es| > 0
    requires e in es[1..]
    ensures !Joins(e, es[0].source, es[0].target)
  {
    var m :| 0 <= m < |es[1..]| && es[1..][m] == e;
    assert es[m + 1] == e;
  }

  lemma ConsOnePerPair(x: Edge, rest: seq<Edge>)
    requires OnePerPair(rest)
    requires forall k :: 0 <= k < |rest| ==> !Joins(rest[k], x.source, x.target)
    ensures OnePerPair([x] + rest)
  {
    var r := [x] + rest;
    forall i, j | 0 <= i < j < |r|
      ensures !Joins(r[j], r[i].source, r[i].target)
    {
      assert r[j] == rest[j - 1];
      if i > 0 {
        assert r[i] == rest[i - 1];
      }
    }
  }

  lemma {:induction false} WithoutVertexOnePerPair(es: seq<Edge>, v: string)
    requires OnePerPair(es)
    ensures OnePerPair(WithoutVertex(es, v))
  {
    if |es| > 0 {
      var tail := es[1..];
      TailOnePerPair(es);
      WithoutVertexOnePerPair(tail, v);
      var rest := WithoutVertex(tail, v);
      if !(es[0].source == v || es[0].target == v) {
        forall k | 0 <= k < |rest|
          ensures !Joins(rest[k], es[0].source, es[0].target)
        {
          HeadUnique(es, rest[k]);
        }
        ConsOnePerPair(es[0], rest);
      }
    }
  }

  /** `remove` keeps the invariant for the smaller vertex set. */
  lemma RemoveKeepsRep(vs: set<string>, es: seq<Edge>, v: string)
    requires RepOk(vs, es)
    ensures RepOk(vs - {v}, WithoutVertex(es, v))
  {
    WithoutVertexOnePerPair(es, v);
  }

  /** After `remove(v)` no edge touches `v` and every other weight is as
      before. */
  lemma RemoveWeights(es: seq<Edge>, v: string, a: string, b: string)
    requires OnePerPair(es)
    ensures Weight(WithoutVertex(es, v), a, b) == (if a == v || b == v then 0 else Weight(es, a, b))
  {
    var r := WithoutVertex(es, v);
    WithoutVertexOnePerPair(es, v);
    var j := FindEdge(es, a, b);
    if j >= 0 && a != v && b != v {
      var j' :| 0 <= j' < |r| && r[j'] == es[j];
      FoundIsOnly(r, j', a, b);
    } else {
      forall k | 0 <= k < |r|
        ensures !Joins(r[k], a, b)
      {
        var m :| 0 <= m < |es| && es[m] == r[k];
      }
    }
  }

  // ------------------------------------------------------ sources/targets

  /** The map `sources(t)` builds: every edge into `t`, in list order, puts
      its source and weight. */
  function SourcesOf(es: seq<Edge>, t: string): map<string, int>
  {
    if |es| == 0 then map[]
    else
      var m := SourcesOf(es[..|es| - 1], t);
      var e := es[|es| - 1];
      if e.target == t then m[e.source := e.weight] else m
  }

  /** The map `targets(s)` builds: every edge out of `s` puts its target. */
  function TargetsOf(es: seq<Edge>, s: string): map<string, int>
  {
    if |es| == 0 then map[]
    else
      var m := TargetsOf(es[..|es| - 1], s);
      var e := es[|es| - 1];
      if e.source == s then m[e.target := e.weight] else m
  }

  /** Appending an edge that does not join `s` to `t` does not move the
      search for it. */
  lemma FindInPrefix(es: seq<Edge>, s: string, t: string)
    requires |es| > 0 && !Joins(es[|es| - 1], s, t)
    ensures FindEdge(es, s, t) == FindEdge(es[..|es| - 1], s, t)
  {
    var p := es[..|es| - 1];
    var i := FindEdge(p, s, t);
    assert forall k :: 0 <= k < |p| ==> es[k] == p[k];
    if i >= 0 {
      FindIs(es, s, t, i);
    } else {
      NotFound(es, s, t);
    }
  }

  lemma NotFound(es: seq<Edge>, s: string, t: string)
    requires forall k :: 0 <= k < |es| ==> !Joins(es[k], s, t)
    ensures FindEdge(es, s, t) == -1
  {
  }

  lemma OnePerPairPrefix(es: seq<Edge>)
    requires OnePerPair(es) && |es| > 0
    ensures OnePerPair(es[..|es| - 1])
  {
  }

  /** `sources(t)` maps exactly the sources of edges into `t` to their
      weights. */
  lemma {:induction false} SourcesMeaning(es: seq<Edge>, t: string, s: string)
    requires OnePerPair(es)
    ensures s in SourcesOf(es, t) <==> FindEdge(es, s, t) >= 0
    ensures s in SourcesOf(es, t) ==> SourcesOf(es, t)[s] == Weight(es, s, t)
  {
    if |es| > 0 {
      var p := es[..|es| - 1];
      var e := es[|es| - 1];
      OnePerPairPrefix(es);
      SourcesMeaning(p, t, s);
      if Joins(e, s, t) {
        FoundIsOnly(es, |es| - 1, s, t);
      } else {
        FindInPrefix(es, s, t);
        var i := FindEdge(p, s, t);
        if i >= 0 {
          assert es[i] == p[i];
        }
      }
    }
  }

  /** `targets(s)` maps exactly the targets of edges out of `s` to their
      weights. */
  lemma {:induction false} TargetsMeaning(es: seq<Edge>, s: string, t: string)
    requires OnePerPair(es)
    ensures t in TargetsOf(es, s) <==> FindEdge(es, s, t) >= 0
    ensures t in TargetsOf(es, s) ==> TargetsOf(es, s)[t] == Weight(es, s, t)
  {
    if |es| > 0 {
      var p := es[..|es| - 1];
      var e := es[|es| - 1];
      OnePerPairPrefix(es);
      TargetsMeaning(p, s, t);
      if Joins(e, s, t) {
        FoundIsOnly(es, |es| - 1, s, t);
      } else {
        FindInPrefix(es, s, t);
        var i := FindEdge(p, s, t);
        if i >= 0 {
          assert es[i] == p[i];
        }
      }
    }
  }

  // ---------------------------------------------------------------- class

  class ConcreteEdgesGraph {
    var vertices: set<string>
    var edges: seq<Edge>

    /** checkRep, plus the Edge invariant of every edge and one edge per
        ordered pair. */
    predicate Valid()
      reads this
    {
      RepOk(vertices, edges)
    }

    constructor ()
      ensures vertices == {} && edges == []
      ensures Valid()
    {
      vertices := {};
      edges := [];
    }

    /** `add`: false and no change when the vertex is present, otherwise the
        vertex is inserted. */
    method Add(vertex: string) returns (added: bool)
      requires Valid()
      modifies this
      ensures added <==> vertex !in old(vertices)
      ensures vertices == old(vertices) + {vertex}
      ensures edges == old(edges)
      ensures Valid()
    {
      if vertex in vertices {
        return false;
      }
      vertices := vertices + {vertex};
      added := true;
    }

    /** `set`: returns the previous weight (0 for no edge); weight 0 removes
        the edge, a positive weight replaces or creates it, creating its
        endpoints when the edge is new. */
    method Set(source: string, target: string, weight: int) returns (previous: int)
      requires Valid()
      requires weight >= 0
      requires weight > 0 ==> |source| > 0 && |target| > 0 && source != target
      modifies this
      ensures previous == Weight(old(edges), source, target)
      ensures edges == SetEdges(old(edges), source, target, weight)
      ensures vertices == SetVertices(old(vertices), old(edges), source, target, weight)
      ensures Valid()
      ensures Weight(edges, source, target) == weight
      ensures forall a, b :: a != source || b != target ==>
                Weight(edges, a, b) == Weight(old(edges), a, b)
    {
      ghost var es := edges;
      ghost var vs := vertices;
      previous := 0;
      var edgeExists := false;
      var i := 0;
      while i < |edges|
        invariant 0 <= i <= |edges|
        invariant edges == es && vertices == vs && previous == 0 && !edgeExists
        invariant forall k :: 0 <= k < i ==> !Joins(edges[k], source, target)
      {
        var e := edges[i];
        if e.source == source && e.target == target {
          FindIs(es, source, target, i);
          edgeExists := true;
          previous := e.weight;
          if weight == 0 {
            edges := edges[..i] + edges[i + 1..];
          } else {
            var newEdge := MakeEdge(source, target, weight);
            edges := edges[..i] + edges[i + 1..];
            edges := edges + [newEdge];
          }
          break;
        }
        i := i + 1;
      }
      if !edgeExists {
        if weight != 0 {
          var newEdge := MakeEdge(source, target, weight);
          edges := edges + [newEdge];
          vertices := vertices + {source};
          vertices := vertices + {target};
        }
      }
      SetMeaning(vs, es, source, target, weight);
    }

    /** `remove`: false and no change for an absent vertex; otherwise the
        vertex and every edge into or out of it are deleted. */
    method Remove(vertex: string) returns (removed: bool)
      requires Valid()
      modifies this
      ensures removed <==> vertex in old(vertices)
      ensures vertices == old(vertices) - {vertex}
      ensures edges == (if removed then WithoutVertex(old(edges), vertex) else old(edges))
      ensures Valid()
      ensures forall a, b :: Weight(edges, a, b) ==
                (if a == vertex || b == vertex then 0 else Weight(old(edges), a, b))
    {
      if vertex !in vertices {
        forall a, b ensures Weight(edges, a, b) ==
                (if a == vertex || b == vertex then 0 else Weight(edges, a, b))
        {
          WeightPositive(vertices, edges, a, b);
        }
        return false;
      }
      ghost var es := edges;
      RemoveKeepsRep(vertices, edges, vertex);
      edges := WithoutVertex(edges, vertex);
      vertices := vertices - {vertex};
      removed := true;
      forall a, b ensures Weight(edges, a, b) ==
                (if a == vertex || b == vertex then 0 else Weight(es, a, b))
      {
        RemoveWeights(es, vertex, a, b);
      }
    }

    /** `vertices`: the vertex set, which holds every edge endpoint. */
    method Vertices() returns (vs: set<string>)
      requires Valid()
      ensures vs == vertices
      ensures forall a, b :: Weight(edges, a, b) > 0 ==> a in vs && b in vs
    {
      vs := vertices;
      forall a, b ensures Weight(edges, a, b) > 0 ==> a in vs && b in vs
      {
        WeightPositive(vertices, edges, a, b);
      }
    }

    /** `sources(target)`: each source of an edge into `target`, mapped to
        that edge's weight. */
    method Sources(target: string) returns (m: map<string, int>)
      requires Valid()
      ensures m == SourcesOf(edges, target)
      ensures forall s :: s in m <==> Weight(edges, s, target) > 0
      ensures forall s :: s in m ==> m[s] == Weight(edges, s, target)
    {
      m := map[];
      var i := 0;
      while i < |edges|
        invariant 0 <= i <= |edges|
        invariant m == SourcesOf(edges[..i], target)
      {
        assert edges[..i + 1][..i] == edges[..i];
        var e := edges[i];
        if e.target == target {
          m := m[e.source := e.weight];
        }
        i := i + 1;
      }
      assert edges[..i] == edges;
      forall s ensures (s in m <==> Weight(edges, s, target) > 0)
                    && (s in m ==> m[s] == Weight(edges, s, target))
      {
        SourcesMeaning(edges, target, s);
        WeightPositive(vertices, edges, s, target);
      }
    }

    /** `targets(source)`: each target of an edge out of `source`, mapped to
        that edge's weight. */
    method Targets(source: string) returns (m: map<string, int>)
      requires Valid()
      ensures m == TargetsOf(edges, source)
      ensures forall t :: t in m <==> Weight(edges, source, t) > 0
      ensures forall t :: t in m ==> m[t] == Weight(edges, source, t)
    {
      m := map[];
      var i := 0;
      while i < |edges|
        invariant 0 <= i <= |edges|
        invariant m == TargetsOf(edges[..i], source)
      {
        assert edges[..i + 1][..i] == edges[..i];
        var e := edges[i];
        if e.source == source {
          m := m[e.target := e.weight];
        }
        i := i + 1;
      }
      assert edges[..i] == edges;
      forall t ensures (t in m <==> Weight(edges, source, t) > 0)
                    && (t in m ==> m[t] == Weight(edges, source, t))
      {
        TargetsMeaning(edges, source, t);
        WeightPositive(vertices, edges, source, t);
      }
    }
  }
}
