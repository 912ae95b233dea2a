/** ConcreteVerticesGraph: a weighted directed graph represented by a list
    of mutable Vertex objects, each recording the edges that start at it
    (`starts`: target label to weight) and the edges that end at it
    (`ends`: source label to weight). The state of the objects is read as a
    sequence of VertexState values; the invariant, the abstract weights and
    the effect of every mutator are functions on those values, and the
    classes are proved to change their objects exactly as those say. */
module VerticesGraph {

  // ------------------------------------------------------------- one vertex

  /** The fields of one Vertex object. */
  datatype VertexState<L> = VertexState(value: L, starts: map<L, int>, ends: map<L, int>)

  /** The Vertex rep invariant (its checkRep): positive weights and no edge
      from a vertex to itself. */
  predicate VertexOk<L(==,!new)>(v: VertexState<L>)
  {
    (forall k :: k in v.starts ==> v.starts[k] > 0)
    && (forall k :: k in v.ends ==> v.ends[k] > 0)
    && v.value !in v.starts && v.value !in v.ends
  }

  /** `connectEdge(other, weight, isStart)`: records the edge in `starts`
      (isStart) or `ends`, unless that direction already has an edge to
      `other`, in which case nothing changes. */
  function ConnectState<L(==,!new)>(v: VertexState<L>, other: L, weight: int, isStart: bool): (r: VertexState<L>)
    ensures r.value == v.value
  {
    if isStart then
      if other in v.starts then v else v.(starts := v.starts[other := weight])
    else
      if other in v.ends then v else v.(ends := v.ends[other := weight])
  }

  /** `connectEdge` records the edge exactly when that direction has none
      to `other` yet, and keeps the vertex invariant for a positive weight
      and a different vertex. */
  lemma ConnectMeaning<L(!new)>(v: VertexState<L>, other: L, weight: int, isStart: bool)
    ensures var r := ConnectState(v, other, weight, isStart);
            (isStart ==> other in r.starts && r.ends == v.ends)
            && (!isStart ==> other in r.ends && r.starts == v.starts)
            && ((isStart && other in v.starts) || (!isStart && other in v.ends) ==> r == v)
            && (isStart && other !in v.starts ==> r.starts[other] == weight)
            && (!isStart && other !in v.ends ==> r.ends[other] == weight)
            && (VertexOk(v) && weight > 0 && other != v.value ==> VertexOk(r))
  {
  }

  /** `removeEdge(other, isStart)`: forgets the edge to or from `other`; an
      absent edge changes nothing. */
  function DisconnectState<L(==,!new)>(v: VertexState<L>, other: L, isStart: bool): (r: VertexState<L>)
    ensures r.value == v.value
  {
    if isStart then
      if other in v.starts then v.(starts := v.starts - {other}) else v
    else
      if other in v.ends then v.(ends := v.ends - {other}) else v
  }

  /** `removeEdge` forgets exactly the edge with `other` in that direction
      and keeps the vertex invariant. */
  lemma DisconnectMeaning<L(!new)>(v: VertexState<L>, other: L, isStart: bool)
    ensures var r := DisconnectState(v, other, isStart);
            (isStart ==> other !in r.starts && r.ends == v.ends)
            && (!isStart ==> other !in r.ends && r.starts == v.starts)
            && (isStart ==> forall k :: k != other ==> (k in r.starts <==> k in v.starts))
            && (isStart ==> forall k :: k in r.starts ==> r.starts[k] == v.starts[k])
            && (!isStart ==> forall k :: k != other ==> (k in r.ends <==> k in v.ends))
            && (!isStart ==> forall k :: k in r.ends ==> r.ends[k] == v.ends[k])
            && ((isStart && other !in v.starts) || (!isStart && other !in v.ends) ==> r == v)
            && (VertexOk(v) ==> VertexOk(r))
  {
  }

  // ------------------------------------------------------------ the graph

  /** The position of the first vertex labelled `x`, or -1. */
  function Find<L(==,!new)>(vs: seq<VertexState<L>>, x: L): (i: int)
    ensures -1 <= i < |vs|
    ensures i >= 0 ==> vs[i].value == x
    ensures forall k :: 0 <= k < |vs| && (i < 0 || k < i) ==> vs[k].value != x
  {
    if |vs| == 0 then -1
    else if vs[0].value == x then 0
    else
      var k := Find(vs[1..], x);
      if k < 0 then -1 else k + 1
  }

  /** The labels of the vertices: `vertices()`. */
  function Labels<L(==,!new)>(vs: seq<VertexState<L>>): (r: set<L>)
    ensures forall x :: x in r <==> Find(vs, x) >= 0
  {
    var r := set k | 0 <= k < |vs| :: vs[k].value;
    assert forall x :: x in r ==> Find(vs, x) >= 0;
    r
  }

  predicate UniqueLabels<L(==,!new)>(vs: seq<VertexState<L>>)
  {
    forall i, j :: 0 <= i < j < |vs| ==> vs[i].value != vs[j].value
  }

  /** The weight of the edge from `a` to `b` as the source vertex records
      it in `starts`; 0 when there is none. This is the abstract graph. */
  function Out<L(==,!new)>(vs: seq<VertexState<L>>, a: L, b: L): int
  {
    var i := Find(vs, a);
    if i >= 0 && b in vs[i].starts then vs[i].starts[b] else 0
  }

  /** The same edge as the target vertex records it in `ends`. */
  function In<L(==,!new)>(vs: seq<VertexState<L>>, a: L, b: L): int
  {
    var j := Find(vs, b);
    if j >= 0 && a in vs[j].ends then vs[j].ends[a] else 0
  }

  /** The representation invariant: labels are unique, every vertex keeps
      its own invariant, and every edge is recorded on both of its
      endpoints with the same weight (so both endpoints are in the list). */
  ghost predicate GraphOk<L(!new)>(vs: seq<VertexState<L>>)
  {
    UniqueLabels(vs)
    && (forall k :: 0 <= k < |vs| ==> VertexOk(vs[k]))
    && (forall a, b :: Out(vs, a, b) == In(vs, a, b))
  }

  /** With unique labels, the vertex labelled like the k-th is the k-th. */
  lemma FindUnique<L(!new)>(vs: seq<VertexState<L>>, k: int)
    requires UniqueLabels(vs) && 0 <= k < |vs|
    ensures Find(vs, vs[k].value) == k
  {
  }

  /** Every key in a vertex's maps is the label of a vertex of the list:
      the second clause of checkRep, implied by the mirrored records. */
  lemma KeysAreLabels<L(!new)>(vs: seq<VertexState<L>>, k: int, x: L)
    requires GraphOk(vs) && 0 <= k < |vs|
    ensures x in vs[k].starts ==> x in Labels(vs)
    ensures x in vs[k].ends ==> x in Labels(vs)
  {
    FindUnique(vs, k);
    if x in vs[k].starts {
      assert Out(vs, vs[k].value, x) == In(vs, vs[k].value, x);
    }
    if x in vs[k].ends {
      assert Out(vs, x, vs[k].value) == In(vs, x, vs[k].value);
    }
  }

  /** In a valid graph weights are never negative and no vertex has an
      edge to itself. */
  lemma WeightFacts<L(!new)>(vs: seq<VertexState<L>>, a: L, b: L)
    requires GraphOk(vs)
    ensures Out(vs, a, b) >= 0
    ensures Out(vs, a, a) == 0
    ensures Out(vs, a, b) > 0 ==> a in Labels(vs) && b in Labels(vs)
  {
    assert Out(vs, a, b) == In(vs, a, b);
  }

  // -------------------------------------------- finding after list changes

  /** Sequences with the same labels at the same places find alike. */
  lemma SameLabels<L(!new)>(vs: seq<VertexState<L>>, ws: seq<VertexState<L>>)
    requires |vs| == |ws|
    requires forall k :: 0 <= k < |vs| ==> ws[k].value == vs[k].value
    ensures forall x :: Find(ws, x) == Find(vs, x)
    ensures Labels(ws) == Labels(vs)
    ensures UniqueLabels(vs) ==> UniqueLabels(ws)
  {
    forall x ensures Find(ws, x) == Find(vs, x)
    {
      var i := Find(vs, x);
      var j := Find(ws, x);
      if i >= 0 && j >= 0 {
        assert !(j < i) && !(i < j);
      }
    }
  }

  /** The search result is determined by where the label first occurs. */
  lemma FindIs<L(!new)>(vs: seq<VertexState<L>>, x: L, i: int)
    requires -1 <= i < |vs|
    requires i >= 0 ==> vs[i].value == x
    requires forall k :: 0 <= k < |vs| && (i < 0 || k < i) ==> vs[k].value != x
    ensures Find(vs, x) == i
  {
    var f := Find(vs, x);
    if f >= 0 && i >= 0 {
      assert !(f < i) && !(i < f);
    }
  }

  lemma FindAppend<L(!new)>(vs: seq<VertexState<L>>, v: VertexState<L>, x: L)
    ensures Find(vs + [v], x) ==
              (if Find(vs, x) >= 0 then Find(vs, x) else if v.value == x then |vs| else -1)
  {
    var ws := vs + [v];
    var i := Find(vs, x);
    var want := if i >= 0 then i else if v.value == x then |vs| else -1;
    assert forall k :: 0 <= k < |vs| ==> ws[k] == vs[k];
    FindIs(ws, x, want);
  }

  /** The list without its vertex at `i`, place by place. */
  lemma CutIndex<L(!new)>(vs: seq<VertexState<L>>, i: int, ws: seq<VertexState<L>>)
    requires 0 <= i < |vs| && ws == vs[..i] + vs[i + 1..]
    ensures |ws| == |vs| - 1
    ensures forall k :: 0 <= k < i ==> ws[k] == vs[k]
    ensures forall k :: i <= k < |vs| - 1 ==> ws[k] == vs[k + 1]
  {
  }

  lemma CutAt<L(!new)>(vs: seq<VertexState<L>>, i: int, k: int)
    requires 0 <= i < |vs| && 0 <= k < |vs| - 1
    ensures (vs[..i] + vs[i + 1..])[k] == (if k < i then vs[k] else vs[k + 1])
  {
  }

  /** Removing the vertex at `i` shifts the later ones down by one. */
  lemma FindCut<L(!new)>(vs: seq<VertexState<L>>, i: int, x: L)
    requires UniqueLabels(vs) && 0 <= i < |vs|
    ensures x == vs[i].value ==> Find(vs[..i] + vs[i + 1..], x) == -1
    ensures x != vs[i].value && Find(vs, x) < i ==> Find(vs[..i] + vs[i + 1..], x) == Find(vs, x)
    ensures x != vs[i].value && Find(vs, x) > i ==> Find(vs[..i] + vs[i + 1..], x) == Find(vs, x) - 1
  {
    if x == vs[i].value {
      FindCutRemoved(vs, i);
    } else {
      FindCutOther(vs, i, x);
    }
  }

  lemma FindCutRemoved<L(!new)>(vs: seq<VertexState<L>>, i: int)
    requires UniqueLabels(vs) && 0 <= i < |vs|
    ensures Find(vs[..i] + vs[i + 1..], vs[i].value) == -1
  {
    var ws := vs[..i] + vs[i + 1..];
    forall k | 0 <= k < |ws|
      ensures ws[k].value != vs[i].value
    {
      CutAt(vs, i, k);
    }
    FindIs(ws, vs[i].value, -1);
  }

  lemma FindCutOther<L(!new)>(vs: seq<VertexState<L>>, i: int, x: L)
    requires 0 <= i < |vs| && x != vs[i].value
    ensures Find(vs[..i] + vs[i + 1..], x) ==
              (if Find(vs, x) < i then Find(vs, x) else Find(vs, x) - 1)
  {
    CutIndex(vs, i, vs[..i] + vs[i + 1..]);
    FindShifted(vs, vs[..i] + vs[i + 1..], i, x);
  }

  lemma FindShifted<L(!new)>(vs: seq<VertexState<L>>, ws: seq<VertexState<L>>, i: int, x: L)
    requires 0 <= i < |vs| && x != vs[i].value && |ws| == |vs| - 1
    requires forall k :: 0 <= k < i ==> ws[k] == vs[k]
    requires forall k :: i <= k < |ws| ==> ws[k] == vs[k + 1]
    ensures Find(ws, x) == (if Find(vs, x) < i then Find(vs, x) else Find(vs, x) - 1)
  {
    var f := Find(vs, x);
    ShiftedFirst(vs, ws, i, x, f);
    FindIs(ws, x, if f < i then f else f - 1);
  }

  /** Where a label first occurs, after the vertex at `i` is cut out. */
  lemma ShiftedFirst<L(!new)>(vs: seq<VertexState<L>>, ws: seq<VertexState<L>>, i: int, x: L, f: int)
    requires 0 <= i < |vs| && x != vs[i].value && |ws| == |vs| - 1
    requires forall k :: 0 <= k < i ==> ws[k] == vs[k]
    requires forall k :: i <= k < |ws| ==> ws[k] == vs[k + 1]
    requires -1 <= f < |vs| && (f >= 0 ==> vs[f].value == x)
    requires forall k :: 0 <= k < |vs| && (f < 0 || k < f) ==> vs[k].value != x
    ensures var want := if f < i then f else f - 1;
            -1 <= want < |ws| && (want >= 0 ==> ws[want].value == x)
            && forall k :: 0 <= k < |ws| && (want < 0 || k < want) ==> ws[k].value != x
  {
    var want := if f < i then f else f - 1;
    forall k | 0 <= k < |ws| && (want < 0 || k < want)
      ensures ws[k].value != x
    {
      var src := if k < i then k else k + 1;
      assert ws[k] == vs[src];
    }
  }

  lemma UniqueCut<L(!new)>(vs: seq<VertexState<L>>, i: int)
    requires UniqueLabels(vs) && 0 <= i < |vs|
    ensures UniqueLabels(vs[..i] + vs[i + 1..])
  {
    CutIndex(vs, i, vs[..i] + vs[i + 1..]);
  }

  // ----------------------------------------------------------------- add

  /** The list after `add(x)`: unchanged when `x` is a label, otherwise a
      fresh vertex with empty maps at the end. */
  function AddState<L(==,!new)>(vs: seq<VertexState<L>>, x: L): seq<VertexState<L>>
  {
    if Find(vs, x) >= 0 then vs else vs + [VertexState(x, map[], map[])]
  }

  /** `add` keeps the invariant, adds exactly `x` to the labels and changes
      no weight. */
  lemma AddMeaning<L(!new)>(vs: seq<VertexState<L>>, x: L)
    requires GraphOk(vs)
    ensures GraphOk(AddState(vs, x))
    ensures Labels(AddState(vs, x)) == Labels(vs) + {x}
    ensures forall a, b :: Out(AddState(vs, x), a, b) == Out(vs, a, b)
  {
    if Find(vs, x) < 0 {
      var v := VertexState(x, map[], map[]);
      var ws := vs + [v];
      AppendFresh(vs, v);
      forall a, b ensures Out(ws, a, b) == Out(vs, a, b) && In(ws, a, b) == In(vs, a, b)
      {
        AppendWeights(vs, v, a, b);
      }
    }
  }

  lemma AddKeepsOk<L(!new)>(vs: seq<VertexState<L>>, x: L)
    requires GraphOk(vs)
    ensures GraphOk(AddState(vs, x))
  {
    AddMeaning(vs, x);
  }

  // ----------------------------------------------------------------- set

  /** `removeEdge` then, for a non-zero weight, `connectEdge`: how `set`
      rewrites an existing edge on one endpoint. */
  function Reconnect<L(==,!new)>(v: VertexState<L>, other: L, w: int, isStart: bool): VertexState<L>
  {
    var d := DisconnectState(v, other, isStart);
    if w != 0 then ConnectState(d, other, w, isStart) else d
  }

  /** One step of the loop that records a new edge from `s` to `t` on
      whichever endpoints exist. */
  function LinkBoth<L(==,!new)>(v: VertexState<L>, s: L, t: L, w: int): VertexState<L>
  {
    var v1 := if v.value == s then ConnectState(v, t, w, true) else v;
    if v1.value == t then ConnectState(v1, s, w, false) else v1
  }

  function Linked<L(==,!new)>(vs: seq<VertexState<L>>, s: L, t: L, w: int): (r: seq<VertexState<L>>)
    ensures |r| == |vs|
    ensures forall k :: 0 <= k < |vs| ==> r[k] == LinkBoth(vs[k], s, t, w)
  {
    seq(|vs|, k requires 0 <= k < |vs| => LinkBoth(vs[k], s, t, w))
  }

  /** Whether `set` finds the edge in its nested search: a vertex labelled
      `s`, a vertex labelled `t`, and `t` among the targets of the first. */
  predicate HasEdge<L(==,!new)>(vs: seq<VertexState<L>>, s: L, t: L)
  {
    Find(vs, s) >= 0 && Find(vs, t) >= 0 && t in vs[Find(vs, s)].starts
  }

  /** The rewrite of an existing edge: `removeEdge` and `connectEdge` on
      the source vertex, then on the target vertex. */
  function ExistingState<L(==,!new)>(vs: seq<VertexState<L>>, s: L, t: L, w: int): seq<VertexState<L>>
    requires HasEdge(vs, s, t)
  {
    var i := Find(vs, s);
    var j := Find(vs, t);
    var vs1 := vs[i := Reconnect(vs[i], t, w, true)];
    vs1[j := Reconnect(vs1[j], s, w, false)]
  }

  /** The vertices `set` creates for a missing source or target. */
  function NewSource<L>(s: L, t: L, w: int): VertexState<L>
  {
    VertexState(s, map[t := w], map[])
  }

  function NewTarget<L>(s: L, t: L, w: int): VertexState<L>
  {
    VertexState(t, map[], map[s := w])
  }

  /** After the linking loop: the missing source, then the missing target,
      are appended. */
  function AddEndpoints<L>(linked: seq<VertexState<L>>, sourceExists: bool, targetExists: bool,
                           s: L, t: L, w: int): seq<VertexState<L>>
  {
    var withSource := WithSource(linked, sourceExists, s, t, w);
    if targetExists then withSource else withSource + [NewTarget(s, t, w)]
  }

  function WithSource<L>(linked: seq<VertexState<L>>, sourceExists: bool, s: L, t: L, w: int): seq<VertexState<L>>
  {
    if sourceExists then linked else linked + [NewSource(s, t, w)]
  }

  /** The list after `set(s, t, w)`. An existing edge is rewritten on both
      endpoints; otherwise a non-zero weight is recorded on the endpoints
      that exist and a new vertex is appended for each one that does not
      (source first). */
  function SetState<L(==,!new)>(vs: seq<VertexState<L>>, s: L, t: L, w: int): seq<VertexState<L>>
  {
    if HasEdge(vs, s, t) then ExistingState(vs, s, t, w)
    else if w != 0 then AddEndpoints(Linked(vs, s, t, w), Find(vs, s) >= 0, Find(vs, t) >= 0, s, t, w)
    else vs
  }

  /** An edge found by the search joins two different vertices. */
  lemma HasEdgeDistinct<L(!new)>(vs: seq<VertexState<L>>, s: L, t: L)
    requires forall k :: 0 <= k < |vs| ==> VertexOk(vs[k])
    requires HasEdge(vs, s, t)
    ensures s != t && Find(vs, s) != Find(vs, t)
  {
    assert VertexOk(vs[Find(vs, s)]);
  }

  /** Updating two different places, keeping their labels. */
  lemma TwoUpdates<L(!new)>(vs: seq<VertexState<L>>, i: int, j: int, src: VertexState<L>, tgt: VertexState<L>)
    requires 0 <= i < |vs| && 0 <= j < |vs| && i != j
    requires src.value == vs[i].value && src.ends == vs[i].ends
    requires tgt.value == vs[j].value && tgt.starts == vs[j].starts
    ensures var ws := vs[i := src][j := tgt];
            |ws| == |vs| && ws[i] == src && ws[j] == tgt
            && (forall k :: 0 <= k < |vs| && k != i ==> ws[k].starts == vs[k].starts)
            && (forall k :: 0 <= k < |vs| && k != j ==> ws[k].ends == vs[k].ends)
            && (forall x :: Find(ws, x) == Find(vs, x))
            && Labels(ws) == Labels(vs)
            && (UniqueLabels(vs) ==> UniqueLabels(ws))
  {
    SameLabels(vs, vs[i := src][j := tgt]);
  }

  /** The rewrite of an existing edge changes exactly the weight from `s`
      to `t`, on both records. */
  lemma SetExisting<L(!new)>(vs: seq<VertexState<L>>, s: L, t: L, w: int, a: L, b: L)
    requires forall k :: 0 <= k < |vs| ==> VertexOk(vs[k])
    requires w >= 0 && HasEdge(vs, s, t)
    ensures Out(SetState(vs, s, t, w), a, b) == (if a == s && b == t then w else Out(vs, a, b))
    ensures In(SetState(vs, s, t, w), a, b) == (if a == s && b == t then w else In(vs, a, b))
  {
    var i := Find(vs, s);
    var j := Find(vs, t);
    HasEdgeDistinct(vs, s, t);
    var src := Reconnect(vs[i], t, w, true);
    var tgt := Reconnect(vs[j], s, w, false);
    ReconnectStarts(vs[i], t, w, t);
    ReconnectEnds(vs[j], s, w, s);
    TwoUpdates(vs, i, j, src, tgt);
    var ws := vs[i := src][j := tgt];
    assert ExistingState(vs, s, t, w) == ws;
    ExistingOut(vs, ws, i, t, w, a, b);
    ExistingIn(vs, ws, j, s, w, a, b);
  }

  /** A Reconnect in `starts` changes the recorded weight to `t` only. */
  lemma ReconnectStarts<L(!new)>(v: VertexState<L>, t: L, w: int, b: L)
    requires w >= 0
    ensures var r := Reconnect(v, t, w, true);
            r.value == v.value && r.ends == v.ends &&
            (if b in r.starts then r.starts[b] else 0) ==
            (if b == t then w else if b in v.starts then v.starts[b] else 0)
  {
  }

  lemma ReconnectEnds<L(!new)>(v: VertexState<L>, s: L, w: int, a: L)
    requires w >= 0
    ensures var r := Reconnect(v, s, w, false);
            r.value == v.value && r.starts == v.starts &&
            (if a in r.ends then r.ends[a] else 0) ==
            (if a == s then w else if a in v.ends then v.ends[a] else 0)
  {
  }

  lemma ExistingOut<L(!new)>(vs: seq<VertexState<L>>, ws: seq<VertexState<L>>, i: int,
                             t: L, w: int, a: L, b: L)
    requires |ws| == |vs| && 0 <= i < |vs| && w >= 0
    requires ws[i] == Reconnect(vs[i], t, w, true) && Find(vs, vs[i].value) == i
    requires forall k :: 0 <= k < |vs| && k != i ==> ws[k].starts == vs[k].starts
    requires forall x :: Find(ws, x) == Find(vs, x)
    ensures Out(ws, a, b) == (if a == vs[i].value && b == t then w else Out(vs, a, b))
  {
    ReconnectStarts(vs[i], t, w, b);
    var fa := Find(vs, a);
    assert Find(ws, a) == fa;
    if fa == i {
      assert a == vs[i].value;
    } else if fa >= 0 {
      assert ws[fa].starts == vs[fa].starts;
    }
  }

  lemma ExistingIn<L(!new)>(vs: seq<VertexState<L>>, ws: seq<VertexState<L>>, j: int,
                            s: L, w: int, a: L, b: L)
    requires |ws| == |vs| && 0 <= j < |vs| && w >= 0
    requires ws[j] == Reconnect(vs[j], s, w, false) && Find(vs, vs[j].value) == j
    requires forall k :: 0 <= k < |vs| && k != j ==> ws[k].ends == vs[k].ends
    requires forall x :: Find(ws, x) == Find(vs, x)
    ensures In(ws, a, b) == (if a == s && b == vs[j].value then w else In(vs, a, b))
  {
    ReconnectEnds(vs[j], s, w, a);
    var fb := Find(vs, b);
    assert Find(ws, b) == fb;
    if fb == j {
      assert b == vs[j].value;
    } else if fb >= 0 {
      assert ws[fb].ends == vs[fb].ends;
    }
  }

  /** Without an edge from `s` to `t`, the valid graph records no weight
      for it on either side. */
  lemma NoEdgeNoWeight<L(!new)>(vs: seq<VertexState<L>>, s: L, t: L)
    requires GraphOk(vs) && !HasEdge(vs, s, t)
    ensures Out(vs, s, t) == 0 && In(vs, s, t) == 0
  {
    assert Out(vs, s, t) == In(vs, s, t);
  }

  /** What one linking step does to the records of one vertex. */
  lemma LinkBothFacts<L(!new)>(v: VertexState<L>, s: L, t: L, w: int, x: L)
    requires w > 0 && s != t
    ensures var r := LinkBoth(v, s, t, w);
            r.value == v.value
            && (if x in r.starts then r.starts[x] else 0) ==
               (if v.value == s && x == t && t !in v.starts then w
                else if x in v.starts then v.starts[x] else 0)
            && (if x in r.ends then r.ends[x] else 0) ==
               (if v.value == t && x == s && s !in v.ends then w
                else if x in v.ends then v.ends[x] else 0)
  {
  }

  /** Recording a new edge on the existing endpoints. */
  lemma SetLinked<L(!new)>(vs: seq<VertexState<L>>, s: L, t: L, w: int, a: L, b: L)
    requires w > 0 && s != t && Out(vs, s, t) == 0 && In(vs, s, t) == 0
    requires forall k :: 0 <= k < |vs| ==> VertexOk(vs[k])
    ensures Out(Linked(vs, s, t, w), a, b) ==
              (if a == s && b == t && Find(vs, s) >= 0 then w else Out(vs, a, b))
    ensures In(Linked(vs, s, t, w), a, b) ==
              (if a == s && b == t && Find(vs, t) >= 0 then w else In(vs, a, b))
  {
    var ws := Linked(vs, s, t, w);
    SameLabels(vs, ws);
    LinkedOut(vs, ws, s, t, w, a, b);
    LinkedIn(vs, ws, s, t, w, a, b);
  }

  lemma LinkedOut<L(!new)>(vs: seq<VertexState<L>>, ws: seq<VertexState<L>>, s: L, t: L, w: int, a: L, b: L)
    requires w > 0 && s != t && Out(vs, s, t) == 0
    requires ws == Linked(vs, s, t, w) && Find(ws, a) == Find(vs, a)
    requires forall k :: 0 <= k < |vs| ==> VertexOk(vs[k])
    ensures Out(ws, a, b) == (if a == s && b == t && Find(vs, s) >= 0 then w else Out(vs, a, b))
  {
    var fa := Find(vs, a);
    if fa >= 0 {
      LinkBothFacts(vs[fa], s, t, w, b);
      assert ws[fa] == LinkBoth(vs[fa], s, t, w);
      assert a == s && b == t ==> t !in vs[fa].starts;
    }
  }

  lemma LinkedIn<L(!new)>(vs: seq<VertexState<L>>, ws: seq<VertexState<L>>, s: L, t: L, w: int, a: L, b: L)
    requires w > 0 && s != t && In(vs, s, t) == 0
    requires ws == Linked(vs, s, t, w) && Find(ws, b) == Find(vs, b)
    requires forall k :: 0 <= k < |vs| ==> VertexOk(vs[k])
    ensures In(ws, a, b) == (if a == s && b == t && Find(vs, t) >= 0 then w else In(vs, a, b))
  {
    var fb := Find(vs, b);
    if fb >= 0 {
      LinkBothFacts(vs[fb], s, t, w, a);
      assert ws[fb] == LinkBoth(vs[fb], s, t, w);
      assert a == s && b == t ==> s !in vs[fb].ends;
    }
  }

  /** Appending a vertex whose label is new adds its records and nothing
      else. */
  lemma AppendWeights<L(!new)>(vs: seq<VertexState<L>>, v: VertexState<L>, a: L, b: L)
    requires Find(vs, v.value) < 0
    ensures Out(vs + [v], a, b) ==
              (if Find(vs, a) >= 0 then Out(vs, a, b)
               else if a == v.value && b in v.starts then v.starts[b] else 0)
    ensures In(vs + [v], a, b) ==
              (if Find(vs, b) >= 0 then In(vs, a, b)
               else if b == v.value && a in v.ends then v.ends[a] else 0)
  {
    FindAppend(vs, v, a);
    FindAppend(vs, v, b);
    var ws := vs + [v];
    if Find(vs, a) >= 0 {
      assert ws[Find(vs, a)] == vs[Find(vs, a)];
    }
    if Find(vs, b) >= 0 {
      assert ws[Find(vs, b)] == vs[Find(vs, b)];
    }
  }

  lemma AppendUnique<L(!new)>(vs: seq<VertexState<L>>, v: VertexState<L>)
    requires UniqueLabels(vs) && Find(vs, v.value) < 0
    ensures UniqueLabels(vs + [v])
    ensures forall k :: 0 <= k < |vs| ==> (vs + [v])[k] == vs[k]
  {
  }

  /** Appending a vertex with a new label: labels, uniqueness and vertex
      invariant. */
  lemma AppendFresh<L(!new)>(vs: seq<VertexState<L>>, v: VertexState<L>)
    requires Find(vs, v.value) < 0
    ensures Labels(vs + [v]) == Labels(vs) + {v.value}
    ensures UniqueLabels(vs) ==> UniqueLabels(vs + [v])
    ensures (forall k :: 0 <= k < |vs| ==> VertexOk(vs[k])) && VertexOk(v) ==>
              forall k :: 0 <= k < |vs + [v]| ==> VertexOk((vs + [v])[k])
  {
    forall y ensures y in Labels(vs + [v]) <==> y in Labels(vs) + {v.value}
    {
      FindAppend(vs, v, y);
    }
    if UniqueLabels(vs) {
      AppendUnique(vs, v);
    }
  }

  /** The weights after appending the missing endpoints. */
  lemma AddEndpointsWeights<L(!new)>(linked: seq<VertexState<L>>, sourceExists: bool, targetExists: bool,
                                     s: L, t: L, w: int, a: L, b: L)
    requires s != t
    requires sourceExists <==> Find(linked, s) >= 0
    requires targetExists <==> Find(linked, t) >= 0
    ensures Out(AddEndpoints(linked, sourceExists, targetExists, s, t, w), a, b) ==
              (if !sourceExists && a == s && b == t then w else Out(linked, a, b))
    ensures In(AddEndpoints(linked, sourceExists, targetExists, s, t, w), a, b) ==
              (if !targetExists && a == s && b == t then w else In(linked, a, b))
  {
    var sv := NewSource(s, t, w);
    var withSource := WithSource(linked, sourceExists, s, t, w);
    if !sourceExists {
      AppendWeights(linked, sv, a, b);
      FindAppend(linked, sv, t);
    }
    if !targetExists {
      AppendWeights(withSource, NewTarget(s, t, w), a, b);
      if !sourceExists {
        FindAppend(linked, sv, a);
        FindAppend(linked, sv, b);
      }
    }
  }

  /** The labels, uniqueness and vertex invariant after appending the
      missing endpoints. */
  lemma AddEndpointsOk<L(!new)>(linked: seq<VertexState<L>>, sourceExists: bool, targetExists: bool,
                                s: L, t: L, w: int)
    requires s != t && w > 0
    requires sourceExists <==> Find(linked, s) >= 0
    requires targetExists <==> Find(linked, t) >= 0
    requires UniqueLabels(linked) && forall k :: 0 <= k < |linked| ==> VertexOk(linked[k])
    ensures Labels(AddEndpoints(linked, sourceExists, targetExists, s, t, w)) == Labels(linked) + {s, t}
    ensures UniqueLabels(AddEndpoints(linked, sourceExists, targetExists, s, t, w))
    ensures var ws := AddEndpoints(linked, sourceExists, targetExists, s, t, w);
            forall k :: 0 <= k < |ws| ==> VertexOk(ws[k])
  {
    AddSourceOk(linked, sourceExists, s, t, w);
    AddTargetOk(WithSource(linked, sourceExists, s, t, w), targetExists, s, t, w);
    assert AddEndpoints(linked, sourceExists, targetExists, s, t, w)
        == AddTarget(WithSource(linked, sourceExists, s, t, w), targetExists, s, t, w);
  }

  function AddTarget<L>(withSource: seq<VertexState<L>>, targetExists: bool, s: L, t: L, w: int): seq<VertexState<L>>
  {
    if targetExists then withSource else withSource + [NewTarget(s, t, w)]
  }

  lemma AddTargetOk<L(!new)>(ws: seq<VertexState<L>>, targetExists: bool, s: L, t: L, w: int)
    requires s != t && w > 0
    requires targetExists <==> Find(ws, t) >= 0
    requires UniqueLabels(ws) && forall k :: 0 <= k < |ws| ==> VertexOk(ws[k])
    ensures Labels(AddTarget(ws, targetExists, s, t, w)) == Labels(ws) + {t}
    ensures UniqueLabels(AddTarget(ws, targetExists, s, t, w))
    ensures var r := AddTarget(ws, targetExists, s, t, w);
            forall k :: 0 <= k < |r| ==> VertexOk(r[k])
  {
    if !targetExists {
      AppendFresh(ws, NewTarget(s, t, w));
    }
  }

  lemma AddSourceOk<L(!new)>(linked: seq<VertexState<L>>, sourceExists: bool, s: L, t: L, w: int)
    requires s != t && w > 0
    requires sourceExists <==> Find(linked, s) >= 0
    requires UniqueLabels(linked) && forall k :: 0 <= k < |linked| ==> VertexOk(linked[k])
    ensures Labels(WithSource(linked, sourceExists, s, t, w)) == Labels(linked) + {s}
    ensures UniqueLabels(WithSource(linked, sourceExists, s, t, w))
    ensures var ws := WithSource(linked, sourceExists, s, t, w);
            forall k :: 0 <= k < |ws| ==> VertexOk(ws[k])
    ensures Find(WithSource(linked, sourceExists, s, t, w), t) == Find(linked, t)
  {
    if !sourceExists {
      AppendFresh(linked, NewSource(s, t, w));
      FindAppend(linked, NewSource(s, t, w), t);
    }
  }

  /** Recording a new edge: the weights after the linking loop and the
      appended endpoints. */
  lemma SetNew<L(!new)>(vs: seq<VertexState<L>>, s: L, t: L, w: int, a: L, b: L)
    requires GraphOk(vs) && w > 0 && s != t && !HasEdge(vs, s, t)
    ensures Out(SetState(vs, s, t, w), a, b) == (if a == s && b == t then w else Out(vs, a, b))
    ensures In(SetState(vs, s, t, w), a, b) == (if a == s && b == t then w else In(vs, a, b))
  {
    var linked := Linked(vs, s, t, w);
    SameLabels(vs, linked);
    NoEdgeNoWeight(vs, s, t);
    SetLinked(vs, s, t, w, a, b);
    AddEndpointsWeights(linked, Find(vs, s) >= 0, Find(vs, t) >= 0, s, t, w, a, b);
  }

  lemma ReconnectOk<L(!new)>(v: VertexState<L>, other: L, w: int, isStart: bool)
    requires VertexOk(v) && w >= 0 && other != v.value
    ensures VertexOk(Reconnect(v, other, w, isStart))
  {
  }

  lemma LinkBothOk<L(!new)>(v: VertexState<L>, s: L, t: L, w: int)
    requires VertexOk(v) && w > 0 && s != t
    ensures VertexOk(LinkBoth(v, s, t, w)) && LinkBoth(v, s, t, w).value == v.value
  {
  }

  /** The vertex invariant after `set`. */
  lemma SetVerticesOk<L(!new)>(vs: seq<VertexState<L>>, s: L, t: L, w: int)
    requires UniqueLabels(vs) && (forall k :: 0 <= k < |vs| ==> VertexOk(vs[k]))
    requires w >= 0 && (w > 0 ==> s != t)
    ensures forall k :: 0 <= k < |SetState(vs, s, t, w)| ==> VertexOk(SetState(vs, s, t, w)[k])
    ensures UniqueLabels(SetState(vs, s, t, w))
  {
    if HasEdge(vs, s, t) {
      SetOkExisting(vs, s, t, w);
    } else if w != 0 {
      SetOkNew(vs, s, t, w);
    }
  }

  lemma SetOkExisting<L(!new)>(vs: seq<VertexState<L>>, s: L, t: L, w: int)
    requires UniqueLabels(vs) && (forall k :: 0 <= k < |vs| ==> VertexOk(vs[k]))
    requires w >= 0 && HasEdge(vs, s, t)
    ensures forall k :: 0 <= k < |SetState(vs, s, t, w)| ==> VertexOk(SetState(vs, s, t, w)[k])
    ensures UniqueLabels(SetState(vs, s, t, w))
  {
    var i := Find(vs, s);
    var j := Find(vs, t);
    HasEdgeDistinct(vs, s, t);
    var src := Reconnect(vs[i], t, w, true);
    var tgt := Reconnect(vs[j], s, w, false);
    ReconnectStarts(vs[i], t, w, t);
    ReconnectEnds(vs[j], s, w, s);
    ReconnectOk(vs[i], t, w, true);
    ReconnectOk(vs[j], s, w, false);
    TwoUpdates(vs, i, j, src, tgt);
    var ws := vs[i := src][j := tgt];
    assert ExistingState(vs, s, t, w) == ws;
  }

  lemma SetOkNew<L(!new)>(vs: seq<VertexState<L>>, s: L, t: L, w: int)
    requires UniqueLabels(vs) && (forall k :: 0 <= k < |vs| ==> VertexOk(vs[k]))
    requires w > 0 && s != t && !HasEdge(vs, s, t)
    ensures forall k :: 0 <= k < |SetState(vs, s, t, w)| ==> VertexOk(SetState(vs, s, t, w)[k])
    ensures UniqueLabels(SetState(vs, s, t, w))
    ensures Labels(SetState(vs, s, t, w)) == Labels(vs) + {s, t}
  {
    var linked := Linked(vs, s, t, w);
    forall k | 0 <= k < |vs|
      ensures VertexOk(linked[k]) && linked[k].value == vs[k].value
    {
      LinkBothOk(vs[k], s, t, w);
    }
    SameLabels(vs, linked);
    AddEndpointsOk(linked, Find(vs, s) >= 0, Find(vs, t) >= 0, s, t, w);
  }

  /** `set(s, t, w)` keeps the invariant, makes the weight from `s` to `t`
      equal to `w`, changes no other weight, and adds the endpoints to the
      labels exactly when the weight is positive. */
  lemma SetMeaning<L(!new)>(vs: seq<VertexState<L>>, s: L, t: L, w: int)
    requires GraphOk(vs) && w >= 0 && (w > 0 ==> s != t)
    ensures GraphOk(SetState(vs, s, t, w))
    ensures forall a, b :: Out(SetState(vs, s, t, w), a, b) ==
              (if a == s && b == t then w else Out(vs, a, b))
    ensures Labels(SetState(vs, s, t, w)) == (if w > 0 then Labels(vs) + {s, t} else Labels(vs))
  {
    var ws := SetState(vs, s, t, w);
    SetVerticesOk(vs, s, t, w);
    forall a, b
      ensures Out(ws, a, b) == (if a == s && b == t then w else Out(vs, a, b))
      ensures In(ws, a, b) == (if a == s && b == t then w else In(vs, a, b))
    {
      if HasEdge(vs, s, t) {
        SetExisting(vs, s, t, w, a, b);
      } else if w != 0 {
        SetNew(vs, s, t, w, a, b);
      }
    }
    assert forall a, b :: Out(vs, a, b) == In(vs, a, b);
    SetLabels(vs, s, t, w);
  }

  lemma SetKeepsOk<L(!new)>(vs: seq<VertexState<L>>, s: L, t: L, w: int)
    requires GraphOk(vs) && w >= 0 && (w > 0 ==> s != t)
    ensures GraphOk(SetState(vs, s, t, w))
  {
    SetMeaning(vs, s, t, w);
  }

  lemma SetLabels<L(!new)>(vs: seq<VertexState<L>>, s: L, t: L, w: int)
    requires GraphOk(vs) && w >= 0 && (w > 0 ==> s != t)
    ensures Labels(SetState(vs, s, t, w)) == (if w > 0 then Labels(vs) + {s, t} else Labels(vs))
  {
    if HasEdge(vs, s, t) {
      ExistingLabels(vs, s, t, w);
    } else if w != 0 {
      SetOkNew(vs, s, t, w);
    }
  }

  /** Rewriting an existing edge keeps every label in place. */
  lemma ExistingLabels<L(!new)>(vs: seq<VertexState<L>>, s: L, t: L, w: int)
    requires HasEdge(vs, s, t)
    ensures Labels(ExistingState(vs, s, t, w)) == Labels(vs)
  {
    var ws := ExistingState(vs, s, t, w);
    assert forall k :: 0 <= k < |vs| ==> ws[k].value == vs[k].value;
    SameLabels(vs, ws);
  }

  // -------------------------------------------------------------- remove

  /** One step of the loop in `remove`: a neighbour forgets its edges with
      the removed vertex `x`. */
  function Detach<L(==,!new)>(u: VertexState<L>, x: VertexState<L>): VertexState<L>
  {
    var u1 := if u.value in x.starts then DisconnectState(u, x.value, false) else u;
    if u1.value in x.ends then DisconnectState(u1, x.value, true) else u1
  }

  function Detached<L(==,!new)>(vs: seq<VertexState<L>>, x: VertexState<L>): (r: seq<VertexState<L>>)
    ensures |r| == |vs|
    ensures forall k :: 0 <= k < |vs| ==> r[k] == Detach(vs[k], x)
  {
    seq(|vs|, k requires 0 <= k < |vs| => Detach(vs[k], x))
  }

  /** The list after `remove(x)`: every neighbour forgets `x`, then the
      vertex itself leaves the list; nothing happens for an absent label. */
  function RemoveState<L(==,!new)>(vs: seq<VertexState<L>>, x: L): seq<VertexState<L>>
  {
    var i := Find(vs, x);
    if i < 0 then vs
    else
      var d := Detached(vs, vs[i]);
      d[..i] + d[i + 1..]
  }

  /** What one detaching step leaves of a vertex's records. */
  lemma DetachRecords<L(!new)>(u: VertexState<L>, x: VertexState<L>, y: L)
    ensures var r := Detach(u, x);
            r.value == u.value
            && (y in r.starts <==> y in u.starts && !(y == x.value && u.value in x.ends))
            && (y in r.starts ==> r.starts[y] == u.starts[y])
            && (y in r.ends <==> y in u.ends && !(y == x.value && u.value in x.starts))
            && (y in r.ends ==> r.ends[y] == u.ends[y])
  {
  }

  /** After the neighbours forget `x`, no edge leaves another vertex for
      `x`, and the other edges out of that vertex are as before. */
  lemma DetachedOut<L(!new)>(vs: seq<VertexState<L>>, i: int, a: L, b: L)
    requires GraphOk(vs) && 0 <= i < |vs|
    requires a != vs[i].value
    ensures Out(Detached(vs, vs[i]), a, b) == (if b == vs[i].value then 0 else Out(vs, a, b))
  {
    var x := vs[i];
    var d := Detached(vs, x);
    SameLabels(vs, d);
    FindUnique(vs, i);
    var fa := Find(vs, a);
    if fa >= 0 {
      DetachRecords(vs[fa], x, b);
      if b == x.value {
        assert Out(vs, a, b) == In(vs, a, b);
      }
    }
  }

  /** ... and no vertex records an edge from `x` any more. */
  lemma DetachedIn<L(!new)>(vs: seq<VertexState<L>>, i: int, a: L, b: L)
    requires GraphOk(vs) && 0 <= i < |vs|
    requires b != vs[i].value
    ensures In(Detached(vs, vs[i]), a, b) == (if a == vs[i].value then 0 else In(vs, a, b))
  {
    var x := vs[i];
    var d := Detached(vs, x);
    SameLabels(vs, d);
    FindUnique(vs, i);
    var fb := Find(vs, b);
    if fb >= 0 {
      DetachRecords(vs[fb], x, a);
      if a == x.value {
        assert Out(vs, a, b) == In(vs, a, b);
      }
    }
  }

  /** Cutting the vertex at `i` out of a list with unique labels loses
      exactly the edges that vertex records. */
  lemma CutOut<L(!new)>(d: seq<VertexState<L>>, i: int, a: L, b: L)
    requires UniqueLabels(d) && 0 <= i < |d|
    ensures Out(d[..i] + d[i + 1..], a, b) == (if a == d[i].value then 0 else Out(d, a, b))
  {
    FindCut(d, i, a);
    var f := Find(d, a);
    if a != d[i].value && f >= 0 {
      CutAt(d, i, if f < i then f else f - 1);
    }
  }

  lemma CutIn<L(!new)>(d: seq<VertexState<L>>, i: int, a: L, b: L)
    requires UniqueLabels(d) && 0 <= i < |d|
    ensures In(d[..i] + d[i + 1..], a, b) == (if b == d[i].value then 0 else In(d, a, b))
  {
    FindCut(d, i, b);
    var f := Find(d, b);
    if b != d[i].value && f >= 0 {
      CutAt(d, i, if f < i then f else f - 1);
    }
  }

  /** The weights after `remove`, one pair at a time. */
  lemma RemovePair<L(!new)>(vs: seq<VertexState<L>>, i: int, a: L, b: L)
    requires GraphOk(vs) && 0 <= i < |vs|
    ensures var d := Detached(vs, vs[i]); var x := vs[i].value;
            Out(d[..i] + d[i + 1..], a, b) == (if a == x || b == x then 0 else Out(vs, a, b))
    ensures var d := Detached(vs, vs[i]); var x := vs[i].value;
            In(d[..i] + d[i + 1..], a, b) == (if a == x || b == x then 0 else In(vs, a, b))
  {
    var x := vs[i].value;
    var d := Detached(vs, vs[i]);
    SameLabels(vs, d);
    CutOut(d, i, a, b);
    CutIn(d, i, a, b);
    if a != x {
      DetachedOut(vs, i, a, b);
    }
    if b != x {
      DetachedIn(vs, i, a, b);
    }
  }

  /** `remove(x)` keeps the invariant, removes exactly `x` from the labels
      and deletes exactly the edges into and out of `x`. */
  lemma RemoveMeaning<L(!new)>(vs: seq<VertexState<L>>, x: L)
    requires GraphOk(vs)
    ensures GraphOk(RemoveState(vs, x))
    ensures Labels(RemoveState(vs, x)) == Labels(vs) - {x}
    ensures forall a, b :: Out(RemoveState(vs, x), a, b) ==
              (if a == x || b == x then 0 else Out(vs, a, b))
  {
    var i := Find(vs, x);
    if i >= 0 {
      RemoveFound(vs, i);
    } else {
      forall a, b ensures Out(vs, a, b) == (if a == x || b == x then 0 else Out(vs, a, b))
      {
        WeightFacts(vs, a, b);
      }
    }
  }

  lemma RemoveKeepsOk<L(!new)>(vs: seq<VertexState<L>>, x: L)
    requires GraphOk(vs)
    ensures GraphOk(RemoveState(vs, x))
  {
    RemoveMeaning(vs, x);
  }

  lemma RemoveFound<L(!new)>(vs: seq<VertexState<L>>, i: int)
    requires GraphOk(vs) && 0 <= i < |vs| && Find(vs, vs[i].value) == i
    ensures GraphOk(RemoveState(vs, vs[i].value))
    ensures Labels(RemoveState(vs, vs[i].value)) == Labels(vs) - {vs[i].value}
    ensures forall a, b :: Out(RemoveState(vs, vs[i].value), a, b) ==
              (if a == vs[i].value || b == vs[i].value then 0 else Out(vs, a, b))
  {
    var x := vs[i].value;
    var d := Detached(vs, vs[i]);
    var ws := d[..i] + d[i + 1..];
    assert RemoveState(vs, x) == ws;
    RemoveCutShape(vs, i, ws);
    RemoveCutEdges(vs, i, ws);
  }

  /** The vertices left after the cut are well formed, uniquely labelled
      and labelled by everything but the removed one. */
  lemma RemoveCutShape<L(!new)>(vs: seq<VertexState<L>>, i: int, ws: seq<VertexState<L>>)
    requires GraphOk(vs) && 0 <= i < |vs| && Find(vs, vs[i].value) == i
    requires ws == Detached(vs, vs[i])[..i] + Detached(vs, vs[i])[i + 1..]
    ensures UniqueLabels(ws) && forall k :: 0 <= k < |ws| ==> VertexOk(ws[k])
    ensures Labels(ws) == Labels(vs) - {vs[i].value}
  {
    var d := Detached(vs, vs[i]);
    SameLabels(vs, d);
    UniqueCut(d, i);
    forall k | 0 <= k < |vs|
      ensures VertexOk(d[k])
    {
      DetachOk(vs[k], vs[i]);
    }
    CutVertexOk(d, i);
    forall y ensures y in Labels(ws) <==> y in Labels(vs) - {vs[i].value}
    {
      FindCut(d, i, y);
    }
  }

  /** After the cut, the edges are the old ones minus those touching the
      removed vertex, recorded alike at both ends. */
  lemma RemoveCutEdges<L(!new)>(vs: seq<VertexState<L>>, i: int, ws: seq<VertexState<L>>)
    requires GraphOk(vs) && 0 <= i < |vs|
    requires ws == Detached(vs, vs[i])[..i] + Detached(vs, vs[i])[i + 1..]
    ensures forall a, b :: Out(ws, a, b) == (if a == vs[i].value || b == vs[i].value then 0 else Out(vs, a, b))
    ensures forall a, b :: Out(ws, a, b) == In(ws, a, b)
  {
    var x := vs[i].value;
    forall a, b
      ensures Out(ws, a, b) == (if a == x || b == x then 0 else Out(vs, a, b))
      ensures Out(ws, a, b) == In(ws, a, b)
    {
      RemovePair(vs, i, a, b);
      assert Out(vs, a, b) == In(vs, a, b);
    }
  }

  lemma CutVertexOk<L(!new)>(d: seq<VertexState<L>>, i: int)
    requires 0 <= i < |d| && forall k :: 0 <= k < |d| ==> VertexOk(d[k])
    ensures var ws := d[..i] + d[i + 1..];
            forall k :: 0 <= k < |ws| ==> VertexOk(ws[k])
  {
    CutIndex(d, i, d[..i] + d[i + 1..]);
  }

  lemma DetachOk<L(!new)>(u: VertexState<L>, x: VertexState<L>)
    requires VertexOk(u)
    ensures VertexOk(Detach(u, x))
  {
  }

  // ----------------------------------------------------- sources/targets

  /** `sources(t)`: the `ends` map of the vertex labelled `t`, or an empty
      map. */
  function SourcesState<L(==,!new)>(vs: seq<VertexState<L>>, t: L): map<L, int>
  {
    var j := Find(vs, t);
    if j >= 0 then vs[j].ends else map[]
  }

  /** `targets(s)`: the `starts` map of the vertex labelled `s`. */
  function TargetsState<L(==,!new)>(vs: seq<VertexState<L>>, s: L): map<L, int>
  {
    var i := Find(vs, s);
    if i >= 0 then vs[i].starts else map[]
  }

  /** `sources(t)` maps exactly the sources of edges into `t` to their
      weights, and `targets(s)` the targets of edges out of `s`. */
  lemma SourcesTargetsMeaning<L(!new)>(vs: seq<VertexState<L>>, a: L, b: L)
    requires GraphOk(vs)
    ensures a in SourcesState(vs, b) <==> Out(vs, a, b) > 0
    ensures a in SourcesState(vs, b) ==> SourcesState(vs, b)[a] == Out(vs, a, b)
    ensures b in TargetsState(vs, a) <==> Out(vs, a, b) > 0
    ensures b in TargetsState(vs, a) ==> TargetsState(vs, a)[b] == Out(vs, a, b)
  {
    assert Out(vs, a, b) == In(vs, a, b);
  }

  /** The mirrored records imply the first clause of checkRep: an edge one
      endpoint records is recorded by the other endpoint too. */
  lemma Mirrored<L(!new)>(vs: seq<VertexState<L>>, k: int, m: int)
    requires GraphOk(vs) && 0 <= k < |vs| && 0 <= m < |vs|
    ensures vs[m].value in vs[k].starts ==> vs[k].value in vs[m].ends
    ensures vs[m].value in vs[k].ends ==> vs[k].value in vs[m].starts
  {
    FindUnique(vs, k);
    FindUnique(vs, m);
    assert Out(vs, vs[k].value, vs[m].value) == In(vs, vs[k].value, vs[m].value);
    assert Out(vs, vs[m].value, vs[k].value) == In(vs, vs[m].value, vs[k].value);
  }

  // -------------------------------------------------------------- classes

  /** A mutable vertex: its label and the edges recorded at it. */
  class Vertex<L(==,!new)> {
    var value: L
    var starts: map<L, int>
    var ends: map<L, int>

    function State(): VertexState<L>
      reads this
    {
      VertexState(value, starts, ends)
    }

    predicate Valid()
      reads this
    {
      VertexOk(State())
    }

    /** A new vertex has no edges. */
    constructor (value: L)
      ensures State() == VertexState(value, map[], map[])
      ensures Valid()
    {
      this.value := value;
      starts := map[];
      ends := map[];
    }

    /** `connectEdge`: false, and no change, when that direction already has
        an edge to `other`. The weight must be positive and the edge may not
        loop (the Vertex checkRep). */
    method ConnectEdge(other: L, weight: int, isStart: bool) returns (added: bool)
      requires Valid() && weight > 0 && other != value
      modifies this
      ensures State() == ConnectState(old(State()), other, weight, isStart)
      ensures value == old(value)
      ensures added <==> (if isStart then other !in old(starts) else other !in old(ends))
      ensures Valid()
    {
      if (isStart && other in starts) || (!isStart && other in ends) {
        return false;
      }
      if isStart {
        starts := starts[other := weight];
      } else {
        ends := ends[other := weight];
      }
      return true;
    }

    /** `removeEdge`: false, and no change, when there is no such edge. */
    method RemoveEdge(other: L, isStart: bool) returns (removed: bool)
      requires Valid()
      modifies this
      ensures State() == DisconnectState(old(State()), other, isStart)
      ensures value == old(value)
      ensures removed <==> (if isStart then other in old(starts) else other in old(ends))
      ensures Valid()
    {
      if (isStart && other !in starts) || (!isStart && other !in ends) {
        return false;
      }
      if isStart {
        starts := starts - {other};
      } else {
        ends := ends - {other};
      }
      return true;
    }
  }

  /** The graph: a list of distinct Vertex objects whose states satisfy
      GraphOk. */
  class ConcreteVerticesGraph<L(==,!new)> {
    var vertices: seq<Vertex<L>>

    ghost function States(): (r: seq<VertexState<L>>)
      reads this, vertices
      ensures |r| == |vertices|
      ensures forall k :: 0 <= k < |vertices| ==> r[k] == vertices[k].State()
    {
      seq(|vertices|, k reads this, vertices requires 0 <= k < |vertices| => vertices[k].State())
    }

    /** No Vertex object appears twice in the list. */
    ghost predicate Distinct()
      reads this
    {
      forall i, j :: 0 <= i < j < |vertices| ==> vertices[i] != vertices[j]
    }

    ghost predicate Valid()
      reads this, vertices
    {
      Distinct() && GraphOk(States())
    }

    /** The empty graph. */
    constructor ()
      ensures vertices == []
      ensures Valid()
    {
      vertices := [];
    }
  
    /** `add`: false when the label is already present; otherwise a new
        Vertex joins the end of the list. */
    method Add(x: L) returns (added: bool)
      requires Valid()
      modifies this
      ensures States() == AddState(old(States()), x)
      ensures added <==> x !in Labels(old(States()))
      ensures Valid()
    {
      ghost var vs := States();
      var i := 0;
      while i < |vertices|
        invariant 0 <= i <= |vertices|
        invariant forall k :: 0 <= k < i ==> vs[k].value != x
      {
        if vertices[i].value == x {
          return false;
        }
        i := i + 1;
      }
      FindIs(vs, x, -1);
      var v := new Vertex(x);
      vertices := vertices + [v];
      assert States() == vs + [v.State()];
      AddKeepsOk(vs, x);
      return true;
    }
  
    /** `set`: the weight must not be negative (and a positive weight may
        not make a loop, which the Vertex checkRep refuses). The nested
        search rewrites an edge it finds on both endpoints; otherwise a
        non-zero weight is recorded on the endpoints that exist and a new
        Vertex is appended for each one that does not. Returns the previous
        weight, 0 when there was no edge. */
    method Set(s: L, t: L, w: int) returns (previous: int)
      requires Valid() && w >= 0 && (w > 0 ==> s != t)
      modifies this, vertices
      ensures States() == SetState(old(States()), s, t, w)
      ensures previous == Out(old(States()), s, t)
      ensures Valid()
    {
      ghost var vs := States();
      var found, i, j := SearchEdge(s, t);
      if found {
        previous := vertices[i].starts[t];
        RewriteEdge(i, j, s, t, w);
      } else {
        previous := 0;
        if w != 0 {
          AddEdge(s, t, w);
        }
      }
      SetKeepsOk(vs, s, t, w);
    }

    /** The found-edge branch of `set`. */
    method RewriteEdge(i: int, j: int, s: L, t: L, w: int)
      requires Distinct() && w >= 0
      requires forall m :: 0 <= m < |vertices| ==> VertexOk(States()[m])
      requires HasEdge(States(), s, t) && i == Find(States(), s) && j == Find(States(), t)
      modifies vertices
      ensures vertices == old(vertices)
      ensures States() == ExistingState(old(States()), s, t, w)
    {
      ghost var vs := States();
      HasEdgeDistinct(vs, s, t);
      ReconnectAt(i, t, w, true);
      ReconnectAt(j, s, w, false);
    }

    /** The new-edge branch of `set` for a non-zero weight: the linking
        loop, then a new Vertex for each missing endpoint. */
    method AddEdge(s: L, t: L, w: int)
      requires Distinct() && w > 0 && s != t
      requires forall m :: 0 <= m < |vertices| ==> VertexOk(States()[m])
      modifies this, vertices
      ensures Distinct()
      ensures States() == AddEndpoints(Linked(old(States()), s, t, w),
                                       Find(old(States()), s) >= 0, Find(old(States()), t) >= 0, s, t, w)
    {
      ghost var vs := States();
      var sourceExists, targetExists := LinkEndpoints(s, t, w);
      assert States() == Linked(vs, s, t, w);
      assert sourceExists <==> Find(vs, s) >= 0;
      assert targetExists <==> Find(vs, t) >= 0;
      if !sourceExists {
        AppendVertex(s, t, w, true);
      }
      if !targetExists {
        AppendVertex(t, s, w, false);
      }
    }

    /** A new Vertex labelled `x` with one edge to or from `other`, at the
        end of the list. */
    method AppendVertex(x: L, other: L, w: int, isStart: bool)
      requires Distinct() && w > 0 && x != other
      modifies this
      ensures Distinct()
      ensures States() == old(States()) + [if isStart then VertexState(x, map[other := w], map[])
                                           else VertexState(x, map[], map[other := w])]
    {
      var v := new Vertex(x);
      var _ := v.ConnectEdge(other, w, isStart);
      vertices := vertices + [v];
    }

    /** The nested search of `set`: the first vertex labelled `s` paired
        with the first labelled `t`, provided `t` is among the targets of
        the former. */
    method SearchEdge(s: L, t: L) returns (found: bool, i: int, j: int)
      requires UniqueLabels(States())
      ensures found <==> HasEdge(States(), s, t)
      ensures found ==> i == Find(States(), s) && j == Find(States(), t)
    {
      ghost var vs := States();
      i, j := 0, 0;
      while i < |vertices|
        invariant 0 <= i <= |vertices|
        invariant forall a, b :: 0 <= a < i && 0 <= b < |vs| ==>
                    !(vs[a].value == s && vs[b].value == t && t in vs[a].starts)
      {
        j := 0;
        while j < |vertices|
          invariant 0 <= j <= |vertices|
          invariant forall b :: 0 <= b < j ==> !(vs[i].value == s && vs[b].value == t && t in vs[i].starts)
        {
          if vertices[i].value == s && vertices[j].value == t && t in vertices[i].starts {
            FindUnique(vs, i);
            FindUnique(vs, j);
            return true, i, j;
          }
          j := j + 1;
        }
        i := i + 1;
      }
      found := false;
    }

    /** One endpoint in the found-edge branch of `set`: `removeEdge`, then
        `connectEdge` for a non-zero weight. */
    method ReconnectAt(k: int, other: L, w: int, isStart: bool)
      requires Distinct() && 0 <= k < |vertices|
      requires vertices[k].Valid() && w >= 0 && other != vertices[k].value
      modifies vertices[k]
      ensures vertices == old(vertices)
      ensures States() == old(States())[k := Reconnect(old(States())[k], other, w, isStart)]
    {
      ghost var vs := States();
      var v := vertices[k];
      var _ := v.RemoveEdge(other, isStart);
      if w != 0 {
        var _ := v.ConnectEdge(other, w, isStart);
      }
      assert forall m :: 0 <= m < |vertices| && m != k ==> vertices[m].State() == vs[m];
    }

    /** The loop of `set` for a new edge: every vertex labelled `s` records
        the edge in `starts`, every vertex labelled `t` in `ends`; reports
        whether each endpoint was seen. */
    method LinkEndpoints(s: L, t: L, w: int) returns (sourceExists: bool, targetExists: bool)
      requires Distinct() && w > 0 && s != t
      requires forall m :: 0 <= m < |vertices| ==> vertices[m].Valid()
      modifies vertices
      ensures vertices == old(vertices)
      ensures forall m :: 0 <= m < |vertices| ==>
                vertices[m].State() == LinkBoth(old(vertices[m].State()), s, t, w)
      ensures !sourceExists <==> forall m :: 0 <= m < |vertices| ==> vertices[m].value != s
      ensures !targetExists <==> forall m :: 0 <= m < |vertices| ==> vertices[m].value != t
    {
      sourceExists, targetExists := false, false;
      ghost var vs := States();
      var k := 0;
      while k < |vertices|
        invariant 0 <= k <= |vertices| && vertices == old(vertices) && |vs| == |vertices|
        invariant forall m :: 0 <= m < k ==> vertices[m].State() == LinkBoth(vs[m], s, t, w)
        invariant forall m :: k <= m < |vertices| ==> vertices[m].State() == vs[m]
        invariant forall m :: 0 <= m < |vertices| ==> vertices[m].value == vs[m].value
        invariant !sourceExists <==> forall m :: 0 <= m < k ==> vs[m].value != s
        invariant !targetExists <==> forall m :: 0 <= m < k ==> vs[m].value != t
      {
        var v := vertices[k];
        if v.value == s && !sourceExists {
          sourceExists := true;
        }
        if v.value == t && !targetExists {
          targetExists := true;
        }
        LinkAt(k, s, t, w);
        k := k + 1;
      }
    }

    /** One step of that loop. */
    method LinkAt(k: int, s: L, t: L, w: int)
      requires Distinct() && 0 <= k < |vertices|
      requires vertices[k].Valid() && w > 0 && s != t
      modifies vertices[k]
      ensures vertices[k].State() == LinkBoth(old(vertices[k].State()), s, t, w)
      ensures forall m :: 0 <= m < |vertices| ==> vertices[m].value == old(vertices[m].value)
      ensures forall m :: 0 <= m < |vertices| && m != k ==> vertices[m].State() == old(vertices[m].State())
    {
      var v := vertices[k];
      if v.value == s {
        var _ := v.ConnectEdge(t, w, true);
      }
      if v.value == t {
        var _ := v.ConnectEdge(s, w, false);
      }
    }
  
    /** `remove`: false when the label is absent; otherwise every vertex
        forgets its edges with the removed one, which then leaves the
        list. */
    method Remove(x: L) returns (removed: bool)
      requires Valid()
      modifies this, vertices
      ensures States() == RemoveState(old(States()), x)
      ensures removed <==> x in Labels(old(States()))
      ensures Valid()
    {
      ghost var vs := States();
      RemoveKeepsOk(vs, x);
      var i := 0;
      while i < |vertices|
        invariant 0 <= i <= |vertices| && vertices == old(vertices)
        invariant forall k :: 0 <= k < i ==> vs[k].value != x
      {
        if vertices[i].value == x {
          FindIs(vs, x, i);
          DetachAll(i);
          assert States() == Detached(vs, vs[i]);
          CutVertex(i);
          return true;
        }
        i := i + 1;
      }
      FindIs(vs, x, -1);
      return false;
    }

    /** The loop of `remove`: each vertex whose label is among the targets
        of the removed vertex forgets the edge from it, and each one among
        its sources the edge to it. */
    method DetachAll(i: int)
      requires Distinct() && 0 <= i < |vertices|
      requires forall m :: 0 <= m < |vertices| ==> vertices[m].Valid()
      modifies vertices
      ensures vertices == old(vertices)
      ensures forall m :: 0 <= m < |vertices| ==>
                vertices[m].State() == Detach(old(vertices[m].State()), old(vertices[i].State()))
    {
      var v := vertices[i];
      var removedLabel, startsAtV, endsAtV := v.value, v.starts, v.ends;
      var k := 0;
      while k < |vertices|
        invariant 0 <= k <= |vertices| && vertices == old(vertices)
        invariant forall m :: 0 <= m < k ==>
                    vertices[m].State() == Detach(old(vertices[m].State()), old(vertices[i].State()))
        invariant forall m :: k <= m < |vertices| ==> vertices[m].State() == old(vertices[m].State())
      {
        DetachAt(k, removedLabel, startsAtV, endsAtV);
        k := k + 1;
      }
    }

    /** One step of that loop. */
    method DetachAt(k: int, removedLabel: L, startsAtV: map<L, int>, endsAtV: map<L, int>)
      requires 0 <= k < |vertices| && vertices[k].Valid()
      modifies vertices[k]
      ensures vertices[k].State() ==
                Detach(old(vertices[k].State()), VertexState(removedLabel, startsAtV, endsAtV))
    {
      var vert := vertices[k];
      if vert.value in startsAtV {
        var _ := vert.RemoveEdge(removedLabel, false);
      }
      if vert.value in endsAtV {
        var _ := vert.RemoveEdge(removedLabel, true);
      }
    }

    /** `vertices.remove(v)`: the object at `i` leaves the list. */
    method CutVertex(i: int)
      requires Distinct() && 0 <= i < |vertices|
      modifies this
      ensures Distinct()
      ensures States() == old(States())[..i] + old(States())[i + 1..]
    {
      ghost var vs := States();
      ghost var objs := vertices;
      vertices := vertices[..i] + vertices[i + 1..];
      assert forall k :: 0 <= k < i ==> vertices[k] == objs[k];
      assert forall k :: i <= k < |vertices| ==> vertices[k] == objs[k + 1];
    }

    /** `vertices`: the set of labels. */
    method Vertices() returns (r: set<L>)
      ensures r == Labels(States())
    {
      ghost var vs := States();
      r := {};
      var k := 0;
      while k < |vertices|
        invariant 0 <= k <= |vertices|
        invariant r == set m | 0 <= m < k :: vs[m].value
      {
        r := r + {vertices[k].value};
        k := k + 1;
      }
    }

    /** `sources(t)`: the `ends` map of the first vertex labelled `t`, or an
        empty map. */
    method Sources(t: L) returns (m: map<L, int>)
      ensures m == SourcesState(States(), t)
    {
      ghost var vs := States();
      m := map[];
      var k := 0;
      while k < |vertices|
        invariant 0 <= k <= |vertices|
        invariant forall n :: 0 <= n < k ==> vs[n].value != t
      {
        if vertices[k].value == t {
          FindIs(vs, t, k);
          m := vertices[k].ends;
          break;
        }
        k := k + 1;
      }
      if k == |vertices| {
        FindIs(vs, t, -1);
      }
    }

    /** `targets(s)`: the `starts` map of the first vertex labelled `s`. */
    method Targets(s: L) returns (m: map<L, int>)
      ensures m == TargetsState(States(), s)
    {
      ghost var vs := States();
      m := map[];
      var k := 0;
      while k < |vertices|
        invariant 0 <= k <= |vertices|
        invariant forall n :: 0 <= n < k ==> vs[n].value != s
      {
        if vertices[k].value == s {
          FindIs(vs, s, k);
          m := vertices[k].starts;
          break;
        }
        k := k + 1;
      }
      if k == |vertices| {
        FindIs(vs, s, -1);
      }
    }
  }
}
