/** GraphPoet: a word-affinity graph counted from a corpus, and poems made
    by inserting the heaviest two-edge bridge between adjacent input words.
    The poet's `Graph<String>` is seen only through the Graph interface, so
    it is modelled as the value that interface exposes: a vertex set and the
    positive weight of each directed edge (self loops included). */
module Poet {
  import opened Wrappers
  import opened Text
  import opened CaseBlind

  datatype WordGraph = WordGraph(vertices: set<string>, edges: map<(string, string), nat>)

  /** `Graph.empty()`. */
  const Empty := WordGraph({}, map[])

  /** What the Graph interface guarantees of any graph: every edge joins two
      vertices and has a positive weight. */
  ghost predicate Shaped(g: WordGraph)
  {
    forall e :: e in g.edges ==> e.0 in g.vertices && e.1 in g.vertices && g.edges[e] > 0
  }

  /** The weight of the edge from `s` to `t`, 0 when there is none. */
  function Weight(g: WordGraph, s: string, t: string): nat
  {
    if (s, t) in g.edges then g.edges[(s, t)] else 0
  }

  /** `targets(source)`: the target of every edge out of `source`, with the
      edge's weight. */
  function Targets(g: WordGraph, source: string): (m: map<string, int>)
    ensures forall t :: t in m <==> (source, t) in g.edges
    ensures forall t :: t in m ==> m[t] == g.edges[(source, t)]
  {
    map e | e in g.edges && e.0 == source :: e.1 := g.edges[e]
  }

  /** `set(s, t, w)` with a positive weight: both endpoints become vertices
      and the edge from `s` to `t` now carries `w`. */
  function Link(g: WordGraph, s: string, t: string, w: int): (r: WordGraph)
    requires w > 0
    ensures r.vertices == g.vertices + {s, t}
    ensures Weight(r, s, t) == w
    ensures forall a, b :: (a, b) != (s, t) ==> Weight(r, a, b) == Weight(g, a, b)
  {
    WordGraph(g.vertices + {s, t}, g.edges[(s, t) := w])
  }

  lemma LinkShaped(g: WordGraph, s: string, t: string, w: int)
    requires Shaped(g) && w > 0
    ensures Shaped(Link(g, s, t, w))
  {
  }

  // ------------------------------------------------------------ the corpus

  /** The corpus words: every line split at single spaces, the lines' words
      one after the other, so that the last word of a line is adjacent to
      the first word of the next. */
  function Words(lines: seq<string>): (ws: seq<string>)
    ensures forall i :: 0 <= i < |ws| ==> ' ' !in ws[i]
  {
    if |lines| == 0 then [] else Words(lines[..|lines| - 1]) + Split(lines[|lines| - 1])
  }

  /** The words of two runs of lines are the words of the first run followed
      by those of the second: adjacency crosses line breaks. */
  lemma {:induction false} WordsAppend(a: seq<string>, b: seq<string>)
    ensures Words(a + b) == Words(a) + Words(b)
    decreases |b|
  {
    if |b| == 0 {
      assert a + b == a;
    } else {
      var n := |b|;
      var ab := a + b;
      assert ab[..|ab| - 1] == a + b[..n - 1];
      assert ab[|ab| - 1] == b[n - 1];
      WordsAppend(a, b[..n - 1]);
      Regroup(Words(a), Words(b[..n - 1]), Split(b[n - 1]));
    }
  }

  /** Concatenation of word lists is associative. */
  lemma Regroup(x: seq<string>, y: seq<string>, z: seq<string>)
    ensures x + y + z == x + (y + z)
  {
    var l := x + y + z;
    var r := x + (y + z);
    assert |l| == |r|;
    forall i | 0 <= i < |l|
      ensures l[i] == r[i]
    {
      if i >= |x| {
        assert r[i] == (y + z)[i - |x|];
      }
    }
  }

  /** The first loop of the constructor: every line's `split(" ")`, appended
      word by word. */
  method CorpusWords(lines: seq<string>) returns (words: seq<string>)
    ensures words == Words(lines)
  {
    words := [];
    var j := 0;
    while j < |lines|
      invariant 0 <= j <= |lines|
      invariant words == Words(lines[..j])
    {
      words := AddAll(words, Split(lines[j]));
      assert lines[..j + 1][..j] == lines[..j];
      j := j + 1;
    }
    assert lines[..|lines|] == lines;
  }

  /** The inner loop: each word of a line added at the end, in order. */
  method AddAll(words: seq<string>, lineWords: seq<string>) returns (r: seq<string>)
    ensures r == words + lineWords
  {
    r := words;
    var i := 0;
    while i < |lineWords|
      invariant 0 <= i <= |lineWords|
      invariant r == words + lineWords[..i]
    {
      r := r + [lineWords[i]];
      i := i + 1;
    }
    assert lineWords[..i] == lineWords;
  }

  // ---------------------------------------------------------- the counting

  /** Counting one more adjacency `a b`: the edge's weight goes up by one,
      created with weight 1 when it was missing. */
  function Bump(g: WordGraph, a: string, b: string): WordGraph
  {
    Link(g, a, b, Weight(g, a, b) + 1)
  }

  /** The graph the constructor counts from a word list: one Bump per pair
      of adjacent words, in order. */
  function Adjacencies(words: seq<string>): WordGraph
  {
    if |words| < 2 then Empty
    else
      var n := |words|;
      Bump(Adjacencies(words[..n - 1]), words[n - 2], words[n - 1])
  }

  /** How many times `a` is immediately followed by `b` in `words`. */
  function PairCount(words: seq<string>, a: string, b: string): nat
  {
    if |words| < 2 then 0
    else
      var n := |words|;
      PairCount(words[..n - 1], a, b) + (if words[n - 2] == a && words[n - 1] == b then 1 else 0)
  }

  /** The weight from `a` to `b` is the number of times `a` is followed by
      `b`, and the edge exists exactly when that number is positive. */
  lemma {:induction false} AdjacencyWeight(words: seq<string>, a: string, b: string)
    ensures Weight(Adjacencies(words), a, b) == PairCount(words, a, b)
    ensures (a, b) in Adjacencies(words).edges <==> PairCount(words, a, b) > 0
  {
    AdjacenciesShaped(words);
    if |words| >= 2 {
      var n := |words|;
      AdjacencyWeight(words[..n - 1], a, b);
    }
  }

  /** The counted graph is a graph: edges between vertices, positive weights. */
  lemma {:induction false} AdjacenciesShaped(words: seq<string>)
    ensures Shaped(Adjacencies(words))
  {
    if |words| >= 2 {
      var n := |words|;
      AdjacenciesShaped(words[..n - 1]);
      var g := Adjacencies(words[..n - 1]);
      LinkShaped(g, words[n - 2], words[n - 1], Weight(g, words[n - 2], words[n - 1]) + 1);
    }
  }

  /** The vertices are exactly the corpus words once there is a pair, and
      there are none before. */
  lemma {:induction false} AdjacencyVertices(words: seq<string>)
    ensures |words| < 2 ==> Adjacencies(words).vertices == {}
    ensures |words| >= 2 ==> Adjacencies(words).vertices == set w | w in words
  {
    if |words| >= 2 {
      var n := |words|;
      var front := words[..n - 1];
      AdjacencyVertices(front);
      forall w
        ensures w in words <==> w in front || w == words[n - 2] || w == words[n - 1]
      {
        if w in words {
          var k :| 0 <= k < n && words[k] == w;
          if k < n - 1 {
            assert front[k] == w;
          }
        }
        if w in front {
          var k :| 0 <= k < n - 1 && front[k] == w;
          assert words[k] == w;
        }
      }
      if n == 2 {
        assert forall w :: w in words <==> w == words[0] || w == words[1];
      } else {
        assert front[n - 2] == words[n - 2];
      }
    }
  }

  /** Words without spaces give vertices without spaces. */
  lemma SpacelessVertices(words: seq<string>)
    requires forall i :: 0 <= i < |words| ==> ' ' !in words[i]
    ensures forall v :: v in Adjacencies(words).vertices ==> ' ' !in v
  {
    AdjacencyVertices(words);
  }

  // ------------------------------------------------------------ the rep

  /** `checkRep`: every vertex is non-empty, and lower-casing the vertices
      loses none of them. */
  ghost predicate RepOk(g: WordGraph)
  {
    (forall w :: w in g.vertices ==> |w| != 0) && |LowerAll(g.vertices)| == |g.vertices|
  }

  /** The rep invariant says what its comments promise: non-empty vertices,
      pairwise distinct ignoring case. */
  lemma RepOkMeans(g: WordGraph)
    ensures RepOk(g) <==> (forall w :: w in g.vertices ==> w != "") && DistinctIgnoringCase(g.vertices)
  {
    LowerAllSize(g.vertices);
  }

  /** A corpus the constructor accepts: with at least one pair, its words
      are non-empty and any two that agree ignoring case are equal. */
  ghost predicate CorpusOk(words: seq<string>)
  {
    |words| < 2 ||
    ((forall i :: 0 <= i < |words| ==> words[i] != "") && DistinctIgnoringCase(set w | w in words))
  }

  /** `checkRep` passes on the counted graph exactly for such a corpus. */
  lemma CorpusRep(words: seq<string>)
    ensures RepOk(Adjacencies(words)) <==> CorpusOk(words)
  {
    AdjacencyVertices(words);
    RepOkMeans(Adjacencies(words));
  }

  // ---------------------------------------------------- case-blind lookups

  /** The weight `getWeight` finds in `m` for `target`: that of the key
      equal to it ignoring case, -1 when there is none. */
  ghost function WeightIgnoringCase(m: map<string, int>, target: string): int
  {
    if ContainsIgnoringCase(m.Keys, target)
    then var k :| k in m && SameIgnoringCase(k, target); m[k]
    else -1
  }

  /** With keys that never differ only in case, the weight found for a key
      is that key's own. */
  lemma WeightOfKey(m: map<string, int>, k: string)
    requires DistinctIgnoringCase(m.Keys) && k in m
    ensures WeightIgnoringCase(m, k) == m[k]
  {
    assert SameIgnoringCase(k, k);
  }

  /** `getWeight`: the value of the first key met that equals `target`
      ignoring case, or -1. */
  method GetWeight(m: map<string, int>, target: string) returns (r: int)
    ensures !ContainsIgnoringCase(m.Keys, target) ==> r == -1
    ensures ContainsIgnoringCase(m.Keys, target) ==>
              exists k :: k in m && SameIgnoringCase(k, target) && m[k] == r
    ensures DistinctIgnoringCase(m.Keys) ==> r == WeightIgnoringCase(m, target)
  {
    var rest := m.Keys;
    while rest != {}
      invariant rest <= m.Keys
      invariant forall w :: w in m && w !in rest ==> !SameIgnoringCase(w, target)
      decreases rest
    {
      var w :| w in rest;
      if Lower(w) == Lower(target) {
        return m[w];
      }
      rest := rest - {w};
    }
    return -1;
  }

  // -------------------------------------------------------------- bridges

  /** `b` is a bridge candidate from `first` to `second`: an edge leads from
      `first` (exactly) to `b`, and from `b` to a word equal to `second`
      ignoring case. */
  ghost predicate Candidate(g: WordGraph, first: string, second: string, b: string)
  {
    b in Targets(g, first) && ContainsIgnoringCase(Targets(g, b).Keys, second)
  }

  ghost predicate HasTwoEdgePath(g: WordGraph, first: string, second: string)
  {
    exists b :: Candidate(g, first, second, b)
  }

  /** The weight of the path through a candidate, as `findMaxWeightMidWord`
      adds it up. */
  ghost function Score(g: WordGraph, first: string, second: string, b: string): int
    requires Candidate(g, first, second, b)
  {
    Targets(g, first)[b] + WeightIgnoringCase(Targets(g, b), second)
  }

  /** `b` is a heaviest candidate. */
  ghost predicate IsBest(g: WordGraph, first: string, second: string, b: string)
  {
    Candidate(g, first, second, b) &&
    forall c :: Candidate(g, first, second, c) ==> Score(g, first, second, c) <= Score(g, first, second, b)
  }

  /** Every candidate's path weighs at least 2, more than the -1 the search
      for a maximum starts from. */
  lemma ScorePositive(g: WordGraph, first: string, second: string, b: string)
    requires Shaped(g) && Candidate(g, first, second, b)
    ensures Score(g, first, second, b) >= 2
  {
    var m := Targets(g, b);
    var k :| k in m && SameIgnoringCase(k, second);
    assert (b, k) in g.edges;
  }

  /** With the rep invariant and a `second` that is a vertex, the candidates
      are the middles of the two-edge paths `first -> b -> second` and the
      score is the sum of the two edges' weights. */
  lemma CandidateMeans(g: WordGraph, first: string, second: string, b: string)
    requires Shaped(g) && RepOk(g) && second in g.vertices
    ensures Candidate(g, first, second, b) <==> (first, b) in g.edges && (b, second) in g.edges
    ensures Candidate(g, first, second, b) ==>
              Score(g, first, second, b) == g.edges[(first, b)] + g.edges[(b, second)]
  {
    RepOkMeans(g);
    var m := Targets(g, b);
    assert m.Keys <= g.vertices;
    ContainsExactly(m.Keys, g.vertices, second);
    if Candidate(g, first, second, b) {
      WeightOfKey(m, second);
    }
  }

  /** The keys of any targets map under the rep invariant never differ only
      in case. */
  lemma TargetKeysDistinct(g: WordGraph, s: string)
    requires Shaped(g) && RepOk(g)
    ensures DistinctIgnoringCase(Targets(g, s).Keys)
  {
    RepOkMeans(g);
    assert Targets(g, s).Keys <= g.vertices;
  }

  // ------------------------------------------------------------ the poet

  class GraphPoet {
    var graph: WordGraph

    /** The rep invariant, with what the Graph interface and the corpus
        splitting guarantee: edges between vertices, positive weights, and
        no space inside a vertex. */
    ghost predicate Valid()
      reads this
    {
      Shaped(graph) && RepOk(graph) && forall v :: v in graph.vertices ==> ' ' !in v
    }

    /** The constructor, after the file read: the lines' words, then one
        count per adjacent pair. It demands a corpus whose words never
        differ only in case and, once there is a pair, are non-empty:
        otherwise either `targets(first).get(second)` meets a case variant
        and fails, or the final `checkRep` assertion fails. */
    constructor (lines: seq<string>)
      requires CorpusOk(Words(lines))
      ensures graph == Adjacencies(Words(lines))
      ensures Valid()
    {
      var words := CorpusWords(lines);
      graph := Empty;
      new;
      CountWords(words);
      CountedValid(words);
    }

    /** The constructor's second loop: one count per pair of adjacent
        words, starting from the empty graph. */
    method CountWords(words: seq<string>)
      requires CorpusOk(words) && graph == Empty
      modifies this
      ensures graph == Adjacencies(words)
    {
      var i := 0;
      while i < |words| - 1
        invariant 0 <= i && (i == 0 || i < |words|)
        invariant |words| == 0 ==> graph == Empty
        invariant |words| > 0 ==> graph == Adjacencies(words[..i + 1])
      {
        CountNext(words, i);
        i := i + 1;
      }
      if |words| > 0 {
        assert words[..i + 1] == words;
      }
    }

    /** One turn of the counting loop: the pair at `i` counted. */
    method CountNext(words: seq<string>, i: int)
      requires CorpusOk(words) && 0 <= i && i + 1 < |words|
      requires graph == Adjacencies(words[..i + 1])
      modifies this
      ensures graph == Adjacencies(words[..i + 2])
    {
      CountStep(words, i);
      graph := CountPair(graph, words[i], words[i + 1]);
    }

    /** `twoEdgePathExists`: some target of `first` has an edge to a word
        equal to `second` ignoring case. */
    method TwoEdgePathExists(first: string, second: string) returns (found: bool)
      ensures found <==> HasTwoEdgePath(graph, first, second)
    {
      var out := Targets(graph, first);
      var rest := out.Keys;
      while rest != {}
        invariant rest <= out.Keys
        invariant forall b :: b in out && b !in rest ==> !Candidate(graph, first, second, b)
        decreases rest
      {
        var mid :| mid in rest;
        var reaches := Contains(Targets(graph, mid).Keys, second);
        if reaches {
          assert Candidate(graph, first, second, mid);
          return true;
        }
        rest := rest - {mid};
      }
      return false;
    }

    /** `findMaxWeightMidWord`: the candidates with their path weights, then
        the first one met with the largest weight; "" when there is no
        candidate. Which of several equally heavy candidates is returned
        depends on the map's iteration order and is left open. */
    method FindMaxWeightMidWord(first: string, second: string) returns (bridge: string)
      requires Valid()
      ensures HasTwoEdgePath(graph, first, second) ==> IsBest(graph, first, second, bridge)
      ensures !HasTwoEdgePath(graph, first, second) ==> bridge == ""
    {
      var midWords := CollectCandidates(first, second);
      bridge := HeaviestKey(midWords);
      if HasTwoEdgePath(graph, first, second) {
        var c :| Candidate(graph, first, second, c);
        ScorePositive(graph, first, second, c);
        assert midWords[c] > -1;
      }
    }

    /** The first loop of `findMaxWeightMidWord`: every candidate, with the
        weight of its path. */
    method CollectCandidates(first: string, second: string) returns (midWords: map<string, int>)
      requires Valid()
      ensures forall b :: b in midWords <==> Candidate(graph, first, second, b)
      ensures forall b :: b in midWords ==> midWords[b] == Score(graph, first, second, b)
    {
      var out := Targets(graph, first);
      midWords := map[];
      var rest := out.Keys;
      while rest != {}
        invariant rest <= out.Keys
        invariant forall b :: b in midWords <==> b in out && b !in rest && Candidate(graph, first, second, b)
        invariant forall b :: b in midWords ==> midWords[b] == Score(graph, first, second, b)
        decreases rest
      {
        var mid :| mid in rest;
        var reaches, weight := PathThrough(first, second, mid);
        if reaches {
          midWords := midWords[mid := weight];
        }
        rest := rest - {mid};
      }
    }

    /** The body of `findMaxWeightMidWord`'s first loop for one target `mid`
        of `first`: whether it reaches `second`, and the weight of the path
        through it. */
    method PathThrough(first: string, second: string, mid: string) returns (reaches: bool, weight: int)
      requires Valid() && mid in Targets(graph, first)
      ensures reaches <==> Candidate(graph, first, second, mid)
      ensures reaches ==> weight == Score(graph, first, second, mid)
    {
      var out := Targets(graph, first);
      weight := 0;
      reaches := Contains(Targets(graph, mid).Keys, second);
      if reaches {
        TargetKeysDistinct(graph, first);
        TargetKeysDistinct(graph, mid);
        WeightOfKey(out, mid);
        var toMid := GetWeight(out, mid);
        var toSecond := GetWeight(Targets(graph, mid), second);
        weight := toMid + toSecond;
      }
    }

    /** The body of `poem`'s loop for one pair of adjacent words: whether a
        bridge goes between them, and which. */
    method Bridge(first: string, second: string) returns (bridged: bool, bridgeWord: string)
      requires Valid()
      ensures BridgeOk(graph, first, second, if bridged then Some(bridgeWord) else None)
    {
      bridged, bridgeWord := false, "";
      var knownFirst := Contains(graph.vertices, first);
      var knownSecond := false;
      if knownFirst {
        knownSecond := Contains(graph.vertices, second);
      }
      if knownFirst && knownSecond {
        var path := TwoEdgePathExists(first, second);
        if path {
          bridgeWord := FindMaxWeightMidWord(first, second);
          bridged := true;
        }
      }
    }

    /** One turn of `poem`'s loop: the bridge for the pair at `i`, if any,
        then the second word, each followed by a space. */
    method NextPair(words: seq<string>, i: int, result: string,
                    ghost written: seq<string>, ghost bridges: seq<Option<string>>)
      returns (result': string, ghost written': seq<string>, ghost bridges': seq<Option<string>>)
      requires Valid() && 0 <= i < |words| - 1 && |bridges| == i
      requires BridgesOk(graph, words, bridges)
      requires written == PoemWords(words[..i + 1], bridges)
      requires result == Assemble(written)
      ensures |bridges'| == i + 1
      ensures BridgesOk(graph, words, bridges')
      ensures written' == PoemWords(words[..i + 2], bridges')
      ensures result' == Assemble(written')
    {
      result', written' := result, written;
      var first := words[i];
      var second := words[i + 1];
      var bridged, bridgeWord := Bridge(first, second);
      ghost var gap: Option<string> := if bridged then Some(bridgeWord) else None;
      PoemWordsStep(words, bridges, i, gap);
      if bridged {
        AssembleAppend(written', bridgeWord);
        result' := result' + bridgeWord + " ";
        written' := written' + [bridgeWord];
      }
      AssembleAppend(written', second);
      result' := result' + second + " ";
      written' := written' + [second];
      BridgesExtend(graph, words, bridges, gap);
      bridges' := bridges + [gap];
    }

    /** `poem`: the input's words, each followed by the bridge chosen for it
        and the next word, with one space after every word and the last one
        trimmed. `bridges` records, for each adjacent pair, the bridge that
        was inserted, if any. The input must have at least one word
        (`words[0]` is read unchecked). */
    method Poem(input: string) returns (poem: string, ghost bridges: seq<Option<string>>)
      requires Valid() && |Split(input)| > 0
      ensures |bridges| == |Split(input)| - 1
      ensures forall i :: 0 <= i < |bridges| ==>
                BridgeOk(graph, Split(input)[i], Split(input)[i + 1], bridges[i])
      ensures poem == Trim(Assemble(PoemWords(Split(input), bridges)))
    {
      var words := Split(input);
      var result := words[0] + " ";
      bridges := [];
      ghost var written := [words[0]];
      assert Assemble(written) == Assemble([]) + words[0] + " ";
      var i := 0;
      while i < |words| - 1
        invariant 0 <= i <= |words| - 1 && |bridges| == i
        invariant BridgesOk(graph, words, bridges)
        invariant written == PoemWords(words[..i + 1], bridges)
        invariant result == Assemble(written)
      {
        result, written, bridges := NextPair(words, i, result, written, bridges);
        i := i + 1;
      }
      assert words[..|words|] == words;
      BridgesOkMeans(graph, words, bridges);
      poem := Trim(result);
    }
  }

  /** One turn of the constructor's counting loop: if `first` is a vertex
      (ignoring case) already joined to `second` (ignoring case), the edge's
      weight goes up by one; otherwise the edge is set to 1. For words that
      agree with the graph's exact spelling this is one more count. */
  method CountPair(graph: WordGraph, first: string, second: string) returns (next: WordGraph)
    requires SpelledAsGraph(graph, first, second)
    ensures next == Bump(graph, first, second)
  {
    var knownFirst := Contains(graph.vertices, first);
    if knownFirst {
      var knownEdge := Contains(Targets(graph, first).Keys, second);
      if knownEdge {
        next := Link(graph, first, second, Targets(graph, first)[second] + 1);
      } else {
        next := Link(graph, first, second, 1);
      }
    } else {
      next := Link(graph, first, second, 1);
    }
  }

  /** The second loop of `findMaxWeightMidWord`: starting from weight -1
      and the empty word, every entry heavier than the best so far becomes
      the best. */
  method HeaviestKey(m: map<string, int>) returns (best: string)
    ensures (forall k :: k in m ==> m[k] <= -1) ==> best == ""
    ensures (exists k :: k in m && m[k] > -1) ==>
              best in m && forall k :: k in m ==> m[k] <= m[best]
  {
    var maxWeight := -1;
    best := "";
    var left := m.Keys;
    while left != {}
      invariant left <= m.Keys
      invariant forall k :: k in m && k !in left ==> m[k] <= maxWeight
      invariant maxWeight == -1 ==> best == ""
      invariant maxWeight != -1 ==> best in m && m[best] == maxWeight
      invariant maxWeight >= -1
      decreases left
    {
      var k :| k in left;
      if m[k] > maxWeight {
        maxWeight := m[k];
        best := k;
      }
      left := left - {k};
    }
  }

  /** The counted graph of a good corpus of space-free words satisfies the
      poet's invariant. */
  lemma CountedValid(words: seq<string>)
    requires CorpusOk(words)
    requires forall i :: 0 <= i < |words| ==> ' ' !in words[i]
    ensures var g := Adjacencies(words);
            Shaped(g) && RepOk(g) && forall v :: v in g.vertices ==> ' ' !in v
  {
    CorpusRep(words);
    AdjacenciesShaped(words);
    SpacelessVertices(words);
  }

  /** `first` and `second` are found ignoring case exactly where they are
      found as spelled: the graph's exact-case `targets` lookup then agrees
      with its case-blind `contains` checks. */
  ghost predicate SpelledAsGraph(graph: WordGraph, first: string, second: string)
  {
    Shaped(graph) &&
    (ContainsIgnoringCase(graph.vertices, first) <==> first in graph.vertices) &&
    (ContainsIgnoringCase(Targets(graph, first).Keys, second) <==> second in Targets(graph, first))
  }

  /** One step of the constructor's loop under a good corpus: case-blind
      membership among the words seen is exact membership. */
  lemma CountStep(words: seq<string>, i: int)
    requires CorpusOk(words) && 0 <= i && i + 1 < |words|
    ensures Adjacencies(words[..i + 2]) ==
            Bump(Adjacencies(words[..i + 1]), words[i], words[i + 1])
    ensures SpelledAsGraph(Adjacencies(words[..i + 1]), words[i], words[i + 1])
  {
    var seen := words[..i + 1];
    assert words[..i + 2][..i + 1] == seen;
    var g := Adjacencies(seen);
    var all := set w | w in words;
    AdjacencyVertices(seen);
    AdjacenciesShaped(seen);
    assert g.vertices <= all by {
      forall v | v in g.vertices ensures v in all {
        var k :| 0 <= k < |seen| && seen[k] == v;
        assert words[k] == v;
      }
    }
    assert words[i] in all && words[i + 1] in all;
    assert Targets(g, words[i]).Keys <= g.vertices;
    ContainsExactly(g.vertices, all, words[i]);
    ContainsExactly(Targets(g, words[i]).Keys, all, words[i + 1]);
  }

  /** What `poem` does between `first` and `second`: a bridge exactly when
      both are vertices ignoring case and a two-edge path joins them, and
      then a heaviest one. */
  ghost predicate BridgeOk(g: WordGraph, first: string, second: string, bridge: Option<string>)
  {
    (bridge.Some? <==>
       ContainsIgnoringCase(g.vertices, first) && ContainsIgnoringCase(g.vertices, second) &&
       HasTwoEdgePath(g, first, second)) &&
    (bridge.Some? ==> IsBest(g, first, second, bridge.value))
  }

  /** `targets(first)` is asked with `first` as it is spelt in the input,
      although `contains` accepts it ignoring case: a first word that is a
      case variant of a corpus word, and no corpus word itself, never gets
      a bridge. */
  lemma FirstWordExactCase(words: seq<string>, first: string, second: string, bridge: Option<string>)
    requires first !in words
    requires BridgeOk(Adjacencies(words), first, second, bridge)
    ensures bridge == None
  {
    var g := Adjacencies(words);
    AdjacenciesShaped(words);
    AdjacencyVertices(words);
  }

  /** Every bridge recorded so far is right for its pair of words. */
  ghost predicate BridgesOk(g: WordGraph, words: seq<string>, bridges: seq<Option<string>>)
    requires |bridges| < |words|
  {
    |bridges| == 0 ||
    (BridgesOk(g, words, bridges[..|bridges| - 1]) &&
     BridgeOk(g, words[|bridges| - 1], words[|bridges|], bridges[|bridges| - 1]))
  }

  lemma BridgesExtend(g: WordGraph, words: seq<string>, bridges: seq<Option<string>>, gap: Option<string>)
    requires |bridges| + 1 < |words|
    requires BridgesOk(g, words, bridges)
    requires BridgeOk(g, words[|bridges|], words[|bridges| + 1], gap)
    ensures BridgesOk(g, words, bridges + [gap])
  {
    assert (bridges + [gap])[..|bridges|] == bridges;
  }

  lemma {:induction false} BridgesOkMeans(g: WordGraph, words: seq<string>, bridges: seq<Option<string>>)
    requires |bridges| < |words| && BridgesOk(g, words, bridges)
    ensures forall k :: 0 <= k < |bridges| ==> BridgeOk(g, words[k], words[k + 1], bridges[k])
  {
    if |bridges| > 0 {
      var front := bridges[..|bridges| - 1];
      BridgesOkMeans(g, words, front);
      assert forall k :: 0 <= k < |front| ==> front[k] == bridges[k];
    }
  }

  function Inserted(bridge: Option<string>): seq<string>
  {
    if bridge.Some? then [bridge.value] else []
  }

  /** The poem's words: the first input word, then for each next input word
      the bridge inserted before it, if any, and the word itself. */
  function PoemWords(words: seq<string>, bridges: seq<Option<string>>): (ws: seq<string>)
    requires |words| >= 1 && |bridges| == |words| - 1
    ensures |ws| >= |words|
  {
    if |words| == 1 then [words[0]]
    else
      var n := |words|;
      PoemWords(words[..n - 1], bridges[..n - 2]) + Inserted(bridges[n - 2]) + [words[n - 1]]
  }

  /** The text `result` accumulates: every word followed by one space. */
  function Assemble(ws: seq<string>): string
  {
    if |ws| == 0 then "" else Assemble(ws[..|ws| - 1]) + ws[|ws| - 1] + " "
  }

  lemma AssembleAppend(ws: seq<string>, w: string)
    ensures Assemble(ws + [w]) == Assemble(ws) + w + " "
  {
    assert (ws + [w])[..|ws|] == ws;
  }

  /** The text `poem` accumulates is the single-spaced join of its words
      with one space after the last. */
  lemma {:induction false} AssembleJoin(ws: seq<string>)
    requires |ws| >= 1
    ensures Assemble(ws) == JoinSpace(ws) + " "
  {
    var n := |ws|;
    if n > 1 {
      var front := ws[..n - 1];
      AssembleJoin(front);
      JoinSnoc(front, ws[n - 1]);
      assert front + [ws[n - 1]] == ws;
    }
  }

  /** Adding a last word adds one space and the word. */
  lemma {:induction false} JoinSnoc(ws: seq<string>, w: string)
    requires |ws| >= 1
    ensures JoinSpace(ws + [w]) == JoinSpace(ws) + " " + w
  {
    if |ws| == 1 {
      JoinCons(ws[0], [w]);
    } else {
      var rest := ws[1..];
      JoinSnoc(rest, w);
      assert (ws + [w])[1..] == rest + [w];
      JoinCons(ws[0], rest + [w]);
      SpaceAssoc(ws[0], JoinSpace(rest) + " ", w);
      assert ws[0] + " " + (JoinSpace(rest) + " " + w) == ws[0] + " " + JoinSpace(rest) + " " + w;
    }
  }

  /** A word `trim` leaves alone at both ends and `split(" ")` leaves whole. */
  ghost predicate PlainWord(w: string)
  {
    w != "" && ' ' !in w && !Blank(w[0]) && !Blank(w[|w| - 1])
  }

  /** For plain words the poem text is the words single-spaced, and
      splitting it at spaces gives the words back. */
  lemma PoemText(ws: seq<string>)
    requires |ws| >= 1
    requires forall i :: 0 <= i < |ws| ==> PlainWord(ws[i])
    ensures Trim(Assemble(ws)) == JoinSpace(ws)
    ensures Split(Trim(Assemble(ws))) == ws
  {
    AssembleJoin(ws);
    JoinEnds(ws);
    TrimAppendedBlanks(JoinSpace(ws), " ");
    SplitJoin(ws);
  }

  /** How many bridges were inserted. */
  function Bridged(bridges: seq<Option<string>>): nat
  {
    if |bridges| == 0 then 0
    else Bridged(bridges[..|bridges| - 1]) + |Inserted(bridges[|bridges| - 1])|
  }

  /** The poem has the input words plus one word per inserted bridge. */
  lemma {:induction false} PoemWordsLength(words: seq<string>, bridges: seq<Option<string>>)
    requires |words| >= 1 && |bridges| == |words| - 1
    ensures |PoemWords(words, bridges)| == |words| + Bridged(bridges)
  {
    var n := |words|;
    if n > 1 {
      PoemWordsLength(words[..n - 1], bridges[..n - 2]);
    }
  }

  /** Input word `k` stands in the poem after the `k` words and the bridges
      before it: the input words all appear, in order. */
  lemma {:induction false} PoemWordAt(words: seq<string>, bridges: seq<Option<string>>, k: int)
    requires |words| >= 1 && |bridges| == |words| - 1
    requires 0 <= k < |words|
    ensures k + Bridged(bridges[..k]) < |PoemWords(words, bridges)|
    ensures PoemWords(words, bridges)[k + Bridged(bridges[..k])] == words[k]
  {
    var n := |words|;
    if n > 1 {
      var front, bs := words[..n - 1], bridges[..n - 2];
      PoemWordsLength(front, bs);
      var wf := PoemWords(front, bs);
      var ws := PoemWords(words, bridges);
      assert ws == wf + Inserted(bridges[n - 2]) + [words[n - 1]];
      if k < n - 1 {
        PoemWordAt(front, bs, k);
        assert bridges[..k] == bs[..k];
        assert ws[k + Bridged(bs[..k])] == wf[k + Bridged(bs[..k])];
      } else {
        assert bridges[..k] == bridges && bridges[..n - 2] == bs;
        assert Bridged(bridges) == Bridged(bs) + |Inserted(bridges[n - 2])|;
        assert k + Bridged(bridges) == |wf| + |Inserted(bridges[n - 2])| == |ws| - 1;
      }
    } else {
      assert bridges[..k] == [];
    }
  }

  /** Right after input word `k` stands its bridge, when one was inserted. */
  lemma {:induction false} PoemBridgeAt(words: seq<string>, bridges: seq<Option<string>>, k: int)
    requires |words| >= 1 && |bridges| == |words| - 1
    requires 0 <= k < |bridges| && bridges[k].Some?
    ensures k + Bridged(bridges[..k]) + 1 < |PoemWords(words, bridges)|
    ensures PoemWords(words, bridges)[k + Bridged(bridges[..k]) + 1] == bridges[k].value
  {
    var n := |words|;
    var front, bs := words[..n - 1], bridges[..n - 2];
    PoemWordsLength(front, bs);
    var wf := PoemWords(front, bs);
    var ws := PoemWords(words, bridges);
    assert ws == wf + Inserted(bridges[n - 2]) + [words[n - 1]];
    if k < n - 2 {
      PoemBridgeAt(front, bs, k);
      assert bridges[..k] == bs[..k] && bs[k] == bridges[k];
      var at := k + Bridged(bs[..k]) + 1;
      assert ws[at] == wf[at];
    } else {
      assert bridges[..k] == bs;
      assert Inserted(bridges[k]) == [bridges[k].value];
      assert ws[|wf|] == bridges[k].value;
    }
  }

  lemma PoemWordsStep(words: seq<string>, bridges: seq<Option<string>>, i: int, gap: Option<string>)
    requires 0 <= i < |words| - 1 && |bridges| == i
    ensures gap.None? ==> PoemWords(words[..i + 2], bridges + [gap]) ==
                          PoemWords(words[..i + 1], bridges) + [words[i + 1]]
    ensures gap.Some? ==> PoemWords(words[..i + 2], bridges + [gap]) ==
                          PoemWords(words[..i + 1], bridges) + [gap.value] + [words[i + 1]]
  {
    assert words[..i + 2][..i + 1] == words[..i + 1];
    assert (bridges + [gap])[..i] == bridges;
    var front := PoemWords(words[..i + 1], bridges);
    assert front + Inserted(gap) + [words[i + 1]] == if gap.None? then front + [words[i + 1]] else front + [gap.value] + [words[i + 1]];
  }
}
