/** SocialNetwork: who follows whom, guessed from the @-mentions in tweets,
    and the followed users ranked by how many follow them. Usernames are
    compared ignoring case throughout. */
module SocialNetwork {
  import opened Wrappers
  import opened Text
  import opened CaseBlind
  import opened Tweets
  import opened Extract

  /** A mutable set of followed usernames. `getValue` hands back the very
      set the map holds, so adding to it changes the map's entry. */
  class FollowSet {
    var members: set<string>

    constructor ()
      ensures members == {}
    {
      members := {};
    }
  }

  /** No two keys share one set object. */
  ghost predicate Unshared(network: map<string, FollowSet>)
  {
    forall a, b :: a in network && b in network && a != b ==> network[a] != network[b]
  }

  /** What the map holds: each key with the names in its set. */
  function Contents(network: map<string, FollowSet>): map<string, set<string>>
    reads network.Values
  {
    map k | k in network :: network[k].members
  }

  // ---------------------------------------------------------------------
  // Case-blind map helpers

  /** `getValue`: the set stored under a key equal to `targetKey` ignoring
      case (the first such key the iteration meets), or a new empty set
      when there is none. */
  method GetValue(network: map<string, FollowSet>, targetKey: string) returns (value: FollowSet)
    ensures ContainsIgnoringCase(network.Keys, targetKey) ==>
              exists key :: key in network && SameIgnoringCase(key, targetKey) && value == network[key]
    ensures !ContainsIgnoringCase(network.Keys, targetKey) ==> fresh(value) && value.members == {}
  {
    var rest := network.Keys;
    while rest != {}
      invariant rest <= network.Keys
      invariant forall key :: key in network && key !in rest ==> !SameIgnoringCase(key, targetKey)
    {
      var key :| key in rest;
      if Lower(key) == Lower(targetKey) {
        return network[key];
      }
      rest := rest - {key};
    }
    value := new FollowSet();
  }

  /** `replaceValue`: once a key equal to `targetKey` ignoring case is
      found, `Map.replace(targetKey, value)` runs, which only acts when
      `targetKey` itself, in its exact case, is a key. */
  method ReplaceValue(network: map<string, FollowSet>, targetKey: string, value: FollowSet)
    returns (updated: map<string, FollowSet>)
    ensures targetKey in network ==> updated == network[targetKey := value]
    ensures targetKey !in network ==> updated == network
  {
    updated := network;
    var rest := network.Keys;
    while rest != {}
      invariant rest <= network.Keys
      invariant updated == network
      invariant targetKey in network ==> targetKey in rest
    {
      var key :| key in rest;
      if Lower(key) == Lower(targetKey) {
        if targetKey in updated {
          updated := updated[targetKey := value];
        }
        break;
      }
      rest := rest - {key};
    }
  }

  /** When the set given back is the one stored under the matching key,
      replacing it changes nothing, whether or not the key's case matches:
      the update has already happened through the shared set. */
  lemma ReplaceStoredValue(network: map<string, FollowSet>, key: string, targetKey: string)
    requires DistinctIgnoringCase(network.Keys)
    requires key in network && SameIgnoringCase(key, targetKey)
    ensures (if targetKey in network then network[targetKey := network[key]] else network) == network
  {
    if targetKey in network {
      assert targetKey == key;
    }
  }

  /** `increment`: the count stored under the first key equal to `key`
      ignoring case goes up by one; with no such key nothing changes. */
  method Increment(counts: map<string, int>, key: string) returns (updated: map<string, int>)
    ensures ContainsIgnoringCase(counts.Keys, key) ==>
              exists k :: k in counts && SameIgnoringCase(k, key) && updated == counts[k := counts[k] + 1]
    ensures !ContainsIgnoringCase(counts.Keys, key) ==> updated == counts
  {
    updated := counts;
    var rest := counts.Keys;
    while rest != {}
      invariant rest <= counts.Keys
      invariant updated == counts
      invariant forall k :: k in counts && k !in rest ==> !SameIgnoringCase(k, key)
    {
      var k :| k in rest;
      if Lower(k) == Lower(key) {
        updated := counts[k := counts[k] + 1];
        return;
      }
      rest := rest - {k};
    }
  }

  /** The loop that adds a tweet's mentioned users to a follow set: each
      user is added unless the set already holds it ignoring case. */
  method AddUsers(value: FollowSet, usernames: set<string>)
    modifies value
    ensures old(value.members) <= value.members <= old(value.members) + usernames
    ensures LowerAll(value.members) == LowerAll(old(value.members)) + LowerAll(usernames)
    ensures DistinctIgnoringCase(old(value.members)) ==> DistinctIgnoringCase(value.members)
  {
    var rest := usernames;
    while rest != {}
      invariant rest <= usernames
      invariant old(value.members) <= value.members <= old(value.members) + usernames
      invariant LowerAll(value.members) + LowerAll(rest) == LowerAll(old(value.members)) + LowerAll(usernames)
      invariant DistinctIgnoringCase(old(value.members)) ==> DistinctIgnoringCase(value.members)
    {
      var user :| user in rest;
      var found := Contains(value.members, user);
      ContainsLower(value.members, user);
      assert LowerAll(rest) == LowerAll(rest - {user}) + {Lower(user)};
      if !found {
        assert LowerAll(value.members + {user}) == LowerAll(value.members) + {Lower(user)};
        value.members := value.members + {user};
      }
      rest := rest - {user};
    }
  }

  // ---------------------------------------------------------------------
  // Guessing the follows graph

  /** The names @-mentioned by the tweets whose author equals `author`
      ignoring case. */
  function MentionedBy(tweets: seq<Tweet>, author: string): set<string>
  {
    if |tweets| == 0 then {}
    else
      var last := tweets[|tweets| - 1];
      MentionedBy(tweets[..|tweets| - 1], author) + (if SameIgnoringCase(last.author, author) then MentionSet(last.text) else {})
  }

  /** Every name `author` mentions comes from one of their tweets. */
  lemma {:induction false} MentionedByWitness(tweets: seq<Tweet>, author: string, u: string)
    requires u in MentionedBy(tweets, author)
    ensures exists i :: 0 <= i < |tweets| && SameIgnoringCase(tweets[i].author, author) && u in MentionSet(tweets[i].text)
  {
    var n := |tweets|;
    if u !in MentionSet(tweets[n - 1].text) || !SameIgnoringCase(tweets[n - 1].author, author) {
      MentionedByWitness(tweets[..n - 1], author, u);
      var i :| 0 <= i < n - 1 && SameIgnoringCase(tweets[..n - 1][i].author, author) && u in MentionSet(tweets[..n - 1][i].text);
      assert tweets[..n - 1][i] == tweets[i];
    }
  }

  /** An author none of whose tweets mentions anybody mentions nobody. */
  lemma {:induction false} MentionedByNone(tweets: seq<Tweet>, author: string)
    requires forall i :: 0 <= i < |tweets| && SameIgnoringCase(tweets[i].author, author) ==> MentionSet(tweets[i].text) == {}
    ensures MentionedBy(tweets, author) == {}
  {
    if |tweets| > 0 {
      var front := tweets[..|tweets| - 1];
      assert forall i :: 0 <= i < |front| ==> front[i] == tweets[i];
      MentionedByNone(front, author);
    }
  }

  /** Appending a tweet adds its mentions to its author's. */
  lemma MentionedBySnoc(tweets: seq<Tweet>, t: Tweet, author: string)
    ensures MentionedBy(tweets + [t], author) ==
            MentionedBy(tweets, author) + (if SameIgnoringCase(t.author, author) then MentionSet(t.text) else {})
  {
    assert (tweets + [t])[..|tweets|] == tweets;
  }

  /** Every key is, exactly, the author of a tweet that mentions somebody. */
  ghost predicate KeysAreAuthors(tweets: seq<Tweet>, graph: map<string, set<string>>)
  {
    forall k :: k in graph ==>
      exists i :: 0 <= i < |tweets| && tweets[i].author == k && MentionSet(tweets[i].text) != {}
  }

  /** Every author of a tweet that mentions somebody has a key, ignoring
      case. */
  ghost predicate AuthorsAreKeys(tweets: seq<Tweet>, graph: map<string, set<string>>)
  {
    forall i :: 0 <= i < |tweets| && MentionSet(tweets[i].text) != {} ==>
      ContainsIgnoringCase(graph.Keys, tweets[i].author)
  }

  /** Under every key are the names its author mentions, one spelling per
      name ignoring case. */
  ghost predicate SetsAreMentions(tweets: seq<Tweet>, graph: map<string, set<string>>)
  {
    forall k :: k in graph ==>
      graph[k] <= MentionedBy(tweets, k) &&
      LowerAll(graph[k]) == LowerAll(MentionedBy(tweets, k)) &&
      DistinctIgnoringCase(graph[k])
  }

  /** What `guessFollowsGraph` builds from `tweets`: one key per author who
      mentions somebody (spelt as in one of their tweets, authors equal
      ignoring case sharing a key), and under it the names that author
      mentions, one spelling per name ignoring case. */
  ghost predicate GuessedFrom(tweets: seq<Tweet>, graph: map<string, set<string>>)
  {
    DistinctIgnoringCase(graph.Keys) &&
    KeysAreAuthors(tweets, graph) &&
    AuthorsAreKeys(tweets, graph) &&
    SetsAreMentions(tweets, graph)
  }

  /** Appending a tweet keeps every key an author. */
  lemma KeysStayAuthors(tweets: seq<Tweet>, t: Tweet, graph: map<string, set<string>>)
    requires KeysAreAuthors(tweets, graph)
    ensures KeysAreAuthors(tweets + [t], graph)
  {
    var ts := tweets + [t];
    forall k | k in graph
      ensures exists i :: 0 <= i < |ts| && ts[i].author == k && MentionSet(ts[i].text) != {}
    {
      var i :| 0 <= i < |tweets| && tweets[i].author == k && MentionSet(tweets[i].text) != {};
      assert ts[i] == tweets[i];
    }
  }

  /** A tweet that mentions nobody changes nothing. */
  lemma GuessedSkip(tweets: seq<Tweet>, t: Tweet, graph: map<string, set<string>>)
    requires GuessedFrom(tweets, graph) && MentionSet(t.text) == {}
    ensures GuessedFrom(tweets + [t], graph)
  {
    var ts := tweets + [t];
    KeysStayAuthors(tweets, t, graph);
    forall i | 0 <= i < |ts| && MentionSet(ts[i].text) != {}
      ensures ContainsIgnoringCase(graph.Keys, ts[i].author)
    {
      assert ts[i] == tweets[i];
    }
    forall k | k in graph
      ensures MentionedBy(ts, k) == MentionedBy(tweets, k)
    {
      MentionedBySnoc(tweets, t, k);
    }
  }

  /** The sets after a tweet by the author of `key` added its names to
      that key's set. */
  lemma SetsExtend(tweets: seq<Tweet>, t: Tweet, graph: map<string, set<string>>, key: string, members: set<string>)
    requires SetsAreMentions(tweets, graph) && DistinctIgnoringCase(graph.Keys)
    requires key in graph && SameIgnoringCase(key, t.author)
    requires graph[key] <= members <= graph[key] + MentionSet(t.text)
    requires LowerAll(members) == LowerAll(graph[key]) + LowerAll(MentionSet(t.text))
    requires DistinctIgnoringCase(members)
    ensures SetsAreMentions(tweets + [t], graph[key := members])
  {
    var g := graph[key := members];
    forall k | k in g
      ensures g[k] <= MentionedBy(tweets + [t], k)
      ensures LowerAll(g[k]) == LowerAll(MentionedBy(tweets + [t], k))
    {
      MentionedBySnoc(tweets, t, k);
      if k == key {
        assert LowerAll(MentionedBy(tweets, k) + MentionSet(t.text)) == LowerAll(MentionedBy(tweets, k)) + LowerAll(MentionSet(t.text));
      } else {
        assert !SameIgnoringCase(k, key);
      }
    }
  }

  /** A tweet whose author already has a key (`key`, equal ignoring case)
      adds its mentions to that key's set. */
  lemma GuessedExtend(tweets: seq<Tweet>, t: Tweet, graph: map<string, set<string>>, key: string, members: set<string>)
    requires GuessedFrom(tweets, graph)
    requires key in graph && SameIgnoringCase(key, t.author)
    requires graph[key] <= members <= graph[key] + MentionSet(t.text)
    requires LowerAll(members) == LowerAll(graph[key]) + LowerAll(MentionSet(t.text))
    requires DistinctIgnoringCase(members)
    ensures GuessedFrom(tweets + [t], graph[key := members])
  {
    var ts := tweets + [t];
    var g := graph[key := members];
    assert g.Keys == graph.Keys;
    KeysStayAuthors(tweets, t, graph);
    SetsExtend(tweets, t, graph, key, members);
    forall i | 0 <= i < |ts| && MentionSet(ts[i].text) != {}
      ensures ContainsIgnoringCase(g.Keys, ts[i].author)
    {
      if i == |tweets| {
        ContainsIgnoresCase(g.Keys, key, t.author);
      } else {
        assert ts[i] == tweets[i];
      }
    }
  }

  /** The keys after a new author, equal to no key ignoring case, is added. */
  lemma KeysAdd(tweets: seq<Tweet>, t: Tweet, graph: map<string, set<string>>, members: set<string>)
    requires DistinctIgnoringCase(graph.Keys) && KeysAreAuthors(tweets, graph) && AuthorsAreKeys(tweets, graph)
    requires !ContainsIgnoringCase(graph.Keys, t.author) && MentionSet(t.text) != {}
    ensures DistinctIgnoringCase(graph[t.author := members].Keys)
    ensures KeysAreAuthors(tweets + [t], graph[t.author := members])
    ensures AuthorsAreKeys(tweets + [t], graph[t.author := members])
  {
    var ts := tweets + [t];
    var g := graph[t.author := members];
    assert g.Keys == graph.Keys + {t.author};
    forall a, b | a in g && b in g && SameIgnoringCase(a, b)
      ensures a == b
    {
      if a == t.author || b == t.author {
        assert SameIgnoringCase(a, t.author) && SameIgnoringCase(b, t.author);
      }
    }
    KeysStayAuthors(tweets, t, graph);
    assert ts[|tweets|] == t;
    forall i | 0 <= i < |ts| && MentionSet(ts[i].text) != {}
      ensures ContainsIgnoringCase(g.Keys, ts[i].author)
    {
      if i == |tweets| {
        assert SameIgnoringCase(t.author, t.author);
      } else {
        assert ts[i] == tweets[i];
      }
    }
  }

  /** A tweet whose author has no key yet, not even in another case, puts
      the author, spelt as in this tweet, in the graph with its mentions. */
  lemma GuessedAdd(tweets: seq<Tweet>, t: Tweet, graph: map<string, set<string>>, members: set<string>)
    requires GuessedFrom(tweets, graph) && MentionSet(t.text) != {}
    requires !ContainsIgnoringCase(graph.Keys, t.author)
    requires members <= MentionSet(t.text)
    requires LowerAll(members) == LowerAll(MentionSet(t.text))
    requires DistinctIgnoringCase(members)
    ensures GuessedFrom(tweets + [t], graph[t.author := members])
  {
    var g := graph[t.author := members];
    KeysAdd(tweets, t, graph, members);
    forall i | 0 <= i < |tweets| && SameIgnoringCase(tweets[i].author, t.author)
      ensures MentionSet(tweets[i].text) == {}
    {
      ContainsIgnoresCase(graph.Keys, tweets[i].author, t.author);
    }
    MentionedByNone(tweets, t.author);
    forall k | k in g
      ensures g[k] <= MentionedBy(tweets + [t], k)
      ensures LowerAll(g[k]) == LowerAll(MentionedBy(tweets + [t], k))
    {
      MentionedBySnoc(tweets, t, k);
      if k == t.author {
        assert SameIgnoringCase(t.author, t.author);
      } else {
        assert !SameIgnoringCase(k, t.author);
      }
    }
  }

  /** The known-author branch of the loop body: the set `getValue` hands
      back is the one stored under the matching key, the new names go into
      it, and `replaceValue` puts that same set back. */
  method ExtendKnown(network: map<string, FollowSet>, ghost before: seq<Tweet>, tweet: Tweet, usernames: set<string>)
    returns (updated: map<string, FollowSet>)
    requires Unshared(network) && GuessedFrom(before, Contents(network))
    requires usernames == MentionSet(tweet.text)
    requires ContainsIgnoringCase(network.Keys, tweet.author)
    modifies network.Values
    ensures updated == network
    ensures GuessedFrom(before + [tweet], Contents(network))
  {
    ghost var graph := Contents(network);
    var value := GetValue(network, tweet.author);
    ghost var key :| key in network && SameIgnoringCase(key, tweet.author) && value == network[key];
    ghost var stored := value.members;
    assert stored == graph[key];
    AddUsers(value, usernames);
    forall k | k in network
      ensures network[k].members == graph[key := value.members][k]
    {
      if k != key {
        assert network[k] != value;
      }
    }
    assert Contents(network) == graph[key := value.members];
    assert stored <= value.members <= stored + usernames;
    GuessedExtend(before, tweet, graph, key, value.members);
    updated := ReplaceValue(network, tweet.author, value);
    ReplaceStoredValue(network, key, tweet.author);
  }

  /** The new-author branch of the loop body: a new set gets the names and
      is stored under the author's name when it is not empty. */
  method AddNew(network: map<string, FollowSet>, ghost before: seq<Tweet>, tweet: Tweet, usernames: set<string>)
    returns (updated: map<string, FollowSet>)
    requires Unshared(network) && GuessedFrom(before, Contents(network))
    requires usernames == MentionSet(tweet.text) && usernames != {}
    requires !ContainsIgnoringCase(network.Keys, tweet.author)
    ensures Unshared(updated) && GuessedFrom(before + [tweet], Contents(updated))
    ensures forall k :: k in updated ==> (k in network && updated[k] == network[k]) || fresh(updated[k])
  {
    ghost var graph := Contents(network);
    ghost var u :| u in usernames;
    assert Lower(u) in LowerAll(usernames);
    assert graph.Keys == network.Keys;
    var value := new FollowSet();
    AddUsers(value, usernames);
    if value.members != {} {
      updated := network[tweet.author := value];
      forall k | k in updated
        ensures updated[k].members == graph[tweet.author := value.members][k]
      {
        if k != tweet.author {
          assert updated[k] == network[k] != value;
        }
      }
      assert Contents(updated) == graph[tweet.author := value.members];
      GuessedAdd(before, tweet, graph, value.members);
    } else {
      assert false;
    }
  }

  /** The body of the loop of `guessFollowsGraph` for one tweet: a tweet
      that mentions nobody is skipped; otherwise the author's names are
      added to the author's set, found ignoring case or new. */
  method AddEvidence(network: map<string, FollowSet>, ghost before: seq<Tweet>, tweet: Tweet)
    returns (updated: map<string, FollowSet>)
    requires Unshared(network) && GuessedFrom(before, Contents(network))
    modifies network.Values
    ensures Unshared(updated) && GuessedFrom(before + [tweet], Contents(updated))
    ensures forall k :: k in updated ==> (k in network && updated[k] == network[k]) || fresh(updated[k])
  {
    var usernames := GetMentionedUsers([tweet]);
    assert [tweet][..0] == [];
    if usernames == {} {
      GuessedSkip(before, tweet, Contents(network));
      return network;
    }
    assert Contents(network).Keys == network.Keys;
    var known := Contains(network.Keys, tweet.author);
    if known {
      updated := ExtendKnown(network, before, tweet, usernames);
    } else {
      updated := AddNew(network, before, tweet, usernames);
    }
  }

  /** `guessFollowsGraph`: the graph of who mentions whom. The map's sets
      are distinct objects, each built here. */
  method GuessFollowsGraph(tweets: seq<Tweet>) returns (network: map<string, FollowSet>)
    ensures Unshared(network)
    ensures GuessedFrom(tweets, Contents(network))
  {
    network := map[];
    var i := 0;
    while i < |tweets|
      invariant 0 <= i <= |tweets|
      invariant forall k :: k in network ==> fresh(network[k])
      invariant Unshared(network)
      invariant GuessedFrom(tweets[..i], Contents(network))
    {
      assert tweets[..i + 1] == tweets[..i] + [tweets[i]];
      network := AddEvidence(network, tweets[..i], tweets[i]);
      i := i + 1;
    }
    assert tweets[..i] == tweets;
  }

  /** No tweets give the empty graph. */
  lemma NoTweetsNoFollows(graph: map<string, set<string>>)
    requires GuessedFrom([], graph)
    ensures graph == map[]
  {
    assert forall k :: k !in graph;
    assert graph.Keys == {};
  }

  /** Every set in the guessed graph is non-empty. */
  lemma FollowSetsNonEmpty(tweets: seq<Tweet>, graph: map<string, set<string>>)
    requires GuessedFrom(tweets, graph)
    ensures forall k :: k in graph ==> graph[k] != {}
  {
    forall k | k in graph
      ensures graph[k] != {}
    {
      var i :| 0 <= i < |tweets| && tweets[i].author == k && MentionSet(tweets[i].text) != {};
      assert SameIgnoringCase(tweets[i].author, k);
      MentionedByHas(tweets, k, i);
      var u :| u in MentionSet(tweets[i].text);
      assert Lower(u) in LowerAll(MentionedBy(tweets, k));
    }
  }

  /** Some key equal to `a` ignoring case follows `b` ignoring case. */
  ghost predicate FollowsIn(graph: map<string, set<string>>, a: string, b: string)
  {
    exists k :: k in graph && SameIgnoringCase(k, a) && ContainsIgnoringCase(graph[k], b)
  }

  /** Some tweet by `a` (ignoring case) @-mentions `b` (ignoring case). */
  ghost predicate Mentions(tweets: seq<Tweet>, a: string, b: string)
  {
    exists i :: 0 <= i < |tweets| && SameIgnoringCase(tweets[i].author, a) && ContainsIgnoringCase(MentionSet(tweets[i].text), b)
  }

  /** A follow in the guessed graph has a mention behind it. */
  lemma MentionBehindFollow(tweets: seq<Tweet>, graph: map<string, set<string>>, a: string, b: string)
    requires SetsAreMentions(tweets, graph)
    requires FollowsIn(graph, a, b)
    ensures Mentions(tweets, a, b)
  {
    var k :| k in graph && SameIgnoringCase(k, a) && ContainsIgnoringCase(graph[k], b);
    var w :| w in graph[k] && SameIgnoringCase(w, b);
    MentionedByWitness(tweets, k, w);
    var i :| 0 <= i < |tweets| && SameIgnoringCase(tweets[i].author, k) && w in MentionSet(tweets[i].text);
    assert ContainsIgnoringCase(MentionSet(tweets[i].text), b);
  }

  /** A mention shows up as a follow in the guessed graph. */
  lemma FollowForMention(tweets: seq<Tweet>, graph: map<string, set<string>>, a: string, b: string)
    requires AuthorsAreKeys(tweets, graph) && SetsAreMentions(tweets, graph)
    requires Mentions(tweets, a, b)
    ensures FollowsIn(graph, a, b)
  {
    var i :| 0 <= i < |tweets| && SameIgnoringCase(tweets[i].author, a) && ContainsIgnoringCase(MentionSet(tweets[i].text), b);
    var w :| w in MentionSet(tweets[i].text) && SameIgnoringCase(w, b);
    var k :| k in graph && SameIgnoringCase(k, tweets[i].author);
    MentionedByHas(tweets, k, i);
    ContainsLower(graph[k], w);
    assert Lower(w) in LowerAll(MentionedBy(tweets, k));
    var v :| v in graph[k] && Lower(v) == Lower(w);
    assert SameIgnoringCase(v, b);
  }

  /** In the guessed graph, a follows b exactly when a @-mentions b. */
  lemma FollowsIffMentions(tweets: seq<Tweet>, graph: map<string, set<string>>, a: string, b: string)
    requires GuessedFrom(tweets, graph)
    ensures FollowsIn(graph, a, b) <==> Mentions(tweets, a, b)
  {
    if FollowsIn(graph, a, b) {
      MentionBehindFollow(tweets, graph, a, b);
    }
    if Mentions(tweets, a, b) {
      FollowForMention(tweets, graph, a, b);
    }
  }

  /** A tweet's mentions are among its author's mentions. */
  lemma {:induction false} MentionedByHas(tweets: seq<Tweet>, author: string, i: int)
    requires 0 <= i < |tweets| && SameIgnoringCase(tweets[i].author, author)
    ensures MentionSet(tweets[i].text) <= MentionedBy(tweets, author)
  {
    var n := |tweets|;
    if i < n - 1 {
      assert tweets[..n - 1][i] == tweets[i];
      MentionedByHas(tweets[..n - 1], author, i);
    }
  }

  /** Every name in the guessed graph is an author or @-mentioned in the
      tweets. */
  lemma NamesFromTweets(tweets: seq<Tweet>, graph: map<string, set<string>>)
    requires GuessedFrom(tweets, graph)
    ensures forall k :: k in graph ==> exists i :: 0 <= i < |tweets| && tweets[i].author == k
    ensures forall k, u :: k in graph && u in graph[k] ==> exists i :: 0 <= i < |tweets| && u in MentionSet(tweets[i].text)
  {
    forall k, u | k in graph && u in graph[k]
      ensures exists i :: 0 <= i < |tweets| && u in MentionSet(tweets[i].text)
    {
      MentionedByWitness(tweets, k, u);
    }
  }

  // ---------------------------------------------------------------------
  // Follower counts

  /** The follow relation of a graph: (k, u) when k follows u. */
  ghost function Follows(graph: map<string, set<string>>): set<(string, string)>
  {
    set k, u | k in graph && u in graph[k] :: (k, u)
  }

  lemma FollowsHas(graph: map<string, set<string>>, p: (string, string))
    ensures p in Follows(graph) <==> p.0 in graph && p.1 in graph[p.0]
  {
    if p.0 in graph && p.1 in graph[p.0] {
      assert p == (p.0, p.1);
    }
  }

  /** Every user somebody follows. */
  ghost function Followed(graph: map<string, set<string>>): set<string>
  {
    set p | p in Follows(graph) :: p.1
  }

  /** The follow pairs whose followed user is `name`, ignoring case. */
  ghost function FollowersOf(pairs: set<(string, string)>, name: string): set<(string, string)>
  {
    set p | p in pairs && SameIgnoringCase(p.1, name)
  }

  /** How many keys follow `name` (a key following two case variants of
      the name counts twice, as in the source's tally). */
  ghost function FollowerCount(graph: map<string, set<string>>, name: string): nat
  {
    |FollowersOf(Follows(graph), name)|
  }

  /** The followers map after the pairs `done` were tallied: one key per
      user ignoring case, each counting the pairs that name it, and a key
      for every user seen, spelt as in one of the pairs. */
  ghost predicate Tallied(followers: map<string, int>, done: set<(string, string)>)
  {
    DistinctIgnoringCase(followers.Keys) &&
    (forall f :: f in followers ==> followers[f] == |FollowersOf(done, f)|) &&
    (forall p :: p in done ==> ContainsIgnoringCase(followers.Keys, p.1)) &&
    (forall f :: f in followers ==> exists p :: p in done && p.1 == f)
  }

  lemma FollowersOfAdd(done: set<(string, string)>, p: (string, string), f: string)
    requires p !in done
    ensures |FollowersOf(done + {p}, f)| == |FollowersOf(done, f)| + (if SameIgnoringCase(p.1, f) then 1 else 0)
  {
    if SameIgnoringCase(p.1, f) {
      assert FollowersOf(done + {p}, f) == FollowersOf(done, f) + {p};
    } else {
      assert FollowersOf(done + {p}, f) == FollowersOf(done, f);
    }
  }

  /** Tallying a pair whose user has no key yet adds the user with count 1. */
  lemma TallyNewUser(followers: map<string, int>, done: set<(string, string)>, p: (string, string))
    requires Tallied(followers, done) && p !in done
    requires !ContainsIgnoringCase(followers.Keys, p.1)
    ensures Tallied(followers[p.1 := 1], done + {p})
  {
    var updated := followers[p.1 := 1];
    assert updated.Keys == followers.Keys + {p.1};
    forall a, b | a in updated && b in updated && SameIgnoringCase(a, b)
      ensures a == b
    {
      if a == p.1 || b == p.1 {
        assert SameIgnoringCase(a, p.1) && SameIgnoringCase(b, p.1);
      }
    }
    forall f | f in updated
      ensures updated[f] == |FollowersOf(done + {p}, f)|
    {
      FollowersOfAdd(done, p, f);
      if f == p.1 {
        forall q | q in done
          ensures !SameIgnoringCase(q.1, p.1)
        {
          var w :| w in followers && SameIgnoringCase(w, q.1);
          assert !SameIgnoringCase(w, p.1);
        }
        assert FollowersOf(done, f) == {};
      } else {
        assert !SameIgnoringCase(f, p.1);
      }
    }
    forall q | q in done + {p}
      ensures ContainsIgnoringCase(updated.Keys, q.1)
    {
      if q == p {
        assert SameIgnoringCase(p.1, p.1);
      } else {
        var w :| w in followers && SameIgnoringCase(w, q.1);
        assert w in updated;
      }
    }
    forall f | f in updated
      ensures exists q :: q in done + {p} && q.1 == f
    {
      if f != p.1 {
        var q :| q in done && q.1 == f;
      }
    }
  }

  /** Tallying a pair whose user has key `k` ignoring case raises k's count. */
  lemma TallyKnownUser(followers: map<string, int>, done: set<(string, string)>, p: (string, string), k: string)
    requires Tallied(followers, done) && p !in done
    requires k in followers && SameIgnoringCase(k, p.1)
    ensures Tallied(followers[k := followers[k] + 1], done + {p})
  {
    var updated := followers[k := followers[k] + 1];
    assert updated.Keys == followers.Keys;
    forall f | f in updated
      ensures updated[f] == |FollowersOf(done + {p}, f)|
    {
      FollowersOfAdd(done, p, f);
      if f != k {
        assert !SameIgnoringCase(f, k);
        assert updated[f] == followers[f] == |FollowersOf(done, f)|;
      }
    }
    forall f | f in updated
      ensures exists q :: q in done + {p} && q.1 == f
    {
      var q :| q in done && q.1 == f;
    }
  }

  /** The first loop of `influencers`: for every key and every user it
      follows, the user's count goes up by one (under whichever case-blind
      variant was met first) or the user enters with count 1. */
  method CountFollowers(followsGraph: map<string, set<string>>) returns (followers: map<string, int>)
    ensures Tallied(followers, Follows(followsGraph))
  {
    followers := map[];
    ghost var done: set<(string, string)> := {};
    var keys := followsGraph.Keys;
    while keys != {}
      invariant keys <= followsGraph.Keys
      invariant forall p :: p in done <==> p.0 in followsGraph && p.0 !in keys && p.1 in followsGraph[p.0]
      invariant Tallied(followers, done)
    {
      var key :| key in keys;
      var usernames := followsGraph[key];
      while usernames != {}
        invariant usernames <= followsGraph[key]
        invariant forall p :: p in done <==>
                    (p.0 in followsGraph && p.0 !in keys && p.1 in followsGraph[p.0]) ||
                    (p.0 == key && p.1 in followsGraph[key] && p.1 !in usernames)
        invariant Tallied(followers, done)
      {
        var user :| user in usernames;
        followers := TallyPair(followers, done, key, user);
        done := done + {(key, user)};
        usernames := usernames - {user};
      }
      keys := keys - {key};
    }
    forall p ensures p in done <==> p in Follows(followsGraph) {
      FollowsHas(followsGraph, p);
    }
    assert done == Follows(followsGraph);
  }

  /** The body of the inner loop: the user followed by `key` is counted. */
  method TallyPair(followers: map<string, int>, ghost done: set<(string, string)>, key: string, user: string)
    returns (updated: map<string, int>)
    requires Tallied(followers, done) && (key, user) !in done
    ensures Tallied(updated, done + {(key, user)})
  {
    var known := Contains(followers.Keys, user);
    if known {
      updated := Increment(followers, user);
      ghost var k :| k in followers && SameIgnoringCase(k, user) && updated == followers[k := followers[k] + 1];
      TallyKnownUser(followers, done, (key, user), k);
    } else {
      TallyNewUser(followers, done, (key, user));
      updated := followers[user := 1];
    }
  }

  // ---------------------------------------------------------------------
  // Ranking

  /** Every name is counted and the counts never increase along the list. */
  ghost predicate Descending(names: seq<string>, counts: map<string, int>)
  {
    (forall i :: 0 <= i < |names| ==> names[i] in counts) &&
    (forall i, j :: 0 <= i < j < |names| ==> counts[names[i]] >= counts[names[j]])
  }

  /** Putting a name between a neighbour counted at least as high and one
      counted at most as high keeps a descending list descending. */
  lemma InsertKeepsDescending(names: seq<string>, counts: map<string, int>, key: string, at: int)
    requires Descending(names, counts) && key in counts
    requires 0 <= at <= |names|
    requires at > 0 ==> counts[names[at - 1]] >= counts[key]
    requires at < |names| ==> counts[key] >= counts[names[at]]
    ensures Descending(names[..at] + [key] + names[at..], counts)
  {
    var r := names[..at] + [key] + names[at..];
    assert forall i :: 0 <= i < at ==> r[i] == names[i];
    assert r[at] == key;
    assert forall i :: at < i < |r| ==> r[i] == names[i - 1];
  }

  /** One step of the second loop of `influencers`, with the middle search
      comparing the new count with the names on both sides of the slot it
      tries: an empty list takes the name; a count at least the first one's
      goes in front; a count at most the last one's goes at the end;
      otherwise the name goes at the first slot whose left neighbour is
      counted at least as high and whose right neighbour at most as high.
      Also returns where the name went. */
  method InsertRanked(result: seq<string>, counts: map<string, int>, key: string)
    returns (ranked: seq<string>, at: int)
    requires key in counts
    requires Descending(result, counts)
    ensures 0 <= at <= |result| && ranked == result[..at] + [key] + result[at..]
    ensures Descending(ranked, counts)
  {
    var value := counts[key];
    if |result| == 0 {
      InsertKeepsDescending(result, counts, key, 0);
      return [key], 0;
    }
    if counts[result[0]] <= value {
      InsertKeepsDescending(result, counts, key, 0);
      return [key] + result, 0;
    }
    if counts[result[|result| - 1]] >= value {
      InsertKeepsDescending(result, counts, key, |result|);
      return result + [key], |result|;
    }
    var i := 1;
    while i < |result|
      invariant 1 <= i <= |result|
      invariant counts[result[i - 1]] > value
    {
      if value <= counts[result[i - 1]] && value >= counts[result[i]] {
        InsertKeepsDescending(result, counts, key, i);
        return result[..i] + [key] + result[i..], i;
      }
      i := i + 1;
    }
    assert false;
  }

  /** Every name of the ranking is a followed user, spelt as in the graph,
      every followed user is in it, and no two names differ only in case. */
  ghost predicate RanksAllFollowed(followsGraph: map<string, set<string>>, result: seq<string>)
  {
    (forall i :: 0 <= i < |result| ==> result[i] in Followed(followsGraph)) &&
    (forall u :: u in Followed(followsGraph) ==> exists i :: 0 <= i < |result| && SameIgnoringCase(result[i], u)) &&
    (forall i, j :: 0 <= i < j < |result| ==> !SameIgnoringCase(result[i], result[j]))
  }

  /** Nobody in the ranking has more followers than anybody before them. */
  ghost predicate ByFollowerCount(followsGraph: map<string, set<string>>, result: seq<string>)
  {
    forall i, j :: 0 <= i < j < |result| ==>
      FollowerCount(followsGraph, result[i]) >= FollowerCount(followsGraph, result[j])
  }

  /** `influencers`, with the ranking step of `InsertRanked`. An empty
      graph gives the empty list. Every user somebody follows appears
      exactly once ignoring case, spelt as in the graph, and the list is in
      descending order of follower count. Keys that nobody follows do not
      appear. */
  method Influencers(followsGraph: map<string, set<string>>) returns (result: seq<string>)
    ensures |followsGraph| == 0 ==> result == []
    ensures RanksAllFollowed(followsGraph, result)
    ensures ByFollowerCount(followsGraph, result)
  {
    if |followsGraph| == 0 {
      return [];
    }
    var followers := CountFollowers(followsGraph);
    result := Rank(followers);
    RankingMeaning(followsGraph, followers, result);
  }

  /** The second loop of `influencers`: every counted name, taken in the
      map's iteration order, is inserted into the ranking. */
  method Rank(followers: map<string, int>) returns (result: seq<string>)
    ensures forall x :: x in result <==> x in followers
    ensures forall i, j :: 0 <= i < j < |result| ==> result[i] != result[j]
    ensures Descending(result, followers)
  {
    result := [];
    var names := followers.Keys;
    while names != {}
      invariant names <= followers.Keys
      invariant forall x :: x in result <==> x in followers && x !in names
      invariant forall i, j :: 0 <= i < j < |result| ==> result[i] != result[j]
      invariant Descending(result, followers)
    {
      var key :| key in names;
      var ranked, at := InsertRanked(result, followers, key);
      assert forall i :: 0 <= i < at ==> ranked[i] == result[i];
      assert forall i :: at < i < |ranked| ==> ranked[i] == result[i - 1];
      result := ranked;
      names := names - {key};
    }
  }

  /** A ranking of exactly the tallied names, without repeats and
      descending by tally, ranks the graph's followed users by follower
      count. */
  lemma RankingMeaning(followsGraph: map<string, set<string>>, followers: map<string, int>, result: seq<string>)
    requires Tallied(followers, Follows(followsGraph))
    requires forall x :: x in result <==> x in followers
    requires forall i, j :: 0 <= i < j < |result| ==> result[i] != result[j]
    requires Descending(result, followers)
    ensures RanksAllFollowed(followsGraph, result)
    ensures ByFollowerCount(followsGraph, result)
  {
    forall i | 0 <= i < |result|
      ensures result[i] in Followed(followsGraph)
    {
      assert result[i] in followers;
      var p :| p in Follows(followsGraph) && p.1 == result[i];
    }
    forall u | u in Followed(followsGraph)
      ensures exists i :: 0 <= i < |result| && SameIgnoringCase(result[i], u)
    {
      var p :| p in Follows(followsGraph) && p.1 == u;
      var w :| w in followers && SameIgnoringCase(w, u);
      var i :| 0 <= i < |result| && result[i] == w;
    }
  }

  // ---------------------------------------------------------------------
  // The ranking step as the source writes it

  /** The middle search as written: from slot `i` on, while `i < size - 1`,
      the first slot whose left neighbour is counted at least `value` and
      whose neighbour two along (index i + 1) at most `value`. */
  function MiddleSlotAsWritten(result: seq<string>, counts: map<string, int>, value: int, i: int): (r: Option<int>)
    requires 1 <= i
    requires forall n :: 0 <= n < |result| ==> result[n] in counts
    ensures r.Some? ==> i <= r.value < |result| - 1
    decreases |result| - i
  {
    if i >= |result| - 1 then None
    else if value <= counts[result[i - 1]] && value >= counts[result[i + 1]] then Some(i)
    else MiddleSlotAsWritten(result, counts, value, i + 1)
  }

  /** One step of the ranking loop exactly as written. */
  function InsertAsWritten(result: seq<string>, counts: map<string, int>, key: string): seq<string>
    requires key in counts
    requires forall n :: 0 <= n < |result| ==> result[n] in counts
  {
    var value := counts[key];
    if |result| == 0 then [key]
    else if counts[result[0]] <= value then [key] + result
    else if counts[result[|result| - 1]] >= value then result + [key]
    else match MiddleSlotAsWritten(result, counts, value, 1)
      case None => result
      case Some(i) => result[..i] + [key] + result[i..]
  }

  /** With two names ranked 5 and 1, a name counted 3 falls through every
      test: the middle loop has no slot to try, and the name is lost. */
  lemma AsWrittenDropsName()
    ensures InsertAsWritten(["a", "b"], map["a" := 5, "b" := 1, "c" := 3], "c") == ["a", "b"]
  {
  }

  /** With names ranked 5, 3, 1, a name counted 2 lands before the name
      counted 3, so the list is no longer descending. */
  lemma AsWrittenMisorders()
    ensures var counts := map["a" := 5, "b" := 3, "c" := 1, "d" := 2];
            var r := InsertAsWritten(["a", "b", "c"], counts, "d");
            r == ["a", "d", "b", "c"] && !Descending(r, counts)
  {
    var counts := map["a" := 5, "b" := 3, "c" := 1, "d" := 2];
    var r := InsertAsWritten(["a", "b", "c"], counts, "d");
    assert MiddleSlotAsWritten(["a", "b", "c"], counts, 2, 1) == Some(1);
    assert r == ["a", "d", "b", "c"];
    assert counts[r[1]] < counts[r[2]];
  }

  /** What the step as written does keep: it adds the new name at most
      once and loses no name already ranked, so a ranking built with it has
      no repeats and only counted names. */
  lemma AsWrittenKeepsNames(result: seq<string>, counts: map<string, int>, key: string)
    requires key in counts
    requires forall n :: 0 <= n < |result| ==> result[n] in counts
    requires key !in result
    requires forall i, j :: 0 <= i < j < |result| ==> result[i] != result[j]
    ensures var r := InsertAsWritten(result, counts, key);
            (forall x :: x in r ==> x in result || x == key) &&
            (forall x :: x in result ==> x in r) &&
            (forall i, j :: 0 <= i < j < |r| ==> r[i] != r[j])
  {
    var r := InsertAsWritten(result, counts, key);
    var value := counts[key];
    if |result| > 0 && counts[result[0]] > value && counts[result[|result| - 1]] < value {
      var slot := MiddleSlotAsWritten(result, counts, value, 1);
      if slot.Some? {
        var at := slot.value;
        assert r == result[..at] + [key] + result[at..];
        assert forall n :: 0 <= n < at ==> r[n] == result[n];
        assert forall n :: at < n < |r| ==> r[n] == result[n - 1];
        assert forall x :: x in result ==> x in result[..at] || x in result[at..];
      }
    }
  }
}
