/** Filter: order-preserving selections from a list of tweets. Lists are
    values here, so the input list is never modified. */
module Filter {
  import opened Text
  import opened Tweets

  /** The three conditions a tweet can be selected by. */
  datatype Condition =
    | WrittenByUser(username: string)
    | SentDuring(timespan: Timespan)
    | ContainingWord(words: seq<string>)

  /** Some word of the text, split at single spaces, equals some query word
      ignoring case. */
  predicate HasWordOf(text: string, words: seq<string>)
  {
    exists j, k :: 0 <= j < |Split(text)| && 0 <= k < |words| && SameIgnoringCase(Split(text)[j], words[k])
  }

  predicate Holds(c: Condition, t: Tweet)
  {
    match c
    case WrittenByUser(username) => SameIgnoringCase(t.author, username)
    case SentDuring(span) => span.start < t.timestamp < span.end
    case ContainingWord(words) => HasWordOf(t.text, words)
  }

  /** The tweets satisfying `c`, in input order. */
  function Keep(tweets: seq<Tweet>, c: Condition): seq<Tweet>
  {
    if |tweets| == 0 then []
    else
      var last := tweets[|tweets| - 1];
      Keep(tweets[..|tweets| - 1], c) + (if Holds(c, last) then [last] else [])
  }

  /** The positions in the input of the kept tweets. */
  function KeptAt(tweets: seq<Tweet>, c: Condition): seq<int>
  {
    if |tweets| == 0 then []
    else
      KeptAt(tweets[..|tweets| - 1], c) + (if Holds(c, tweets[|tweets| - 1]) then [|tweets| - 1] else [])
  }

  /** All and only the tweets satisfying the condition are kept. */
  lemma {:induction false} KeepExactly(tweets: seq<Tweet>, c: Condition)
    ensures forall t :: t in Keep(tweets, c) <==> t in tweets && Holds(c, t)
  {
    if |tweets| > 0 {
      var front := tweets[..|tweets| - 1];
      KeepExactly(front, c);
      assert tweets == front + [tweets[|tweets| - 1]];
    }
  }

  /** The kept tweets are the input's tweets at strictly increasing
      positions, and every position whose tweet satisfies the condition is
      among them: nothing new, nothing reordered, nothing missed. */
  lemma {:induction false} KeepInOrder(tweets: seq<Tweet>, c: Condition)
    ensures |KeptAt(tweets, c)| == |Keep(tweets, c)|
    ensures forall k :: 0 <= k < |KeptAt(tweets, c)| ==>
              0 <= KeptAt(tweets, c)[k] < |tweets| &&
              Keep(tweets, c)[k] == tweets[KeptAt(tweets, c)[k]]
    ensures forall k, l :: 0 <= k < l < |KeptAt(tweets, c)| ==> KeptAt(tweets, c)[k] < KeptAt(tweets, c)[l]
    ensures forall i :: 0 <= i < |tweets| && Holds(c, tweets[i]) ==> i in KeptAt(tweets, c)
  {
    if |tweets| > 0 {
      var n := |tweets|;
      var front := tweets[..n - 1];
      KeepInOrder(front, c);
      assert forall i :: 0 <= i < n - 1 ==> front[i] == tweets[i];
    }
  }

  /** The tweets whose author is `username`, ignoring case. */
  method WrittenBy(tweets: seq<Tweet>, username: string) returns (result: seq<Tweet>)
    ensures result == Keep(tweets, WrittenByUser(username))
  {
    result := [];
    var i := 0;
    while i < |tweets|
      invariant 0 <= i <= |tweets|
      invariant result == Keep(tweets[..i], WrittenByUser(username))
    {
      assert tweets[..i + 1][..i] == tweets[..i];
      if Lower(tweets[i].author) == Lower(username) {
        result := result + [tweets[i]];
      }
      i := i + 1;
    }
    assert tweets[..i] == tweets;
  }

  /** The tweets sent strictly after the start and strictly before the end
      of the timespan. */
  method InTimespan(tweets: seq<Tweet>, timespan: Timespan) returns (result: seq<Tweet>)
    ensures result == Keep(tweets, SentDuring(timespan))
  {
    result := [];
    var i := 0;
    while i < |tweets|
      invariant 0 <= i <= |tweets|
      invariant result == Keep(tweets[..i], SentDuring(timespan))
    {
      assert tweets[..i + 1][..i] == tweets[..i];
      if tweets[i].timestamp > timespan.start && tweets[i].timestamp < timespan.end {
        result := result + [tweets[i]];
      }
      i := i + 1;
    }
    assert tweets[..i] == tweets;
  }

  /** The tweets with at least one word, split at single spaces, equal to a
      query word ignoring case. The scan of a tweet stops at the first
      matching pair. */
  method Containing(tweets: seq<Tweet>, words: seq<string>) returns (result: seq<Tweet>)
    ensures result == Keep(tweets, ContainingWord(words))
  {
    result := [];
    var i := 0;
    while i < |tweets|
      invariant 0 <= i <= |tweets|
      invariant result == Keep(tweets[..i], ContainingWord(words))
    {
      assert tweets[..i + 1][..i] == tweets[..i];
      var currentTweet := tweets[i];
      var tweetWords := Split(currentTweet.text);
      var contains := false;
      var j := 0;
      while j < |tweetWords|
        invariant 0 <= j <= |tweetWords|
        invariant !contains
        invariant forall j', k :: 0 <= j' < j && 0 <= k < |words| ==> !SameIgnoringCase(tweetWords[j'], words[k])
      {
        var currentWord := tweetWords[j];
        var k := 0;
        while k < |words|
          invariant 0 <= k <= |words|
          invariant !contains
          invariant forall k' :: 0 <= k' < k ==> !SameIgnoringCase(currentWord, words[k'])
        {
          if Lower(currentWord) == Lower(words[k]) {
            contains := true;
            break;
          }
          k := k + 1;
        }
        if contains {
          break;
        }
        j := j + 1;
      }
      assert contains <==> HasWordOf(currentTweet.text, words);
      if contains {
        result := result + [currentTweet];
      }
      i := i + 1;
    }
    assert tweets[..i] == tweets;
  }

  /** With no query words nothing is selected. */
  lemma {:induction false} NoWordsNothing(tweets: seq<Tweet>)
    ensures Keep(tweets, ContainingWord([])) == []
  {
    if |tweets| > 0 {
      NoWordsNothing(tweets[..|tweets| - 1]);
    }
  }

  /** A text made of non-empty words separated by single spaces is selected
      by any query word that equals one of its words ignoring case. */
  lemma WordOfTextFound(ws: seq<string>, words: seq<string>, j: int, k: int)
    requires |ws| >= 1
    requires forall i :: 0 <= i < |ws| ==> ws[i] != "" && ' ' !in ws[i]
    requires 0 <= j < |ws| && 0 <= k < |words|
    requires SameIgnoringCase(ws[j], words[k])
    ensures HasWordOf(JoinSpace(ws), words)
  {
    SplitJoin(ws);
  }

  /** Selection by author depends only on the lower-case form of the name. */
  lemma {:induction false} WrittenByIgnoresCase(tweets: seq<Tweet>, a: string, b: string)
    requires Lower(a) == Lower(b)
    ensures Keep(tweets, WrittenByUser(a)) == Keep(tweets, WrittenByUser(b))
  {
    if |tweets| > 0 {
      WrittenByIgnoresCase(tweets[..|tweets| - 1], a, b);
    }
  }
}
