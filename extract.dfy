/** Extract: the timespan of a list of tweets and the '@'-mentions in their
    texts. */
module Extract {
  import opened Text
  import opened Tweets

  // ------------------------------------------------------------ timespan

  /** The tweet `getTimespan` ends up with as `firstTweet`: the first one,
      replaced by each later tweet that is strictly earlier. */
  function FirstTweet(tweets: seq<Tweet>): Tweet
    requires |tweets| > 0
  {
    if |tweets| == 1 then tweets[0]
    else
      var f := FirstTweet(tweets[..|tweets| - 1]);
      var t := tweets[|tweets| - 1];
      if t.timestamp < f.timestamp then t else f
  }

  /** The tweet kept as `lastTweet`: replaced by each strictly later one. */
  function LastTweet(tweets: seq<Tweet>): Tweet
    requires |tweets| > 0
  {
    if |tweets| == 1 then tweets[0]
    else
      var l := LastTweet(tweets[..|tweets| - 1]);
      var t := tweets[|tweets| - 1];
      if t.timestamp > l.timestamp then t else l
  }

  /** The first tweet is one of the tweets and none is earlier. */
  lemma {:induction false} FirstTweetEarliest(tweets: seq<Tweet>)
    requires |tweets| > 0
    ensures FirstTweet(tweets) in tweets
    ensures forall i :: 0 <= i < |tweets| ==> FirstTweet(tweets).timestamp <= tweets[i].timestamp
  {
    if |tweets| > 1 {
      var front := tweets[..|tweets| - 1];
      FirstTweetEarliest(front);
      assert forall i :: 0 <= i < |front| ==> front[i] == tweets[i];
    }
  }

  /** The last tweet is one of the tweets and none is later. */
  lemma {:induction false} LastTweetLatest(tweets: seq<Tweet>)
    requires |tweets| > 0
    ensures LastTweet(tweets) in tweets
    ensures forall i :: 0 <= i < |tweets| ==> tweets[i].timestamp <= LastTweet(tweets).timestamp
  {
    if |tweets| > 1 {
      var front := tweets[..|tweets| - 1];
      LastTweetLatest(front);
      assert forall i :: 0 <= i < |front| ==> front[i] == tweets[i];
    }
  }

  /** `getTimespan`: the list must not be empty (it asserts so). The result
      runs from the earliest to the latest timestamp, both of which are some
      tweet's, so no shorter interval holds every tweet. */
  method GetTimespan(tweets: seq<Tweet>) returns (span: Timespan)
    requires |tweets| > 0
    ensures span == Timespan(FirstTweet(tweets).timestamp, LastTweet(tweets).timestamp)
    ensures forall i :: 0 <= i < |tweets| ==> span.start <= tweets[i].timestamp <= span.end
    ensures exists i :: 0 <= i < |tweets| && tweets[i].timestamp == span.start
    ensures exists i :: 0 <= i < |tweets| && tweets[i].timestamp == span.end
  {
    var firstTweet := tweets[0];
    var lastTweet := tweets[0];
    var i := 1;
    while i < |tweets|
      invariant 1 <= i <= |tweets|
      invariant firstTweet == FirstTweet(tweets[..i])
      invariant lastTweet == LastTweet(tweets[..i])
    {
      assert tweets[..i + 1][..i] == tweets[..i];
      if tweets[i].timestamp < firstTweet.timestamp {
        firstTweet := tweets[i];
      }
      if tweets[i].timestamp > lastTweet.timestamp {
        lastTweet := tweets[i];
      }
      i := i + 1;
    }
    assert tweets[..i] == tweets;
    FirstTweetEarliest(tweets);
    LastTweetLatest(tweets);
    span := Timespan(firstTweet.timestamp, lastTweet.timestamp);
  }

  /** Tweets all sent at the same instant span an empty interval. */
  lemma SameInstantSpan(tweets: seq<Tweet>)
    requires |tweets| > 0
    requires forall i :: 0 <= i < |tweets| ==> tweets[i].timestamp == tweets[0].timestamp
    ensures FirstTweet(tweets).timestamp == LastTweet(tweets).timestamp
  {
    FirstTweetEarliest(tweets);
    LastTweetLatest(tweets);
  }

  // ------------------------------------------------------------ mentions

  /** The position of the first space of `s`, or its length when it has
      none. */
  function SpaceEnd(s: string): (r: nat)
    ensures r <= |s| && ' ' !in s[..r]
    ensures r < |s| ==> s[r] == ' '
  {
    if |s| == 0 || s[0] == ' ' then 0
    else
      var k := SpaceEnd(s[1..]);
      assert s[..k + 1] == [s[0]] + s[1..][..k];
      k + 1
  }

  /** The names `getMentionedUsers` takes from one text: after each '@'
      its scan meets, the characters up to the next space or the end; the
      scan then resumes after that space. */
  function MentionSet(text: string): set<string>
    decreases |text|
  {
    if |text| == 0 then {}
    else if text[0] != '@' then MentionSet(text[1..])
    else
      var end := SpaceEnd(text);
      {text[1..end]} + (if end == |text| then {} else MentionSet(text[end + 1..]))
  }

  /** The names found in the texts of a list of tweets. */
  function MentionedIn(tweets: seq<Tweet>): set<string>
  {
    if |tweets| == 0 then {}
    else MentionedIn(tweets[..|tweets| - 1]) + MentionSet(tweets[|tweets| - 1].text)
  }

  /** `getMentionedUsers`: the list must not be empty (it asserts so). Every
      tweet's text is scanned while it still holds an '@'; each pass adds one
      name to the (exact-case) set and drops the text up to and including the
      space after the name, so the text gets strictly shorter. */
  method GetMentionedUsers(tweets: seq<Tweet>) returns (users: set<string>)
    requires |tweets| > 0
    ensures users == MentionedIn(tweets)
  {
    users := {};
    var i := 0;
    while i < |tweets|
      invariant 0 <= i <= |tweets|
      invariant users == MentionedIn(tweets[..i])
    {
      var text := tweets[i].text;
      ghost var before := users;
      while IndexOf(text, '@') != -1
        invariant users + MentionSet(text) == before + MentionSet(tweets[i].text)
        decreases |text|
      {
        var startIndex := IndexOf(text, '@');
        var endIndex;
        if ' ' in text[startIndex..] {
          endIndex := IndexOfFrom(text, ' ', startIndex);
        } else {
          endIndex := |text|;
        }
        NameEndIsSpaceEnd(text, startIndex, endIndex);
        MentionSetStep(text, startIndex, endIndex);
        users := users + {text[startIndex + 1..endIndex]};
        if endIndex >= |text| {
          text := "";
        } else {
          text := text[endIndex + 1..];
        }
      }
      NoAtNoMentions(text);
      assert tweets[..i + 1][..i] == tweets[..i];
      i := i + 1;
    }
    assert tweets[..i] == tweets;
  }

  /** Text before the first '@' yields no name. */
  lemma {:induction false} MentionsSkip(text: string, k: int)
    requires 0 <= k <= |text| && '@' !in text[..k]
    ensures MentionSet(text) == MentionSet(text[k..])
  {
    if k > 0 {
      assert text[0] == text[..k][0];
      assert text[1..][..k - 1] == text[..k][1..];
      MentionsSkip(text[1..], k - 1);
      assert text[1..][k - 1..] == text[k..];
    }
  }

  /** The end `getMentionedUsers` computes for the name after the '@' at
      `start` is where the first space after it stands, or the text's end. */
  lemma NameEndIsSpaceEnd(text: string, start: int, end: int)
    requires 0 <= start < |text| && text[start] == '@'
    requires end == if ' ' in text[start..] then IndexOfFrom(text, ' ', start) else |text|
    ensures start < end <= |text| && end - start == SpaceEnd(text[start..])
  {
    var t := text[start..];
    assert t[..end - start] == text[start..end];
    FirstSpaceUnique(t, end - start, SpaceEnd(t));
  }

  /** There is only one first space. */
  lemma FirstSpaceUnique(t: string, a: int, b: int)
    requires 0 <= a <= |t| && 0 <= b <= |t|
    requires ' ' !in t[..a] && (a < |t| ==> t[a] == ' ')
    requires ' ' !in t[..b] && (b < |t| ==> t[b] == ' ')
    ensures a == b
  {
    assert forall k :: 0 <= k < a ==> t[..a][k] == t[k];
    assert forall k :: 0 <= k < b ==> t[..b][k] == t[k];
  }

  /** One pass of the scan: the name after the first '@', then the names of
      what follows the space after it. */
  lemma MentionSetStep(text: string, start: int, end: int)
    requires 0 <= start < |text| && text[start] == '@' && '@' !in text[..start]
    requires end == start + SpaceEnd(text[start..])
    ensures start < end <= |text|
    ensures MentionSet(text) ==
            {text[start + 1..end]} + (if end >= |text| then {} else MentionSet(text[end + 1..]))
  {
    MentionsSkip(text, start);
    var t := text[start..];
    var e := end - start;
    MentionSetAt(t);
    assert t[1..e] == text[start + 1..end];
    if end < |text| {
      assert t[e + 1..] == text[end + 1..];
    }
  }

  /** The scan at an '@'. */
  lemma MentionSetAt(t: string)
    requires |t| > 0 && t[0] == '@'
    ensures var e := SpaceEnd(t);
            e > 0 &&
            MentionSet(t) == {t[1..e]} + (if e == |t| then {} else MentionSet(t[e + 1..]))
  {
  }

  /** A text yields a name exactly when it holds an '@'. */
  lemma {:induction false} NoAtNoMentions(text: string)
    ensures MentionSet(text) == {} <==> '@' !in text
    decreases |text|
  {
    if |text| > 0 && text[0] != '@' {
      NoAtNoMentions(text[1..]);
      assert text == [text[0]] + text[1..];
    }
  }

  /** `name` stands in `text` right after an '@' at `i`, and is followed by
      a space or the end of the text. */
  ghost predicate TaggedAt(text: string, i: int, name: string)
  {
    0 <= i && i + 1 + |name| <= |text| && text[i] == '@' &&
    text[i + 1..i + 1 + |name|] == name &&
    (i + 1 + |name| == |text| || text[i + 1 + |name|] == ' ')
  }

  /** Every name found holds no space and is the whole run of non-space
      characters after some '@' of the text. */
  lemma {:induction false} MentionsTagged(text: string)
    ensures forall m :: m in MentionSet(text) ==> ' ' !in m && exists i :: TaggedAt(text, i, m)
    decreases |text|
  {
    if |text| > 0 {
      if text[0] != '@' {
        var rest := text[1..];
        MentionsTagged(rest);
        assert MentionSet(text) == MentionSet(rest);
        forall m | m in MentionSet(rest)
          ensures exists i :: TaggedAt(text, i, m)
        {
          var j :| TaggedAt(rest, j, m);
          TaggedShift(text, 1, j, m);
        }
      } else {
        var end := SpaceEnd(text);
        var name := text[1..end];
        assert name == text[..end][1..];
        assert ' ' !in name;
        assert TaggedAt(text, 0, name);
        if end < |text| {
          var rest := text[end + 1..];
          MentionsTagged(rest);
          forall m | m in MentionSet(rest)
            ensures exists i :: TaggedAt(text, i, m)
          {
            var j :| TaggedAt(rest, j, m);
            TaggedShift(text, end + 1, j, m);
          }
        }
      }
    }
  }

  /** The converse of `MentionsTagged`: an '@' at the start of the text or
      right after a space is never skipped by the scan, so the run of
      non-space characters after it is found as a name. */
  lemma MentionAtWordStart(text: string, i: int)
    requires 0 <= i < |text| && text[i] == '@' && (i == 0 || text[i - 1] == ' ')
    ensures i + SpaceEnd(text[i..]) <= |text|
    ensures text[i + 1..i + SpaceEnd(text[i..])] in MentionSet(text)
  {
    var n := SpaceEnd(text[i..]);
    SpaceEndPositive(text[i..]);
    MentionFound(text, i, n);
  }

  /** A run that starts with a non-space is not empty. */
  lemma SpaceEndPositive(t: string)
    requires |t| > 0 && t[0] != ' '
    ensures SpaceEnd(t) > 0
  {
  }

  /** `MentionAtWordStart` with the name's length `n` given. */
  lemma {:induction false} MentionFound(text: string, i: int, n: int)
    requires 0 <= i < |text| && text[i] == '@' && (i == 0 || text[i - 1] == ' ')
    requires n == SpaceEnd(text[i..]) && 0 < n && i + n <= |text|
    ensures text[i + 1..i + n] in MentionSet(text)
    decreases |text|, 1
  {
    if i == 0 {
      assert text[i..] == text;
      MentionSetAt(text);
    } else if text[0] != '@' {
      FoundAfterOther(text, i, n);
    } else {
      FoundAfterName(text, i, n);
    }
  }

  /** The scan steps over a first character that is not '@'. */
  lemma {:induction false} FoundAfterOther(text: string, i: int, n: int)
    requires 0 < i < |text| && text[i] == '@' && text[i - 1] == ' ' && text[0] != '@'
    requires n == SpaceEnd(text[i..]) && 0 < n && i + n <= |text|
    ensures text[i + 1..i + n] in MentionSet(text)
    decreases |text|, 0
  {
    var rest := text[1..];
    SuffixAt(text, rest, 1, i, i - 1, n);
    MentionFound(rest, i - 1, n);
    assert MentionSet(text) == MentionSet(rest);
  }

  /** The scan reads the name after a first '@', which ends before the
      space at `i - 1`, and resumes after that name's space. */
  lemma {:induction false} FoundAfterName(text: string, i: int, n: int)
    requires 0 < i < |text| && text[i] == '@' && text[i - 1] == ' ' && text[0] == '@'
    requires n == SpaceEnd(text[i..]) && 0 < n && i + n <= |text|
    ensures text[i + 1..i + n] in MentionSet(text)
    decreases |text|, 0
  {
    var end := SpaceEnd(text);
    SpaceEndBefore(text, i - 1);
    var rest := text[end + 1..];
    var j := i - end - 1;
    SuffixAt(text, rest, end + 1, i, j, n);
    MentionFound(rest, j, n);
    ResumeAfterName(text, end, rest, rest[j + 1..j + n]);
  }

  /** The first space comes no later than any space. */
  lemma SpaceEndBefore(text: string, k: int)
    requires 0 <= k < |text| && text[k] == ' '
    ensures SpaceEnd(text) <= k
  {
    var end := SpaceEnd(text);
    assert forall m :: 0 <= m < end ==> text[m] == text[..end][m];
  }

  /** After the name that a first '@' starts, the scan goes on with what
      follows that name's space. */
  lemma ResumeAfterName(text: string, end: int, rest: string, name: string)
    requires |text| > 0 && text[0] == '@' && end == SpaceEnd(text) && end < |text|
    requires rest == text[end + 1..] && name in MentionSet(rest)
    ensures name in MentionSet(text)
  {
    MentionSetAt(text);
  }

  /** A word start at `i` of the text is a word start at `i - off` of the
      suffix from `off`, and the name found there is the same. */
  lemma SuffixAt(text: string, rest: string, off: int, i: int, j: int, n: int)
    requires 0 < off <= i < |text| && rest == text[off..] && j == i - off
    requires n == SpaceEnd(text[i..]) && 0 < n && i + n <= |text|
    ensures rest[j..] == text[i..] && SpaceEnd(rest[j..]) == n
    ensures rest[j] == text[i] && (j == 0 || rest[j - 1] == text[i - 1])
    ensures rest[j + 1..j + n] == text[i + 1..i + n]
  {
    var a, b := rest[j + 1..j + n], text[i + 1..i + n];
    forall k | 0 <= k < |a|
      ensures a[k] == b[k]
    {
    }
  }

  /** A tag found in a suffix of the text is a tag of the text. */
  lemma TaggedShift(text: string, off: int, j: int, m: string)
    requires 0 <= off <= |text| && TaggedAt(text[off..], j, m)
    ensures TaggedAt(text, off + j, m)
  {
    assert text[off..][j + 1..j + 1 + |m|] == text[off + j + 1..off + j + 1 + |m|];
  }
}
