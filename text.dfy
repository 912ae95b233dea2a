/** The few java.lang.String operations the modelled code relies on, on
    `string` = `seq<char>`: ASCII lower-casing, `indexOf`, `split(" ")`,
    `trim` and joining words with single spaces. */
module Text {

  /** `Character.toLowerCase` on the ASCII letters; every other character is
      left as it is (the model does no Unicode case mapping). */
  function LowerChar(c: char): char
  {
    if 'A' <= c <= 'Z' then (c as int + 32) as char else c
  }

  /** `String.toLowerCase`, character by character. */
  function Lower(s: string): (r: string)
    ensures |r| == |s|
    ensures forall i :: 0 <= i < |s| ==> r[i] == LowerChar(s[i])
  {
    seq(|s|, i requires 0 <= i < |s| => LowerChar(s[i]))
  }

  /** `a.toLowerCase().equals(b.toLowerCase())`. */
  predicate SameIgnoringCase(a: string, b: string)
  {
    Lower(a) == Lower(b)
  }

  /** `s.indexOf(c)`: the first position of `c` in `s`, or -1. */
  function IndexOf(s: string, c: char): (r: int)
    ensures -1 <= r < |s|
    ensures r == -1 <==> c !in s
    ensures r >= 0 ==> s[r] == c && c !in s[..r]
  {
    if |s| == 0 then -1
    else if s[0] == c then 0
    else
      var k := IndexOf(s[1..], c);
      if k == -1 then -1
      else
        assert s[..k + 1] == [s[0]] + s[1..][..k];
        k + 1
  }

  /** `s.indexOf(c, from)`: the first position at or after `from` holding
      `c`, or -1. */
  function IndexOfFrom(s: string, c: char, from: int): (r: int)
    requires 0 <= from <= |s|
    ensures r == -1 <==> c !in s[from..]
    ensures r != -1 ==> from <= r < |s| && s[r] == c && c !in s[from..r]
  {
    var k := IndexOf(s[from..], c);
    if k == -1 then -1
    else
      assert s[from..][..k] == s[from..from + k];
      from + k
  }

  /** The pieces of `s` between its space characters, empty pieces included:
      a string with n spaces has n + 1 pieces. A space closes the current
      piece; any other character extends it. */
  function Pieces(s: string): (r: seq<string>)
    ensures |r| >= 1
  {
    if |s| == 0 then [""]
    else
      var rest := Pieces(s[1..]);
      if s[0] == ' ' then [""] + rest
      else [[s[0]] + rest[0]] + rest[1..]
  }

  /** No piece holds a space. */
  lemma {:induction false} PiecesHaveNoSpace(s: string)
    ensures forall i :: 0 <= i < |Pieces(s)| ==> ' ' !in Pieces(s)[i]
  {
    if |s| > 0 {
      PiecesHaveNoSpace(s[1..]);
    }
  }

  /** The words of `ws` separated by exactly one space, with no leading or
      trailing space. */
  function JoinSpace(ws: seq<string>): string
  {
    if |ws| == 0 then ""
    else if |ws| == 1 then ws[0]
    else ws[0] + " " + JoinSpace(ws[1..])
  }

  /** Joining a first word onto at least one more puts one space between. */
  lemma JoinCons(w: string, rest: seq<string>)
    requires |rest| >= 1
    ensures JoinSpace([w] + rest) == w + " " + JoinSpace(rest)
  {
    assert ([w] + rest)[1..] == rest;
  }

  /** Putting a character in front of the first word puts it in front of
      the joined text. */
  lemma JoinPrepend(c: char, ws: seq<string>)
    requires |ws| >= 1
    ensures JoinSpace([[c] + ws[0]] + ws[1..]) == [c] + JoinSpace(ws)
  {
    var head := [c] + ws[0];
    var xs := [head] + ws[1..];
    assert xs[0] == head && xs[1..] == ws[1..] && |xs| == |ws|;
    if |ws| > 1 {
      var tail := JoinSpace(ws[1..]);
      assert JoinSpace(xs) == head + " " + tail;
      assert JoinSpace(ws) == ws[0] + " " + tail;
      SpaceAssoc([c], ws[0], tail);
    }
  }

  /** Regrouping around a joining space. */
  lemma SpaceAssoc(a: string, b: string, t: string)
    ensures a + b + " " + t == a + (b + " " + t)
  {
    var x := a + b + " " + t;
    var y := a + (b + " " + t);
    assert |x| == |y|;
    forall i | 0 <= i < |x|
      ensures x[i] == y[i]
    {
      if i >= |a| {
        assert y[i] == (b + " " + t)[i - |a|];
      }
    }
  }

  /** The joined text starts with the first word's first character and ends
      with the last word's last character. */
  lemma {:induction false} JoinEnds(ws: seq<string>)
    requires |ws| >= 1
    requires forall i :: 0 <= i < |ws| ==> ws[i] != ""
    ensures |JoinSpace(ws)| > 0
    ensures JoinSpace(ws)[0] == ws[0][0]
    ensures JoinSpace(ws)[|JoinSpace(ws)| - 1] == ws[|ws| - 1][|ws[|ws| - 1]| - 1]
  {
    if |ws| > 1 {
      var rest := ws[1..];
      JoinEnds(rest);
      var j, r := JoinSpace(ws), JoinSpace(rest);
      assert j == ws[0] + " " + r;
      assert j[|j| - 1] == r[|r| - 1];
      assert rest[|rest| - 1] == ws[|ws| - 1];
    }
  }

  /** Cutting at every space and gluing back with single spaces gives the
      string back. */
  lemma {:induction false} JoinPieces(s: string)
    ensures JoinSpace(Pieces(s)) == s
  {
    if |s| > 0 {
      var rest := Pieces(s[1..]);
      JoinPieces(s[1..]);
      if s[0] == ' ' {
        JoinCons("", rest);
      } else {
        JoinPrepend(s[0], rest);
      }
      assert s == [s[0]] + s[1..];
    }
  }

  /** A string without a space is a single piece. */
  lemma {:induction false} PiecesOfWord(w: string)
    requires ' ' !in w
    ensures Pieces(w) == [w]
  {
    if |w| > 0 {
      PiecesOfWord(w[1..]);
      assert w == [w[0]] + w[1..];
    }
  }

  /** A word without a space followed by a space is the first piece. */
  lemma {:induction false} PiecesGlue(w: string, t: string)
    requires ' ' !in w
    ensures Pieces(w + " " + t) == [w] + Pieces(t)
  {
    if |w| == 0 {
      assert (w + " " + t)[1..] == t;
    } else {
      PiecesGlue(w[1..], t);
      assert (w + " " + t)[1..] == w[1..] + " " + t;
      assert w == [w[0]] + w[1..];
    }
  }

  /** Cutting a single-spaced text at its spaces gives back its words. */
  lemma {:induction false} PiecesOfJoin(ws: seq<string>)
    requires |ws| >= 1
    requires forall i :: 0 <= i < |ws| ==> ' ' !in ws[i]
    ensures Pieces(JoinSpace(ws)) == ws
  {
    if |ws| == 1 {
      PiecesOfWord(ws[0]);
    } else {
      PiecesOfJoin(ws[1..]);
      PiecesGlue(ws[0], JoinSpace(ws[1..]));
      assert ws == [ws[0]] + ws[1..];
    }
  }

  /** Removes the empty strings at the end of a list of pieces. */
  function DropTrailingEmpty(ws: seq<string>): (r: seq<string>)
    ensures |r| <= |ws| && r == ws[..|r|]
    ensures |r| > 0 ==> r[|r| - 1] != ""
    ensures forall i :: |r| <= i < |ws| ==> ws[i] == ""
  {
    if |ws| > 0 && ws[|ws| - 1] == "" then DropTrailingEmpty(ws[..|ws| - 1]) else ws
  }

  /** `s.split(" ")` in Java: a string without a space gives the one-element
      array `{s}` (even when `s` is empty); otherwise the pieces between the
      spaces, with the empty pieces at the end removed. */
  function Split(s: string): (r: seq<string>)
    ensures forall i :: 0 <= i < |r| ==> ' ' !in r[i]
    ensures ' ' !in s ==> r == [s]
    ensures ' ' in s ==> |r| <= |Pieces(s)| && r == Pieces(s)[..|r|]
    ensures ' ' in s && |r| > 0 ==> r[|r| - 1] != ""
  {
    if ' ' in s then PiecesHaveNoSpace(s); DropTrailingEmpty(Pieces(s)) else [s]
  }

  /** Splitting a single-spaced text of non-empty words gives back the words. */
  lemma SplitJoin(ws: seq<string>)
    requires |ws| >= 1
    requires forall i :: 0 <= i < |ws| ==> ws[i] != "" && ' ' !in ws[i]
    ensures Split(JoinSpace(ws)) == ws
  {
    PiecesOfJoin(ws);
    if |ws| == 1 {
      assert JoinSpace(ws) == ws[0];
    } else {
      assert JoinSpace(ws) == ws[0] + " " + JoinSpace(ws[1..]);
      assert JoinSpace(ws)[|ws[0]|] == ' ';
    }
  }

  /** Java's notion of white space for `trim`: every character up to U+0020. */
  predicate Blank(c: char)
  {
    c <= ' '
  }

  function TrimStart(s: string): (r: string)
    ensures |r| <= |s| && r == s[|s| - |r|..]
    ensures |r| > 0 ==> !Blank(r[0])
    ensures forall i :: 0 <= i < |s| - |r| ==> Blank(s[i])
  {
    if |s| > 0 && Blank(s[0]) then TrimStart(s[1..]) else s
  }

  function TrimEnd(s: string): (r: string)
    ensures |r| <= |s| && r == s[..|r|]
    ensures |r| > 0 ==> !Blank(r[|r| - 1])
    ensures forall i :: |r| <= i < |s| ==> Blank(s[i])
  {
    if |s| > 0 && Blank(s[|s| - 1]) then TrimEnd(s[..|s| - 1]) else s
  }

  /** `s.trim()`: `s` without its leading and trailing blank characters. */
  function Trim(s: string): string
  {
    TrimEnd(TrimStart(s))
  }

  /** Appending blanks to a string that starts and ends with a non-blank
      character is undone by `trim`. */
  lemma TrimAppendedBlanks(s: string, tail: string)
    requires |s| > 0 && !Blank(s[0]) && !Blank(s[|s| - 1])
    requires forall i :: 0 <= i < |tail| ==> Blank(tail[i])
    ensures Trim(s + tail) == s
  {
    assert TrimStart(s + tail) == s + tail;
    var t := TrimEnd(s + tail);
    assert (s + tail)[|s| - 1] == s[|s| - 1];
    assert |t| >= |s|;
  }
}
