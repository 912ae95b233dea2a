/** Case-blind lookups on sets of names, shared by the poet and the tweet
    analysis: both treat two strings that agree after `toLowerCase` as the
    same word or user. */
module CaseBlind {
  import opened Text

  /** A set of names is clean when no two of its members differ only in
      case. */
  ghost predicate DistinctIgnoringCase(ws: set<string>)
  {
    forall a, b :: a in ws && b in ws && SameIgnoringCase(a, b) ==> a == b
  }

  /** The lower-cased members of a set. */
  function LowerAll(ws: set<string>): set<string>
  {
    set w | w in ws :: Lower(w)
  }

  /** Lower-casing loses a word exactly when two words agree ignoring case. */
  lemma {:induction false} LowerAllSize(ws: set<string>)
    ensures |LowerAll(ws)| <= |ws|
    ensures |LowerAll(ws)| == |ws| <==> DistinctIgnoringCase(ws)
    decreases |ws|
  {
    if ws != {} {
      var x :| x in ws;
      var rest := ws - {x};
      LowerAllSize(rest);
      assert LowerAll(ws) == LowerAll(rest) + {Lower(x)};
      if Lower(x) in LowerAll(rest) {
        var y :| y in rest && Lower(y) == Lower(x);
        assert SameIgnoringCase(x, y) && x != y;
        assert LowerAll(ws) == LowerAll(rest);
      } else {
        assert |LowerAll(ws)| == |LowerAll(rest)| + 1;
        if DistinctIgnoringCase(rest) {
          forall a, b | a in ws && b in ws && SameIgnoringCase(a, b)
            ensures a == b
          {
          }
        }
      }
    }
  }

  /** Some member of `ws` equals `target` ignoring case. */
  ghost predicate ContainsIgnoringCase(ws: set<string>, target: string)
  {
    exists w :: w in ws && SameIgnoringCase(w, target)
  }

  /** `contains` (the same helper appears in GraphPoet and SocialNetwork):
      a search of the set, in whatever order it is iterated, for a member
      equal to `target` ignoring case. */
  method Contains(words: set<string>, target: string) returns (found: bool)
    ensures found <==> ContainsIgnoringCase(words, target)
  {
    var rest := words;
    while rest != {}
      invariant rest <= words
      invariant forall w :: w in words && w !in rest ==> !SameIgnoringCase(w, target)
      decreases rest
    {
      var w :| w in rest;
      if Lower(w) == Lower(target) {
        return true;
      }
      rest := rest - {w};
    }
    return false;
  }

  /** Case-blind membership does not see case: a word is found when it is
      present, and a case variant of a found word is found too. */
  lemma ContainsIgnoresCase(ws: set<string>, t: string, u: string)
    requires SameIgnoringCase(t, u)
    ensures t in ws ==> ContainsIgnoringCase(ws, t)
    ensures ContainsIgnoringCase(ws, t) <==> ContainsIgnoringCase(ws, u)
  {
    assert SameIgnoringCase(t, t);
  }

  /** Among words that never differ only in case, case-blind membership is
      plain membership. */
  lemma ContainsExactly(ws: set<string>, all: set<string>, t: string)
    requires ws <= all && t in all && DistinctIgnoringCase(all)
    ensures ContainsIgnoringCase(ws, t) <==> t in ws
  {
    assert SameIgnoringCase(t, t);
  }

  /** Case-blind membership is membership of the lower-cased name among the
      lower-cased members. */
  lemma ContainsLower(ws: set<string>, t: string)
    ensures ContainsIgnoringCase(ws, t) <==> Lower(t) in LowerAll(ws)
  {
    if Lower(t) in LowerAll(ws) {
      var w :| w in ws && Lower(w) == Lower(t);
      assert SameIgnoringCase(w, t);
    }
  }
}
