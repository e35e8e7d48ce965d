/** What both games keep per card: whether it is face down, turned up and
    waiting in the selection, or matched. A matched card stays turned up, so
    it is never "face down" again and can never be selected. */
module Cards {

  datatype Face = Down | Up | Matched

  /** The number of matched cards in a grid. */
  function MatchedCount(s: seq<Face>): (r: nat)
    ensures r == 0 <==> Matched !in s
  {
    multiset(s)[Matched]
  }

  /** Changing one card changes the matched count by what that card leaves and enters. */
  lemma MatchedCountUpdate(s: seq<Face>, i: nat, v: Face)
    requires i < |s|
    ensures MatchedCount(s[i := v]) + (if s[i] == Matched then 1 else 0)
            == MatchedCount(s) + (if v == Matched then 1 else 0)
  {
    assert multiset(s[i := v]) == multiset(s) - multiset{s[i]} + multiset{v};
  }

  /** A freshly built grid: every card face down. */
  function AllDown(n: nat): (r: seq<Face>)
    ensures |r| == n && MatchedCount(r) == 0
    ensures forall i :: 0 <= i < n ==> r[i] == Down
  {
    seq(n, _ => Down)
  }

  /** The matched count never exceeds the number of cards, and it reaches it
      exactly when every card is matched. */
  lemma {:induction false} AllMatchedIff(s: seq<Face>)
    ensures MatchedCount(s) <= |s|
    ensures MatchedCount(s) == |s| <==> forall i :: 0 <= i < |s| ==> s[i] == Matched
  {
    if s != [] {
      var t := s[1..];
      assert s == [s[0]] + t;
      AllMatchedIff(t);
      if MatchedCount(s) == |s| {
        assert s[0] == Matched && MatchedCount(t) == |t|;
        forall i | 0 <= i < |s| ensures s[i] == Matched {
          if i > 0 { assert s[i] == t[i - 1]; }
        }
      }
      if forall i :: 0 <= i < |s| ==> s[i] == Matched {
        forall i | 0 <= i < |t| ensures t[i] == Matched {
          assert t[i] == s[i + 1];
        }
      }
    }
  }
}
