/** First occurrence of a pattern, as the C library finds it (memmem, strstr). */
module Search {
  import opened Words

  predicate MatchesAt<T(==)>(hay: seq<T>, needle: seq<T>, i: nat) {
    i + |needle| <= |hay| && hay[i..i + |needle|] == needle
  }

  function FirstMatch<T(==)>(hay: seq<T>, needle: seq<T>): (r: Option<nat>)
    ensures r.Some? ==> MatchesAt(hay, needle, r.value) && forall j: nat :: j < r.value ==> !MatchesAt(hay, needle, j)
    ensures r.None? ==> forall j: nat :: !MatchesAt(hay, needle, j)
  {
    if |hay| < |needle| then None
    else if MatchesAt(hay, needle, 0) then Some(0)
    else
      assert forall j: nat :: MatchesAt(hay, needle, j) ==> j > 0 && MatchesAt(hay[1..], needle, j - 1) by {
        forall j: nat | MatchesAt(hay, needle, j) ensures j > 0 && MatchesAt(hay[1..], needle, j - 1) {
          MatchesDropOne(hay, needle, j - 1);
        }
      }
      match FirstMatch(hay[1..], needle)
      case None => None
      case Some(i) =>
        MatchesDropOne(hay, needle, i);
        Some(i + 1)
  }

  lemma MatchesDropOne<T>(hay: seq<T>, needle: seq<T>, i: nat)
    requires hay != []
    ensures MatchesAt(hay[1..], needle, i) <==> MatchesAt(hay, needle, i + 1)
  {
    if i + 1 + |needle| <= |hay| {
      assert hay[1..][i..i + |needle|] == hay[i + 1..i + 1 + |needle|];
    }
  }

  lemma FirstMatchIs<T>(hay: seq<T>, needle: seq<T>, i: nat)
    requires MatchesAt(hay, needle, i)
    requires forall j: nat :: j < i ==> !MatchesAt(hay, needle, j)
    ensures FirstMatch(hay, needle) == Some(i)
  {
  }
}
