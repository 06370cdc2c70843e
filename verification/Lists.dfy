/** Lists without repetition. */
module Lists {

  ghost predicate NoRepeats<T(!new)>(s: seq<T>) {
    forall i, j :: 0 <= i < j < |s| ==> s[i] != s[j]
  }

  lemma RepeatsKept<T(!new)>(s: seq<T>, before: seq<T>, after: seq<T>)
    requires !NoRepeats(s)
    ensures !NoRepeats(before + s + after)
  {
    var i, j :| 0 <= i < j < |s| && s[i] == s[j];
    var all, n := before + s + after, |before|;
    assert all[n + i] == s[i] && all[n + j] == s[j];
  }
}
