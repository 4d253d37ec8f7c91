/**
 * First-match search over a sequence.  The client caches answer `get(key, value)`
 * with the first element whose key matches, and `Array.prototype.find` returns the
 * first element accepted by its callback; both are `Find` below.
 */
module Search {
  import opened Wrappers

  /** The first element of `s` that `p` accepts. */
  function Find<T>(s: seq<T>, p: T -> bool): Option<T>
    decreases |s|
  {
    if s == [] then None
    else if p(s[0]) then Some(s[0])
    else Find(s[1..], p)
  }

  /**
   * `Find` gives nothing exactly when no element is accepted, and otherwise the
   * accepted element that comes first.
   */
  lemma {:induction false} FindFirst<T>(s: seq<T>, p: T -> bool)
    ensures Find(s, p).None? <==> forall j :: 0 <= j < |s| ==> !p(s[j])
    ensures Find(s, p).Some? ==> Find(s, p).value in s && p(Find(s, p).value)
    ensures forall i :: 0 <= i < |s| && p(s[i]) && (forall j :: 0 <= j < i ==> !p(s[j])) ==> Find(s, p) == Some(s[i])
    decreases |s|
  {
    if s != [] && !p(s[0]) {
      var tail := s[1..];
      FindFirst(tail, p);
      forall i | 0 < i < |s| && p(s[i]) && (forall j :: 0 <= j < i ==> !p(s[j]))
        ensures Find(s, p) == Some(s[i])
      {
        assert tail[i - 1] == s[i];
        assert forall j :: 0 <= j < i - 1 ==> tail[j] == s[j + 1];
      }
      if Find(s, p).None? {
        assert forall j :: 1 <= j < |s| ==> s[j] == tail[j - 1];
      }
    }
  }
}
