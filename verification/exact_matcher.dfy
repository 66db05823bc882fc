/** `Matcher.match`: the index of the first candidate embedding equal to the
    query, or -1. Embeddings are lists of finite floats. */
module ExactMatcher {
  method Match(query: seq<real>, candidates: seq<seq<real>>) returns (idx: int)
    ensures -1 <= idx < |candidates|
    ensures idx >= 0 ==> candidates[idx] == query
    ensures forall j :: 0 <= j < idx ==> candidates[j] != query
    ensures idx == -1 <==> forall j :: 0 <= j < |candidates| ==> candidates[j] != query
  {
    var i := 0;
    while i < |candidates|
      invariant 0 <= i <= |candidates|
      invariant forall j :: 0 <= j < i ==> candidates[j] != query
    {
      if candidates[i] == query {
        return i;
      }
      i := i + 1;
    }
    return -1;
  }
}
