/** The std::sort calls of the source order rows by a key, largest first
    (exportFrequencyStats by frequency, Scorer::search by score). std::sort
    is not stable, so all that is promised is a non-increasing permutation;
    the model sorts by insertion. */
module Sorting {

  /** Keys never increase from one element to the next. */
  predicate NonIncreasing<T>(s: seq<T>, key: T -> real) {
    forall i, j :: 0 <= i < j < |s| ==> key(s[i]) >= key(s[j])
  }

  /** x placed into a non-increasing sequence before the first element
      with a smaller key. */
  function InsertDescending<T>(s: seq<T>, x: T, key: T -> real): (r: seq<T>)
    requires NonIncreasing(s, key)
    ensures multiset(r) == multiset(s) + multiset{x}
    ensures NonIncreasing(r, key)
    ensures |r| == |s| + 1
  {
    if s == [] || key(s[0]) < key(x) then
      [x] + s
    else
      var rest := InsertDescending(s[1..], x, key);
      HeadBeforeRest(s, x, rest, key);
      [s[0]] + rest
  }

  /** The head of s, whose key is at least x's, goes before x inserted into
      the tail. */
  lemma HeadBeforeRest<T>(s: seq<T>, x: T, rest: seq<T>, key: T -> real)
    requires s != [] && NonIncreasing(s, key) && key(x) <= key(s[0])
    requires multiset(rest) == multiset(s[1..]) + multiset{x} && NonIncreasing(rest, key)
    ensures multiset([s[0]] + rest) == multiset(s) + multiset{x}
    ensures NonIncreasing([s[0]] + rest, key)
  {
    assert s == [s[0]] + s[1..];
    forall k | 0 <= k < |rest|
      ensures key(rest[k]) <= key(s[0])
    {
      assert rest[k] in multiset(rest);
      if rest[k] != x {
        assert rest[k] in multiset(s[1..]);
        var j :| 0 <= j < |s[1..]| && s[1..][j] == rest[k];
        assert s[j + 1] == rest[k];
      }
    }
    var r := [s[0]] + rest;
    forall i, j | 0 <= i < j < |r|
      ensures key(r[i]) >= key(r[j])
    {
      if i > 0 {
        assert r[i] == rest[i - 1] && r[j] == rest[j - 1];
      } else {
        assert r[j] == rest[j - 1];
      }
    }
  }

  /** std::sort(begin, end, [](a, b) { return key(a) > key(b); }) */
  method SortDescending<T>(s: seq<T>, key: T -> real) returns (r: seq<T>)
    ensures multiset(r) == multiset(s)
    ensures NonIncreasing(r, key)
  {
    r := [];
    for i := 0 to |s|
      invariant multiset(r) == multiset(s[..i])
      invariant NonIncreasing(r, key)
    {
      r := InsertDescending(r, s[i], key);
      assert s[..i + 1] == s[..i] + [s[i]];
    }
    assert s[..|s|] == s;
  }
}
