/** The id column of the board: the ids dealt at the start of a round and the
    filter that drops a clicked point once its removal callback fires. The
    random top/left coordinates are not part of this model. */
module PointList {

  /** Strictly ascending, hence also free of duplicates. */
  predicate Ascending(s: seq<int>) {
    forall i, j :: 0 <= i < j < |s| ==> s[i] < s[j]
  }

  /** The ids k, k + 1, ..., n - 1. */
  function Span(k: nat, n: nat): (r: seq<int>)
    requires k <= n
    ensures |r| == n - k
    ensures Ascending(r)
    ensures forall x :: x in r ==> k <= x < n
  {
    seq(n - k, i => k + i)
  }

  /** The ids of the `count` points dealt by one round, 0 up to count - 1. */
  function DealtIds(count: nat): (r: seq<int>)
    ensures |r| == count
    ensures Ascending(r)
  {
    Span(0, count)
  }

  /** The list with every entry equal to `id` dropped and the others kept in
      their order, as a front-to-back filter on `p.id !== id` does. It never
      adds an id, never grows, and keeps an ascending board ascending. */
  function Without(s: seq<int>, id: int): (r: seq<int>)
    ensures id !in r
    ensures forall x :: x in r ==> x in s
    ensures |r| <= |s|
    ensures Ascending(s) ==> Ascending(r)
    decreases |s|
  {
    if s == [] then []
    else
      var rest := Without(s[1..], id);
      assert forall x :: x in rest ==> x in s[1..];
      assert Ascending(s) ==> Ascending(s[1..]) && forall x :: x in s[1..] ==> s[0] < x;
      var r := (if s[0] == id then [] else [s[0]]) + rest;
      assert s[0] != id ==> forall j :: 0 < j < |r| ==> r[j] == rest[j - 1] && r[j] in rest;
      r
  }

  /** `r` is `s` with some entries deleted: an independent description of
      "keeps the others in their original order". */
  ghost predicate IsSubsequence(r: seq<int>, s: seq<int>)
    decreases |s|
  {
    if r == [] then true
    else if s == [] then false
    else (r[0] == s[0] && IsSubsequence(r[1..], s[1..])) || IsSubsequence(r, s[1..])
  }

  /** A round of `count` points holds exactly the ids 0..count-1, in
      ascending order, each once. */
  lemma DealtIdsAreTheRange(count: nat)
    ensures |DealtIds(count)| == count
    ensures forall i :: 0 <= i < count ==> DealtIds(count)[i] == i
    ensures Ascending(DealtIds(count))
    ensures forall x :: x in DealtIds(count) <==> 0 <= x < count
  {
    var r := DealtIds(count);
    forall x | 0 <= x < count ensures x in r {
      assert r[x] == x;
    }
  }

  /** The span k..n-1 starts with k and continues with the span from k + 1. */
  lemma SpanUnfold(k: nat, n: nat)
    requires k < n
    ensures Span(k, n) == [k] + Span(k + 1, n)
  {
    var s := Span(k, n);
    assert s[0] == k;
    assert s[1..] == Span(k + 1, n);
  }

  /** The filter keeps exactly the entries different from `id`. */
  lemma {:induction false} WithoutMembers(s: seq<int>, id: int)
    ensures forall x :: x in Without(s, id) <==> x in s && x != id
    decreases |s|
  {
    if s != [] {
      WithoutMembers(s[1..], id);
      assert s == [s[0]] + s[1..];
    }
  }

  /** The filter keeps the surviving entries in their original order. */
  lemma {:induction false} WithoutKeepsOrder(s: seq<int>, id: int)
    ensures IsSubsequence(Without(s, id), s)
    decreases |s|
  {
    if s != [] {
      var rest := Without(s[1..], id);
      WithoutKeepsOrder(s[1..], id);
      if s[0] == id {
        assert Without(s, id) == rest;
        SubsequenceOfTail(rest, s);
      } else {
        var r := Without(s, id);
        assert r == [s[0]] + rest;
        assert r[0] == s[0] && r[1..] == rest;
      }
    }
  }

  /** The filter removes every occurrence of `id` and keeps every other entry
      with its multiplicity. */
  lemma {:induction false} WithoutCounts(s: seq<int>, id: int)
    ensures multiset(Without(s, id)) == multiset(s)[id := 0]
    decreases |s|
  {
    if s != [] {
      var rest := Without(s[1..], id);
      WithoutCounts(s[1..], id);
      assert s == [s[0]] + s[1..];
      var m := multiset(s[1..]);
      assert multiset(s) == multiset{s[0]} + m;
      if s[0] == id {
        assert Without(s, id) == rest;
        assert multiset(s)[id := 0] == m[id := 0];
      } else {
        assert Without(s, id) == [s[0]] + rest;
        assert multiset([s[0]] + rest) == multiset{s[0]} + multiset(rest);
        assert multiset(s)[id := 0] == multiset{s[0]} + m[id := 0];
      }
    }
  }

  /** A subsequence of the tail is a subsequence of the whole. */
  lemma SubsequenceOfTail(r: seq<int>, s: seq<int>)
    requires s != []
    requires IsSubsequence(r, s[1..])
    ensures IsSubsequence(r, s)
  {
  }

  /** Removing an id that is not on the board changes nothing. */
  lemma {:induction false} WithoutAbsent(s: seq<int>, id: int)
    requires id !in s
    ensures Without(s, id) == s
    decreases |s|
  {
    if s != [] {
      WithoutAbsent(s[1..], id);
      assert s == [s[0]] + s[1..];
    }
  }

  /** On an ascending board the filter keeps the board ascending and removes
      at most one point: exactly one when the id is on the board. */
  lemma {:induction false} WithoutOnAscending(s: seq<int>, id: int)
    requires Ascending(s)
    ensures Ascending(Without(s, id))
    ensures |Without(s, id)| == if id in s then |s| - 1 else |s|
    decreases |s|
  {
    if s != [] {
      var tail := s[1..];
      assert Ascending(tail);
      WithoutOnAscending(tail, id);
      WithoutMembers(tail, id);
      assert s == [s[0]] + tail;
      if s[0] == id {
        assert id !in tail;
        WithoutAbsent(tail, id);
      } else {
        var r := Without(s, id);
        assert r == [s[0]] + Without(tail, id);
        forall j | 0 < j < |r| ensures r[0] < r[j] {
          assert r[j] in Without(tail, id);
        }
      }
    }
  }
}
