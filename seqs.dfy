/** Sequence facts used to state the order guarantees of the duplicate finder. */
module Seqs {

  /** No element occurs twice in `s`. */
  ghost predicate Distinct<T>(s: seq<T>) {
    forall i, j :: 0 <= i < j < |s| ==> s[i] != s[j]
  }

  /** Position of the first occurrence of `x` in `s`, or `|s|` when `x` does not occur. */
  function IndexOf<T(==)>(s: seq<T>, x: T): (i: nat)
    ensures i <= |s|
    ensures i < |s| <==> x in s
    ensures i < |s| ==> s[i] == x
    ensures forall j :: 0 <= j < i ==> s[j] != x
  {
    if s == [] then 0
    else if s[0] == x then 0
    else 1 + IndexOf(s[1..], x)
  }

  /** Appending to a sequence does not move the first occurrence of an element it already holds. */
  lemma IndexOfAppend<T>(s: seq<T>, t: seq<T>, x: T)
    requires x in s
    ensures IndexOf(s + t, x) == IndexOf(s, x)
  {
    var i := IndexOf(s, x);
    assert (s + t)[i] == x;
  }

  /** The elements of `s`, each kept at its first occurrence, in the order of `s`. */
  function Dedup<T(==, !new)>(s: seq<T>): (r: seq<T>)
    ensures Distinct(r)
    ensures forall x :: x in r <==> x in s
  {
    if s == [] then []
    else
      var last := s[|s| - 1];
      var front := Dedup(s[..|s| - 1]);
      assert s == s[..|s| - 1] + [last];
      if last in front then front else front + [last]
  }

  /** `Dedup` lists the elements by increasing position of their first occurrence. */
  lemma {:induction false} DedupOrder<T(!new)>(s: seq<T>)
    ensures forall a, b :: 0 <= a < b < |Dedup(s)| ==> IndexOf(s, Dedup(s)[a]) < IndexOf(s, Dedup(s)[b])
  {
    if s != [] {
      var front, last := s[..|s| - 1], s[|s| - 1];
      assert s == front + [last];
      DedupOrder(front);
      var d, r := Dedup(front), Dedup(s);
      forall x | x in front ensures IndexOf(s, x) == IndexOf(front, x) {
        IndexOfAppend(front, [last], x);
      }
      forall a, b | 0 <= a < b < |r| ensures IndexOf(s, r[a]) < IndexOf(s, r[b]) {
        assert r[a] == d[a] && r[a] in front;
        if b < |d| {
          assert r[b] == d[b] && r[b] in front;
        } else {
          assert r[b] == last && last !in front;
          assert IndexOf(s, last) == |front|;
        }
      }
    }
  }
}
