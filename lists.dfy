/** The Kotlin collection operations the view model uses: `take` and `distinct`. */
module Lists {

  /** `s.take(n)`: the first `n` elements, or all of `s` when it is shorter. */
  function Take<T>(s: seq<T>, n: nat): (r: seq<T>)
    ensures |r| == if |s| < n then |s| else n
    ensures r == s[..|r|]
  {
    if |s| <= n then s else s[..n]
  }

  /** No element occurs twice. */
  predicate NoDuplicates<T(==)>(s: seq<T>)
  {
    forall i, j :: 0 <= i < j < |s| ==> s[i] != s[j]
  }

  /** The index of the first occurrence of `x` in `s`. */
  function FirstIndex<T(==)>(s: seq<T>, x: T): (k: nat)
    requires x in s
    ensures k < |s| && s[k] == x && x !in s[..k]
  {
    if s[0] == x then 0 else 1 + FirstIndex(s[1..], x)
  }

  /**
   * `s.distinct()`: each value of `s` once, kept where it first occurs.
   * Defined by adding the last element when it is new to the prefix.
   */
  function Distinct<T(==)>(s: seq<T>): (r: seq<T>)
    ensures NoDuplicates(r)
    ensures forall i :: 0 <= i < |r| ==> r[i] in s
    ensures forall i :: 0 <= i < |s| ==> s[i] in r
  {
    if |s| == 0 then []
    else
      var prefix := Distinct(s[..|s| - 1]);
      assert forall i :: 0 <= i < |s| - 1 ==> s[i] == s[..|s| - 1][i];
      if s[|s| - 1] in prefix then prefix else prefix + [s[|s| - 1]]
  }

  /** Appending a value to the input appends it to the distinct list exactly when it is new. */
  lemma DistinctSnoc<T>(s: seq<T>, x: T)
    ensures Distinct(s + [x]) == if x in s then Distinct(s) else Distinct(s) + [x]
  {
    assert (s + [x])[..|s + [x]| - 1] == s;
  }

  /** First occurrences in a prefix do not move when the sequence is extended. */
  lemma {:induction false} FirstIndexExtend<T>(s: seq<T>, t: seq<T>, x: T)
    requires x in s
    ensures x in s + t && FirstIndex(s + t, x) == FirstIndex(s, x)
  {
    if s[0] != x {
      assert (s + t)[1..] == s[1..] + t;
      FirstIndexExtend(s[1..], t, x);
    }
  }

  /**
   * The distinct values come in the order of their first occurrence in
   * the input: an earlier entry first occurs strictly earlier.
   */
  lemma {:induction false} DistinctFirstOccurrenceOrder<T>(s: seq<T>, i: nat, j: nat)
    requires i < j < |Distinct(s)|
    ensures Distinct(s)[i] in s && Distinct(s)[j] in s
    ensures FirstIndex(s, Distinct(s)[i]) < FirstIndex(s, Distinct(s)[j])
  {
    var n := |s| - 1;
    var p := s[..n];
    var x := s[n];
    assert s == p + [x];
    DistinctSnoc(p, x);
    var d := Distinct(p);
    if j < |d| {
      DistinctFirstOccurrenceOrder(p, i, j);
      FirstIndexExtend(p, [x], d[i]);
      FirstIndexExtend(p, [x], d[j]);
    } else {
      // the last distinct value is x itself, new to p, so it first occurs at n
      assert x !in p && Distinct(s)[j] == x;
      assert d[i] in p;
      FirstIndexExtend(p, [x], d[i]);
    }
  }

  /** Two inputs with the same elements have the same distinct values. */
  lemma DistinctSameElements<T>(a: seq<T>, b: seq<T>)
    requires forall x :: x in a <==> x in b
    ensures forall x :: x in Distinct(a) <==> x in Distinct(b)
  {
  }
}
