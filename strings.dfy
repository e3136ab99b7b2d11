/**
 * The Kotlin string operations the application relies on: `joinToString`,
 * `split` on a one-character delimiter, and `equals(…, ignoreCase = true)`
 * (restricted to ASCII case folding).
 */
module Strings {

  /** The combined length of the parts. */
  function TotalLength(parts: seq<string>): nat
  {
    if |parts| == 0 then 0 else |parts[0]| + TotalLength(parts[1..])
  }

  /**
   * The parts with `sep` between each neighbouring pair, as `joinToString(sep)`
   * builds it: every character of every part plus one separator per gap,
   * starting with the first part.
   */
  function Join(parts: seq<string>, sep: string): (r: string)
    ensures |r| == TotalLength(parts) + (if |parts| == 0 then 0 else (|parts| - 1) * |sep|)
    ensures |parts| > 0 ==> r[..|parts[0]|] == parts[0]
  {
    if |parts| == 0 then ""
    else if |parts| == 1 then parts[0]
    else parts[0] + sep + Join(parts[1..], sep)
  }

  /** Joining two non-empty lists puts exactly one separator between the two joins. */
  lemma {:induction false} JoinAppend(a: seq<string>, b: seq<string>, sep: string)
    requires |a| > 0 && |b| > 0
    ensures Join(a + b, sep) == Join(a, sep) + sep + Join(b, sep)
  {
    if |a| == 1 {
      assert (a + b)[1..] == b;
    } else {
      assert (a + b)[1..] == a[1..] + b;
      JoinAppend(a[1..], b, sep);
    }
  }

  /** Appending one more part: the join grows by a separator and that part. */
  lemma JoinSnoc(a: seq<string>, p: string, sep: string)
    requires |a| > 0
    ensures Join(a + [p], sep) == Join(a, sep) + sep + p
  {
    JoinAppend(a, [p], sep);
  }

  /**
   * Kotlin's `s.split(d)` with no limit: every maximal run between
   * delimiters, empty runs included, so the result is never empty.
   */
  function Split(s: string, d: char): (r: seq<string>)
    ensures |r| >= 1
    ensures forall k :: 0 <= k < |r| ==> d !in r[k]
  {
    if |s| == 0 then [""]
    else
      var rest := Split(s[1..], d);
      if s[0] == d then [""] + rest
      else [[s[0]] + rest[0]] + rest[1..]
  }

  /** Splitting and joining back with the same delimiter gives the original string. */
  lemma {:induction false} JoinSplit(s: string, d: char)
    ensures Join(Split(s, d), [d]) == s
  {
    if |s| > 0 {
      var rest := Split(s[1..], d);
      JoinSplit(s[1..], d);
      if s[0] == d {
        assert Split(s, d) == [""] + rest;
        assert ([""] + rest)[1..] == rest;
        assert s == [d] + s[1..];
      } else {
        var parts := [[s[0]] + rest[0]] + rest[1..];
        assert Split(s, d) == parts;
        if |rest| == 1 {
          assert s == [s[0]] + s[1..];
        } else {
          assert parts[1..] == rest[1..];
          assert Join(rest, [d]) == rest[0] + [d] + Join(rest[1..], [d]);
          assert s == [s[0]] + s[1..];
        }
      }
    }
  }

  /** A string without the delimiter splits into itself alone. */
  lemma {:induction false} SplitWithoutDelimiter(w: string, d: char)
    requires d !in w
    ensures Split(w, d) == [w]
  {
    if |w| > 0 {
      SplitWithoutDelimiter(w[1..], d);
      assert [w[0]] + w[1..] == w;
    }
  }

  /** A delimiter-free prefix followed by the delimiter is split off as the first piece. */
  lemma {:induction false} SplitAfterPrefix(w: string, t: string, d: char)
    requires d !in w
    ensures Split(w + [d] + t, d) == [w] + Split(t, d)
  {
    var s := w + [d] + t;
    if |w| == 0 {
      assert s == [d] + t && s[1..] == t;
    } else {
      assert s[1..] == w[1..] + [d] + t;
      SplitAfterPrefix(w[1..], t, d);
      assert [w[0]] + w[1..] == w;
    }
  }

  /** Joining delimiter-free pieces and splitting again recovers the pieces. */
  lemma {:induction false} SplitJoin(parts: seq<string>, d: char)
    requires |parts| >= 1
    requires forall k :: 0 <= k < |parts| ==> d !in parts[k]
    ensures Split(Join(parts, [d]), d) == parts
  {
    if |parts| == 1 {
      SplitWithoutDelimiter(parts[0], d);
    } else {
      SplitJoin(parts[1..], d);
      SplitAfterPrefix(parts[0], Join(parts[1..], [d]), d);
      assert [parts[0]] + parts[1..] == parts;
    }
  }

  /** ASCII lower-casing of one character; every other character is left alone. */
  function LowerAscii(c: char): char
  {
    if 'A' <= c <= 'Z' then (c as int - 'A' as int + 'a' as int) as char else c
  }

  /** The string with every ASCII capital lower-cased. */
  function LowerAll(s: string): (r: string)
    ensures |r| == |s|
    ensures forall i :: 0 <= i < |s| ==> r[i] == LowerAscii(s[i])
  {
    if |s| == 0 then "" else [LowerAscii(s[0])] + LowerAll(s[1..])
  }

  /**
   * `a.equals(b, ignoreCase = true)`: same length, and each pair of
   * characters equal after folding case (ASCII only). This is exactly
   * equality of the lower-cased strings.
   */
  predicate EqualsIgnoreCase(a: string, b: string): (r: bool)
    ensures r <==> LowerAll(a) == LowerAll(b)
  {
    assert LowerAll(a) == LowerAll(b) ==>
      forall i :: 0 <= i < |a| ==> LowerAll(a)[i] == LowerAll(b)[i];
    |a| == |b| && forall i :: 0 <= i < |a| ==> LowerAscii(a[i]) == LowerAscii(b[i])
  }

  /** Ignoring case is an equivalence: reflexive, symmetric and transitive. */
  lemma EqualsIgnoreCaseEquivalence(a: string, b: string, c: string)
    ensures EqualsIgnoreCase(a, a)
    ensures EqualsIgnoreCase(a, b) ==> EqualsIgnoreCase(b, a)
    ensures EqualsIgnoreCase(a, b) && EqualsIgnoreCase(b, c) ==> EqualsIgnoreCase(a, c)
  {
  }
}
