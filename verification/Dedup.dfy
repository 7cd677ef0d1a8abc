/** First-occurrence deduplication and the laws the ranking pipeline relies on. */
module Dedup {

  /** The distinct values of `s` in order of first occurrence. */
  function Distinct<T(==)>(s: seq<T>): (r: seq<T>) {
    if s == [] then [] else
      var r := Distinct(s[..|s| - 1]);
      if s[|s| - 1] in r then r else r + [s[|s| - 1]]
  }

  ghost predicate NoRepeats<T>(s: seq<T>) {
    forall i, j | 0 <= i < j < |s| :: s[i] != s[j]
  }

  /** The program's loop over `seen` and `result`. */
  method Deduplicate<T(==)>(values: seq<T>) returns (result: seq<T>)
    ensures result == Distinct(values)
    ensures NoRepeats(result)
    ensures forall x :: x in result <==> x in values
  {
    var seen := {};
    result := [];
    for i := 0 to |values|
      invariant result == Distinct(values[..i])
      invariant forall x :: x in seen <==> x in result
    {
      assert values[..i + 1][..i] == values[..i];
      if values[i] !in seen {
        seen := seen + {values[i]};
        result := result + [values[i]];
      }
    }
    assert values[..|values|] == values;
    DistinctMembers(values);
  }

  lemma {:induction false} DistinctMembers<T>(s: seq<T>)
    ensures NoRepeats(Distinct(s))
    ensures forall x :: x in Distinct(s) <==> x in s
    ensures |Distinct(s)| <= |s|
  {
    if s != [] {
      DistinctMembers(s[..|s| - 1]);
      assert s == s[..|s| - 1] + [s[|s| - 1]];
    }
  }

  /** Value `i` of the result is taken at its first occurrence in `s`, when exactly the values before it were taken. */
  lemma {:induction false} DistinctInOrder<T>(s: seq<T>, i: nat) returns (k: nat)
    requires i < |Distinct(s)|
    ensures k < |s| && s[k] == Distinct(s)[i] && s[k] !in s[..k] && Distinct(s[..k]) == Distinct(s)[..i]
  {
    var n := |s| - 1;
    DistinctMembers(s[..n]);
    if i == |Distinct(s[..n])| {
      k := n;
    } else {
      k := DistinctInOrder(s[..n], i);
      assert s[..n][..k] == s[..k];
    }
  }

  /** Later values only append: what was distinct stays where it was. */
  lemma {:induction false} DistinctConcat<T>(a: seq<T>, b: seq<T>)
    ensures Distinct(a) <= Distinct(a + b)
  {
    if b == [] {
      assert a + b == a;
    } else {
      var init := b[..|b| - 1];
      assert (a + b)[..|a + b| - 1] == a + init;
      DistinctConcat(a, init);
    }
  }

  lemma {:induction false} DistinctLeft<T>(a: seq<T>, b: seq<T>)
    ensures Distinct(Distinct(a) + b) == Distinct(a + b)
  {
    if b == [] {
      assert a + b == a && Distinct(a) + b == Distinct(a);
      DistinctFixed(Distinct(a));
      DistinctMembers(a);
    } else {
      var init := b[..|b| - 1];
      assert (a + b)[..|a + b| - 1] == a + init;
      assert (Distinct(a) + b)[..|Distinct(a) + b| - 1] == Distinct(a) + init;
      DistinctLeft(a, init);
    }
  }

  lemma {:induction false} DistinctRight<T>(a: seq<T>, b: seq<T>)
    ensures Distinct(a + Distinct(b)) == Distinct(a + b)
  {
    if b != [] {
      var init, last := b[..|b| - 1], b[|b| - 1];
      assert (a + b)[..|a + b| - 1] == a + init;
      DistinctRight(a, init);
      DistinctMembers(init);
      DistinctMembers(a + init);
      if last !in Distinct(init) {
        assert (a + Distinct(b))[..|a + Distinct(b)| - 1] == a + Distinct(init);
      } else {
        assert last in a + init;
      }
    }
  }

  /** A list without repetitions is its own deduplication. */
  lemma {:induction false} DistinctFixed<T>(s: seq<T>)
    ensures NoRepeats(s) <==> Distinct(s) == s
  {
    DistinctMembers(s);
    if s != [] {
      var init := s[..|s| - 1];
      DistinctFixed(init);
      DistinctMembers(init);
      assert s == init + [s[|s| - 1]];
      if NoRepeats(s) {
        assert NoRepeats(init);
        assert s[|s| - 1] !in init;
      }
    }
  }

  /** Deduplicating three lists before or after joining them is the same ranking. */
  lemma DistinctOfDistincts<T>(a: seq<T>, b: seq<T>, c: seq<T>)
    ensures Distinct(Distinct(a) + Distinct(b) + Distinct(c)) == Distinct(a + b + c)
  {
    var ab := Distinct(a) + Distinct(b);
    DistinctRight(ab, c);
    DistinctLeft(ab, c);
    DistinctRight(Distinct(a), b);
    DistinctLeft(a, b);
    DistinctLeft(a + b, c);
  }

  // ----- subsequences

  /** `a` is obtained from `b` by deleting values. */
  predicate Subsequence<T(==)>(a: seq<T>, b: seq<T>) {
    a == [] || (b != [] && ((a[0] == b[0] && Subsequence(a[1..], b[1..])) || Subsequence(a, b[1..])))
  }

  lemma {:induction false} SubsequenceSkips<T>(a: seq<T>, b: seq<T>, x: T)
    requires Subsequence(a, b)
    ensures Subsequence(a, b + [x])
    decreases |b|
  {
    if a != [] {
      assert (b + [x])[1..] == b[1..] + [x];
      if a[0] == b[0] && Subsequence(a[1..], b[1..]) {
        SubsequenceSkips(a[1..], b[1..], x);
      } else {
        SubsequenceSkips(a, b[1..], x);
      }
    }
  }

  lemma {:induction false} SubsequenceTakes<T>(a: seq<T>, b: seq<T>, x: T)
    requires Subsequence(a, b)
    ensures Subsequence(a + [x], b + [x])
    decreases |b|
  {
    if b == [] {
      assert a + [x] == [x] && b + [x] == [x];
    } else {
      assert (b + [x])[1..] == b[1..] + [x];
      if a == [] {
        SubsequenceTakes(a, b[1..], x);
      } else if a[0] == b[0] && Subsequence(a[1..], b[1..]) {
        SubsequenceTakes(a[1..], b[1..], x);
        assert (a + [x])[1..] == a[1..] + [x];
      } else {
        SubsequenceTakes(a, b[1..], x);
      }
    }
  }
}
