/** Code-point order on strings and the sorted listing of a set, as the program's `sorted` gives it.
    Sorting by UTF-8 bytes (`key=str.encode`) is the same order. */
module Ordering {

  /** `a` sorts before or equals `b`. */
  predicate Below(a: string, b: string) {
    a == [] || (b != [] && (a[0] < b[0] || (a[0] == b[0] && Below(a[1..], b[1..]))))
  }

  lemma BelowTotal(a: string, b: string)
    ensures Below(a, b) || Below(b, a)
  {}

  lemma BelowAntisymmetric(a: string, b: string)
    requires Below(a, b) && Below(b, a)
    ensures a == b
  {
    if a != [] {
      BelowAntisymmetric(a[1..], b[1..]);
      assert a == [a[0]] + a[1..] && b == [b[0]] + b[1..];
    }
  }

  lemma BelowTransitive(a: string, b: string, c: string)
    requires Below(a, b) && Below(b, c)
    ensures Below(a, c)
  {}

  /** The order compares the first characters in which the texts differ; a prefix comes first. */
  lemma {:induction false} BelowExactly(a: string, b: string)
    ensures Below(a, b) <==>
            a <= b || exists k :: 0 <= k < |a| && k < |b| && a[..k] == b[..k] && a[k] < b[k]
  {
    if a != [] && b != [] {
      if a[0] == b[0] {
        var x, y := a[1..], b[1..];
        BelowExactly(x, y);
        assert a == [a[0]] + x && b == [b[0]] + y;
        assert a <= b <==> x <= y;
        if k :| 0 <= k < |x| && k < |y| && x[..k] == y[..k] && x[k] < y[k] {
          assert a[..k + 1] == [a[0]] + x[..k] && b[..k + 1] == [b[0]] + y[..k];
        }
        if k :| 0 <= k < |a| && k < |b| && a[..k] == b[..k] && a[k] < b[k] {
          assert x[..k - 1] == a[..k][1..] && y[..k - 1] == b[..k][1..];
        }
      } else {
        assert a[..0] == b[..0];
        if k :| 0 <= k < |a| && k < |b| && a[..k] == b[..k] && a[k] < b[k] {
          if k > 0 { assert a[..k][0] == b[..k][0]; }
        }
      }
    }
  }

  predicate IsLeast(m: string, s: set<string>) {
    m in s && forall k | k in s :: Below(m, k)
  }

  lemma LeastExists(s: set<string>)
    requires s != {}
    ensures exists m :: IsLeast(m, s)
  {
    var k :| k in s;
    BelowTotal(k, k);
    if s == {k} {
      assert IsLeast(k, s);
    } else {
      LeastExists(s - {k});
      var r :| IsLeast(r, s - {k});
      BelowTotal(k, r);
      var m := if Below(k, r) then k else r;
      forall x | x in s
        ensures Below(m, x)
      {
        if x != k { BelowTransitive(m, r, x); }
      }
      assert IsLeast(m, s);
    }
  }

  /** The elements of `s` in ascending order. */
  function Sorted(s: set<string>): (r: seq<string>)
    ensures Ascending(r) && Elements(r) == s
  {
    if s == {} then [] else
      LeastUnique(s);
      var m :| m in s && IsLeast(m, s);
      PrependLeast(m, s, Sorted(s - {m}));
      [m] + Sorted(s - {m})
  }

  lemma LeastUnique(s: set<string>)
    requires s != {}
    ensures exists m :: IsLeast(m, s)
    ensures forall m, n | IsLeast(m, s) && IsLeast(n, s) :: m == n
  {
    LeastExists(s);
    forall m, n | IsLeast(m, s) && IsLeast(n, s)
      ensures m == n
    {
      BelowAntisymmetric(m, n);
    }
  }

  lemma PrependLeast(m: string, s: set<string>, rest: seq<string>)
    requires IsLeast(m, s) && Ascending(rest) && Elements(rest) == s - {m}
    ensures Ascending([m] + rest) && Elements([m] + rest) == s
  {
    assert forall i | 0 <= i < |rest| :: rest[i] in Elements(rest);
    assert Elements([m] + rest) == {m} + Elements(rest);
  }

  function Elements<T>(s: seq<T>): (r: set<T>) {
    set x | x in s
  }

  /** Strictly ascending, hence free of repetitions. */
  ghost predicate Ascending(s: seq<string>) {
    forall i, j | 0 <= i < j < |s| :: Below(s[i], s[j]) && s[i] != s[j]
  }

  /** A set has one ascending listing, so nothing depends on how it was enumerated. */
  lemma {:induction false} AscendingUnique(a: seq<string>, b: seq<string>)
    requires Ascending(a) && Ascending(b)
    requires Elements(a) == Elements(b)
    ensures a == b
  {
    if a == [] {
      NoElements(a);
      NoElements(b);
    } else {
      assert a[0] in Elements(b);
      assert b != [] && b[0] in Elements(a);
      var i :| 0 <= i < |b| && b[i] == a[0];
      var j :| 0 <= j < |a| && a[j] == b[0];
      assert a[0] == b[0] by {
        if i > 0 && j > 0 { BelowAntisymmetric(a[0], b[0]); }
      }
      forall x
        ensures x in Elements(a[1..]) <==> x in Elements(b[1..])
      {
        TailMembers(a, x);
        TailMembers(b, x);
      }
      AscendingUnique(a[1..], b[1..]);
      assert a == [a[0]] + a[1..] && b == [b[0]] + b[1..];
    }
  }

  lemma NoElements<T>(s: seq<T>)
    ensures Elements(s) == {} <==> s == []
  {
    if s != [] { assert s[0] in Elements(s); }
  }

  lemma TailMembers(s: seq<string>, x: string)
    requires Ascending(s) && s != []
    ensures x in Elements(s[1..]) <==> x in Elements(s) && x != s[0]
  {
    if x in s[1..] {
      var i :| 0 <= i < |s| - 1 && s[1..][i] == x;
      assert s[i + 1] == x;
    }
    if x in s && x != s[0] {
      var i :| 0 <= i < |s| && s[i] == x;
      assert s[1..][i - 1] == x;
    }
  }

  lemma {:induction false} SortedSize(s: set<string>)
    ensures |Sorted(s)| == |s|
  {
    AscendingSize(Sorted(s));
  }

  lemma {:induction false} AscendingSize(s: seq<string>)
    requires Ascending(s)
    ensures |s| == |Elements(s)|
  {
    if s != [] {
      var rest := s[1..];
      AscendingSize(rest);
      assert s == [s[0]] + rest;
      assert Elements(s) == {s[0]} + Elements(rest);
      assert s[0] !in rest;
    }
  }

  predicate StartsWith(s: string, prefix: string) {
    prefix <= s
  }

  predicate EndsWith(s: string, suffix: string) {
    |suffix| <= |s| && s[|s| - |suffix|..] == suffix
  }
}
