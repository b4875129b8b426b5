// Sequences that are read up to a stop.
module Sequences {
  lemma Regroup<T>(a: seq<T>, b: seq<T>, c: seq<T>)
    ensures a + (b + c) == (a + b) + c
  {
  }

  lemma RegroupFour<T>(a: seq<T>, b: seq<T>, c: seq<T>, d: seq<T>)
    ensures a + b + c + d == a + (b + (c + d))
  {
    assert a + b + c == a + (b + c);
  }

  lemma Exchange<T>(a: seq<T>, b: seq<T>, c: seq<T>, b': seq<T>, c': seq<T>, d: seq<T>)
    requires b + c == b' + c'
    ensures a + b + c + d == a + b' + (c' + d)
  {
    assert a + b + c == a + (b + c) && a + b' + c' == a + (b' + c');
  }

  predicate Free<T(==)>(s: seq<T>, stops: set<T>) { forall i :: 0 <= i < |s| ==> s[i] !in stops }

  // What stands before the first of the stops, and what stands behind it.
  function Until<T(==)>(s: seq<T>, stops: set<T>): (r: seq<T>)
    ensures |r| <= |s| && r == s[..|r|] && Free(r, stops)
    ensures |r| < |s| ==> s[|r|] in stops
  {
    if s == [] || s[0] in stops then [] else [s[0]] + Until(s[1..], stops)
  }

  function After<T(==)>(s: seq<T>, stops: set<T>): seq<T> {
    if s == [] then [] else if s[0] in stops then s[1..] else After(s[1..], stops)
  }

  // What stands between the stops.
  function Fields<T(==)>(s: seq<T>, stops: set<T>): (f: seq<seq<T>>)
    ensures f != []
    decreases |s|
  {
    var first := Until(s, stops);
    if |first| == |s| then [first] else [first] + Fields(s[|first| + 1..], stops)
  }

  lemma {:induction false} SplitAtStop<T>(a: seq<T>, c: T, b: seq<T>, stops: set<T>)
    requires Free(a, stops) && c in stops
    ensures Until(a + [c] + b, stops) == a && After(a + [c] + b, stops) == b
  {
    if a == [] {
      assert a + [c] + b == [c] + b && ([c] + b)[1..] == b;
    } else {
      assert (a + [c] + b)[1..] == a[1..] + [c] + b;
      SplitAtStop(a[1..], c, b, stops);
    }
  }

  lemma {:induction false} UntilIs<T>(s: seq<T>, stops: set<T>, n: nat)
    requires n < |s| && s[n] in stops && Free(s[..n], stops)
    ensures Until(s, stops) == s[..n]
  {
    if n > 0 {
      assert s[0] == s[..n][0] && s[1..][..n - 1] == s[..n][1..];
      UntilIs(s[1..], stops, n - 1);
    }
  }

  lemma {:induction false} UntilStops<T>(s: seq<T>, stops: set<T>, i: nat)
    requires i < |s| && s[i] in stops
    ensures |Until(s, stops)| <= i
  {
    if s[0] !in stops {
      UntilStops(s[1..], stops, i - 1);
    }
  }

  lemma {:induction false} NoStop<T>(a: seq<T>, stops: set<T>)
    ensures Until(a, stops) == a <==> Free(a, stops)
    ensures Free(a, stops) ==> After(a, stops) == []
  {
    if a != [] {
      NoStop(a[1..], stops);
      assert a == [a[0]] + a[1..];
    }
  }

  lemma UntilEnds<T>(s: seq<T>, stops: set<T>, n: nat)
    requires n <= |s| && Free(s[..n], stops) && (n < |s| ==> s[n] in stops)
    ensures Until(s, stops) == s[..n]
  {
    if n < |s| {
      UntilIs(s, stops, n);
    } else {
      assert s[..n] == s;
      NoStop(s, stops);
    }
  }
}
