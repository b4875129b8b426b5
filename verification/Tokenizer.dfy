// Splitting a text at separator characters (tokenizer in opos/code_tools/ct_convert.h).
module Tokenizer {
  import opened Sequences

  // ----- What is made of the fields of a text -----

  function NonEmpty(fields: seq<string>): seq<string> {
    if fields == [] then [] else (if fields[0] == [] then [] else [fields[0]]) + NonEmpty(fields[1..])
  }

  // The separator characters of a text, in order.
  function Separating(s: string, separators: set<char>): string {
    if s == [] then [] else (if s[0] in separators then [s[0]] else []) + Separating(s[1..], separators)
  }

  function Interleaved(fields: seq<string>, between: string): string
    requires |fields| == |between| + 1
  {
    if between == [] then fields[0] else fields[0] + [between[0]] + Interleaved(fields[1..], between[1..])
  }

  // ----- The scan -----

  // find_first_of and find_first_not_of, with the length of the text for npos.
  function FindOf(s: string, separators: set<char>, from: nat): (i: nat)
    requires from <= |s|
    ensures from <= i <= |s| && (i < |s| ==> s[i] in separators)
    ensures forall k :: from <= k < i ==> s[k] !in separators
    decreases |s| - from
  {
    if from == |s| || s[from] in separators then from else FindOf(s, separators, from + 1)
  }

  function FindNotOf(s: string, separators: set<char>, from: nat): (i: nat)
    requires from <= |s|
    ensures from <= i <= |s| && (i < |s| ==> s[i] !in separators)
    ensures forall k :: from <= k < i ==> s[k] in separators
    decreases |s| - from
  {
    if from == |s| || s[from] !in separators then from else FindNotOf(s, separators, from + 1)
  }

  function Empties(n: nat): (r: seq<string>)
    ensures |r| == n
  {
    seq(n, i => [])
  }

  function Wanted(fields: seq<string>, ignoreEmpty: bool): seq<string> {
    if ignoreEmpty then NonEmpty(fields) else fields
  }

  // The tokens from position `start` on.
  function Ahead(src: string, separators: set<char>, ignoreEmpty: bool, start: nat): seq<string>
    requires start <= |src|
  {
    Wanted(Fields(src[start..], separators), ignoreEmpty)
  }

  lemma EmptiesCons(n: nat)
    ensures [[]] + Empties(n) == Empties(n + 1)
  {
  }

  // Leading separators make as many empty fields, one more if nothing follows.
  lemma {:induction false} EmptyFields(s: string, separators: set<char>, n: nat)
    requires n <= |s| && forall k :: 0 <= k < n ==> s[k] in separators
    ensures Fields(s, separators) == if n == |s| then Empties(n + 1) else Empties(n) + Fields(s[n..], separators)
    decreases n
  {
    if n == 0 {
      assert s[0..] == s && Empties(0) + Fields(s, separators) == Fields(s, separators);
      if s == [] {
        assert Fields(s, separators) == [[]] == Empties(1);
      }
    } else {
      var rest := s[1..];
      EmptyFields(rest, separators, n - 1);
      assert rest[n - 1..] == s[n..] && Fields(s, separators) == [[]] + Fields(rest, separators);
      EmptiesCons(n - 1);
      EmptiesCons(n);
      if n < |s| {
        Regroup([[]], Empties(n - 1), Fields(s[n..], separators));
      }
    }
  }

  lemma {:induction false} EmptiesIgnored(n: nat)
    ensures NonEmpty(Empties(n)) == []
  {
    if n > 0 {
      EmptiesIgnored(n - 1);
      assert Empties(n)[1..] == Empties(n - 1);
    }
  }

  lemma {:induction false} NonEmptyConcat(a: seq<string>, b: seq<string>)
    ensures NonEmpty(a + b) == NonEmpty(a) + NonEmpty(b)
  {
    if a == [] {
      assert a + b == b;
    } else {
      assert (a + b)[1..] == a[1..] + b && (a + b)[0] == a[0];
      NonEmptyConcat(a[1..], b);
      Regroup(if a[0] == [] then [] else [a[0]], NonEmpty(a[1..]), NonEmpty(b));
    }
  }

  lemma LeadingSeparators(s: string, separators: set<char>, n: nat, ignoreEmpty: bool)
    requires n <= |s| && forall k :: 0 <= k < n ==> s[k] in separators
    ensures n == |s| ==> Wanted(Fields(s, separators), ignoreEmpty) == if ignoreEmpty then [] else Empties(n + 1)
    ensures n < |s| ==> Wanted(Fields(s, separators), ignoreEmpty)
                        == (if ignoreEmpty then [] else Empties(n)) + Wanted(Fields(s[n..], separators), ignoreEmpty)
  {
    EmptyFields(s, separators, n);
    EmptiesIgnored(n);
    EmptiesIgnored(n + 1);
    if n < |s| {
      NonEmptyConcat(Empties(n), Fields(s[n..], separators));
    }
  }

  // A round that adds `more`, and goes on at start' if it is to run again, passes over nothing else.
  predicate Round(src: string, separators: set<char>, ignoreEmpty: bool, start: nat,
                  more: seq<string>, run: bool, start': nat)
    requires start <= |src|
  {
    && start <= start' <= |src| && (run ==> start < start')
    && Ahead(src, separators, ignoreEmpty, start)
       == more + if run then Ahead(src, separators, ignoreEmpty, start') else []
  }

  lemma LeadingField(s: string, separators: set<char>, n: nat, ignoreEmpty: bool)
    requires 0 < n < |s| && s[n] in separators && Free(s[..n], separators)
    ensures Wanted(Fields(s, separators), ignoreEmpty) == [s[..n]] + Wanted(Fields(s[n + 1..], separators), ignoreEmpty)
  {
    UntilIs(s, separators, n);
    assert ([s[..n]] + Fields(s[n + 1..], separators))[1..] == Fields(s[n + 1..], separators);
  }

  // Only separators are left.
  lemma LastSeparators(src: string, separators: set<char>, ignoreEmpty: bool, start: nat)
    requires start <= |src| && forall k :: start <= k < |src| ==> src[k] in separators
    ensures Round(src, separators, ignoreEmpty, start,
                  if ignoreEmpty then [] else Empties(|src| - start + 1), false, start)
  {
    LeadingSeparators(src[start..], separators, |src| - start, ignoreEmpty);
  }

  // Separators stand in front of a field.
  lemma FirstSeparators(src: string, separators: set<char>, ignoreEmpty: bool, start: nat, token: nat, separator: nat)
    requires start == separator < token < |src| && forall k :: start <= k < token ==> src[k] in separators
    ensures Round(src, separators, ignoreEmpty, start,
                  if ignoreEmpty then [] else Empties(token - separator), true, token)
  {
    var s, n := src[start..], token - start;
    assert s[n..] == src[token..];
    LeadingSeparators(s, separators, n, ignoreEmpty);
  }

  // No separator is left.
  lemma LastField(src: string, separators: set<char>, ignoreEmpty: bool, start: nat)
    requires start < |src| && forall k :: start <= k < |src| ==> src[k] !in separators
    ensures Round(src, separators, ignoreEmpty, start, [src[start..]], false, start)
  {
    var rest := src[start..];
    NoStop(rest, separators);
    assert Fields(rest, separators) == [rest];
    assert [rest][1..] == [] && NonEmpty([rest]) == [rest] + NonEmpty([]) == [rest];
  }

  // A field stands in front of a separator.
  lemma FirstField(src: string, separators: set<char>, ignoreEmpty: bool, start: nat, token: nat, separator: nat)
    requires start == token < separator < |src| && src[separator] in separators
    requires forall k :: start <= k < separator ==> src[k] !in separators
    ensures Round(src, separators, ignoreEmpty, start, [src[token..separator]], true, separator + 1)
  {
    var s, n := src[start..], separator - start;
    assert s[..n] == src[token..separator] && s[n + 1..] == src[separator + 1..];
    LeadingField(s, separators, n, ignoreEmpty);
  }

  // One round of the scan: what it adds, and where the next round starts if there is one.
  method NextTokens(src: string, separators: set<char>, ignoreEmpty: bool, start: nat)
    returns (more: seq<string>, run: bool, start': nat)
    requires start <= |src|
    ensures Round(src, separators, ignoreEmpty, start, more, run, start')
  {
    var token, separator := FindNotOf(src, separators, start), FindOf(src, separators, start);
    if token == |src| {
      more, run, start' := if ignoreEmpty then [] else Empties(|src| - start + 1), false, start;
      LastSeparators(src, separators, ignoreEmpty, start);
    } else if separator == |src| {
      more, run, start' := [src[start..]], false, start;
      LastField(src, separators, ignoreEmpty, start);
    } else if token > separator {
      more, run, start' := if ignoreEmpty then [] else Empties(token - separator), true, token;
      FirstSeparators(src, separators, ignoreEmpty, start, token, separator);
    } else {
      more, run, start' := [src[token..separator]], true, separator + 1;
      FirstField(src, separators, ignoreEmpty, start, token, separator);
    }
  }

  function Chars(s: string): set<char> { set c | c in s }

  method Tokenize(src: string, separators: string, ignoreEmpty: bool) returns (tokens: seq<string>)
    ensures src == [] ==> tokens == []
    ensures src != [] && separators == [] ==> tokens == [src]
    ensures src != [] && separators != [] ==> tokens == Wanted(Fields(src, Chars(separators)), ignoreEmpty)
  {
    tokens := [];
    if src == [] {
      return;
    }
    if separators == [] {
      return [src];
    }
    var stops := Chars(separators);
    var run, start: nat := true, 0;
    ghost var ahead := Ahead(src, stops, ignoreEmpty, 0);
    assert src[0..] == src;
    while run
      invariant start <= |src| && ahead == if run then Ahead(src, stops, ignoreEmpty, start) else []
      invariant Ahead(src, stops, ignoreEmpty, 0) == tokens + ahead
      decreases |src| - start, run
    {
      var more;
      more, run, start := NextTokens(src, stops, ignoreEmpty, start);
      ghost var next := if run then Ahead(src, stops, ignoreEmpty, start) else [];
      Regroup(tokens, more, next);
      tokens, ahead := tokens + more, next;
    }
  }

  // ----- The fields are the only ones that rebuild the text -----

  lemma {:induction false} NothingSeparates(a: string, separators: set<char>)
    requires Free(a, separators)
    ensures Separating(a, separators) == []
  {
    if a != [] {
      NothingSeparates(a[1..], separators);
    }
  }

  lemma {:induction false} FieldsFree(s: string, separators: set<char>)
    ensures forall i :: 0 <= i < |Fields(s, separators)| ==> Free(Fields(s, separators)[i], separators)
    decreases |s|
  {
    var first := Until(s, separators);
    if |first| < |s| {
      FieldsFree(s[|first| + 1..], separators);
    }
  }

  lemma {:induction false} SeparatingAt(s: string, separators: set<char>, n: nat)
    requires n < |s| && s[n] in separators && Free(s[..n], separators)
    ensures Separating(s, separators) == [s[n]] + Separating(s[n + 1..], separators)
    decreases n
  {
    if n > 0 {
      var rest := s[1..];
      assert s[0] == s[..n][0] && rest[..n - 1] == s[..n][1..];
      SeparatingAt(rest, separators, n - 1);
      assert rest[n..] == s[n + 1..];
    }
  }

  lemma Reassembled(s: string, n: nat)
    requires n < |s|
    ensures s[..n] + ([s[n]] + s[n + 1..]) == s
  {
  }

  lemma InterleavedCons(first: string, c: char, fields: seq<string>, between: string, fields': seq<string>,
                        between': string)
    requires |fields| == |between| + 1 && fields' == [first] + fields && between' == [c] + between
    ensures Interleaved(fields', between') == first + ([c] + Interleaved(fields, between))
  {
    assert fields'[1..] == fields && between'[1..] == between;
    Regroup(first, [c], Interleaved(fields, between));
  }

  // There is one field more than there are separators, and the fields with the separators
  // between them are the text again.
  lemma {:induction false} FieldsRebuild(s: string, separators: set<char>)
    ensures |Fields(s, separators)| == |Separating(s, separators)| + 1
    ensures Interleaved(Fields(s, separators), Separating(s, separators)) == s
    decreases |s|
  {
    var first := Until(s, separators);
    if |first| < |s| {
      var c, rest := s[|first|], s[|first| + 1..];
      FieldsRebuild(rest, separators);
      SeparatingAt(s, separators, |first|);
      InterleavedCons(first, c, Fields(rest, separators), Separating(rest, separators),
                      Fields(s, separators), Separating(s, separators));
      Reassembled(s, |first|);
    } else {
      NothingSeparates(s, separators);
    }
  }

  lemma FirstOf(first: string, c: char, rest: string, separators: set<char>)
    requires Free(first, separators) && c in separators
    ensures Fields(first + [c] + rest, separators) == [first] + Fields(rest, separators)
  {
    var s, n := first + [c] + rest, |first|;
    assert s[..n] == first && s[n] == c && s[n + 1..] == rest;
    UntilIs(s, separators, n);
  }

  // No other fields do that.
  lemma {:induction false} RebuiltFields(fields: seq<string>, between: string, separators: set<char>)
    requires |fields| == |between| + 1
    requires forall i :: 0 <= i < |fields| ==> Free(fields[i], separators)
    requires forall i :: 0 <= i < |between| ==> between[i] in separators
    ensures Fields(Interleaved(fields, between), separators) == fields
  {
    if between == [] {
      NoStop(fields[0], separators);
    } else {
      RebuiltFields(fields[1..], between[1..], separators);
      FirstOf(fields[0], between[0], Interleaved(fields[1..], between[1..]), separators);
    }
  }

  // What is left when empty fields are ignored: all other fields, as often as they occur.
  lemma {:induction false} NonEmptyKeepsRest(fields: seq<string>, f: string)
    ensures multiset(NonEmpty(fields))[f] == if f == [] then 0 else multiset(fields)[f]
  {
    if fields != [] {
      NonEmptyKeepsRest(fields[1..], f);
      assert fields == [fields[0]] + fields[1..];
      assert multiset(fields) == multiset{fields[0]} + multiset(fields[1..]);
    }
  }
}
