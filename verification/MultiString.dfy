// Lists of strings in one buffer, each ended by a NUL and the last by two (the `change` family
// of opos/code_tools/ct_convert.h and copy_btb of opos/code_tools/ct_operation.h). A cell is a
// character of any width.
module MultiString {
  import opened Sequences

  type Text = seq<nat>

  const NUL: nat := 0

  // ----- What a buffer holds -----

  function Cells(list: seq<Text>): Text {
    if list == [] then [] else list[0] + [NUL] + Cells(list[1..])
  }

  function Encoded(list: seq<Text>): Text { Cells(list) + [NUL] }

  // The first NUL from k on, or the end of the buffer.
  function Stop(s: Text, k: nat): (n: nat)
    requires k <= |s|
    ensures k <= n <= |s| && (n < |s| ==> s[n] == NUL)
    decreases |s| - k
  {
    if k == |s| || s[k] == NUL then k else Stop(s, k + 1)
  }

  // Walking from string to string comes to an empty one inside the buffer.
  predicate Ends(s: Text, k: nat)
    decreases |s| - k
  {
    k < |s| && (s[k] == NUL || (Stop(s, k) < |s| && Ends(s, Stop(s, k) + 1)))
  }

  // The strings from k on.
  function Decoded(s: Text, k: nat): seq<Text>
    requires Ends(s, k)
    decreases |s| - k
  {
    if s[k] == NUL then [] else [s[k..Stop(s, k)]] + Decoded(s, Stop(s, k) + 1)
  }

  // ----- Encoding -----

  function SizeOf(list: seq<Text>): nat {
    if list == [] then 0 else |list[0]| + 1 + SizeOf(list[1..])
  }

  lemma {:induction false} SizeOfConcat(a: seq<Text>, b: seq<Text>)
    ensures SizeOf(a + b) == SizeOf(a) + SizeOf(b) && Cells(a + b) == Cells(a) + Cells(b)
    ensures |Cells(a)| == SizeOf(a)
  {
    if a == [] {
      assert a + b == b;
    } else {
      assert (a + b)[1..] == a[1..] + b && (a + b)[0] == a[0];
      SizeOfConcat(a[1..], b);
      assert a[0] + [NUL] + (Cells(a[1..]) + Cells(b)) == a[0] + [NUL] + Cells(a[1..]) + Cells(b);
    }
  }

  lemma CellsOne(s: Text)
    ensures SizeOf([s]) == |s| + 1 && Cells([s]) == s + [NUL]
  {
    var rest := [s][1..];
    assert rest == [];
  }

  lemma CellsPush(list: seq<Text>, k: nat)
    requires k < |list|
    ensures SizeOf(list[..k + 1]) == SizeOf(list[..k]) + |list[k]| + 1
    ensures Cells(list[..k + 1]) == Cells(list[..k]) + list[k] + [NUL]
  {
    assert list[..k + 1] == list[..k] + [list[k]];
    SizeOfConcat(list[..k], [list[k]]);
    CellsOne(list[k]);
  }

  lemma Distribute(a: nat, b: nat, width: nat)
    ensures (a + b) * width == a * width + b * width
  {
  }

  // The answer to a caller that passes no buffer: the room it needs, in bytes.
  method RequiredSize(list: seq<Text>, width: nat) returns (size: nat)
    ensures size == if list == [] then 0 else |Encoded(list)| * width
  {
    if list == [] {
      return 0;
    }
    size := 0;
    for k := 0 to |list|
      invariant size == SizeOf(list[..k]) * width
    {
      CellsPush(list, k);
      Distribute(SizeOf(list[..k]), |list[k]| + 1, width);
      size := size + (|list[k]| + 1) * width;
    }
    assert list[..|list|] == list;
    SizeOfConcat(list, []);
    Distribute(SizeOf(list), 1, width);
    size := size + width;
  }

  method WriteString(dst: array<nat>, at: nat, s: Text, ghost before: Text, ghost was: Text) returns (at': nat)
    requires at == |before| && at + |s| < dst.Length == |was| && dst[..] == before + was[at..]
    modifies dst
    ensures at' == at + |s| + 1 && dst[..] == before + s + [NUL] + was[at'..]
  {
    for i := 0 to |s|
      invariant dst[..] == before + s[..i] + was[at + i..]
    {
      dst[at + i] := s[i];
    }
    assert s[..|s|] == s;
    dst[at + |s|] := NUL;
    at' := at + |s| + 1;
  }

  lemma CellsNext(list: seq<Text>, k: nat, before: Text)
    requires k < |list| && before == Cells(list[..k])
    ensures before + list[k] + [NUL] == Cells(list[..k + 1])
    ensures |before| + |list[k]| + 1 < |Encoded(list)|
  {
    CellsPush(list, k);
    SizeOfConcat(list[..k + 1], list[k + 1..]);
    assert list[..k + 1] + list[k + 1..] == list;
  }

  method WriteStrings(dst: array<nat>, list: seq<Text>) returns (at: nat)
    requires |Cells(list)| < dst.Length
    modifies dst
    ensures at == |Cells(list)| && dst[..] == Cells(list) + old(dst[..])[at..]
  {
    at := 0;
    ghost var was, before: Text := dst[..], [];
    for k := 0 to |list|
      invariant before == Cells(list[..k]) && at == |before| < dst.Length && dst[..] == before + was[at..]
    {
      CellsNext(list, k, before);
      at := WriteString(dst, at, list[k], before, was);
      before := before + list[k] + [NUL];
    }
    assert list[..|list|] == list;
  }

  // Writes the strings and leaves what is behind them.
  method Encode(dst: array<nat>, list: seq<Text>) returns (count: nat)
    requires list != [] ==> |Encoded(list)| <= dst.Length
    modifies dst
    ensures count == |list|
    ensures list == [] ==> dst[..] == old(dst[..])
    ensures list != [] ==> dst[..] == Encoded(list) + old(dst[..])[|Encoded(list)|..]
  {
    count := 0;
    if list == [] {
      return;
    }
    count := |list|;
    var at := WriteStrings(dst, list);
    dst[at] := NUL;
  }

  // The strings of the set, each once.
  ghost predicate Lists(list: seq<Text>, s: set<Text>) {
    && (forall t :: t in s <==> t in list)
    && (forall i, j :: 0 <= i < j < |list| ==> list[i] != list[j])
  }

  // copy_btb, which takes a set and lets the buffer grow.
  method EncodeSet(src: set<Text>) returns (dst: Text)
    ensures src == {} ==> dst == []
    ensures src != {} ==> exists order :: Lists(order, src) && dst == Encoded(order)
  {
    dst := [];
    if src == {} {
      return;
    }
    ghost var order: seq<Text> := [];
    var rest := src;
    while rest != {}
      invariant rest <= src && Lists(order, src - rest) && dst == Cells(order)
      decreases |rest|
    {
      var s :| s in rest;
      SizeOfConcat(order, [s]);
      CellsOne(s);
      dst := dst + s + [NUL];
      order := order + [s];
      rest := rest - {s};
    }
    assert src - rest == src;
    dst := dst + [NUL];
  }

  // ----- Decoding -----

  // A C string read from position k.
  method ReadString(s: Text, k: nat) returns (t: Text)
    requires k <= |s|
    ensures t == s[k..Stop(s, k)]
  {
    t := [];
    var n := k;
    while n < |s| && s[n] != NUL
      invariant k <= n <= |s| && t == s[k..n] && Stop(s, k) == Stop(s, n)
    {
      t := t + [s[n]];
      n := n + 1;
    }
  }

  method Decode(s: Text) returns (list: seq<Text>, count: nat)
    requires Ends(s, 0)
    ensures list == Decoded(s, 0) && count == |list|
  {
    list, count := [], 0;
    var offset := 0;
    while s[offset] != NUL
      invariant Ends(s, offset) && Decoded(s, 0) == list + Decoded(s, offset) && count == |list|
      decreases |s| - offset
    {
      var t := ReadString(s, offset);
      Regroup(list, [t], Decoded(s, Stop(s, offset) + 1));
      list := list + [t];
      offset := offset + |t| + 1;
      count := count + 1;
    }
  }

  function Elements(list: seq<Text>): set<Text> { set t | t in list }

  lemma Insert(list: seq<Text>, t: Text)
    ensures Elements(list + [t]) == Elements(list) + {t}
    ensures |Elements(list) + {t}| == |Elements(list)| + if t in Elements(list) then 0 else 1
  {
    if t in Elements(list) {
      assert Elements(list) + {t} == Elements(list);
    }
  }

  method DecodeSet(s: Text) returns (found: set<Text>, count: nat)
    requires Ends(s, 0)
    ensures found == Elements(Decoded(s, 0)) && count == |found|
  {
    found, count := {}, 0;
    var offset := 0;
    ghost var list: seq<Text> := [];
    while s[offset] != NUL
      invariant Ends(s, offset) && Decoded(s, 0) == list + Decoded(s, offset)
      invariant found == Elements(list) && count == |found|
      decreases |s| - offset
    {
      var t := ReadString(s, offset);
      Regroup(list, [t], Decoded(s, Stop(s, offset) + 1));
      Insert(list, t);
      list := list + [t];
      if t !in found {
        count := count + 1;
      }
      found := found + {t};
      offset := offset + |t| + 1;
    }
  }

  // ----- There and back -----

  predicate Plain(t: Text) { t != [] && NUL !in t }

  predicate AllPlain(list: seq<Text>) { forall i :: 0 <= i < |list| ==> Plain(list[i]) }

  lemma {:induction false} StopIs(s: Text, k: nat, n: nat)
    requires k <= n < |s| && s[n] == NUL
    ensures Stop(s, k) <= n
    ensures (forall i :: k <= i < n ==> s[i] != NUL) <==> Stop(s, k) == n
    decreases n - k
  {
    if k < n && s[k] != NUL {
      StopIs(s, k + 1, n);
    }
  }

  // A buffer that holds two NULs in a row can be walked from anywhere before them.
  lemma {:induction false} TwoNulsEnd(s: Text, k: nat, n: nat)
    requires k <= n + 1 < |s| && s[n] == NUL && s[n + 1] == NUL
    ensures Ends(s, k)
    decreases n + 1 - k
  {
    if k <= n {
      StopIs(s, k, n);
      TwoNulsEnd(s, Stop(s, k) + 1, n);
    }
  }

  // s holds the encoded list from k on.
  predicate Holds(s: Text, k: nat, list: seq<Text>)
    decreases |list|
  {
    if list == [] then k < |s| && s[k] == NUL
    else
      && k + |list[0]| < |s| && s[k..k + |list[0]|] == list[0] && s[k + |list[0]|] == NUL
      && Holds(s, k + |list[0]| + 1, list[1..])
  }

  lemma {:induction false} EncodedHolds(s: Text, before: Text, list: seq<Text>, rest: Text)
    requires s == before + Encoded(list) + rest
    ensures Holds(s, |before|, list)
    decreases |list|
  {
    if list != [] {
      var t, k := list[0], |before|;
      assert Encoded(list) == t + [NUL] + Encoded(list[1..]);
      assert s[k..k + |t|] == t;
      EncodedHolds(s, before + t + [NUL], list[1..], rest);
    }
  }

  // The last string ends in two NULs.
  lemma {:induction false} TwoNuls(s: Text, k: nat, list: seq<Text>) returns (n: nat)
    requires list != [] && Holds(s, k, list)
    ensures k <= n + 1 < |s| && s[n] == NUL && s[n + 1] == NUL
    decreases |list|
  {
    var next := k + |list[0]| + 1;
    if |list| == 1 {
      n := next - 1;
    } else {
      n := TwoNuls(s, next, list[1..]);
    }
  }

  lemma DecodesFirst(s: Text, k: nat, t: Text)
    requires Plain(t) && Ends(s, k) && k + |t| < |s| && s[k..k + |t|] == t && s[k + |t|] == NUL
    ensures Ends(s, k + |t| + 1) && Decoded(s, k) == [t] + Decoded(s, k + |t| + 1)
  {
    assert forall i :: 0 <= i < |t| ==> t[i] == s[k + i];
    assert s[k] == t[0];
    StopIs(s, k, k + |t|);
  }

  lemma NotFirst(s: Text, k: nat, list: seq<Text>)
    requires list != [] && Ends(s, k) && Holds(s, k, list) && !Plain(list[0])
    ensures Decoded(s, k) != list
  {
    var t := list[0];
    StopIs(s, k, k + |t|);
    if t != [] {
      var i :| 0 <= i < |t| && t[i] == NUL;
      assert s[k + i] == NUL;
      assert s[k] != NUL ==> |Decoded(s, k)[0]| == Stop(s, k) - k < |t|;
    }
  }

  lemma HeldEnds(s: Text, k: nat, list: seq<Text>)
    requires list != [] && Holds(s, k, list)
    ensures Ends(s, k)
  {
    var n := TwoNuls(s, k, list);
    TwoNulsEnd(s, k, n);
  }

  lemma PlainFirst(t: Text, behind: seq<Text>, rest: seq<Text>)
    requires Plain(t) && (behind == rest <==> AllPlain(rest))
    ensures [t] + behind == [t] + rest <==> AllPlain([t] + rest)
  {
    assert ([t] + behind)[1..] == behind && ([t] + rest)[1..] == rest;
    assert AllPlain([t] + rest) <==> AllPlain(rest);
  }

  lemma RestIsRead(s: Text, k: nat, t: Text, rest: seq<Text>)
    requires Plain(t) && Ends(s, k) && k + |t| < |s| && s[k..k + |t|] == t && s[k + |t|] == NUL
    requires Ends(s, k + |t| + 1) && (Decoded(s, k + |t| + 1) == rest <==> AllPlain(rest))
    ensures Decoded(s, k) == [t] + rest <==> AllPlain([t] + rest)
  {
    DecodesFirst(s, k, t);
    PlainFirst(t, Decoded(s, k + |t| + 1), rest);
  }

  // What is encoded comes back exactly when every string is non-empty and free of NULs,
  // whatever stands before and behind it in the buffer.
  lemma {:induction false} RoundTrip(s: Text, k: nat, list: seq<Text>)
    requires list != [] && Holds(s, k, list)
    ensures Ends(s, k) && (Decoded(s, k) == list <==> AllPlain(list))
    decreases |list|
  {
    HeldEnds(s, k, list);
    var t, rest := list[0], list[1..];
    if Plain(t) {
      DecodesFirst(s, k, t);
      if rest != [] {
        RoundTrip(s, k + |t| + 1, rest);
      }
      RestIsRead(s, k, t, rest);
      assert list == [t] + rest;
    } else {
      NotFirst(s, k, list);
    }
  }

  lemma {:induction false} StopIsFirst(s: Text, k: nat)
    requires k <= |s|
    ensures forall i :: k <= i < Stop(s, k) ==> s[i] != NUL
    decreases |s| - k
  {
    if k < |s| && s[k] != NUL {
      StopIsFirst(s, k + 1);
    }
  }

  lemma {:induction false} DecodedPlain(s: Text, k: nat)
    requires Ends(s, k)
    ensures AllPlain(Decoded(s, k))
    decreases |s| - k
  {
    if s[k] != NUL {
      StopIsFirst(s, k);
      DecodedPlain(s, Stop(s, k) + 1);
    }
  }

  // The same for sets, in whatever order their strings are written.
  lemma SetRoundTrip(src: set<Text>, order: seq<Text>, rest: Text)
    requires src != {} && Lists(order, src)
    ensures var s := Encoded(order) + rest;
            Ends(s, 0) && (Elements(Decoded(s, 0)) == src <==> forall t :: t in src ==> Plain(t))
  {
    var s := Encoded(order) + rest;
    assert order != [] by {
      var t :| t in src;
    }
    assert s == [] + Encoded(order) + rest;
    EncodedHolds(s, [], order, rest);
    RoundTrip(s, 0, order);
    DecodedPlain(s, 0);
    if forall t :: t in src ==> Plain(t) {
      assert forall i :: 0 <= i < |order| ==> order[i] in src;
      assert Elements(order) == src;
    }
  }

  // ----- The scan that stays inside given bounds (change_from_utf8_multistring) -----

  // Where a string starts, and its length with the NUL.
  datatype Part = Part(start: nat, size: nat)

  // The string that starts at k is complete, and another NUL stands behind it or it is followed
  // by parts up to such a place; nothing if the bounds are reached first.
  function Parts(s: Text, k: nat): (r: seq<Part>)
    requires k <= |s|
    decreases |s| - k
  {
    var n := Stop(s, k);
    if n + 1 >= |s| then []
    else if s[n + 1] == NUL then [Part(k, n + 1 - k)]
    else
      var rest := Parts(s, n + 1);
      if rest == [] then [] else [Part(k, n + 1 - k)] + rest
  }

  method Scan(s: Text) returns (parts: seq<Part>, count: nat)
    ensures count == |Parts(s, 0)| && (count > 0 ==> parts == Parts(s, 0))
  {
    parts, count := [], 0;
    var start, size, i: nat := 0, 0, 0;
    while i < |s|
      invariant start + size == i <= |s| && Stop(s, start) == Stop(s, i)
      invariant Parts(s, 0) == if Parts(s, start) == [] then [] else parts + Parts(s, start)
      invariant count == 0
      decreases |s| - i
    {
      if s[i] != NUL {
        size := size + 1;
      } else {
        if i + 1 >= |s| {
          return;
        }
        Regroup(parts, [Part(start, size + 1)], Parts(s, i + 1));
        parts := parts + [Part(start, size + 1)];
        if s[i + 1] == NUL {
          return parts, |parts|;
        }
        start, size := i + 1, 0;
      }
      i := i + 1;
    }
  }

  function TextOf(s: Text, p: Part): Text {
    if 0 < p.size && p.start + p.size <= |s| then s[p.start..p.start + p.size - 1] else []
  }

  function Strings(s: Text, parts: seq<Part>): seq<Text> {
    if parts == [] then [] else [TextOf(s, parts[0])] + Strings(s, parts[1..])
  }

  // Two NULs in a row stand somewhere from k on.
  predicate HasPair(s: Text, k: nat) { exists n :: k <= n < |s| - 1 && s[n] == NUL && s[n + 1] == NUL }

  // The first NUL decides, or what stands behind it.
  lemma PairBehind(s: Text, k: nat)
    requires k <= |s|
    ensures var n := Stop(s, k);
            HasPair(s, k) <==> n + 1 < |s| && (s[n + 1] == NUL || HasPair(s, n + 1))
  {
    StopIsFirst(s, k);
    if HasPair(s, k) {
      var n :| k <= n < |s| - 1 && s[n] == NUL && s[n + 1] == NUL;
      assert n >= Stop(s, k);
    }
  }

  lemma {:induction false} PartsNeedPair(s: Text, k: nat)
    requires k <= |s|
    ensures Parts(s, k) != [] <==> HasPair(s, k)
    decreases |s| - k
  {
    PairBehind(s, k);
    if Stop(s, k) + 1 < |s| {
      PartsNeedPair(s, Stop(s, k) + 1);
    }
  }

  lemma StringsCons(s: Text, p: Part, rest: seq<Part>)
    ensures Strings(s, [p] + rest) == [TextOf(s, p)] + Strings(s, rest)
  {
    assert ([p] + rest)[1..] == rest;
  }

  lemma {:induction false} PartsAreDecoded(s: Text, k: nat)
    requires k <= |s| && Parts(s, k) != []
    ensures Ends(s, k) && (s[k] != NUL ==> Strings(s, Parts(s, k)) == Decoded(s, k))
    decreases |s| - k
  {
    var n := Stop(s, k);
    var p := Part(k, n + 1 - k);
    assert TextOf(s, p) == s[k..n];
    if s[n + 1] == NUL {
      StringsCons(s, p, []);
    } else {
      PartsAreDecoded(s, n + 1);
      StringsCons(s, p, Parts(s, n + 1));
    }
  }

  // The scan finds strings exactly when there are two NULs in a row; and it finds those of the
  // walk from string to string exactly when the first of them is not empty.
  lemma ScanIsWalk(s: Text)
    ensures Parts(s, 0) != [] <==> HasPair(s, 0)
    ensures HasPair(s, 0) ==> Ends(s, 0) && (Strings(s, Parts(s, 0)) == Decoded(s, 0) <==> s[0] != NUL)
  {
    PartsNeedPair(s, 0);
    if HasPair(s, 0) {
      PartsAreDecoded(s, 0);
    }
  }

  // So the strings that were encoded are found by both.
  lemma ScanFindsEncoded(list: seq<Text>, rest: Text)
    requires list != [] && AllPlain(list)
    ensures var s := Encoded(list) + rest; Parts(s, 0) != [] && Strings(s, Parts(s, 0)) == list
  {
    var s := Encoded(list) + rest;
    assert s == [] + Encoded(list) + rest;
    EncodedHolds(s, [], list, rest);
    RoundTrip(s, 0, list);
    var n := TwoNuls(s, 0, list);
    assert Encoded(list)[0] == s[0] == list[0][0];
    assert list[0][0] in list[0];
    ScanIsWalk(s);
  }
}
