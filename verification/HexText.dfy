// Bytes as hexadecimal text and back (hex_string_from_binary and binary_from_hex_string in
// opos/code_tools/ct_convert.h), for text of single-byte characters.
module HexText {
  import opened Bytes
  import opened Sequences

  const LOWER_A: byte := 'a' as int
  const LOWER_F: byte := 'f' as int
  const UPPER_A: byte := 'A' as int
  const UPPER_Z: byte := 'Z' as int

  // ----- Characters -----

  predicate IsDigit(c: byte) { ZERO <= c <= NINE || LOWER_A <= c <= LOWER_F }

  function DigitValue(c: byte): (n: nat)
    requires IsDigit(c)
    ensures n < 16
  {
    if c <= NINE then c - ZERO else c - LOWER_A + 10
  }

  function Digit(n: nat): (c: byte)
    requires n < 16
    ensures IsDigit(c) && DigitValue(c) == n
  {
    if n < 10 then ZERO + n else LOWER_A + (n - 10)
  }

  function LowerChar(c: byte): byte { if UPPER_A <= c <= UPPER_Z then c + 32 else c }

  function Lower(s: Text): Text { seq(|s|, i requires 0 <= i < |s| => LowerChar(s[i])) }

  // ----- Bytes to text -----

  function HexByte(b: byte): (s: Text)
    ensures |s| == 2 && IsDigit(s[0]) && IsDigit(s[1]) && 16 * DigitValue(s[0]) + DigitValue(s[1]) == b
  {
    [Digit(b / 16), Digit(b % 16)]
  }

  function Encoded(v: seq<byte>, separator: Text): Text {
    if v == [] then [] else if |v| == 1 then HexByte(v[0]) else HexByte(v[0]) + separator + Encoded(v[1..], separator)
  }

  method Encode(v: seq<byte>, separator: Text) returns (s: Text)
    ensures s == Encoded(v, separator)
  {
    s := [];
    assert v[0..] == v;
    for i := 0 to |v|
      invariant Encoded(v, separator) == s + Encoded(v[i..], separator)
    {
      assert v[i..][1..] == v[i + 1..];
      s := s + HexByte(v[i]);
      if i != |v| - 1 {
        s := s + separator;
      }
    }
  }

  // ----- Text to bytes -----

  predicate OccursAt(s: Text, t: Text, p: nat) { p + |t| <= |s| && s[p..p + |t|] == t }

  // The first place of t in s from p on, or none.
  function Find(s: Text, t: Text, p: nat): (r: int)
    requires p <= |s|
    ensures r == -1 || (p <= r && OccursAt(s, t, r))
    ensures forall k: nat :: p <= k <= |s| && (r == -1 || k < r) ==> !OccursAt(s, t, k)
    decreases |s| - p
  {
    if OccursAt(s, t, p) then p else if p == |s| then -1 else Find(s, t, p + 1)
  }

  function TrimmedStart(s: Text): Text { if s != [] && IsBlank(s[0]) then TrimmedStart(s[1..]) else s }

  function TrimmedEnd(s: Text): Text { if s != [] && IsBlank(s[|s| - 1]) then TrimmedEnd(s[..|s| - 1]) else s }

  // What is left without blanks at both ends; text of blanks only stays as it is.
  function Trimmed(s: Text): Text {
    if forall i :: 0 <= i < |s| ==> IsBlank(s[i]) then s else TrimmedEnd(TrimmedStart(s))
  }

  // The tokens of a text with separators. A leading separator that is one space is dropped, and
  // the last token is not trimmed.
  function Tokens(s: Text, separator: Text): seq<Text>
    requires separator != []
    decreases |s|
  {
    var p := Find(s, separator, 0);
    if p == -1 then [Lower(s)]
    else
      var rest := Tokens(s[p + |separator|..], separator);
      if p == 0 && separator == [SPACE] then rest else [Lower(Trimmed(s[..p]))] + rest
  }

  function Pairs(s: Text): seq<Text>
    requires |s| % 2 == 0
  {
    if s == [] then [] else [Lower(s[..2])] + Pairs(s[2..])
  }

  predicate IsByte(t: Text) { 1 <= |t| <= 2 && forall i :: 0 <= i < |t| ==> IsDigit(t[i]) }

  function ByteOf(t: Text): byte
    requires IsByte(t)
  {
    if |t| == 1 then DigitValue(t[0]) else 16 * DigitValue(t[0]) + DigitValue(t[1])
  }

  predicate AllBytes(tokens: seq<Text>) { forall i :: 0 <= i < |tokens| ==> IsByte(tokens[i]) }

  // One bad token empties the whole result.
  function FromTokens(tokens: seq<Text>): seq<byte> {
    if AllBytes(tokens) then seq(|tokens|, i requires 0 <= i < |tokens| => ByteOf(tokens[i])) else []
  }

  function Decoded(s: Text, separator: Text): seq<byte> {
    if separator != [] then FromTokens(Tokens(s, separator)) else if |s| % 2 == 0 then FromTokens(Pairs(s)) else []
  }

  method CutPairs(text: Text) returns (tokens: seq<Text>)
    requires |text| % 2 == 0
    ensures tokens == Pairs(text)
  {
    tokens := [];
    var s := Lower(text);
    assert text[0..] == text;
    for i := 0 to |s| / 2
      invariant Pairs(text) == tokens + Pairs(text[2 * i..])
    {
      assert text[2 * i..][2..] == text[2 * (i + 1)..] && Lower(text[2 * i..][..2]) == s[2 * i..2 * i + 2];
      tokens := tokens + [s[2 * i..2 * i + 2]];
    }
    assert text[2 * (|s| / 2)..] == [];
  }

  lemma TokensNext(s: Text, separator: Text, next: seq<Text>, rest: Text)
    requires separator != [] && Find(s, separator, 0) != -1 && rest == s[Find(s, separator, 0) + |separator|..]
    requires next == if Find(s, separator, 0) == 0 && separator == [SPACE] then []
                     else [Lower(Trimmed(s[..Find(s, separator, 0)]))]
    ensures Tokens(s, separator) == next + Tokens(rest, separator)
  {
  }

  method CutTokens(text: Text, separator: Text) returns (tokens: seq<Text>)
    requires separator != []
    ensures tokens == Tokens(text, separator)
  {
    tokens := [];
    var s := text;
    var p := Find(s, separator, 0);
    while p != -1
      invariant p == Find(s, separator, 0) && Tokens(text, separator) == tokens + Tokens(s, separator)
      decreases |s|
    {
      var next: seq<Text> := [];
      if !(p == 0 && separator == [SPACE]) {
        next := [Lower(Trimmed(s[..p]))];
      }
      TokensNext(s, separator, next, s[p + |separator|..]);
      Regroup(tokens, next, Tokens(s[p + |separator|..], separator));
      tokens := tokens + next;
      s := s[p + |separator|..];
      p := Find(s, separator, 0);
    }
    tokens := tokens + [Lower(s)];
  }

  method ReadByte(t: Text) returns (ok: bool, digit: byte)
    ensures ok <==> IsByte(t)
    ensures ok ==> digit == ByteOf(t)
  {
    digit := 0;
    if |t| < 1 || |t| > 2 {
      return false, 0;
    }
    for j := 0 to |t|
      invariant forall i :: 0 <= i < j ==> IsDigit(t[i])
      invariant digit == if j == 0 then 0 else ByteOf(t[..j])
    {
      var c := t[j];
      if ZERO <= c <= NINE {
        digit := digit * 16 + (c - ZERO);
      } else if LOWER_A <= c <= LOWER_F {
        digit := digit * 16 + (c - LOWER_A + 10);
      } else {
        return false, 0;
      }
    }
    assert t[..|t|] == t;
    ok := true;
  }

  method Collect(tokens: seq<Text>) returns (v: seq<byte>)
    ensures v == FromTokens(tokens)
  {
    v := [];
    for i := 0 to |tokens|
      invariant AllBytes(tokens[..i]) && v == FromTokens(tokens[..i])
    {
      assert tokens[..i + 1] == tokens[..i] + [tokens[i]];
      var ok, digit := ReadByte(tokens[i]);
      if !ok {
        return [];
      }
      v := v + [digit];
    }
    assert tokens[..|tokens|] == tokens;
  }

  method Decode(text: Text, separator: Text) returns (v: seq<byte>)
    ensures v == Decoded(text, separator)
  {
    v := [];
    var tokens: seq<Text>;
    if separator == [] {
      if |text| % 2 != 0 {
        return;
      }
      tokens := CutPairs(text);
    } else {
      tokens := CutTokens(text, separator);
    }
    v := Collect(tokens);
  }

  // ----- There and back -----

  // A separator that two hexadecimal digits in front of it can be taken for: its characters
  // repeat with period two, and the first two are digits.
  predicate LooksLikeDigits(t: Text) {
    && t != [] && IsDigit(t[0]) && (|t| > 1 ==> IsDigit(t[1]))
    && forall i :: 0 <= i < |t| - 2 ==> t[i + 2] == t[i]
  }

  lemma DigitsStay(s: Text)
    requires forall i :: 0 <= i < |s| ==> IsDigit(s[i])
    ensures Lower(s) == s && Trimmed(s) == s
  {
    if s != [] {
      assert !IsBlank(s[0]) && TrimmedStart(s) == s && TrimmedEnd(s) == s;
    }
  }

  lemma HexByteStays(b: byte)
    ensures IsByte(HexByte(b)) && ByteOf(HexByte(b)) == b
    ensures Lower(HexByte(b)) == HexByte(b) && Trimmed(HexByte(b)) == HexByte(b)
  {
    DigitsStay(HexByte(b));
  }

  function HexBytes(v: seq<byte>): seq<Text> { seq(|v|, i requires 0 <= i < |v| => HexByte(v[i])) }

  lemma FromHexBytes(v: seq<byte>)
    ensures FromTokens(HexBytes(v)) == v
  {
    forall i | 0 <= i < |v|
      ensures IsByte(HexBytes(v)[i]) && ByteOf(HexBytes(v)[i]) == v[i]
    {
      HexByteStays(v[i]);
    }
  }

  lemma HexBytesCons(b: byte, v: seq<byte>)
    ensures HexBytes([b] + v) == [HexByte(b)] + HexBytes(v)
  {
  }

  lemma NotAtStart(b: byte, separator: Text, rest: Text)
    requires separator != []
    ensures OccursAt(HexByte(b) + separator + rest, separator, 0) ==> LooksLikeDigits(separator)
  {
    var h, t := HexByte(b), separator;
    var s := h + t + rest;
    if OccursAt(s, t, 0) {
      assert s[..|t|] == t;
      forall i | 0 <= i < |t|
        ensures t[i] == if i < 2 then h[i] else t[i - 2]
      {
        assert t[i] == s[..|t|][i] == s[i];
      }
    }
  }

  lemma NotBetween(b: byte, separator: Text, rest: Text)
    requires separator != []
    ensures OccursAt(HexByte(b) + separator + rest, separator, 1) ==> LooksLikeDigits(separator)
  {
    var h, t := HexByte(b), separator;
    var s := h + t + rest;
    if OccursAt(s, t, 1) {
      forall i | 0 <= i < |t|
        ensures t[i] == if i == 0 then h[1] else t[i - 1]
      {
        assert t[i] == s[1..1 + |t|][i] == s[1 + i];
      }
      forall i | 0 <= i < |t| - 2
        ensures t[i + 2] == t[i]
      {
        assert t[i + 2] == t[i + 1];
      }
    }
  }

  // Behind the digits of a byte the first separator is the one that was put there.
  lemma FindBehind(b: byte, separator: Text, rest: Text)
    requires separator != [] && !LooksLikeDigits(separator)
    ensures Find(HexByte(b) + separator + rest, separator, 0) == 2
  {
    var s := HexByte(b) + separator + rest;
    assert s[2..2 + |separator|] == separator && OccursAt(s, separator, 2);
    NotAtStart(b, separator, rest);
    NotBetween(b, separator, rest);
  }

  lemma NotWithin(b: byte, separator: Text, k: nat)
    requires separator != [] && k <= 2
    ensures OccursAt(HexByte(b), separator, k) ==> LooksLikeDigits(separator)
  {
    var s := HexByte(b);
    if OccursAt(s, separator, k) {
      assert separator[0] == s[k..k + |separator|][0] == s[k];
      assert |separator| > 1 ==> separator[1] == s[k..k + |separator|][1] == s[k + 1];
    }
  }

  lemma FindNone(b: byte, separator: Text)
    requires separator != [] && !LooksLikeDigits(separator)
    ensures Find(HexByte(b), separator, 0) == -1
  {
    NotWithin(b, separator, 0);
    NotWithin(b, separator, 1);
    NotWithin(b, separator, 2);
  }

  lemma FirstToken(t: Text, separator: Text, rest: Text)
    requires separator != [] && |t| == 2 && Lower(Trimmed(t)) == t && Find(t + separator + rest, separator, 0) == 2
    ensures Tokens(t + separator + rest, separator) == [t] + Tokens(rest, separator)
  {
    var s := t + separator + rest;
    assert s[..2] == t && s[2 + |separator|..] == rest;
    TokensNext(s, separator, [t], rest);
  }

  lemma {:induction false} TokensOfEncoded(v: seq<byte>, separator: Text)
    requires v != [] && separator != [] && !LooksLikeDigits(separator)
    ensures Tokens(Encoded(v, separator), separator) == HexBytes(v)
    decreases |v|
  {
    var s := Encoded(v, separator);
    HexByteStays(v[0]);
    if |v| == 1 {
      FindNone(v[0], separator);
      assert HexBytes(v) == [HexByte(v[0])];
    } else {
      var rest := Encoded(v[1..], separator);
      FindBehind(v[0], separator, rest);
      FirstToken(HexByte(v[0]), separator, rest);
      TokensOfEncoded(v[1..], separator);
      assert v == [v[0]] + v[1..];
      HexBytesCons(v[0], v[1..]);
    }
  }

  lemma {:induction false} PairsOfEncoded(v: seq<byte>)
    ensures |Encoded(v, [])| == 2 * |v| && Pairs(Encoded(v, [])) == HexBytes(v)
  {
    if v != [] {
      var s := Encoded(v, []);
      assert s == HexByte(v[0]) + Encoded(v[1..], []);
      assert s[..2] == HexByte(v[0]) && s[2..] == Encoded(v[1..], []);
      PairsOfEncoded(v[1..]);
      HexByteStays(v[0]);
      assert v == [v[0]] + v[1..];
      HexBytesCons(v[0], v[1..]);
    }
  }

  lemma NoText(separator: Text)
    requires separator != []
    ensures Decoded([], separator) == []
  {
    assert Find([], separator, 0) == -1;
    assert Tokens([], separator) == [Lower([])] && !IsByte(Lower([]));
    assert !IsByte(Tokens([], separator)[0]);
  }

  lemma ComesBack(v: seq<byte>, separator: Text)
    requires !LooksLikeDigits(separator)
    ensures Decoded(Encoded(v, separator), separator) == v
  {
    FromHexBytes(v);
    if separator == [] {
      PairsOfEncoded(v);
    } else if v == [] {
      NoText(separator);
    } else {
      TokensOfEncoded(v, separator);
    }
  }

  // With a separator that looks like digits there are two bytes that do not come back.
  lemma Lost(separator: Text) returns (v: seq<byte>)
    requires LooksLikeDigits(separator)
    ensures Decoded(Encoded(v, separator), separator) != v
  {
    var high, low := DigitValue(separator[0]), if |separator| > 1 then DigitValue(separator[1]) else 0;
    v := [16 * high + low, 0];
    var s := Encoded(v, separator);
    assert s == HexByte(v[0]) + separator + Encoded(v[1..], separator);
    assert s[0] == separator[0] && (|separator| > 1 ==> s[1] == separator[1]);
    forall i | 0 <= i < |separator|
      ensures s[i] == separator[i]
    {
      assert i >= 2 ==> s[i] == separator[i - 2];
    }
    assert s[0..|separator|] == separator && OccursAt(s, separator, 0);
    assert Find(s, separator, 0) == 0;
    assert Tokens(s, separator)[0] == Lower(Trimmed([]));
    assert !IsByte(Tokens(s, separator)[0]);
  }

  // All bytes come back from their text exactly when the separator does not look like digits.
  lemma RoundTripExactly(separator: Text)
    ensures (forall v :: Decoded(Encoded(v, separator), separator) == v) <==> !LooksLikeDigits(separator)
  {
    if LooksLikeDigits(separator) {
      var v := Lost(separator);
    } else {
      forall v: seq<byte>
        ensures Decoded(Encoded(v, separator), separator) == v
      {
        ComesBack(v, separator);
      }
    }
  }

  // ----- Back and there -----

  predicate AllDigits(s: Text) { forall i :: 0 <= i < |s| ==> IsDigit(LowerChar(s[i])) }

  lemma AllBytesCons(t: Text, rest: seq<Text>)
    ensures AllBytes([t] + rest) <==> IsByte(t) && AllBytes(rest)
  {
    if AllBytes([t] + rest) {
      assert ([t] + rest)[0] == t;
      assert forall i :: 0 <= i < |rest| ==> rest[i] == ([t] + rest)[i + 1];
    }
  }

  lemma AllDigitsCons(s: Text)
    requires |s| >= 2
    ensures AllDigits(s) <==> IsDigit(LowerChar(s[0])) && IsDigit(LowerChar(s[1])) && AllDigits(s[2..])
  {
    if AllDigits(s[2..]) {
      assert forall i :: 2 <= i < |s| ==> s[i] == s[2..][i - 2];
    }
  }

  lemma FromTokensCons(t: Text, rest: seq<Text>)
    requires IsByte(t) && AllBytes(rest)
    ensures FromTokens([t] + rest) == [ByteOf(t)] + FromTokens(rest)
  {
    AllBytesCons(t, rest);
  }

  lemma ByteReencoded(t: Text)
    requires |t| == 2 && IsByte(t)
    ensures HexByte(ByteOf(t)) == t
  {
  }

  // Without a separator, text of an even number of digits in either case is read, and is written
  // again in lower case; any other text gives nothing.
  lemma {:induction false} ReencodedLower(s: Text)
    requires |s| % 2 == 0
    ensures AllBytes(Pairs(s)) <==> AllDigits(s)
    ensures AllDigits(s) ==> Encoded(FromTokens(Pairs(s)), []) == Lower(s)
  {
    if s != [] {
      ReencodedLower(s[2..]);
      var t, rest := Lower(s[..2]), Pairs(s[2..]);
      assert s == s[..2] + s[2..] && t == [LowerChar(s[0]), LowerChar(s[1])];
      assert Pairs(s) == [t] + rest;
      assert IsByte(t) <==> IsDigit(t[0]) && IsDigit(t[1]);
      AllBytesCons(t, rest);
      AllDigitsCons(s);
      if AllDigits(s) {
        FromTokensCons(t, rest);
        ByteReencoded(t);
        assert Lower(s) == t + Lower(s[2..]);
      }
    }
  }
}
