// Packed BCD: four encoders and one decoder (opos/code_tools/ct_convert.h).
module Bcd {
  import opened Bytes

  const ULONG_MAX := 0xFFFF_FFFF    // unsigned long is 32 bits wide on Windows
  const WORD := ULONG_MAX + 1

  predicate IsDigit(c: byte) { ZERO <= c <= NINE }

  predicate AllDigits(s: Text) { forall i :: 0 <= i < |s| ==> IsDigit(s[i]) }

  // ----- Where digits stand -----

  // The k-th half byte, the upper half of a byte first.
  function Nibble(v: seq<byte>, k: nat): int
    requires k < 2 * |v|
  {
    if k % 2 == 0 then v[k / 2] / 16 else v[k / 2] % 16
  }

  // The value at half byte k when the digits s are written from `start` on over the filler.
  function NibbleAt(s: Text, start: nat, filler: byte, k: nat): (n: int)
    requires AllDigits(s)
    ensures 0 <= n < 16
  {
    if start <= k < start + |s| then s[k - start] - ZERO else if k % 2 == 0 then filler / 16 else filler % 16
  }

  function Placed(s: Text, size: nat, start: nat, filler: byte): seq<byte>
    requires AllDigits(s)
  {
    seq(size, i requires 0 <= i < size =>
      16 * NibbleAt(s, start, filler, 2 * i) + NibbleAt(s, start, filler, 2 * i + 1))
  }

  lemma PlacedNibbles(s: Text, size: nat, start: nat, filler: byte, k: nat)
    requires AllDigits(s) && k < 2 * size
    ensures Nibble(Placed(s, size, start, filler), k) == NibbleAt(s, start, filler, k)
  {
  }

  lemma PlaceNext(s: Text, c: byte, size: nat, start: nat, filler: byte)
    requires AllDigits(s) && IsDigit(c) && start + |s| < 2 * size
    ensures var v, at := Placed(s, size, start, filler), (start + |s|) / 2;
            Placed(s + [c], size, start, filler)
            == v[at := if (start + |s|) % 2 == 0 then 16 * (c - ZERO) + v[at] % 16 else 16 * (v[at] / 16) + (c - ZERO)]
  {
    var t := s + [c];
    assert AllDigits(t);
    var v, w := Placed(s, size, start, filler), Placed(t, size, start, filler);
    forall k: nat | k < 2 * size && k != start + |s|
      ensures NibbleAt(t, start, filler, k) == NibbleAt(s, start, filler, k)
    {
    }
  }

  // ----- The encoder that writes in place -----

  function LeadingDigits(s: Text): (r: Text)
    ensures |r| <= |s| && r == s[..|r|] && AllDigits(r)
    ensures |r| < |s| ==> !IsDigit(s[|r|])
  {
    if s == [] || !IsDigit(s[0]) then [] else [s[0]] + LeadingDigits(s[1..])
  }

  function Required(n: nat): nat { n / 2 + n % 2 }

  // Writes the upper or lower half of a byte, and goes on to the next one after the lower.
  method WriteDigit(v: array<byte>, cur: nat, upper: bool, digit: byte, ghost s: Text, ghost start: nat,
                    ghost filler: byte)
    returns (cur': nat)
    requires digit <= 9 && AllDigits(s) && start + |s| < 2 * v.Length
    requires cur == (start + |s|) / 2 && upper == ((start + |s|) % 2 == 0)
    requires v[..] == Placed(s, v.Length, start, filler)
    modifies v
    ensures cur' == (start + |s| + 1) / 2
    ensures AllDigits(s + [digit + ZERO]) && v[..] == Placed(s + [digit + ZERO], v.Length, start, filler)
  {
    PlaceNext(s, digit + ZERO, v.Length, start, filler);
    cur' := cur;
    if upper {
      v[cur] := 16 * digit + v[cur] % 16;
    } else {
      v[cur] := digit + 16 * (v[cur] / 16);
      cur' := cur + 1;
    }
  }

  lemma {:induction false} LeadingIs(s: Text, n: nat)
    requires n <= |s| && AllDigits(s[..n]) && (n == |s| || !IsDigit(s[n]))
    ensures LeadingDigits(s) == s[..n] && (n == |s| <==> AllDigits(s))
  {
    if n > 0 {
      assert s[0] == s[..n][0] && s[1..][..n - 1] == s[..n][1..];
      LeadingIs(s[1..], n - 1);
      assert s == [s[0]] + s[1..];
    }
  }

  // The loop over the characters of EncodeJustified.
  method WriteDigits(v: array<byte>, s: Text, first: nat, adjust: nat, ghost start: nat, ghost filler: byte)
    returns (ok: bool)
    requires start + |s| <= 2 * v.Length && first == start / 2 && adjust % 2 == start % 2
    requires v[..] == Placed([], v.Length, start, filler)
    modifies v
    ensures ok <==> AllDigits(s)
    ensures v[..] == Placed(LeadingDigits(s), v.Length, start, filler)
  {
    var cur: nat, asc: nat := first, 0;
    ok := true;
    while asc < |s|
      invariant asc <= |s| && AllDigits(s[..asc]) && cur == (start + asc) / 2
      invariant v[..] == Placed(s[..asc], v.Length, start, filler)
    {
      var digit := ToByte(s[asc] - ZERO);
      if digit > 9 {
        ok := false;
        break;
      }
      assert s[..asc + 1] == s[..asc] + [s[asc]];
      cur := WriteDigit(v, cur, (asc + adjust) % 2 == 0, digit, s[..asc], start, filler);
      asc := asc + 1;
    }
    LeadingIs(s, asc);
  }

  // Digit i ends up at half byte i, or counted from the right; every other half byte is the
  // filler. A text that does not fit gives nothing, and one with something else than digits is
  // written up to there.
  method EncodeJustified(s: Text, size: nat, filler: byte, left: bool) returns (ok: bool, r: seq<byte>)
    ensures Required(|s|) > size ==> !ok && r == []
    ensures Required(|s|) <= size ==>
              && (ok <==> AllDigits(s))
              && r == Placed(LeadingDigits(s), size, if left then 0 else 2 * size - |s|, filler)
  {
    var mod := |s| % 2;
    var required := |s| / 2 + mod;
    if required > size {
      return false, [];
    }
    var v := new byte[size](_ => filler);
    var cur: nat, adjust: nat := 0, 0;
    if !left {
      cur := size - required;
      if mod == 1 {
        adjust := 1;
      }
    }
    ghost var start: nat := if left then 0 else 2 * size - |s|;
    ok := WriteDigits(v, s, cur, adjust, start, filler);
    r := v[..];
  }

  // ----- The encoders that pad the text and fold its characters in pairs -----

  function CharValue(c: byte): int { if c > NINE then c - 'A' as int + 10 else c - ZERO }

  // Whatever the characters are, a pair of them makes the byte 16 * first + second, cut to 8 bits.
  function Folded(s: Text): (r: seq<byte>)
    requires |s| % 2 == 0
    ensures |r| == |s| / 2
  {
    seq(|s| / 2, i requires 0 <= i < |s| / 2 => ToByte(16 * CharValue(s[2 * i]) + CharValue(s[2 * i + 1])))
  }

  function Padded(s: Text, leftPad: bool): (r: Text)
    ensures |r| % 2 == 0 && |r| == 2 * Required(|s|)
  {
    if |s| % 2 == 0 then s else if leftPad then [ZERO] + s else s + [ZERO]
  }

  function Sized(v: seq<byte>, size: nat, leftPad: bool): seq<byte>
    requires |v| <= size
  {
    if leftPad then Zeros(size - |v|) + v else v + Zeros(size - |v|)
  }

  method FoldPairs(s: Text) returns (v: seq<byte>)
    requires |s| % 2 == 0
    ensures v == Folded(s)
  {
    v := [];
    var odd, sum := true, 0;
    for i := 0 to |s|
      invariant odd == (i % 2 == 0) && |v| == i / 2
      invariant !odd ==> sum == CharValue(s[i - 1])
      invariant forall k :: 0 <= k < |v| ==> v[k] == Folded(s)[k]
    {
      var value := CharValue(s[i]);
      if odd {
        sum := value;
      } else {
        sum := sum * 16 + value;
        v := v + [ToByte(sum)];
      }
      odd := !odd;
    }
  }

  method EncodeFolded(text: Text, size: nat, leftPad: bool) returns (ok: bool, r: seq<byte>)
    ensures ok <==> size == 0 || Required(|text|) <= size
    ensures r == if !ok then []
                 else if size == 0 then Folded(Padded(text, leftPad))
                 else Sized(Folded(Padded(text, leftPad)), size, leftPad)
  {
    var s := text;
    if |s| % 2 != 0 {
      if leftPad {
        s := [ZERO] + s;
      } else {
        s := s + [ZERO];
      }
    }
    var v := FoldPairs(s);
    if size > 0 {
      if size < |v| {
        return false, [];
      }
      ok := true;
      if leftPad {
        r := Zeros(size - |v|) + v;
      } else {
        r := v + Zeros(size - |v|);
      }
    } else {
      ok, r := true, v;
    }
  }

  // std::to_string.
  function Decimal(n: nat): (s: Text)
    ensures |s| > 0 && AllDigits(s)
  {
    if n < 10 then [n + ZERO] else Decimal(n / 10) + [n % 10 + ZERO]
  }

  method EncodeNumber(n: nat, size: nat, leftPad: bool) returns (ok: bool, r: seq<byte>)
    requires n <= ULONG_MAX
    ensures ok <==> size == 0 || Required(|Decimal(n)|) <= size
    ensures r == if !ok then []
                 else if size == 0 then Folded(Padded(Decimal(n), leftPad))
                 else Sized(Folded(Padded(Decimal(n), leftPad)), size, leftPad)
  {
    ok, r := EncodeFolded(Decimal(n), size, leftPad);
  }

  method EncodeAscii(s: seq<byte>) returns (ok: bool, r: seq<byte>)
    ensures ok <==> s != [] && |s| % 2 == 0 && AllDigits(s)
    ensures r == if ok then Folded(s) else []
  {
    if s == [] {
      return false, [];
    }
    if |s| % 2 != 0 {
      return false, [];
    }
    ok, r := true, [];
    for i := 0 to |s| / 2
      invariant ok && AllDigits(s[..2 * i]) && r == Folded(s)[..i]
    {
      if !IsDigit(s[2 * i]) {
        return false, [];
      }
      if !IsDigit(s[2 * i + 1]) {
        return false, [];
      }
      r := r + [ToByte(16 * (s[2 * i] - ZERO) + (s[2 * i + 1] - ZERO))];
      assert s[..2 * (i + 1)] == s[..2 * i] + [s[2 * i], s[2 * i + 1]];
    }
    assert s[..2 * (|s| / 2)] == s && Folded(s)[..|s| / 2] == Folded(s);
  }

  lemma AllLead(s: Text)
    requires AllDigits(s)
    ensures LeadingDigits(s) == s
  {
    assert s[..|s|] == s;
    LeadingIs(s, |s|);
  }

  lemma SizedIsPlaced(s: Text, n: nat, start: nat, size: nat, leftPad: bool)
    requires AllDigits(s) && n <= size && start + |s| <= 2 * n
    ensures Sized(Placed(s, n, start, 0), size, leftPad)
            == Placed(s, size, if leftPad then start + 2 * (size - n) else start, 0)
  {
    var v, k := Placed(s, n, start, 0), size - n;
    var r, w := Sized(v, size, leftPad), Placed(s, size, if leftPad then start + 2 * k else start, 0);
    forall i | 0 <= i < size
      ensures r[i] == w[i]
    {
      if leftPad && i >= k {
        assert r[i] == v[i - k];
      }
    }
  }

  lemma SizedAt(s: Text, size: nat, leftPad: bool)
    requires AllDigits(s) && Required(|s|) <= size
    ensures Sized(Placed(s, Required(|s|), if leftPad then |s| % 2 else 0, 0), size, leftPad)
         == Placed(s, size, if leftPad then 2 * size - |s| else 0, 0)
  {
    assert |s| % 2 + 2 * (size - Required(|s|)) == 2 * size - |s|;
    SizedIsPlaced(s, Required(|s|), if leftPad then |s| % 2 else 0, size, leftPad);
  }

  lemma FoldedIsPlaced(s: Text)
    requires AllDigits(s) && |s| % 2 == 0
    ensures Folded(s) == Placed(s, |s| / 2, 0, 0)
  {
  }

  lemma SamePlaces(s: Text, start: nat, t: Text, start': nat, size: nat)
    requires AllDigits(s) && AllDigits(t)
    requires forall k: nat :: k < 2 * size ==> NibbleAt(s, start, 0, k) == NibbleAt(t, start', 0, k)
    ensures Placed(s, size, start, 0) == Placed(t, size, start', 0)
  {
  }

  lemma PaddingIsFiller(s: Text, leftPad: bool)
    requires AllDigits(s)
    ensures AllDigits(Padded(s, leftPad))
    ensures Placed(Padded(s, leftPad), Required(|s|), 0, 0)
            == Placed(s, Required(|s|), if leftPad then |s| % 2 else 0, 0)
  {
    var t, start := Padded(s, leftPad), if leftPad then |s| % 2 else 0;
    forall k: nat | k < |t|
      ensures NibbleAt(t, 0, 0, k) == NibbleAt(s, start, 0, k)
    {
    }
    SamePlaces(t, 0, s, start, Required(|s|));
  }

  lemma FoldedAt(s: Text, leftPad: bool)
    requires AllDigits(s)
    ensures Folded(Padded(s, leftPad)) == Placed(s, Required(|s|), if leftPad then |s| % 2 else 0, 0)
    ensures |s| % 2 == 0 ==> Folded(s) == Placed(s, |s| / 2, 0, 0)
  {
    PaddingIsFiller(s, leftPad);
    FoldedIsPlaced(Padded(s, leftPad));
  }

  // On digits all encoders put every digit at the same place: with filler 0, the folding ones
  // give what the one that writes in place gives, and on an even number of digits so does the
  // one for ASCII bytes, which takes no size.
  lemma EncodersAgree(s: Text, size: nat, leftPad: bool)
    requires AllDigits(s) && Required(|s|) <= size
    ensures LeadingDigits(s) == s
    ensures Sized(Folded(Padded(s, leftPad)), size, leftPad)
            == Placed(s, size, if leftPad then 2 * size - |s| else 0, 0)
    ensures |s| % 2 == 0 ==> Folded(s) == Placed(s, |s| / 2, 0, 0)
  {
    AllLead(s);
    FoldedAt(s, leftPad);
    SizedAt(s, size, leftPad);
  }

  // ----- The decoder -----

  predicate AllBcd(v: seq<byte>) { forall i :: 0 <= i < |v| ==> v[i] / 16 <= 9 && v[i] % 16 <= 9 }

  function Value(v: seq<byte>): nat {
    if v == [] then 0 else 100 * Value(v[..|v| - 1]) + 10 * (v[|v| - 1] / 16) + v[|v| - 1] % 16
  }

  function DecimalValue(s: Text): nat
    requires AllDigits(s)
  {
    if s == [] then 0 else 10 * DecimalValue(s[..|s| - 1]) + (s[|s| - 1] - ZERO)
  }

  // The guard lets every byte of v through: what the bytes before it make, in 32 bits, does not
  // exceed a hundredth of the maximum.
  predicate Guarded(v: seq<byte>) {
    v == [] || (Guarded(v[..|v| - 1]) && Value(v[..|v| - 1]) % WORD <= ULONG_MAX / 100)
  }

  lemma Wrap(a: nat, b: nat)
    ensures (100 * a + b) % WORD == ((a % WORD) * 100 + b) % WORD
  {
  }

  lemma Prefixes(v: seq<byte>, i: nat)
    requires i < |v|
    ensures Value(v[..i + 1]) % WORD == ((Value(v[..i]) % WORD) * 100 + 10 * (v[i] / 16) + v[i] % 16) % WORD
    ensures Guarded(v[..i + 1]) <==> Guarded(v[..i]) && Value(v[..i]) % WORD <= ULONG_MAX / 100
    ensures AllBcd(v[..i + 1]) <==> AllBcd(v[..i]) && v[i] / 16 <= 9 && v[i] % 16 <= 9
  {
    assert v[..i + 1][..i] == v[..i] && v[..i + 1] == v[..i] + [v[i]];
    Wrap(Value(v[..i]), 10 * (v[i] / 16) + v[i] % 16);
  }

  lemma {:induction false} NotGuarded(v: seq<byte>, n: nat)
    requires n <= |v| && !Guarded(v[..n])
    ensures !Guarded(v)
    decreases |v| - n
  {
    if n < |v| {
      assert v[..n + 1][..n] == v[..n];
      NotGuarded(v, n + 1);
    } else {
      assert v[..n] == v;
    }
  }

  method Decode(v: seq<byte>, was: nat) returns (ok: bool, out: nat)
    requires was <= ULONG_MAX
    ensures ok <==> v != [] && AllBcd(v) && Guarded(v)
    ensures out == if ok then Value(v) % WORD else was
    ensures out <= ULONG_MAX
  {
    ok := false;
    var value: nat := 0;
    if v != [] {
      ok := true;
      for i := 0 to |v|
        invariant AllBcd(v[..i]) && Guarded(v[..i]) && value == Value(v[..i]) % WORD
      {
        Prefixes(v, i);
        if value > ULONG_MAX / 100 {
          NotGuarded(v, i + 1);
          return false, was;
        }
        var high := v[i] / 16;
        if high > 9 {
          return false, was;
        }
        var low := v[i] % 16;
        if low > 9 {
          return false, was;
        }
        value := (value * 100 + high * 10 + low) % WORD;
      }
      assert v[..|v|] == v;
    }
    out := if ok then value else was;
  }

  lemma Small(n: nat)
    ensures n <= ULONG_MAX <==> n % WORD == n
  {
  }

  lemma {:induction false} InRange(v: seq<byte>)
    requires Value(v) <= ULONG_MAX
    ensures Guarded(v)
  {
    if v != [] {
      InRange(v[..|v| - 1]);
      Small(Value(v[..|v| - 1]));
    }
  }

  // What is decoded is exact exactly when the BCD value is in range.
  lemma DecodedExactly(v: seq<byte>)
    requires v != [] && AllBcd(v)
    ensures Value(v) % WORD == Value(v) <==> Value(v) <= ULONG_MAX
    ensures Value(v) <= ULONG_MAX ==> Guarded(v)
  {
    Small(Value(v));
    if Value(v) <= ULONG_MAX {
      InRange(v);
    }
  }

  // The guard stands before the multiplication, not before the addition: of the values that are
  // out of range with their last byte, four are accepted.
  lemma JustOverTheMaximum(v: seq<byte>)
    requires v != [] && AllBcd(v) && Value(v[..|v| - 1]) <= ULONG_MAX < Value(v)
    ensures Guarded(v) <==> Value(v) <= ULONG_MAX + 4
  {
    var front, pair := Value(v[..|v| - 1]), 10 * (v[|v| - 1] / 16) + v[|v| - 1] % 16;
    InRange(v[..|v| - 1]);
    assert pair <= 99 && Value(v) == 100 * front + pair;
    Small(front);
  }

  // ----- Which codes out of range are accepted -----

  function Pair(b: byte): nat { 10 * (b / 16) + b % 16 }

  // The number whose decimal digits are those of c, followed by those of v.
  function From(c: int, v: seq<byte>): int {
    if v == [] then c else 100 * From(c, v[..|v| - 1]) + Pair(v[|v| - 1])
  }

  function Joined(parts: seq<seq<byte>>): seq<byte> {
    if parts == [] then [] else Joined(parts[..|parts| - 1]) + parts[|parts| - 1]
  }

  // What the last part comes to, when each part goes on with what its predecessor is above 2^32.
  function Residue(parts: seq<seq<byte>>): int
    requires parts != []
  {
    var n := |parts| - 1;
    From(if n == 0 then 0 else Residue(parts[..n]) - WORD, parts[n])
  }

  // Each part comes to 2^32 or up to three more.
  predicate Overflow(parts: seq<seq<byte>>) {
    parts == [] || (WORD <= Residue(parts) <= WORD + 3 && Overflow(parts[..|parts| - 1]))
  }

  // All parts but the last overflow like this, and the last does not.
  predicate Restarts(parts: seq<seq<byte>>) {
    parts != [] && Residue(parts) <= ULONG_MAX && Overflow(parts[..|parts| - 1])
  }

  lemma JoinedPush(parts: seq<seq<byte>>, part: seq<byte>, b: byte)
    ensures Joined(parts + [part]) == Joined(parts) + part
    ensures Joined(parts + [part + [b]]) == Joined(parts + [part]) + [b]
    ensures Joined(parts + [part] + [[]]) == Joined(parts + [part])
  {
    assert (parts + [part])[..|parts|] == parts && (parts + [part + [b]])[..|parts|] == parts;
    assert (parts + [part] + [[]])[..|parts| + 1] == parts + [part];
  }

  lemma ResiduePush(parts: seq<seq<byte>>, part: seq<byte>, b: byte)
    ensures Residue(parts + [part + [b]]) == 100 * Residue(parts + [part]) + Pair(b)
    ensures Residue(parts + [part] + [[]]) == Residue(parts + [part]) - WORD
  {
    assert (parts + [part])[..|parts|] == parts && (parts + [part + [b]])[..|parts|] == parts;
    assert (parts + [part] + [[]])[..|parts| + 1] == parts + [part];
    assert (part + [b])[..|part|] == part;
  }

  lemma PartsPush(parts: seq<seq<byte>>, part: seq<byte>)
    ensures Overflow(parts + [part]) <==> WORD <= Residue(parts + [part]) <= WORD + 3 && Overflow(parts)
    ensures Restarts(parts + [part]) <==> Residue(parts + [part]) <= ULONG_MAX && Overflow(parts)
  {
    assert (parts + [part])[..|parts|] == parts;
  }

  lemma GuardedPush(v: seq<byte>, b: byte, r: nat)
    requires Guarded(v) && Value(v) % WORD == r % WORD && 100 * r + Pair(b) <= WORD + 3
    ensures Guarded(v + [b]) && Value(v + [b]) % WORD == (100 * r + Pair(b)) % WORD
  {
    assert (v + [b])[..|v|] == v;
    Small(r);
    Wrap(Value(v), Pair(b));
  }

  lemma Restarted(r: nat)
    requires WORD <= r <= WORD + 3
    ensures r % WORD == r - WORD
  {
  }

  // What the parts in front of an empty one come to, the empty one comes to modulo 2^32.
  lemma JoinEmpty(front: seq<seq<byte>>)
    requires front != [] && Overflow(front)
    ensures 0 <= Residue(front + [[]]) <= 3 && Joined(front + [[]]) == Joined(front)
    ensures Residue(front + [[]]) % WORD == Residue(front) % WORD
  {
    var k := |front| - 1;
    assert front == front[..k] + [front[k]];
    JoinedPush(front[..k], front[k], 0);
    ResiduePush(front[..k], front[k], 0);
    Restarted(Residue(front));
  }

  lemma NothingJoined()
    ensures Joined([[]]) == [] && Residue([[]]) == 0
  {
    var parts: seq<seq<byte>> := [[]];
    assert parts[..0] == [];
  }

  lemma {:induction false} JoinUp(front: seq<seq<byte>>, last: seq<byte>)
    requires Residue(front + [last]) <= WORD + 3 && Overflow(front)
    ensures Residue(front + [last]) >= 0 && Guarded(Joined(front + [last]))
    ensures Value(Joined(front + [last])) % WORD == Residue(front + [last]) % WORD
    decreases |front|, |last|
  {
    if last != [] {
      var part, b := last[..|last| - 1], last[|last| - 1];
      assert last == part + [b];
      ResiduePush(front, part, b);
      JoinedPush(front, part, b);
      JoinUp(front, part);
      GuardedPush(Joined(front + [part]), b, Residue(front + [part]));
    } else if front != [] {
      var k := |front| - 1;
      assert front == front[..k] + [front[k]];
      JoinUp(front[..k], front[k]);
      JoinEmpty(front);
    } else {
      assert front + [last] == [[]];
      NothingJoined();
    }
  }

  lemma PushPart(front: seq<seq<byte>>, part: seq<byte>, b: byte)
    requires Overflow(front) && 0 <= Residue(front + [part]) <= ULONG_MAX / 100 && Pair(b) <= 99
    ensures var parts := front + [part + [b]];
            && Residue(parts) <= WORD + 3 && Joined(parts) == Joined(front + [part]) + [b]
            && (Restarts(parts) <==> Residue(parts) <= ULONG_MAX)
            && (Overflow(parts) <==> Residue(parts) >= WORD)
  {
    JoinedPush(front, part, b);
    ResiduePush(front, part, b);
    PartsPush(front, part + [b]);
  }

  lemma StartAgain(parts: seq<seq<byte>>)
    requires parts != [] && Overflow(parts)
    ensures Joined(parts + [[]]) == Joined(parts) && Restarts(parts + [[]])
  {
    JoinEmpty(parts);
    PartsPush(parts, []);
  }

  lemma SplitPush(front: seq<seq<byte>>, part: seq<byte>, b: byte) returns (parts: seq<seq<byte>>)
    requires Restarts(front + [part]) && Pair(b) <= 99
    requires Value(Joined(front + [part])) % WORD <= ULONG_MAX / 100
    ensures Joined(parts) == Joined(front + [part]) + [b] && Restarts(parts)
  {
    PartsPush(front, part);
    JoinUp(front, part);
    Small(Residue(front + [part]));
    PushPart(front, part, b);
    parts := front + [part + [b]];
    if Residue(parts) > ULONG_MAX {
      StartAgain(parts);
      parts := parts + [[]];
    }
  }

  lemma {:induction false} SplitUp(v: seq<byte>) returns (parts: seq<seq<byte>>)
    requires AllBcd(v) && Guarded(v)
    ensures Joined(parts) == v && Restarts(parts)
  {
    if v == [] {
      parts := [[]];
      assert parts[..0] == [];
    } else {
      var n := |v| - 1;
      var before := SplitUp(v[..n]);
      var k := |before| - 1;
      assert before == before[..k] + [before[k]] && v == v[..n] + [v[n]];
      parts := SplitPush(before[..k], before[k], v[n]);
    }
  }

  // A BCD code is accepted exactly when it splits into parts of which each but the last comes to
  // one of the four values behind the maximum, where the next part starts again with what is above
  // 2^32; what the last part comes to is then the result.
  lemma GuardedExactly(v: seq<byte>)
    requires AllBcd(v)
    ensures Guarded(v) <==> exists parts :: Joined(parts) == v && Restarts(parts)
    ensures forall parts :: Joined(parts) == v && Restarts(parts) ==> Value(v) % WORD == Residue(parts)
  {
    if Guarded(v) {
      var parts := SplitUp(v);
    }
    forall parts | Joined(parts) == v && Restarts(parts)
      ensures Guarded(v) && Value(v) % WORD == Residue(parts)
    {
      var k := |parts| - 1;
      assert parts == parts[..k] + [parts[k]];
      JoinUp(parts[..k], parts[k]);
      Small(Residue(parts));
    }
  }

  lemma Halves(high: byte, low: byte)
    requires high <= 9 && low <= 9
    ensures (16 * high + low) / 16 == high && (16 * high + low) % 16 == low
  {
  }

  lemma ValueLast(v: seq<byte>, b: byte)
    ensures Value(v + [b]) == 100 * Value(v) + 10 * (b / 16) + b % 16
    ensures AllBcd(v + [b]) <==> AllBcd(v) && b / 16 <= 9 && b % 16 <= 9
  {
    var w := v + [b];
    assert w[..|v|] == v && w[|v|] == b;
    assert forall i :: 0 <= i < |v| ==> w[i] == v[i];
  }

  lemma ValuePush(v: seq<byte>, high: byte, low: byte)
    requires high <= 9 && low <= 9
    ensures Value(v + [16 * high + low]) == 100 * Value(v) + 10 * high + low
    ensures AllBcd(v) ==> AllBcd(v + [16 * high + low])
  {
    var b: byte := 16 * high + low;
    assert b / 16 == high && b % 16 == low by {
      Halves(high, low);
    }
    ValueLast(v, b);
  }

  lemma Pushed(v: seq<byte>, w: seq<byte>, high: byte, low: byte)
    requires high <= 9 && low <= 9 && |w| == |v| + 1 && w[|v|] == 16 * high + low
    requires forall i :: 0 <= i < |v| ==> w[i] == v[i]
    ensures Value(w) == 100 * Value(v) + 10 * high + low
    ensures AllBcd(v) ==> AllBcd(w)
    ensures Guarded(w) <==> Guarded(v) && Value(v) % WORD <= ULONG_MAX / 100
  {
    assert w == v + [16 * high + low];
    ValuePush(v, high, low);
    assert w[..|v|] == v;
  }

  // 4294967296 reads as 0.
  lemma AcceptedAsZero()
    ensures var v := [0x42, 0x94, 0x96, 0x72, 0x96];
            AllBcd(v) && Guarded(v) && Value(v) == ULONG_MAX + 1 && Value(v) % WORD == 0
  {
    var front: seq<byte> := [0x42, 0x94, 0x96, 0x72];
    Pushed([], [0x42], 4, 2);
    Pushed([0x42], [0x42, 0x94], 9, 4);
    Pushed([0x42, 0x94], [0x42, 0x94, 0x96], 9, 6);
    Pushed([0x42, 0x94, 0x96], front, 7, 2);
    Pushed(front, [0x42, 0x94, 0x96, 0x72, 0x96], 9, 6);
  }

  // ----- Encoding and decoding a number -----

  lemma {:induction false} DecimalIsValue(n: nat)
    ensures DecimalValue(Decimal(n)) == n
  {
    if n >= 10 {
      DecimalIsValue(n / 10);
      assert Decimal(n)[..|Decimal(n)| - 1] == Decimal(n / 10);
    } else {
      assert DecimalValue([n + ZERO]) == 10 * DecimalValue([n + ZERO][..0]) + n;
    }
  }

  // v holds the digits s at its right end, and zeros in front of them.
  predicate AtRightEnd(s: Text, v: seq<byte>) {
    AllDigits(s) && |s| <= 2 * |v| && v == Placed(s, |v|, 2 * |v| - |s|, 0)
  }

  lemma LastTwo(s: Text)
    requires AllDigits(s)
    ensures |s| >= 2 ==>
              DecimalValue(s) == 100 * DecimalValue(s[..|s| - 2]) + 10 * (s[|s| - 2] - ZERO) + (s[|s| - 1] - ZERO)
    ensures |s| == 1 ==> DecimalValue(s) == s[0] - ZERO
    ensures DecimalValue([]) == 0
  {
    if |s| >= 2 {
      assert s[..|s| - 1][..|s| - 2] == s[..|s| - 2];
    }
  }

  lemma LastByte(s: Text, v: seq<byte>) returns (front: Text, v': seq<byte>, high: byte, low: byte)
    requires AtRightEnd(s, v) && v != []
    ensures AtRightEnd(front, v') && v == v' + [16 * high + low] && high <= 9 && low <= 9
    ensures DecimalValue(s) == 100 * DecimalValue(front) + 10 * high + low
  {
    LastTwo(s);
    front, v' := s[..if |s| >= 2 then |s| - 2 else 0], v[..|v| - 1];
    high, low := if |s| >= 2 then s[|s| - 2] - ZERO else 0, if |s| >= 1 then s[|s| - 1] - ZERO else 0;
  }

  // Digits at the right end, whatever the room in front of them, keep their value.
  lemma {:induction false} PlacedValue(s: Text, v: seq<byte>)
    requires AtRightEnd(s, v)
    ensures AllBcd(v) && Value(v) == DecimalValue(s)
    decreases |v|
  {
    if v != [] {
      var front, v', high, low := LastByte(s, v);
      PlacedValue(front, v');
      ValuePush(v', high, low);
    }
  }

  lemma PlacedNumber(n: nat, v: seq<byte>)
    requires n <= ULONG_MAX && AtRightEnd(Decimal(n), v)
    ensures v != [] && AllBcd(v) && Guarded(v) && Value(v) % WORD == n
  {
    PlacedValue(Decimal(n), v);
    DecimalIsValue(n);
    InRange(v);
    Small(n);
  }

  lemma PlacedAtRightEnd(s: Text, size: nat)
    requires AllDigits(s) && |s| <= 2 * size
    ensures AtRightEnd(s, Placed(s, size, 2 * size - |s|, 0))
  {
  }

  lemma RightAligned(s: Text, size: nat, v: seq<byte>)
    requires AllDigits(s) && Required(|s|) <= size && v == Sized(Folded(Padded(s, true)), size, true)
    ensures AtRightEnd(s, v)
  {
    EncodersAgree(s, size, true);
    PlacedAtRightEnd(s, size);
    assert v == Placed(s, size, 2 * size - |s|, 0);
  }

  // Every 32-bit number comes back from its BCD code v, in any size that holds it.
  lemma NumberRoundTrip(n: nat, size: nat, v: seq<byte>)
    requires n <= ULONG_MAX && Required(|Decimal(n)|) <= size
    requires v == Sized(Folded(Padded(Decimal(n), true)), size, true)
    ensures v != [] && AllBcd(v) && Guarded(v) && Value(v) % WORD == n
  {
    RightAligned(Decimal(n), size, v);
    PlacedNumber(n, v);
  }
}
