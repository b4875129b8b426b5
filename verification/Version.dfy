// A version of four numbers (opos/code_tools/ct_version.h), with the reading of numbers it
// relies on (get_value in opos/code_tools/ct_convert.h).
module Version {
  import opened Wrappers
  import opened Bytes
  import opened Sequences
  import Bcd

  const PLUS: byte := '+' as int
  const MINUS: byte := '-' as int
  const ITEMS := 4

  // ----- The order of versions -----

  // The lexicographic order on lists of the same length.
  predicate Below(a: seq<nat>, b: seq<nat>)
    requires |a| == |b|
  {
    a != [] && (a[0] < b[0] || (a[0] == b[0] && Below(a[1..], b[1..])))
  }

  lemma {:induction false} BelowIsTotal(a: seq<nat>, b: seq<nat>)
    requires |a| == |b|
    ensures Below(a, b) ==> a != b && !Below(b, a)
    ensures Below(a, b) || a == b || Below(b, a)
  {
    if a != [] {
      BelowIsTotal(a[1..], b[1..]);
      assert a == [a[0]] + a[1..] && b == [b[0]] + b[1..];
    }
  }

  lemma {:induction false} BelowIsTransitive(a: seq<nat>, b: seq<nat>, c: seq<nat>)
    requires |a| == |b| == |c| && Below(a, b) && Below(b, c)
    ensures Below(a, c)
  {
    if a[0] == b[0] == c[0] {
      BelowIsTransitive(a[1..], b[1..], c[1..]);
    }
  }

  lemma BelowItems(a: seq<nat>, b: seq<nat>)
    requires |a| == |b| == ITEMS
    ensures Below(a, b) <==> a[0] < b[0] || (a[0] == b[0] && (a[1] < b[1] || (a[1] == b[1]
                             && (a[2] < b[2] || (a[2] == b[2] && a[3] < b[3])))))
  {
    var a1, b1 := a[1..], b[1..];
    var a2, b2 := a1[1..], b1[1..];
    var a3, b3 := a2[1..], b2[1..];
    assert Below(a3, b3) <==> a3[0] < b3[0];
    assert Below(a2, b2) <==> a2[0] < b2[0] || (a2[0] == b2[0] && Below(a3, b3));
    assert Below(a1, b1) <==> a1[0] < b1[0] || (a1[0] == b1[0] && Below(a2, b2));
  }

  // ----- Reading a number -----

  function NoBlanks(s: Text): Text {
    if s == [] then [] else (if IsBlank(s[0]) then [] else [s[0]]) + NoBlanks(s[1..])
  }

  function Leading(s: Text): (n: Option<nat>)
    ensures n.Some? ==> n.value <= Bcd.ULONG_MAX
  {
    var digits := Bcd.LeadingDigits(s);
    if digits == [] || Bcd.DecimalValue(digits) > Bcd.ULONG_MAX then None else Some(Bcd.DecimalValue(digits))
  }

  // std::stoul in base 10: a sign, digits up to the first other character, a value that fits
  // 32 bits. A minus sign takes the value from zero, modulo 2^32.
  function Stoul(s: Text): Option<nat> {
    if s != [] && s[0] == MINUS then
      var n := Leading(s[1..]);
      if n.Some? then Some((Bcd.WORD - n.value) % Bcd.WORD) else None
    else Leading(if s != [] && s[0] == PLUS then s[1..] else s)
  }

  function Number(s: Text): Option<nat> { if s == [] then None else Stoul(NoBlanks(s)) }

  // ----- Reading a version -----

  // The first period, or the end of the text.
  function FindPeriod(s: Text): nat { |Until(s, {PERIOD})| }

  // The four items of a text: its fields, and 0 for those that are missing or for an empty last
  // one. There may be a fifth field if it is empty.
  predicate Itemized(s: Text) {
    var f := Fields(s, {PERIOD});
    s != [] && |f| <= ITEMS + 1 && (|f| == ITEMS + 1 ==> f[ITEMS] == [])
  }

  function Item(s: Text, i: nat): Text {
    var f := Fields(s, {PERIOD});
    if i < |f| - 1 || (i == |f| - 1 && f[i] != []) then f[i] else [ZERO]
  }

  predicate Fits(s: Text, max: nat) { Number(s).Some? && Number(s).value <= max }

  predicate Readable(s: Text, max: nat) { Itemized(s) && forall i: nat :: i < ITEMS ==> Fits(Item(s, i), max) }

  function Read(s: Text, max: nat): (v: seq<nat>)
    requires Readable(s, max)
    ensures |v| == ITEMS
  {
    seq(ITEMS, i requires 0 <= i < ITEMS => Number(Item(s, i)).value)
  }

  function Printed(v: seq<nat>): Text
    requires |v| == ITEMS
  {
    Bcd.Decimal(v[0]) + [PERIOD] + (Bcd.Decimal(v[1]) + [PERIOD] + (Bcd.Decimal(v[2]) + [PERIOD] + Bcd.Decimal(v[3])))
  }

  // ----- The class -----

  method ReadItems(items: seq<Text>, was: seq<nat>, max: nat) returns (ok: bool, v: seq<nat>)
    requires |items| == |was| == ITEMS
    ensures ok <==> forall i: nat :: i < ITEMS ==> Fits(items[i], max)
    ensures |v| == ITEMS && (ok ==> forall i: nat :: i < ITEMS ==> v[i] == Number(items[i]).value)
  {
    v := was;
    for i := 0 to ITEMS
      invariant |v| == ITEMS
      invariant forall k: nat :: k < i ==> Fits(items[k], max) && v[k] == Number(items[k]).value
    {
      var n := Number(items[i]);
      if n.None? {
        return false, v;
      }
      if n.value > max {
        return false, v;
      }
      v := v[i := n.value];
    }
    ok := true;
  }

  method SplitText(text: Text) returns (ok: bool, items: seq<Text>)
    requires text != []
    ensures ok <==> Itemized(text)
    ensures ok ==> |items| == ITEMS && forall i: nat :: i < ITEMS ==> items[i] == Item(text, i)
  {
    items := [[ZERO], [ZERO], [ZERO], [ZERO]];
    var s, n := text, 0;
    var pos := FindPeriod(s);
    while pos != |s|
      invariant pos == FindPeriod(s) && n <= ITEMS == |items|
      invariant |Fields(text, {PERIOD})| == n + |Fields(s, {PERIOD})|
                && Fields(text, {PERIOD})[n..] == Fields(s, {PERIOD})
      invariant forall k: nat :: k < ITEMS ==> items[k] == if k < n then Fields(text, {PERIOD})[k] else [ZERO]
      decreases |s|
    {
      if n >= ITEMS {
        return false, items;
      }
      assert Fields(s, {PERIOD})[0] == Fields(text, {PERIOD})[n]
             && Fields(s, {PERIOD})[1..] == Fields(text, {PERIOD})[n + 1..];
      items := items[n := s[..pos]];
      n := n + 1;
      s := s[pos + 1..];
      pos := FindPeriod(s);
    }
    assert Fields(text, {PERIOD})[n] == Fields(s, {PERIOD})[0] == s;
    if s != [] {
      if n >= ITEMS {
        return false, items;
      }
      items := items[n := s];
    }
    ok := true;
  }

  method ReadText(text: Text, was: seq<nat>, max: nat) returns (ok: bool, v: seq<nat>)
    requires |was| == ITEMS
    ensures ok <==> Readable(text, max)
    ensures ok ==> v == Read(text, max) && v[0] <= max && v[1] <= max && v[2] <= max && v[3] <= max
  {
    v := was;
    if text == [] {
      return false, v;
    }
    var items;
    ok, items := SplitText(text);
    if ok {
      ok, v := ReadItems(items, was, max);
    }
  }

  class CtVersion {
    const max: nat    // of the type of an item
    var major: nat
    var minor: nat
    var fix: nat
    var build: nat

    predicate Valid()
      reads this
    {
      max <= Bcd.ULONG_MAX && major <= max && minor <= max && fix <= max && build <= max
    }

    function GetByVector(): (v: seq<nat>)
      reads this
      ensures |v| == ITEMS
    {
      [major, minor, fix, build]
    }

    constructor (max: nat)
      requires max <= Bcd.ULONG_MAX
      ensures Valid() && this.max == max && GetByVector() == [0, 0, 0, 0]
    {
      this.max := max;
      major, minor, fix, build := 0, 0, 0, 0;
    }

    method Greater(rhs: CtVersion) returns (r: bool)
      ensures r <==> Below(rhs.GetByVector(), GetByVector())
    {
      BelowItems(rhs.GetByVector(), GetByVector());
      if major > rhs.major {
        return true;
      }
      if major < rhs.major {
        return false;
      }
      if minor > rhs.minor {
        return true;
      } else if minor < rhs.minor {
        return false;
      }
      if fix > rhs.fix {
        return true;
      } else if fix < rhs.fix {
        return false;
      }
      r := build > rhs.build;
    }

    method Equal(rhs: CtVersion) returns (r: bool)
      ensures r <==> GetByVector() == rhs.GetByVector()
    {
      if major != rhs.major {
        return false;
      }
      if minor != rhs.minor {
        return false;
      }
      if fix != rhs.fix {
        return false;
      }
      r := build == rhs.build;
    }

    method Less(rhs: CtVersion) returns (r: bool)
      ensures r <==> Below(GetByVector(), rhs.GetByVector())
    {
      BelowIsTotal(GetByVector(), rhs.GetByVector());
      var greater := Greater(rhs);
      if greater {
        return false;
      }
      var equal := Equal(rhs);
      r := !equal;
    }

    method GreaterOrEqual(rhs: CtVersion) returns (r: bool)
      ensures r <==> !Below(GetByVector(), rhs.GetByVector())
    {
      BelowIsTotal(GetByVector(), rhs.GetByVector());
      var equal := Equal(rhs);
      if equal {
        return true;
      }
      r := Greater(rhs);
    }

    method LessOrEqual(rhs: CtVersion) returns (r: bool)
      ensures r <==> !Below(rhs.GetByVector(), GetByVector())
    {
      BelowIsTotal(GetByVector(), rhs.GetByVector());
      var equal := Equal(rhs);
      if equal {
        return true;
      }
      r := Less(rhs);
    }

    method GetByString() returns (s: Text)
      ensures s == Printed(GetByVector())
    {
      s := Bcd.Decimal(major);
      s := s + [PERIOD];
      s := s + Bcd.Decimal(minor);
      s := s + [PERIOD];
      s := s + Bcd.Decimal(fix);
      s := s + [PERIOD];
      s := s + Bcd.Decimal(build);
    }

    method SetByString(text: Text) returns (ok: bool)
      requires Valid()
      modifies `major, `minor, `fix, `build
      ensures Valid() && (ok <==> Readable(text, max))
      ensures GetByVector() == if ok then Read(text, max) else old(GetByVector())
    {
      var v;
      ok, v := ReadText(text, GetByVector(), max);
      if ok {
        assert v == [v[0], v[1], v[2], v[3]];
        major, minor, fix, build := v[0], v[1], v[2], v[3];
      }
    }
  }

  // ----- There and back -----

  lemma FieldsCons(a: Text, rest: Text)
    requires Bcd.AllDigits(a)
    ensures Fields(a, {PERIOD}) == [a] && Fields(a + [PERIOD] + rest, {PERIOD}) == [a] + Fields(rest, {PERIOD})
  {
    NoStop(a, {PERIOD});
    SplitAtStop(a, PERIOD, rest, {PERIOD});
    var s := a + [PERIOD] + rest;
    assert s[..|a|] == a && s[|a| + 1..] == rest;
  }

  lemma {:induction false} DigitsHaveNoBlanks(s: Text)
    requires Bcd.AllDigits(s)
    ensures NoBlanks(s) == s
  {
    if s != [] {
      DigitsHaveNoBlanks(s[1..]);
    }
  }

  lemma LeadingOfDecimal(n: nat)
    requires n <= Bcd.ULONG_MAX
    ensures Leading(Bcd.Decimal(n)) == Some(n)
  {
    Bcd.AllLead(Bcd.Decimal(n));
    Bcd.DecimalIsValue(n);
  }

  lemma NumberOfDecimal(n: nat)
    requires n <= Bcd.ULONG_MAX
    ensures Number(Bcd.Decimal(n)) == Some(n)
  {
    DigitsHaveNoBlanks(Bcd.Decimal(n));
    LeadingOfDecimal(n);
  }

  lemma FieldsOfPrinted(v: seq<nat>)
    requires |v| == ITEMS
    ensures Fields(Printed(v), {PERIOD}) == [Bcd.Decimal(v[0]), Bcd.Decimal(v[1]), Bcd.Decimal(v[2]), Bcd.Decimal(v[3])]
  {
    var a, b, c, d := Bcd.Decimal(v[0]), Bcd.Decimal(v[1]), Bcd.Decimal(v[2]), Bcd.Decimal(v[3]);
    var cd := c + [PERIOD] + d;
    var bcd := b + [PERIOD] + cd;
    FieldsCons(d, []);
    FieldsCons(c, d);
    FieldsCons(b, cd);
    FieldsCons(a, bcd);
    assert [a] + ([b] + ([c] + [d])) == [a, b, c, d];
  }

  lemma ItemOfPrinted(v: seq<nat>, i: nat)
    requires |v| == ITEMS && i < ITEMS
    ensures Item(Printed(v), i) == Bcd.Decimal(v[i])
  {
    FieldsOfPrinted(v);
  }

  // A version of items of any width comes back from its text.
  lemma PrintedIsRead(v: seq<nat>, max: nat)
    requires |v| == ITEMS && max <= Bcd.ULONG_MAX && forall i :: 0 <= i < ITEMS ==> v[i] <= max
    ensures Readable(Printed(v), max) && Read(Printed(v), max) == v
  {
    FieldsOfPrinted(v);
    forall i: nat | i < ITEMS
      ensures Number(Item(Printed(v), i)) == Some(v[i])
    {
      ItemOfPrinted(v, i);
      NumberOfDecimal(v[i]);
    }
    assert Readable(Printed(v), max);
  }

  // More than that is read: a negative number is the one 2^32 above it, so it fits 32-bit items
  // and no narrower ones except close to the top.
  lemma NegativeNumber(n: nat)
    requires 0 < n <= Bcd.ULONG_MAX
    ensures Number([MINUS] + Bcd.Decimal(n)) == Some(Bcd.WORD - n)
  {
    var d := Bcd.Decimal(n);
    var s := [MINUS] + d;
    assert s[1..] == d;
    DigitsHaveNoBlanks(d);
    assert NoBlanks(s) == [MINUS] + NoBlanks(d) == s;
    LeadingOfDecimal(n);
    Bcd.Small(Bcd.WORD - n);
  }
}
