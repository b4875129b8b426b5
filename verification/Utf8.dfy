// Recognising UTF-8 (is_all_utf8 in opos/code_tools/ct_operation.h).
module Utf8 {
  import opened Bytes

  // The form 10xxxxxx.
  predicate IsContinuation(b: byte) { b / 64 == 2 }

  // How many continuation bytes follow a lead byte, as the code classes it: 0xxxxxxx, 11110uuu,
  // any other 111xxxxx, 110yyyyy.
  function Following(lead: byte): nat
    requires !IsContinuation(lead)
  {
    if lead / 128 == 0 then 0 else if lead / 8 == 0x1E then 3 else if lead / 32 == 7 then 2 else 1
  }

  // ----- Buffers that split into characters -----

  predicate Character(s: seq<byte>) {
    && s != [] && !IsContinuation(s[0]) && |s| == 1 + Following(s[0])
    && forall i :: 1 <= i < |s| ==> IsContinuation(s[i])
  }

  predicate Segmented(s: seq<byte>) {
    s == [] || (!IsContinuation(s[0]) && 1 + Following(s[0]) <= |s|
                && Character(s[..1 + Following(s[0])]) && Segmented(s[1 + Following(s[0])..]))
  }

  // ----- What the scan does -----

  // How many of the next n bytes from k on are continuation bytes, up to the first that is not.
  function Run(s: seq<byte>, k: nat, n: nat): (r: nat)
    requires k <= |s|
    ensures r <= n && k + r <= |s|
    ensures r < n && k + r < |s| ==> !IsContinuation(s[k + r])
    ensures forall i :: k <= i < k + r ==> IsContinuation(s[i])
    decreases n
  {
    if n == 0 || k == |s| || !IsContinuation(s[k]) then 0 else 1 + Run(s, k + 1, n - 1)
  }

  // One round: from a lead byte behind its character or behind the byte that breaks it, and
  // nowhere from a continuation byte. Once something was wrong no continuation is looked at.
  function Round(s: seq<byte>, k: nat, ok: bool): (nat, bool)
    requires k < |s|
  {
    if IsContinuation(s[k]) then (k, false)
    else if !ok then (k + 1, false)
    else
      var n := Following(s[k]);
      var r := Run(s, k + 1, n);
      if r == n then (k + 1 + n, true) else if k + 1 + r == |s| then (|s|, false) else (k + 1 + r + 1, false)
  }

  // Where the scan goes on after the first thing that is wrong; the end if there is none.
  function Resume(s: seq<byte>, k: nat): (r: nat)
    requires k <= |s|
    ensures k <= r <= |s|
    decreases |s| - k
  {
    if k == |s| then k
    else
      var (k', ok) := Round(s, k, true);
      if ok then Resume(s, k') else k'
  }

  predicate ContinuationFrom(s: seq<byte>, k: nat) { exists i :: k <= i < |s| && IsContinuation(s[i]) }

  // A continuation byte stands where a lead byte is looked for.
  predicate Hangs(s: seq<byte>) { ContinuationFrom(s, Resume(s, 0)) }

  // The rounds from k on never find anything wrong.
  predicate Clean(s: seq<byte>, k: nat)
    requires k <= |s|
    decreases |s| - k
  {
    k == |s| || (Round(s, k, true).1 && Clean(s, Round(s, k, true).0))
  }

  lemma CharacterAt(s: seq<byte>, k: nat)
    requires k < |s| && !IsContinuation(s[k])
    ensures var n := 1 + Following(s[k]);
            && (Round(s, k, true).1 <==> n <= |s[k..]| && Character(s[k..][..n]))
            && (Round(s, k, true).1 ==> Round(s, k, true).0 == k + n)
  {
    var n := 1 + Following(s[k]);
    if n <= |s[k..]| {
      var t := s[k..][..n];
      assert forall i :: 0 <= i < n ==> t[i] == s[k + i];
      var r := Run(s, k + 1, n - 1);
      assert r < n - 1 ==> !IsContinuation(t[1 + r]);
    }
  }

  lemma {:induction false} CleanIsSegmented(s: seq<byte>, k: nat)
    requires k <= |s|
    ensures Clean(s, k) <==> Segmented(s[k..])
    ensures Clean(s, k) ==> Resume(s, k) == |s|
    decreases |s| - k
  {
    if k < |s| && !IsContinuation(s[k]) {
      var next := k + 1 + Following(s[k]);
      CharacterAt(s, k);
      if next <= |s| {
        assert s[k..][next - k..] == s[next..];
        CleanIsSegmented(s, next);
      }
    }
  }

  // ----- The loop -----

  function StrLen(s: seq<byte>): (n: nat)
    requires 0 in s
    ensures n < |s| && s[n] == 0 && 0 !in s[..n]
  {
    if s[0] == 0 then 0 else 1 + StrLen(s[1..])
  }

  // The bytes that are looked at: those up to the NUL if no length is given.
  function Tested(data: seq<byte>, n: nat): seq<byte>
    requires if n == 0 then 0 in data else n <= |data|
  {
    if n == 0 then data[..StrLen(data)] else data[..n]
  }

  lemma NotAtContinuation(s: seq<byte>, k: nat, ok: bool)
    requires k < |s| && !ContinuationFrom(s, if ok then Resume(s, k) else k)
    ensures !IsContinuation(s[k])
    ensures var (k', ok') := Round(s, k, ok); k < k' && !ContinuationFrom(s, if ok' then Resume(s, k') else k')
  {
    assert IsContinuation(s[k]) ==> ContinuationFrom(s, k);
  }

  // The loop over the continuation bytes.
  method TestFollowing(data: seq<byte>, size: nat, from: nat, n: nat, ghost s: seq<byte>)
    returns (offset: nat, ok: bool)
    requires from <= size <= |data| && s == data[..size]
    ensures var r := Run(s, from, n);
            && (ok <==> r == n)
            && offset == if ok || from + r == size then from + r else from + r + 1
  {
    offset, ok := from, true;
    var left := n;
    while ok && left > 0
      invariant ok ==> from <= offset <= size && n == (offset - from) + left
      invariant ok ==> Run(s, from, n) == (offset - from) + Run(s, offset, left)
      invariant !ok ==> Run(s, from, n) < n
      invariant !ok ==> offset == if from + Run(s, from, n) == size then size else from + Run(s, from, n) + 1
      decreases if ok then 1 + left else 0
    {
      left := left - 1;
      if offset >= size {
        ok := false;
      } else {
        if data[offset] / 64 != 2 {
          ok := false;
        }
        offset := offset + 1;
      }
    }
  }

  // One round of the outer loop.
  method TestCharacter(data: seq<byte>, size: nat, offset: nat, ok: bool, ghost s: seq<byte>)
    returns (offset': nat, ok': bool)
    requires offset < size <= |data| && s == data[..size] && !IsContinuation(s[offset])
    ensures (offset', ok') == Round(s, offset, ok)
  {
    var c := data[offset];
    var n := 0;
    if c / 128 == 0 {
    } else if c / 8 == 0x1E {
      n := 3;
    } else if c / 32 == 7 {
      n := 2;
    } else if c / 32 == 6 {
      n := 1;
    } else {
      assert false;  // 10xxxxxx, from where the loop would not move on
    }
    offset', ok' := offset + 1, ok;
    if ok {
      offset', ok' := TestFollowing(data, size, offset + 1, n, s);
    }
  }

  method IsAllUtf8(data: seq<byte>, n: nat) returns (ok: bool)
    requires if n == 0 then 0 in data else n <= |data|
    requires !Hangs(Tested(data, n))
    ensures ok <==> Tested(data, n) != [] && Segmented(Tested(data, n))
  {
    var size := n;
    if n == 0 {
      size := StrLen(data);
    }
    ghost var s := Tested(data, n);
    if size == 0 {
      return false;
    }
    ok := true;
    var offset := 0;
    CleanIsSegmented(s, 0);
    assert s[0..] == s;
    while offset < size
      invariant offset <= size == |s| && s == data[..size]
      invariant !ContinuationFrom(s, if ok then Resume(s, offset) else offset)
      invariant Clean(s, 0) <==> ok && Clean(s, offset)
      decreases size - offset
    {
      assert s[offset] == data[offset];
      NotAtContinuation(s, offset, ok);
      offset, ok := TestCharacter(data, size, offset, ok, s);
    }
  }

  // ----- When it ends -----

  // The state after so many rounds; at the end of the buffer the loop is over.
  function Rounds(s: seq<byte>, n: nat): (st: (nat, bool))
    requires s != []
    ensures st.0 <= |s|
  {
    if n == 0 then (0, true)
    else
      var (k, ok) := Rounds(s, n - 1);
      if k == |s| then (k, ok) else Round(s, k, ok)
  }

  lemma StillHangs(s: seq<byte>, k: nat, ok: bool)
    requires k < |s| && ContinuationFrom(s, if ok then Resume(s, k) else k)
    ensures var (k', ok') := Round(s, k, ok); ContinuationFrom(s, if ok' then Resume(s, k') else k')
  {
    if !ok && !IsContinuation(s[k]) {
      var i :| k <= i < |s| && IsContinuation(s[i]);
      assert k + 1 <= i;
    }
  }

  lemma {:induction false} RoundsKeep(s: seq<byte>, n: nat)
    requires s != []
    ensures var (k, ok) := Rounds(s, n); Hangs(s) <==> ContinuationFrom(s, if ok then Resume(s, k) else k)
    ensures Hangs(s) || Rounds(s, n).0 >= n || Rounds(s, n).0 == |s|
  {
    if n > 0 {
      RoundsKeep(s, n - 1);
      var (k, ok) := Rounds(s, n - 1);
      if k < |s| && !Hangs(s) {
        NotAtContinuation(s, k, ok);
      } else if k < |s| {
        StillHangs(s, k, ok);
      }
    }
  }

  // The loop ends exactly when, from the first thing that is wrong, no continuation byte follows.
  lemma EndsExactly(s: seq<byte>)
    requires s != []
    ensures (exists n :: Rounds(s, n).0 == |s|) <==> !Hangs(s)
  {
    if Hangs(s) {
      forall n: nat
        ensures Rounds(s, n).0 != |s|
      {
        RoundsKeep(s, n);
      }
    } else {
      RoundsKeep(s, |s|);
    }
  }

  // What splits into characters does not hang.
  lemma SegmentedEnds(s: seq<byte>)
    requires Segmented(s)
    ensures !Hangs(s)
  {
    assert s[0..] == s;
    CleanIsSegmented(s, 0);
  }

  lemma {:induction false} Concatenated(a: seq<byte>, b: seq<byte>)
    requires Segmented(a)
    ensures Segmented(a + b) <==> Segmented(b)
    decreases |a|
  {
    if a == [] {
      assert a + b == b;
    } else {
      var n := 1 + Following(a[0]);
      assert (a + b)[..n] == a[..n] && (a + b)[n..] == a[n..] + b;
      Concatenated(a[n..], b);
    }
  }

  // ----- Unicode scalar values (section 3 of RFC 3629) -----

  predicate IsScalar(c: nat) { c < 0xD800 || 0xE000 <= c < 0x110000 }

  function EncodedScalar(c: nat): seq<byte>
    requires IsScalar(c)
  {
    if c < 0x80 then [c]
    else if c < 0x800 then [0xC0 + c / 0x40, 0x80 + c % 0x40]
    else if c < 0x10000 then [0xE0 + c / 0x1000, 0x80 + c / 0x40 % 0x40, 0x80 + c % 0x40]
    else [0xF0 + c / 0x40000, 0x80 + c / 0x1000 % 0x40, 0x80 + c / 0x40 % 0x40, 0x80 + c % 0x40]
  }

  function EncodedText(text: seq<nat>): seq<byte>
    requires forall i :: 0 <= i < |text| ==> IsScalar(text[i])
  {
    if text == [] then [] else EncodedScalar(text[0]) + EncodedText(text[1..])
  }

  lemma ScalarIsCharacter(c: nat)
    requires IsScalar(c)
    ensures Character(EncodedScalar(c)) && Segmented(EncodedScalar(c))
  {
    var s := EncodedScalar(c);
    assert Character(s);
    assert s[..|s|] == s && s[|s|..] == [];
  }

  // Every text of scalar values is recognised, and the loop ends on it.
  lemma {:induction false} TextIsRecognised(text: seq<nat>)
    requires forall i :: 0 <= i < |text| ==> IsScalar(text[i])
    ensures Segmented(EncodedText(text)) && !Hangs(EncodedText(text))
    ensures text != [] ==> EncodedText(text) != []
  {
    if text != [] {
      TextIsRecognised(text[1..]);
      ScalarIsCharacter(text[0]);
      Concatenated(EncodedScalar(text[0]), EncodedText(text[1..]));
    }
    SegmentedEnds(EncodedText(text));
  }

  lemma OneCharacter(s: seq<byte>)
    requires Character(s)
    ensures Segmented(s)
  {
    assert s[..|s|] == s && s[|s|..] == [];
  }

  // Recognised although they are not UTF-8: an overlong NUL, a surrogate, a byte that no
  // character starts with. And the shortest buffer on which the loop does not end.
  lemma Accepted()
    ensures Segmented([0xC0, 0x80]) && Segmented([0xED, 0xA0, 0x80]) && Segmented([0xFF, 0x80, 0x80])
    ensures Hangs([0x80])
  {
    OneCharacter([0xC0, 0x80]);
    OneCharacter([0xED, 0xA0, 0x80]);
    OneCharacter([0xFF, 0x80, 0x80]);
    var s: seq<byte> := [0x80];
    assert IsContinuation(s[0]) && Resume(s, 0) == 0;
  }
}
