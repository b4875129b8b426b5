// From a swipe to the application (opos/OposLpu230/SoMsr.cpp): the worker packs three tracks
// into one raw buffer, SaveMsrData unpacks it in place and applies the error policy, and Fire
// submits the event.
module CardReader {
  import opened Wrappers
  import opened Bytes
  import opened Sequences
  import opened CardParser

  const TRACKS := 3
  const ALL_TRACK_STRINGS := 4
  const DATA_SIZE := 252    // what is left of the 256-byte buffer behind ID and sizes
  const MAX_TRACK := 200    // what the worker has room for when it asks for a track
  const MAX_SIGNED := 127

  const ERROR_PARITY := -32
  const ERROR_LRC := -33
  const ERROR_STX := -34
  const ERROR_ETX := -35
  const WARN_OVER := -64
  const EMSR_START := 201
  const EMSR_END := 202
  const EMSR_PARITY := 203
  const EMSR_LRC := 204
  const OPOS_ERR := 100
  const E_NOEXIST := 109
  const E_EXTENDED := 114
  const EL_INPUT := 2
  const ER_CLEAR := 12

  // How far the raw code of a track's characters lies below ASCII.
  function Shift(i: nat): byte { if i == 0 then 0x20 else 0x30 }

  function RawStx(i: nat): byte { if i == 0 then 0x05 else 0x0B }

  function RawEtx(i: nat): byte { if i == 0 then 0x1F else 0x0F }

  // ----- The layout of the raw buffer -----

  type Sizes = z: seq<int> | |z| == TRACKS witness [0, 0, 0]

  function Len(size: int): nat { if size > 0 then size else 0 }

  function Start(z: Sizes, i: nat): nat {
    if i == 0 then 0 else if i == 1 then Len(z[0]) else if i == 2 then Len(z[0]) + Len(z[1])
    else Len(z[0]) + Len(z[1]) + Len(z[2])
  }

  predicate Fits(z: Sizes, d: Text) { Start(z, TRACKS) <= |d| }

  // The buffer cut into the three tracks and what is behind them.
  datatype Cut = Cut(first: Text, second: Text, third: Text, rest: Text) {
    function At(i: nat): Text { if i == 0 then first else if i == 1 then second else third }

    function Set(i: nat, s: Text): Cut {
      if i == 0 then this.(first := s) else if i == 1 then this.(second := s) else this.(third := s)
    }

    function Joined(): Text { first + (second + (third + rest)) }
  }

  function CutUp(z: Sizes, d: Text): (c: Cut)
    requires Fits(z, d)
    ensures c.Joined() == d
  {
    Cut(d[..Start(z, 1)], d[Start(z, 1)..Start(z, 2)], d[Start(z, 2)..Start(z, 3)], d[Start(z, 3)..])
  }

  predicate Matches(z: Sizes, c: Cut) {
    |c.first| == Len(z[0]) && |c.second| == Len(z[1]) && |c.third| == Len(z[2])
  }

  lemma CutOff(d: Text, from: nat, part: Text, rest: Text)
    requires from <= |d| && d[from..] == part + rest
    ensures from + |part| <= |d| && d[from..from + |part|] == part && d[from + |part|..] == rest
  {
    assert d[from..from + |part|] == d[from..][..|part|] && d[from + |part|..] == d[from..][|part|..];
  }

  lemma CutJoined(z: Sizes, c: Cut)
    requires Matches(z, c)
    ensures Fits(z, c.Joined()) && CutUp(z, c.Joined()) == c
  {
    var d := c.Joined();
    assert d[0..] == d;
    CutOff(d, 0, c.first, c.second + (c.third + c.rest));
    CutOff(d, |c.first|, c.second, c.third + c.rest);
    CutOff(d, |c.first| + |c.second|, c.third, c.rest);
  }

  function Shifted(s: Text, shift: int): Text { seq(|s|, k requires 0 <= k < |s| => ToByte(s[k] + shift)) }

  function AddTo(d: Text, from: nat, n: nat, shift: int): (r: Text)
    requires from + n <= |d|
    ensures |r| == |d|
  {
    d[..from] + Shifted(d[from..from + n], shift) + d[from + n..]
  }

  lemma AddToNext(d: Text, from: nat, n: nat, shift: int)
    requires from + n < |d|
    ensures AddTo(d, from, n, shift)[from + n] == d[from + n]
    ensures AddTo(d, from, n + 1, shift) == AddTo(d, from, n, shift)[from + n := ToByte(d[from + n] + shift)]
  {
  }

  method AddInPlace(a: array<byte>, from: nat, n: nat, shift: int)
    requires from + n <= a.Length
    modifies a
    ensures a[..] == AddTo(old(a[..]), from, n, shift)
  {
    ghost var d := a[..];
    for j := 0 to n
      invariant a[..] == AddTo(d, from, j, shift)
    {
      AddToNext(d, from, j, shift);
      a[from + j] := ToByte(a[from + j] + shift);
    }
  }

  lemma AddToMiddle(a: Text, b: Text, c: Text, shift: int)
    ensures AddTo(a + (b + c), |a|, |b|, shift) == a + (Shifted(b, shift) + c)
  {
    var d := a + (b + c);
    assert d[..|a|] == a && d[|a|..|a| + |b|] == b && d[|a| + |b|..] == c;
  }

  lemma AddToTrack(z: Sizes, c: Cut, i: nat, shift: int)
    requires i < TRACKS && Matches(z, c)
    ensures Start(z, i) + Len(z[i]) <= |c.Joined()|
    ensures AddTo(c.Joined(), Start(z, i), Len(z[i]), shift) == c.Set(i, Shifted(c.At(i), shift)).Joined()
  {
    var t := Shifted(c.At(i), shift);
    if i == 0 {
      AddToMiddle([], c.first, c.second + (c.third + c.rest), shift);
      assert forall s: Text :: [] + s == s;
    } else if i == 1 {
      AddToMiddle(c.first, c.second, c.third + c.rest, shift);
    } else {
      AddToMiddle(c.first + c.second, c.third, c.rest, shift);
      Regroup(c.first, c.second, c.third + c.rest);
      Regroup(c.first, c.second, t + c.rest);
    }
  }

  // A list whose first n elements have been replaced.
  function Replaced<T>(before: seq<T>, after: seq<T>, n: nat): seq<T>
    requires n <= |after| <= |before|
  {
    after[..n] + before[n..]
  }

  lemma ReplacedNext<T>(before: seq<T>, after: seq<T>, n: nat)
    requires n < |after| <= |before|
    ensures Replaced(before, after, n)[n := after[n]] == Replaced(before, after, n + 1)
    ensures Replaced(before, after, 0) == before
    ensures Replaced(before, after, |after|) == after + before[|after|..]
  {
  }

  // ----- Packing -----

  // What LPU237_get_data says about a track: an error, nothing to show (cancelled, reading
  // error, card inserted or removed, no data), or data of up to 200 bytes.
  datatype Swiped = Failed | Nothing | Data(bytes: Text)

  type Swipe = w: seq<Swiped> | |w| == TRACKS witness [Nothing, Nothing, Nothing]

  function BytesOf(w: Swiped): Text { if w.Data? then w.bytes else [] }

  function SizesOf(w: Swipe): Sizes {
    [ToSignedChar(|BytesOf(w[0])|), ToSignedChar(|BytesOf(w[1])|), ToSignedChar(|BytesOf(w[2])|)]
  }

  function ErrorsOf(w: Swipe): seq<bool> { [w[0].Failed?, w[1].Failed?, w[2].Failed?] }

  function Raw(w: Swipe, i: nat): Text
    requires i < TRACKS
  {
    Shifted(BytesOf(w[i]), -(Shift(i) as int))
  }

  // The packed buffer when the tracks below n are in.
  function PackedBelow(w: Swipe, n: nat): Text
    requires n <= TRACKS
  {
    if n == 0 then [] else PackedBelow(w, n - 1) + Raw(w, n - 1)
  }

  function Padded(s: Text): Text { s + Zeros(if |s| <= DATA_SIZE then DATA_SIZE - |s| else 0) }

  function Packed(w: Swipe): Text { Padded(PackedBelow(w, TRACKS)) }

  predicate SwipeFits(w: Swipe) {
    && |BytesOf(w[0])| + |BytesOf(w[1])| + |BytesOf(w[2])| <= DATA_SIZE
    && |BytesOf(w[0])| <= MAX_TRACK && |BytesOf(w[1])| <= MAX_TRACK && |BytesOf(w[2])| <= MAX_TRACK
  }

  lemma PackedAll(w: Swipe)
    ensures PackedBelow(w, 1) == Raw(w, 0) && PackedBelow(w, 2) == Raw(w, 0) + Raw(w, 1)
    ensures PackedBelow(w, TRACKS) == Raw(w, 0) + Raw(w, 1) + Raw(w, 2)
  {
    assert PackedBelow(w, 1) == [] + Raw(w, 0) == Raw(w, 0);
    assert PackedBelow(w, 2) == PackedBelow(w, 1) + Raw(w, 1);
    assert PackedBelow(w, 3) == PackedBelow(w, 2) + Raw(w, 2);
  }

  lemma PackedNext(w: Swipe, i: nat)
    requires SwipeFits(w) && i < TRACKS
    ensures PackedBelow(w, i + 1) == PackedBelow(w, i) + Raw(w, i) && |PackedBelow(w, i + 1)| <= DATA_SIZE
  {
    PackedAll(w);
  }

  lemma PackedNone(w: Swipe, i: nat)
    requires i < TRACKS && BytesOf(w[i]) == []
    ensures PackedBelow(w, i + 1) == PackedBelow(w, i)
  {
    assert PackedBelow(w, i) + [] == PackedBelow(w, i);
  }

  lemma PushShifted(p: Text, bytes: Text, j: nat, shift: int)
    requires j < |bytes| && |p| + |bytes| <= DATA_SIZE
    ensures Padded(p + Shifted(bytes[..j + 1], shift))
            == Padded(p + Shifted(bytes[..j], shift))[|p| + j := ToByte(bytes[j] + shift)]
  {
  }

  method Append(data: array<byte>, ghost p: Text, offset: nat, bytes: Text, shift: byte)
    requires offset == |p| && |p| + |bytes| <= DATA_SIZE && data[..] == Padded(p)
    modifies data
    ensures data[..] == Padded(p + Shifted(bytes, -(shift as int)))
  {
    assert p + Shifted(bytes[..0], -(shift as int)) == p;
    for j := 0 to |bytes|
      invariant data[..] == Padded(p + Shifted(bytes[..j], -(shift as int)))
    {
      PushShifted(p, bytes, j, -(shift as int));
      data[offset + j] := ToByte(bytes[j] - shift);
    }
    assert bytes[..|bytes|] == bytes;
  }

  // MsWorker_Normal_Usb_get_msr_data, one track of its loop first.
  method ReadTrack(w: Swipe, i: nat, sizes: array<int>, data: array<byte>, offset: nat)
    returns (offset': nat, failed: bool)
    requires SwipeFits(w) && i < TRACKS && sizes.Length == TRACKS && sizes[i] == 0
    requires offset == |PackedBelow(w, i)| && data[..] == Padded(PackedBelow(w, i))
    modifies sizes, data
    ensures offset' == |PackedBelow(w, i + 1)| && data[..] == Padded(PackedBelow(w, i + 1))
    ensures sizes[..] == old(sizes[..])[i := SizesOf(w)[i]]
    ensures failed == w[i].Failed?
  {
    offset', failed := offset, w[i].Failed?;
    if w[i].Data? && |w[i].bytes| > 0 {
      sizes[i] := ToSignedChar(|w[i].bytes|);
      ghost var before := PackedBelow(w, i);
      PackedNext(w, i);
      Append(data, before, offset, w[i].bytes, Shift(i));
      assert data[..] == Padded(before + Raw(w, i));
      offset' := offset + |w[i].bytes|;
    } else {
      PackedNone(w, i);
    }
  }

  // What the loop has read when it comes to track i.
  ghost predicate ReadBelow(w: Swipe, i: nat, z: seq<int>, d: Text, offset: nat, errors: seq<bool>) {
    && |z| == TRACKS && |errors| == i <= TRACKS
    && (forall k :: 0 <= k < TRACKS ==> z[k] == if k < i then SizesOf(w)[k] else 0)
    && (forall k :: 0 <= k < i ==> errors[k] == w[k].Failed?)
    && offset == |PackedBelow(w, i)| && d == Padded(PackedBelow(w, i))
  }

  lemma ReadAll(w: Swipe, z: seq<int>, d: Text, offset: nat, errors: seq<bool>)
    requires ReadBelow(w, TRACKS, z, d, offset, errors)
    ensures z == SizesOf(w) && d == Packed(w) && errors == ErrorsOf(w)
  {
  }

  lemma ReadNext(w: Swipe, i: nat, z: seq<int>, d: Text, offset: nat, errors: seq<bool>,
                 d': Text, offset': nat, failed: bool)
    requires i < TRACKS && ReadBelow(w, i, z, d, offset, errors) && failed == w[i].Failed?
    requires offset' == |PackedBelow(w, i + 1)| && d' == Padded(PackedBelow(w, i + 1))
    ensures ReadBelow(w, i + 1, z[i := SizesOf(w)[i]], d', offset', errors + [failed])
  {
  }

  method ReadTracks(w: Swipe, sizes: array<int>, data: array<byte>) returns (errors: seq<bool>)
    requires SwipeFits(w) && sizes.Length == TRACKS && data.Length == DATA_SIZE
    requires sizes[..] == [0, 0, 0] && data[..] == Zeros(DATA_SIZE)
    modifies sizes, data
    ensures sizes[..] == SizesOf(w) && data[..] == Packed(w)
    ensures errors == ErrorsOf(w)
  {
    var offset: nat := 0;
    errors := [];
    assert PackedBelow(w, 0) == [] && data[..] == Padded([]);
    assert ReadBelow(w, 0, sizes[..], data[..], offset, errors);
    for i := 0 to TRACKS
      invariant ReadBelow(w, i, sizes[..], data[..], offset, errors)
    {
      ghost var z, d := sizes[..], data[..];
      assert sizes[i] == z[i];
      var failed, next;
      next, failed := ReadTrack(w, i, sizes, data, offset);
      ReadNext(w, i, z, d, offset, errors, data[..], next, failed);
      offset, errors := next, errors + [failed];
    }
    ReadAll(w, sizes[..], data[..], offset, errors);
  }

  // memset(m_sRead, 0, ...).
  method Clear(data: array<byte>)
    modifies data
    ensures data[..] == Zeros(data.Length)
  {
    for j := 0 to data.Length
      invariant forall k :: 0 <= k < j ==> data[k] == 0
    {
      data[j] := 0;
    }
  }

  method GetMsrData(w: Swipe, sizes: array<int>, data: array<byte>) returns (fire: bool)
    requires SwipeFits(w) && sizes.Length == TRACKS && data.Length == DATA_SIZE
    modifies sizes, data
    ensures sizes[..] == SizesOf(w) && data[..] == Packed(w)
    ensures fire <==> !(w[0].Failed? && w[1].Failed? && w[2].Failed?)
                      && (SizesOf(w)[0] > 0 || SizesOf(w)[1] > 0 || SizesOf(w)[2] > 0)
  {
    Clear(data);
    sizes[0], sizes[1], sizes[2] := 0, 0, 0;
    var errors := ReadTracks(w, sizes, data);
    var z := sizes[..];
    fire := (!errors[0] || !errors[1] || !errors[2]) && (z[0] > 0 || z[1] > 0 || z[2] > 0);
  }

  // ----- Unpacking and the error policy -----

  datatype Settings = Settings(decode: bool, sentinels: bool, parse: bool, tracksToRead: int, cardLevel: bool) {
    predicate Selects(i: nat) {
      (if i == 0 then tracksToRead else if i == 1 then tracksToRead / 2 else tracksToRead / 4) % 2 == 1
    }

    predicate Decodes(i: nat) { decode && Selects(i) }

    function Stx(i: nat): byte { if decode then RawStx(i) + Shift(i) else RawStx(i) }

    function Etx(i: nat): byte { if decode then RawEtx(i) + Shift(i) else RawEtx(i) }

    // The characters of a track, from its part of the raw buffer.
    function Characters(i: nat, raw: Text): Text { if decode then Shifted(raw, Shift(i)) else raw }

    // The string a track ends up in, from its part of the raw buffer: cut at the first NUL, and
    // empty for a track that failed, is blank or is not selected.
    function Shown(i: nat, size: int, raw: Text): Text {
      if size <= 0 || !Selects(i) then []
      else
        var text := Until(Characters(i, raw), {0});
        if sentinels then [Stx(i)] + text + [Etx(i)] else text
    }
  }

  // The hardware code of a failed track as an OPOS code, in a signed char.
  function ErrorCode(size: int): (c: int)
    requires -128 <= size <= MAX_SIGNED
    ensures -128 <= c <= MAX_SIGNED && (c < 0 <==> size < 0) && (size >= 0 ==> c == size)
  {
    if size == ERROR_PARITY then ToSignedChar(EMSR_PARITY)
    else if size == ERROR_LRC then ToSignedChar(EMSR_LRC)
    else if size == ERROR_STX then ToSignedChar(EMSR_START)
    else if size == ERROR_ETX then ToSignedChar(EMSR_END)
    else if size == WARN_OVER then ToSignedChar(EMSR_END)
    else size
  }

  predicate SignedChars(z: Sizes) { forall i :: 0 <= i < TRACKS ==> -128 <= z[i] <= MAX_SIGNED }

  function Failures(z: Sizes): (r: seq<bool>)
    ensures |r| == TRACKS
  {
    [z[0] < 0, z[1] < 0, z[2] < 0]
  }

  predicate AnyFailed(z: Sizes) { z[0] < 0 || z[1] < 0 || z[2] < 0 }

  function Strings(cfg: Settings, z: Sizes, c: Cut): (r: seq<Text>)
    ensures |r| == TRACKS
  {
    [cfg.Shown(0, z[0], c.first), cfg.Shown(1, z[1], c.second), cfg.Shown(2, z[2], c.third)]
  }

  // The four track strings after a save; the fourth belongs to no track that is read.
  function TrackStrings(cfg: Settings, z: Sizes, c: Cut, fourth: Text): (r: seq<Text>)
    ensures |r| == ALL_TRACK_STRINGS
  {
    if AnyFailed(z) && cfg.cardLevel then [[], [], [], []]
    else Strings(cfg, z, c) + [fourth]
  }

  function Codes(z: Sizes): (r: seq<int>)
    requires SignedChars(z)
    ensures |r| == TRACKS
  {
    [ErrorCode(z[0]), ErrorCode(z[1]), ErrorCode(z[2])]
  }

  // The buffer once SaveMsrData has shifted the selected tracks below n to ASCII.
  function Decoded(cfg: Settings, c: Cut, n: nat): Cut {
    Cut(if 0 < n && cfg.Decodes(0) then Shifted(c.first, Shift(0)) else c.first,
        if 1 < n && cfg.Decodes(1) then Shifted(c.second, Shift(1)) else c.second,
        if 2 < n && cfg.Decodes(2) then Shifted(c.third, Shift(2)) else c.third,
        c.rest)
  }

  // The parser shifts the first two tracks itself unless the settings ask for decoding.
  function ParserView(cfg: Settings, c: Cut): Cut {
    if cfg.parse && !cfg.decode then Cut(Shifted(c.first, Shift(0)), Shifted(c.second, Shift(1)), c.third, c.rest)
    else c
  }

  function AfterSave(cfg: Settings, c: Cut): Cut { ParserView(cfg, Decoded(cfg, c, TRACKS)) }

  lemma TrackSlice(z: Sizes, c: Cut, i: nat)
    requires i < TRACKS && Matches(z, c)
    ensures Start(z, i) + Len(z[i]) <= |c.Joined()|
    ensures c.Joined()[Start(z, i)..Start(z, i) + Len(z[i])] == c.At(i)
  {
    CutJoined(z, c);
  }

  lemma DecodeNext(cfg: Settings, z: Sizes, c: Cut, i: nat)
    requires i < TRACKS && Matches(z, c)
    ensures var d := Decoded(cfg, c, i);
            && Matches(z, d) && d.At(i) == c.At(i)
            && Start(z, i) + Len(z[i]) <= |d.Joined()|
            && Decoded(cfg, c, i + 1).Joined()
               == if cfg.Decodes(i) then AddTo(d.Joined(), Start(z, i), Len(z[i]), Shift(i)) else d.Joined()
  {
    var d := Decoded(cfg, c, i);
    AddToTrack(z, d, i, Shift(i));
    assert Decoded(cfg, c, i + 1) == if cfg.Decodes(i) then d.Set(i, Shifted(d.At(i), Shift(i))) else d;
  }

  // The stretch of a selected track, and what shifting it gives.
  lemma SelectedNext(cfg: Settings, z: Sizes, c: Cut, i: nat, d: Text)
    requires i < TRACKS && Matches(z, c) && z[i] > 0 && cfg.Selects(i) && d == Decoded(cfg, c, i).Joined()
    ensures Start(z, i) + z[i] <= |d| && d[Start(z, i)..Start(z, i) + z[i]] == c.At(i)
    ensures Decoded(cfg, c, i + 1).Joined() == if cfg.decode then AddTo(d, Start(z, i), z[i], Shift(i)) else d
  {
    DecodeNext(cfg, z, c, i);
    TrackSlice(z, Decoded(cfg, c, i), i);
  }

  lemma DecodeNone(cfg: Settings, c: Cut, i: nat)
    requires i < TRACKS && (c.At(i) == [] || !cfg.Selects(i))
    ensures Decoded(cfg, c, i + 1) == Decoded(cfg, c, i)
  {
  }

  // OPOS events as CSoMsr::Fire builds them.
  datatype Event =
    | DataEvent(status: int)
    | ErrorEvent(resultCode: int, extended: int, locus: int)

  datatype Controls = Controls(cardErrors: bool, trackErrors: bool, communicationErrors: bool)

  function StatusWord(c: seq<int>): int
    requires |c| == TRACKS
  {
    ToByte(c[0]) + 0x100 * ToByte(c[1]) + 0x10000 * ToByte(c[2])
  }

  function Masked(cfg: Settings, codes: seq<int>): (r: seq<int>)
    requires |codes| == TRACKS
    ensures |r| == TRACKS
  {
    [if cfg.Selects(0) then codes[0] else 0,
     if cfg.Selects(1) then codes[1] else 0,
     if cfg.Selects(2) then codes[2] else 0]
  }

  function OnlyErrors(codes: seq<int>): (r: seq<int>)
    requires |codes| == TRACKS
    ensures |r| == TRACKS
  {
    [if codes[0] > 0 then 0 else codes[0], if codes[1] > 0 then 0 else codes[1], if codes[2] > 0 then 0 else codes[2]]
  }

  predicate SelectedFailed(cfg: Settings, codes: seq<int>)
    requires |codes| == TRACKS
  {
    exists i :: 0 <= i < TRACKS && cfg.Selects(i) && codes[i] < 0
  }

  // The event that is submitted after a transfer, and whether it is reported back as a Data
  // event, which is also the case when reporting of the error at hand is switched off at track
  // level or for the transfer.
  function Submitted(cfg: Settings, codes: seq<int>, transferOk: bool, ctl: Controls): (Option<Event>, bool)
    requires |codes| == TRACKS
  {
    var m := Masked(cfg, codes);
    if !transferOk then
      (if ctl.communicationErrors then Some(ErrorEvent(E_NOEXIST, 0, EL_INPUT)) else None, !ctl.communicationErrors)
    else if !SelectedFailed(cfg, codes) then (Some(DataEvent(StatusWord(m))), true)
    else if cfg.cardLevel then
      (if ctl.cardErrors then Some(ErrorEvent(E_EXTENDED, OPOS_ERR, 0)) else None, false)
    else
      (if ctl.trackErrors then Some(ErrorEvent(E_EXTENDED, StatusWord(OnlyErrors(m)), EL_INPUT)) else None,
       !ctl.trackErrors)
  }

  predicate FailedBelow(z: Sizes, n: nat) { (n > 0 && z[0] < 0) || (n > 1 && z[1] < 0) || (n > 2 && z[2] < 0) }

  datatype Saved = Saved(tracks: seq<Text>, errors: seq<bool>, codes: seq<int>, anyError: bool)

  // Strings, errors and codes of the tracks below n are those of z and c, the others are as before.
  ghost predicate SavedBelow(cfg: Settings, z: Sizes, c: Cut, n: nat, before: Saved, now: Saved)
    requires n <= TRACKS && SignedChars(z)
  {
    && |before.tracks| == ALL_TRACK_STRINGS && |before.errors| == TRACKS && |before.codes| == TRACKS
    && now == Saved(Replaced(before.tracks, Strings(cfg, z, c), n), Replaced(before.errors, Failures(z), n),
                    Replaced(before.codes, Codes(z), n), FailedBelow(z, n))
  }

  lemma SavedNext(cfg: Settings, z: Sizes, c: Cut, n: nat, before: Saved, now: Saved)
    requires n < TRACKS && SignedChars(z) && SavedBelow(cfg, z, c, n, before, now)
    ensures SavedBelow(cfg, z, c, n + 1, before,
                       Saved(now.tracks[n := cfg.Shown(n, z[n], c.At(n))], now.errors[n := z[n] < 0],
                             now.codes[n := ErrorCode(z[n])], now.anyError || z[n] < 0))
  {
    ReplacedNext(before.tracks, Strings(cfg, z, c), n);
    ReplacedNext(before.errors, Failures(z), n);
    ReplacedNext(before.codes, Codes(z), n);
    assert Strings(cfg, z, c)[n] == cfg.Shown(n, z[n], c.At(n)) && Codes(z)[n] == ErrorCode(z[n]);
  }

  lemma SavedEnds(cfg: Settings, z: Sizes, c: Cut, before: Saved, now: Saved)
    requires SignedChars(z) && |before.tracks| == ALL_TRACK_STRINGS && |before.errors| == TRACKS
             && |before.codes| == TRACKS
    ensures SavedBelow(cfg, z, c, 0, before, before.(anyError := false))
    ensures SavedBelow(cfg, z, c, TRACKS, before, now)
       <==> now == Saved(Strings(cfg, z, c) + [before.tracks[3]], Failures(z), Codes(z), AnyFailed(z))
  {
    ReplacedNext(before.tracks, Strings(cfg, z, c), 0);
    ReplacedNext(before.errors, Failures(z), 0);
    ReplacedNext(before.codes, Codes(z), 0);
  }

  lemma ParserShifts(z: Sizes, c: Cut)
    requires Matches(z, c)
    ensures Start(z, 2) <= |c.Joined()|
    ensures AddTo(AddTo(c.Joined(), 0, Len(z[0]), Shift(0)), Len(z[0]), Len(z[1]), Shift(1))
         == Cut(Shifted(c.first, Shift(0)), Shifted(c.second, Shift(1)), c.third, c.rest).Joined()
  {
    AddToTrack(z, c, 0, Shift(0));
    var c1 := c.Set(0, Shifted(c.first, Shift(0)));
    AddToTrack(z, c1, 1, Shift(1));
  }

  lemma ParserSlices(z: Sizes, c: Cut)
    requires |c.first| == Len(z[0]) && |c.second| == Len(z[1])
    ensures Start(z, 2) <= |c.Joined()|
    ensures c.Joined()[0..Len(z[0])] == c.first && c.Joined()[Len(z[0])..Len(z[0]) + Len(z[1])] == c.second
  {
  }

  // mbstowcs and %s: the bytes up to the first NUL.
  method CString(data: array<byte>, from: nat, n: nat) returns (s: Text)
    requires from + n <= data.Length
    ensures s == Until(data[..][from..from + n], {0})
  {
    s := [];
    ghost var all := data[..][from..from + n];
    var j := 0;
    while j < n
      invariant 0 <= j <= n && s == all[..j] && Free(s, {0})
    {
      if data[from + j] == 0 {
        UntilIs(all, {0}, j);
        return;
      }
      s := s + [data[from + j]];
      j := j + 1;
    }
    NoStop(all, {0});
  }

  lemma AddToMiddleSlice(d: Text, from: nat, n: nat, shift: int)
    requires from + n <= |d|
    ensures AddTo(d, from, n, shift)[from..from + n] == Shifted(d[from..from + n], shift)
  {
  }

  class Reader {
    var settings: Settings
    const sizes: array<int>
    const data: array<byte>
    var tracks: seq<Text>
    var errors: seq<bool>
    var anyError: bool
    var codes: seq<int>
    var fields1: Track1Fields
    var fields2: Track2Fields

    predicate Valid()
      reads this
    {
      && sizes.Length == TRACKS && data.Length == DATA_SIZE
      && |tracks| == ALL_TRACK_STRINGS && |errors| == TRACKS && |codes| == TRACKS
    }

    constructor (settings: Settings)
      ensures Valid() && fresh(sizes) && fresh(data) && this.settings == settings
      ensures tracks == [[], [], [], []] && codes == [0, 0, 0] && !anyError
    {
      this.settings := settings;
      sizes, data := new int[TRACKS](i => 0), new byte[DATA_SIZE](i => 0);
      tracks, errors, codes, anyError := [[], [], [], []], [false, false, false], [0, 0, 0], false;
      fields1, fields2 := NO_TRACK1, NO_TRACK2;
    }

    // The sizes and the data hold the tracks of c.
    ghost predicate Holds(c: Cut)
      reads this, sizes, data
    {
      Valid() && SignedChars(sizes[..]) && Matches(sizes[..], c) && data[..] == c.Joined()
    }

    // The string of a selected track with data, decoded in place if the settings ask for it.
    method ShowTrack(i: nat, offset: nat, size: nat, ghost d: Text, ghost raw: Text) returns (text: Text)
      requires i < TRACKS && size > 0 && settings.Selects(i) && offset + size <= data.Length && data[..] == d
      requires raw == d[offset..offset + size]
      modifies data
      ensures data[..] == if settings.decode then AddTo(d, offset, size, Shift(i)) else d
      ensures text == settings.Shown(i, size, raw)
    {
      if settings.decode {
        AddInPlace(data, offset, size, Shift(i));
        AddToMiddleSlice(d, offset, size, Shift(i));
      }
      text := CString(data, offset, size);
      if settings.sentinels {
        text := [settings.Stx(i)] + text + [settings.Etx(i)];
      }
    }

    method SelectedText(i: nat, offset: nat, ghost c: Cut) returns (text: Text)
      requires i < TRACKS && Valid() && SignedChars(sizes[..]) && Matches(sizes[..], c)
      requires sizes[i] > 0 && settings.Selects(i)
      requires offset == Start(sizes[..], i) && data[..] == Decoded(settings, c, i).Joined()
      modifies data
      ensures data[..] == Decoded(settings, c, i + 1).Joined()
      ensures text == settings.Shown(i, sizes[i], c.At(i))
    {
      ghost var d, z := data[..], sizes[..];
      SelectedNext(settings, z, c, i, d);
      text := ShowTrack(i, offset, sizes[i], d, c.At(i));
    }

    // The string of track i, and where the next track starts.
    method TrackText(i: nat, offset: nat, ghost c: Cut) returns (text: Text, offset': nat)
      requires i < TRACKS && Valid() && SignedChars(sizes[..]) && Matches(sizes[..], c)
      requires offset == Start(sizes[..], i) && data[..] == Decoded(settings, c, i).Joined()
      modifies data
      ensures offset' == Start(sizes[..], i + 1)
      ensures data[..] == Decoded(settings, c, i + 1).Joined()
      ensures text == settings.Shown(i, sizes[i], c.At(i))
    {
      text, offset' := [], offset;
      if sizes[i] > 0 {
        if settings.Selects(i) {
          text := SelectedText(i, offset, c);
        } else {
          DecodeNone(settings, c, i);
        }
        offset' := offset' + sizes[i];
      } else {
        DecodeNone(settings, c, i);
      }
    }

    // One round of the loop over the tracks in SaveMsrData.
    method SaveTrack(i: nat, offset: nat, ghost c: Cut) returns (offset': nat)
      requires i < TRACKS && Valid() && SignedChars(sizes[..]) && Matches(sizes[..], c)
      requires offset == Start(sizes[..], i) && data[..] == Decoded(settings, c, i).Joined()
      modifies `tracks, `errors, `anyError, `codes, data
      ensures Valid()
      ensures offset' == Start(sizes[..], i + 1)
      ensures data[..] == Decoded(settings, c, i + 1).Joined()
      ensures tracks == old(tracks)[i := settings.Shown(i, sizes[i], c.At(i))]
      ensures errors == old(errors)[i := sizes[i] < 0]
      ensures anyError == (old(anyError) || sizes[i] < 0)
      ensures codes == old(codes)[i := ErrorCode(sizes[i])]
    {
      var text;
      text, offset' := TrackText(i, offset, c);
      tracks := tracks[i := text];
      errors := errors[i := sizes[i] < 0];
      anyError := anyError || errors[i];
      codes := codes[i := ErrorCode(sizes[i])];
    }

    method SaveTracks(ghost c: Cut)
      requires Holds(c)
      modifies `tracks, `errors, `anyError, `codes, data
      ensures Valid() && tracks == Strings(settings, sizes[..], c) + [old(tracks[3])]
      ensures errors == Failures(sizes[..]) && anyError == AnyFailed(sizes[..]) && codes == Codes(sizes[..])
      ensures data[..] == Decoded(settings, c, TRACKS).Joined()
    {
      ghost var z, before := sizes[..], Saved(tracks, errors, codes, false);
      var offset: nat := 0;
      anyError := false;
      SavedEnds(settings, z, c, before, before);
      for i := 0 to TRACKS
        invariant Valid() && offset == Start(z, i) && data[..] == Decoded(settings, c, i).Joined()
        invariant SavedBelow(settings, z, c, i, before, Saved(tracks, errors, codes, anyError))
      {
        SavedNext(settings, z, c, i, before, Saved(tracks, errors, codes, anyError));
        offset := SaveTrack(i, offset, c);
      }
      SavedEnds(settings, z, c, before, Saved(tracks, errors, codes, anyError));
    }

    method ParseTracks(n0: nat, n1: nat, ghost c: Cut)
      requires sizes.Length == TRACKS && data[..] == c.Joined()
      requires n0 == |c.first| == Len(sizes[0]) && n1 == |c.second| == Len(sizes[1])
      modifies `fields1, `fields2
      ensures fields1 == Track1(c.first) && fields2 == Track2(c.second)
    {
      ParserSlices(sizes[..], c);
      fields1 := ScanTrack1(data, 0, n0);
      fields2 := ScanTrack2(data, n0, n1);
    }

    method ShiftForParser(n0: nat, n1: nat, ghost c: Cut)
      requires Holds(c) && settings.parse && !settings.decode && n0 == Len(sizes[0]) && n1 == Len(sizes[1])
      modifies data
      ensures data[..] == ParserView(settings, c).Joined()
    {
      ParserShifts(sizes[..], c);
      AddInPlace(data, 0, n0, Shift(0));
      AddInPlace(data, n0, n1, Shift(1));
    }

    method ParsingCardData(ghost c: Cut)
      requires Holds(c) && settings.parse
      modifies `fields1, `fields2, data
      ensures data[..] == ParserView(settings, c).Joined()
      ensures fields1 == Track1(ParserView(settings, c).first)
      ensures fields2 == Track2(ParserView(settings, c).second)
    {
      var n0 := if sizes[0] > 0 then sizes[0] else 0;
      var n1 := if sizes[1] > 0 then sizes[1] else 0;
      if !settings.decode {
        ShiftForParser(n0, n1, c);
      }
      ParseTracks(n0, n1, ParserView(settings, c));
    }

    method SaveMsrData(ghost c: Cut)
      requires Holds(c)
      modifies `tracks, `errors, `anyError, `codes, `fields1, `fields2, data
      ensures Valid() && tracks == TrackStrings(settings, sizes[..], c, old(tracks[3]))
      ensures errors == Failures(sizes[..]) && anyError == AnyFailed(sizes[..]) && codes == Codes(sizes[..])
      ensures data[..] == AfterSave(settings, c).Joined()
      ensures settings.parse ==>
                fields1 == Track1(AfterSave(settings, c).first) && fields2 == Track2(AfterSave(settings, c).second)
      ensures !settings.parse ==> fields1 == old(fields1) && fields2 == old(fields2)
    {
      SaveTracks(c);
      if anyError && settings.cardLevel {
        tracks := [[], [], [], []];
      }
      ghost var d := Decoded(settings, c, TRACKS);
      if settings.parse {
        ParsingCardData(d);
      }
    }

    method ErrorProcess(response: int)
      requires Valid()
      modifies this`tracks, this`errors, this`codes
      ensures Valid()
      ensures response == ER_CLEAR ==>
              tracks == [[], [], [], []] && errors == [false, false, false] && codes == [0, 0, 0]
      ensures response != ER_CLEAR ==> tracks == old(tracks) && errors == old(errors) && codes == old(codes)
    {
      if response == ER_CLEAR {
        tracks, errors, codes := [[], [], [], []], [false, false, false], [0, 0, 0];
      }
    }

    // CSoMsr::Fire up to the event queue; `response` is the last error response the queue holds
    // after the submission.
    method Fire(transferOk: bool, ctl: Controls, response: int) returns (event: Option<Event>, asData: bool)
      requires Valid() && forall i :: 0 <= i < TRACKS ==> -128 <= codes[i] <= MAX_SIGNED
      modifies this
      ensures Valid() && (event, asData) == Submitted(old(settings), old(codes), transferOk, ctl)
      ensures settings == old(settings) && fields1 == old(fields1) && fields2 == old(fields2)
              && anyError == old(anyError)
      ensures var cleared := event.Some? && event.value.ErrorEvent? && response == ER_CLEAR;
              && tracks == (if cleared then [[], [], [], []] else old(tracks))
              && errors == (if cleared then [false, false, false] else old(errors))
              && codes == (if cleared then [0, 0, 0] else old(codes))
    {
      event, asData := None, true;
      var code := codes;
      for i := 0 to TRACKS
        invariant |code| == TRACKS
        invariant forall k :: 0 <= k < TRACKS ==> code[k] == if k < i then Masked(settings, codes)[k] else codes[k]
      {
        if !settings.Selects(i) {
          code := code[i := 0];
        }
      }
      var failed := false;
      for i := 0 to TRACKS
        invariant failed == exists k :: 0 <= k < i && code[k] < 0
      {
        if code[i] < 0 {
          failed := true;
        }
      }
      assert code == Masked(settings, codes);
      assert failed == SelectedFailed(settings, codes) by {
        if i :| 0 <= i < TRACKS && settings.Selects(i) && codes[i] < 0 {
          assert code[i] < 0;
        }
      }
      var status := StatusWord(code);
      if transferOk {
        if !failed {
          event := Some(DataEvent(status));
        } else if !settings.cardLevel {
          status := StatusWord(OnlyErrors(code));
          if ctl.trackErrors {
            event, asData := Some(ErrorEvent(E_EXTENDED, status, EL_INPUT)), false;
            ErrorProcess(response);
          }
        } else {
          asData := false;
          if ctl.cardErrors {
            event := Some(ErrorEvent(E_EXTENDED, OPOS_ERR, 0));
            ErrorProcess(response);
          }
        }
      } else {
        if ctl.communicationErrors {
          event, asData := Some(ErrorEvent(E_NOEXIST, 0, EL_INPUT)), false;
          ErrorProcess(response);
        }
      }
    }
  }

  // ----- From the card to the track strings -----

  lemma PackedSize(w: Swipe)
    requires SwipeFits(w)
    ensures |Packed(w)| == DATA_SIZE && Fits(SizesOf(w), Packed(w))
  {
    PackedAll(w);
  }

  // What SaveMsrData finds in the buffer after a swipe: the sizes are signed chars, so a track
  // of more than 127 characters reads as failed and takes up no room.
  function Received(w: Swipe): (c: Cut)
    requires SwipeFits(w)
    ensures Matches(SizesOf(w), c) && c.Joined() == Packed(w) && SignedChars(SizesOf(w))
  {
    PackedSize(w);
    CutUp(SizesOf(w), Packed(w))
  }

  predicate Short(w: Swipe) {
    |BytesOf(w[0])| <= MAX_SIGNED && |BytesOf(w[1])| <= MAX_SIGNED && |BytesOf(w[2])| <= MAX_SIGNED
  }

  predicate NoNul(w: Swipe) { Free(BytesOf(w[0]), {0}) && Free(BytesOf(w[1]), {0}) && Free(BytesOf(w[2]), {0}) }

  lemma ReceivedApart(w: Swipe)
    requires SwipeFits(w) && Short(w)
    ensures Received(w).first == Raw(w, 0) && Received(w).second == Raw(w, 1) && Received(w).third == Raw(w, 2)
  {
    PackedAll(w);
    var rest := Zeros(DATA_SIZE - |PackedBelow(w, TRACKS)|);
    var c := Cut(Raw(w, 0), Raw(w, 1), Raw(w, 2), rest);
    RegroupFour(Raw(w, 0), Raw(w, 1), Raw(w, 2), rest);
    assert c.Joined() == Packed(w);
    CutJoined(SizesOf(w), c);
  }

  lemma ShiftedBack(s: Text, shift: int)
    ensures Shifted(Shifted(s, -shift), shift) == s
  {
  }

  function Wrapped(cfg: Settings, i: nat, text: Text): Text {
    if cfg.sentinels then [cfg.Stx(i)] + text + [cfg.Etx(i)] else text
  }

  lemma ShownSwiped(cfg: Settings, i: nat, bytes: Text, raw: Text)
    requires i < TRACKS && cfg.decode && raw == Shifted(bytes, -(Shift(i) as int))
    ensures cfg.Shown(i, |bytes|, raw)
         == if bytes == [] || !cfg.Selects(i) then [] else Wrapped(cfg, i, Until(bytes, {0}))
  {
    ShiftedBack(bytes, Shift(i));
  }

  lemma StringAt(cfg: Settings, w: Swipe, i: nat)
    requires SwipeFits(w) && Short(w) && i < TRACKS
    ensures Strings(cfg, SizesOf(w), Received(w))[i] == cfg.Shown(i, |BytesOf(w[i])|, Raw(w, i))
  {
    ReceivedApart(w);
  }

  // For every mask of tracks, a selected track with data comes out as it was swiped, up to its
  // first NUL, between the sentinels if these are on; the others come out empty.
  lemma PackThenSave(cfg: Settings, w: Swipe, i: nat)
    requires SwipeFits(w) && Short(w) && cfg.decode && i < TRACKS
    ensures Strings(cfg, SizesOf(w), Received(w))[i]
         == if BytesOf(w[i]) == [] || !cfg.Selects(i) then [] else Wrapped(cfg, i, Until(BytesOf(w[i]), {0}))
    ensures cfg.Stx(i) == (if i == 0 then '%' else ';') as int && cfg.Etx(i) == '?' as int
  {
    StringAt(cfg, w, i);
    ShownSwiped(cfg, i, BytesOf(w[i]), Raw(w, i));
  }

  lemma StringOfFailed(cfg: Settings, z: Sizes, c: Cut, i: nat)
    requires i < TRACKS && z[i] <= 0
    ensures Strings(cfg, z, c)[i] == []
  {
  }

  lemma TooLong(cfg: Settings, w: Swipe, i: nat)
    requires SwipeFits(w) && i < TRACKS && |BytesOf(w[i])| > MAX_SIGNED
    ensures Strings(cfg, SizesOf(w), Received(w))[i] == [] != BytesOf(w[i])
  {
    StringOfFailed(cfg, SizesOf(w), Received(w), i);
  }

  lemma ComesBack(cfg: Settings, w: Swipe, i: nat)
    requires SwipeFits(w) && Short(w) && cfg.decode && !cfg.sentinels && i < TRACKS && cfg.Selects(i)
    ensures Strings(cfg, SizesOf(w), Received(w))[i] == BytesOf(w[i]) <==> Free(BytesOf(w[i]), {0})
  {
    var bytes := BytesOf(w[i]);
    PackThenSave(cfg, w, i);
    NoStop(bytes, {0});
    if bytes != [] {
      assert Strings(cfg, SizesOf(w), Received(w))[i] == Until(bytes, {0});
    }
  }

  // With decoding on, every track selected and no sentinels, packing and saving give back every
  // track exactly when no track is longer than 127 characters or holds a NUL.
  lemma PackThenSaveExactly(cfg: Settings, w: Swipe)
    requires SwipeFits(w) && cfg.decode && !cfg.sentinels && cfg.Selects(0) && cfg.Selects(1) && cfg.Selects(2)
    ensures Strings(cfg, SizesOf(w), Received(w)) == [BytesOf(w[0]), BytesOf(w[1]), BytesOf(w[2])]
       <==> Short(w) && NoNul(w)
  {
    var r := Strings(cfg, SizesOf(w), Received(w));
    if Short(w) {
      ComesBack(cfg, w, 0);
      ComesBack(cfg, w, 1);
      ComesBack(cfg, w, 2);
    } else {
      TooLong(cfg, w, if |BytesOf(w[0])| > MAX_SIGNED then 0 else if |BytesOf(w[1])| > MAX_SIGNED then 1 else 2);
    }
    assert r == [BytesOf(w[0]), BytesOf(w[1]), BytesOf(w[2])]
      <==> r[0] == BytesOf(w[0]) && r[1] == BytesOf(w[1]) && r[2] == BytesOf(w[2]);
  }

  lemma ZeroExactly(c: byte, shift: byte)
    ensures ToByte(c - shift) == 0 <==> c == shift
  {
  }

  lemma ShiftedPrefix(s: Text, n: nat, shift: byte)
    requires n <= |s| && Free(s[..n], {shift})
    ensures Shifted(s, -(shift as int))[..n] == Shifted(s[..n], -(shift as int))
    ensures Free(Shifted(s, -(shift as int))[..n], {0})
    ensures n < |s| && s[n] == shift ==> Shifted(s, -(shift as int))[n] == 0
  {
    var t := Shifted(s, -(shift as int));
    forall i | 0 <= i < n
      ensures t[i] != 0
    {
      assert s[i] == s[..n][i];
      ZeroExactly(s[i], shift);
    }
  }

  lemma UntilShifted(s: Text, shift: byte)
    ensures Until(Shifted(s, -(shift as int)), {0}) == Shifted(Until(s, {shift}), -(shift as int))
  {
    var first := Until(s, {shift});
    ShiftedPrefix(s, |first|, shift);
    UntilEnds(Shifted(s, -(shift as int)), {0}, |first|);
  }

  // The character whose raw code is 0.
  function CutsRaw(i: nat): (c: byte)
    ensures c == Shift(i)
  {
    if i == 0 then ' ' as int else '0' as int
  }

  lemma RawShown(cfg: Settings, w: Swipe, i: nat)
    requires SwipeFits(w) && Short(w) && !cfg.decode && i < TRACKS && BytesOf(w[i]) != [] && cfg.Selects(i)
    ensures Strings(cfg, SizesOf(w), Received(w))[i] == Wrapped(cfg, i, Until(Raw(w, i), {0}))
  {
    ReceivedApart(w);
  }

  // With decoding off the strings hold raw codes, and raw code 0 is a space on track 1 and the
  // digit 0 on the others: the string ends before the first of these.
  lemma RawText(cfg: Settings, w: Swipe, i: nat)
    requires SwipeFits(w) && Short(w) && !cfg.decode && i < TRACKS && BytesOf(w[i]) != [] && cfg.Selects(i)
    ensures Strings(cfg, SizesOf(w), Received(w))[i]
         == Wrapped(cfg, i, Shifted(Until(BytesOf(w[i]), {CutsRaw(i)}), -(Shift(i) as int)))
  {
    RawShown(cfg, w, i);
    UntilShifted(BytesOf(w[i]), CutsRaw(i));
  }

  // ----- The error policy -----

  lemma ShownEmpty(cfg: Settings, i: nat, size: int, raw: Text)
    requires size > 0 ==> |raw| == size
    ensures cfg.Shown(i, size, raw) == []
       <==> size <= 0 || !cfg.Selects(i) || (!cfg.sentinels && cfg.Characters(i, raw)[0] == 0)
  {
    if size > 0 {
      assert Until(cfg.Characters(i, raw), {0}) == [] <==> cfg.Characters(i, raw)[0] == 0;
    }
  }

  lemma NotEmptied(cfg: Settings, z: Sizes, c: Cut, fourth: Text, i: nat)
    requires i < TRACKS
    ensures TrackStrings(cfg, z, c, fourth)[i] == if cfg.cardLevel && AnyFailed(z) then [] else Strings(cfg, z, c)[i]
  {
  }

  // What SaveMsrData leaves, track by track. Card-level reporting: one failed track empties all four
  // strings. Otherwise a string is empty exactly when its track failed, is blank, is not selected, or
  // starts with a NUL.
  lemma ErrorPolicy(cfg: Settings, z: Sizes, c: Cut, fourth: Text, i: nat)
    requires Matches(z, c) && i < TRACKS
    ensures cfg.cardLevel && AnyFailed(z) ==> TrackStrings(cfg, z, c, fourth) == [[], [], [], []]
    ensures !(cfg.cardLevel && AnyFailed(z)) ==>
              (TrackStrings(cfg, z, c, fourth)[i] == []
               <==> z[i] <= 0 || !cfg.Selects(i) || (!cfg.sentinels && cfg.Characters(i, c.At(i))[0] == 0))
  {
    NotEmptied(cfg, z, c, fourth, i);
    ShownEmpty(cfg, i, z[i], c.At(i));
    assert Strings(cfg, z, c)[i] == cfg.Shown(i, z[i], c.At(i));
  }

  function ByteOf(status: int, i: nat): int
    requires i < TRACKS
  {
    (status / (if i == 0 then 1 else if i == 1 then 0x100 else 0x10000)) % 0x100
  }

  lemma WordBytes(b0: byte, b1: byte, b2: byte)
    ensures ByteOf(b0 + 0x100 * b1 + 0x10000 * b2, 0) == b0
    ensures ByteOf(b0 + 0x100 * b1 + 0x10000 * b2, 1) == b1
    ensures ByteOf(b0 + 0x100 * b1 + 0x10000 * b2, 2) == b2
  {
  }

  lemma StatusAt(codes: seq<int>, i: nat)
    requires |codes| == TRACKS && i < TRACKS
    ensures ByteOf(StatusWord(codes), i) == ToByte(codes[i])
  {
    WordBytes(ToByte(codes[0]), ToByte(codes[1]), ToByte(codes[2]));
  }

  // The hardware codes and the OPOS codes they are reported as.
  function Reported(size: int): int {
    if size == ERROR_PARITY then EMSR_PARITY
    else if size == ERROR_LRC then EMSR_LRC
    else if size == ERROR_STX then EMSR_START
    else if size == ERROR_ETX || size == WARN_OVER then EMSR_END
    else size + 0x100
  }

  lemma CodeByte(size: int)
    requires -128 <= size <= MAX_SIGNED
    ensures ToByte(ErrorCode(size)) == if size < 0 then Reported(size) else size
  {
  }

  lemma MaskedAt(cfg: Settings, z: Sizes, i: nat)
    requires SignedChars(z) && i < TRACKS
    ensures Masked(cfg, Codes(z))[i] == if cfg.Selects(i) then ErrorCode(z[i]) else 0
    ensures OnlyErrors(Masked(cfg, Codes(z)))[i] == if cfg.Selects(i) && z[i] < 0 then ErrorCode(z[i]) else 0
  {
    assert Codes(z)[i] == ErrorCode(z[i]);
  }

  lemma DataBytes(cfg: Settings, z: Sizes, i: nat)
    requires SignedChars(z) && i < TRACKS && !SelectedFailed(cfg, Codes(z))
    ensures ByteOf(StatusWord(Masked(cfg, Codes(z))), i) == if cfg.Selects(i) then z[i] else 0
  {
    MaskedAt(cfg, z, i);
    StatusAt(Masked(cfg, Codes(z)), i);
    CodeByte(z[i]);
    assert cfg.Selects(i) ==> Codes(z)[i] >= 0;
  }

  lemma ErrorBytes(cfg: Settings, z: Sizes, i: nat)
    requires SignedChars(z) && i < TRACKS
    ensures ByteOf(StatusWord(OnlyErrors(Masked(cfg, Codes(z)))), i)
         == if cfg.Selects(i) && z[i] < 0 then Reported(z[i]) else 0
  {
    MaskedAt(cfg, z, i);
    StatusAt(OnlyErrors(Masked(cfg, Codes(z))), i);
    CodeByte(z[i]);
  }

  lemma Failing(cfg: Settings, z: Sizes)
    requires SignedChars(z)
    ensures SelectedFailed(cfg, Codes(z)) <==> exists k :: 0 <= k < TRACKS && cfg.Selects(k) && z[k] < 0
  {
    assert forall k :: 0 <= k < TRACKS ==> (Codes(z)[k] < 0 <==> z[k] < 0);
  }

  // After a successful transfer a Data event is submitted exactly when no selected track failed,
  // and byte i of its status is the length of track i, or 0 when that is not selected. Under
  // track-level reporting the status of the error event holds the codes of the failed tracks.
  lemma StatusOfEvent(cfg: Settings, z: Sizes, ctl: Controls, i: nat)
    requires SignedChars(z) && i < TRACKS
    ensures var event := Submitted(cfg, Codes(z), true, ctl).0;
            && (event.Some? && event.value.DataEvent?
                <==> forall k :: 0 <= k < TRACKS && cfg.Selects(k) ==> z[k] >= 0)
            && (event.Some? && event.value.DataEvent?
                ==> ByteOf(event.value.status, i) == if cfg.Selects(i) then z[i] else 0)
            && (event.Some? && event.value.ErrorEvent? && !cfg.cardLevel
                ==> ByteOf(event.value.extended, i) == if cfg.Selects(i) && z[i] < 0 then Reported(z[i]) else 0)
  {
    Failing(cfg, z);
    ErrorBytes(cfg, z, i);
    if !SelectedFailed(cfg, Codes(z)) {
      DataBytes(cfg, z, i);
    }
  }

  lemma WholeText(cfg: Settings, z: Sizes, c: Cut, i: nat)
    requires Matches(z, c) && i < TRACKS && cfg.Selects(i) && z[i] > 0
    ensures var shown, text := Strings(cfg, z, c)[i], cfg.Characters(i, c.At(i));
            && (|shown| == z[i] + (if cfg.sentinels then 2 else 0) <==> Free(text, {0}))
            && (shown == Wrapped(cfg, i, text) <==> Free(text, {0}))
  {
    var text := cfg.Characters(i, c.At(i));
    assert |text| == z[i];
    NoStop(text, {0});
    var until := Until(text, {0});
    assert Strings(cfg, z, c)[i] == Wrapped(cfg, i, until);
    assert |Wrapped(cfg, i, until)| == |until| + if cfg.sentinels then 2 else 0;
    assert |Wrapped(cfg, i, text)| == |text| + if cfg.sentinels then 2 else 0;
  }

  // A Data event announces the length of each selected track. The string has that length, and is
  // then the whole text, exactly when its characters are free of NULs and it was not emptied
  // because reporting is card-level and some track failed, selected or not.
  lemma DataEventHasItsText(cfg: Settings, z: Sizes, c: Cut, fourth: Text, ctl: Controls, i: nat)
    requires SignedChars(z) && Matches(z, c) && i < TRACKS && cfg.Selects(i) && z[i] > 0
    requires Submitted(cfg, Codes(z), true, ctl).0.Some? && Submitted(cfg, Codes(z), true, ctl).0.value.DataEvent?
    ensures var shown, status := TrackStrings(cfg, z, c, fourth)[i], Submitted(cfg, Codes(z), true, ctl).0.value.status;
            var text := cfg.Characters(i, c.At(i));
            && (|shown| == ByteOf(status, i) + (if cfg.sentinels then 2 else 0)
                <==> !(cfg.cardLevel && AnyFailed(z)) && Free(text, {0}))
            && (shown == Wrapped(cfg, i, text) <==> !(cfg.cardLevel && AnyFailed(z)) && Free(text, {0}))
    ensures AnyFailed(z) ==> exists k :: 0 <= k < TRACKS && z[k] < 0 && !cfg.Selects(k)
  {
    StatusOfEvent(cfg, z, ctl, i);
    WholeText(cfg, z, c, i);
    NotEmptied(cfg, z, c, fourth, i);
    if AnyFailed(z) {
      var k :| 0 <= k < TRACKS && z[k] < 0;
      assert !cfg.Selects(k);
    }
  }

  // Tracks 1 and 2 selected, a parity error on track 3: a Data event of five characters and no text.
  lemma LostText(ctl: Controls, c: Cut, fourth: Text)
    ensures var cfg, z := Settings(true, false, false, 3, true), [5, 0, ERROR_PARITY];
            && Submitted(cfg, Codes(z), true, ctl) == (Some(DataEvent(5)), true)
            && TrackStrings(cfg, z, c, fourth) == [[], [], [], []]
  {
    var cfg, z := Settings(true, false, false, 3, true), [5, 0, ERROR_PARITY];
    assert cfg.Selects(0) && cfg.Selects(1) && !cfg.Selects(2);
    assert Masked(cfg, Codes(z)) == [5, 0, 0];
    Failing(cfg, z);
  }

  // Decoding off and a raw 0 in the middle: a Data event of three characters and one of them shown.
  lemma CutText(ctl: Controls, fourth: Text)
    ensures var cfg, z, c := Settings(false, false, false, 7, false), [3, 0, 0], Cut([0x22, 0, 0x11], [], [], []);
            && Matches(z, c) && !AnyFailed(z)
            && Submitted(cfg, Codes(z), true, ctl) == (Some(DataEvent(3)), true)
            && TrackStrings(cfg, z, c, fourth)[0] == [0x22]
  {
    var cfg, z := Settings(false, false, false, 7, false), [3, 0, 0];
    var c := Cut([0x22, 0, 0x11], [], [], []);
    assert cfg.Selects(0) && cfg.Selects(1) && cfg.Selects(2);
    assert Masked(cfg, Codes(z)) == [3, 0, 0];
    Failing(cfg, z);
    SplitAtStop([0x22], 0, [0x11], {0});
    assert c.first == [0x22] + [0] + [0x11];
  }

  // ----- From the card to its fields -----

  // The parser sees what was swiped, unless decoding is on and passed the track over.
  lemma ParserSees(cfg: Settings, w: Swipe, i: nat)
    requires SwipeFits(w) && Short(w) && cfg.parse && i < 2
    ensures AfterSave(cfg, Received(w)).At(i) == if cfg.decode && !cfg.Selects(i) then Raw(w, i) else BytesOf(w[i])
  {
    ReceivedApart(w);
    ShiftedBack(BytesOf(w[i]), Shift(i));
  }

  lemma RawTrack1(card: Card)
    ensures Track1(Shifted(Print1(card), -0x20)) == NO_TRACK1
  {
    assert Print1(card)[0] == FORMAT_B;
    var raw := Shifted(Print1(card), -0x20);
    assert raw[0] == ToByte(FORMAT_B - 0x20) != FORMAT_B;
  }

  // A swiped card gives back its name and discretionary data, whatever the other tracks hold,
  // exactly when decoding is off or the track is selected, and they would be read back from the
  // printed track.
  lemma SwipeGivesTrack1(cfg: Settings, w: Swipe, card: Card)
    requires SwipeFits(w) && Short(w) && cfg.parse && BytesOf(w[0]) == Print1(card) && Framed1(card)
    requires card.name != NO_NAME || card.discretionary1 != []
    ensures Track1(AfterSave(cfg, Received(w)).first) == Track1Fields(card.name, card.discretionary1)
       <==> (!cfg.decode || cfg.Selects(0)) && CleanName(card.name)
            && (card.discretionary1 == [] || Free(card.expiry + card.service + card.discretionary1, {CARET}))
  {
    ParserSees(cfg, w, 0);
    Track1RoundTrip(card);
    RawTrack1(card);
  }

  lemma FirstOfUntil(s: Text, stops: set<byte>)
    requires s != []
    ensures Until(s, stops) == [] <==> s[0] in stops
    ensures Until(s, stops) != [] ==> Until(s, stops)[0] == s[0]
  {
  }

  // Raw codes never read as the account number that was printed.
  lemma RawTrack2(card: Card, raw: Text)
    requires raw == Shifted(Print2(card), -0x30) && |card.expiry| == 4
    ensures Track2(raw) != Track2Fields(card.pan, card.expiry, card.service, card.discretionary2)
  {
    var first := if card.pan == [] then EQUALS else card.pan[0];
    assert Print2(card)[0] == first && raw[0] == ToByte(first - 0x30) != first;
    FirstOfUntil(raw, {EQUALS});
  }

  lemma SwipeGivesTrack2(cfg: Settings, w: Swipe, card: Card)
    requires SwipeFits(w) && Short(w) && cfg.parse && BytesOf(w[1]) == Print2(card)
    requires |card.expiry| == 4 && |card.service| == 3
    ensures Track2(AfterSave(cfg, Received(w)).second)
            == Track2Fields(card.pan, card.expiry, card.service, card.discretionary2)
       <==> (!cfg.decode || cfg.Selects(1)) && |card.pan| <= MAX_PAN && Free(card.pan, {EQUALS})
            && Free(card.expiry + card.service + card.discretionary2, {EQUALS})
  {
    ParserSees(cfg, w, 1);
    Track2RoundTrip(card);
    RawTrack2(card, Raw(w, 1));
  }
}
