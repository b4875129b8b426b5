// Cutting a host request into 65-byte HID reports (opos/OposLpu230/SoMsr.cpp, with the same
// statements in opos/tylenol/Tylenol.cpp).
module PacketFraming {
  import opened Bytes

  const REPORT_SIZE := 65
  const PAYLOAD_SIZE := 64
  const BUFFER_SIZE := 512
  const HEADER_SIZE := 3

  type Report = r: seq<byte> | |r| == REPORT_SIZE witness Zeros(65)

  // The request as the reader sees it; the length field is one byte.
  function Message(cmd: byte, sub: byte, data: seq<byte>): seq<byte> {
    [cmd, sub, ToByte(|data|)] + data
  }

  function ReportCount(n: nat): nat { (n + HEADER_SIZE + PAYLOAD_SIZE - 1) / PAYLOAD_SIZE }

  function Padded(cmd: byte, sub: byte, data: seq<byte>): (m: seq<byte>)
    ensures |m| == PAYLOAD_SIZE * ReportCount(|data|)
  {
    var m := Message(cmd, sub, data);
    m + Zeros(PAYLOAD_SIZE * ReportCount(|data|) - |m|)
  }

  // Report number k of a request.
  function ReportAt(cmd: byte, sub: byte, data: seq<byte>, k: nat): Report
    requires k < ReportCount(|data|)
  {
    [0] + Padded(cmd, sub, data)[PAYLOAD_SIZE * k..PAYLOAD_SIZE * k + PAYLOAD_SIZE]
  }

  function Reports(cmd: byte, sub: byte, data: seq<byte>, n: nat): (rs: seq<Report>)
    requires n <= ReportCount(|data|)
    ensures |rs| == n && forall k :: 0 <= k < n ==> rs[k] == ReportAt(cmd, sub, data, k)
  {
    if n == 0 then [] else Reports(cmd, sub, data, n - 1) + [ReportAt(cmd, sub, data, n - 1)]
  }

  // How many of the writes from, from + 1, ... get through when write k succeeds iff accepts(k).
  function Accepted(accepts: nat -> bool, from: nat, count: nat): (n: nat)
    requires from <= count
    ensures from <= n <= count
    ensures n == count <==> forall k :: from <= k < count ==> accepts(k)
    decreases count - from
  {
    if from < count && accepts(from) then Accepted(accepts, from + 1, count) else from
  }

  function BufferOf(cmd: byte, sub: byte, data: seq<byte>): seq<byte>
    requires |data| <= BUFFER_SIZE - 4
  {
    [0] + Message(cmd, sub, data) + Zeros(BUFFER_SIZE - 4 - |data|)
  }

  method FillBuffer(cmd: byte, sub: byte, data: seq<byte>) returns (buf: array<byte>)
    requires |data| <= BUFFER_SIZE - 4
    ensures fresh(buf) && buf[..] == BufferOf(cmd, sub, data)
  {
    buf := new byte[BUFFER_SIZE](i => 0);
    buf[0], buf[1], buf[2], buf[3] := 0, cmd, sub, ToByte(|data|);
    ghost var header: seq<byte> := [0, cmd, sub, ToByte(|data|)];
    assert buf[..] == header + data[..0] + Zeros(BUFFER_SIZE - 4);
    for i := 0 to |data|
      invariant buf[..] == header + data[..i] + Zeros(BUFFER_SIZE - 4 - i)
    {
      buf[4 + i] := data[i];
    }
    assert header + data[..|data|] == [0] + Message(cmd, sub, data);
  }

  // memset(packet, 0, 65) and then memcpy(&packet[at], &buf[from], n).
  function PacketOf(buf: seq<byte>, at: nat, from: nat, n: nat): Report
    requires at + n <= REPORT_SIZE && from + n <= |buf|
  {
    Zeros(at) + buf[from..from + n] + Zeros(REPORT_SIZE - at - n)
  }

  method CutPacket(buf: array<byte>, at: nat, from: nat, n: nat) returns (packet: Report)
    requires at + n <= REPORT_SIZE && from + n <= buf.Length
    ensures packet == PacketOf(buf[..], at, from, n)
  {
    var a := new byte[REPORT_SIZE](i => 0);
    for i := 0 to n
      invariant a[..] == PacketOf(buf[..], at, from, i)
    {
      a[at + i] := buf[from + i];
    }
    packet := a[..];
  }

  // The first packet copies the report ID as well, the others only payload; both are the report
  // that is due.
  lemma PacketIsReport(cmd: byte, sub: byte, data: seq<byte>, k: nat, n: nat)
    requires |data| <= BUFFER_SIZE - 4 && k < ReportCount(|data|)
    requires n <= PAYLOAD_SIZE && 1 + PAYLOAD_SIZE * k + n <= BUFFER_SIZE
    requires n == PAYLOAD_SIZE || PAYLOAD_SIZE * k + n == |data| + HEADER_SIZE
    ensures PacketOf(BufferOf(cmd, sub, data), 1, 1 + PAYLOAD_SIZE * k, n) == ReportAt(cmd, sub, data, k)
    ensures PacketOf(BufferOf(cmd, sub, data), 0, 0, REPORT_SIZE) == ReportAt(cmd, sub, data, 0)
  {
    var b, p, at := BufferOf(cmd, sub, data), Padded(cmd, sub, data), PAYLOAD_SIZE * k;
    var cut, due := b[1 + at..1 + at + n] + Zeros(PAYLOAD_SIZE - n), p[at..at + PAYLOAD_SIZE];
    var m := Message(cmd, sub, data);
    forall i | 0 <= i < PAYLOAD_SIZE ensures cut[i] == due[i] {
      var j := at + i;
      assert due[i] == p[j] && p[j] == if j < |m| then m[j] else 0;
      if i < n {
        assert cut[i] == b[1 + j] && b[1 + j] == if j < |m| then m[j] else 0;
      } else {
        assert cut[i] == 0 && j >= |m|;
      }
    }
    assert cut == due;
    assert b[0..REPORT_SIZE] == [0] + p[0..PAYLOAD_SIZE];
  }

  // One round of the partial send: at most 64 bytes behind a zero report ID.
  method NextPacket(buf: array<byte>, offset: nat, remainder: nat, ghost cmd: byte, ghost sub: byte,
                    ghost data: seq<byte>, ghost k: nat)
    returns (packet: Report, offset': nat, remainder': nat)
    requires |data| <= BUFFER_SIZE - 4 && buf[..] == BufferOf(cmd, sub, data) && k < ReportCount(|data|)
    requires remainder > 0 && offset == 1 + PAYLOAD_SIZE * k && remainder + offset == |data| + 4
    ensures packet == ReportAt(cmd, sub, data, k)
    ensures remainder' == 0 <==> k + 1 == ReportCount(|data|)
    ensures remainder' > 0 ==> offset' == 1 + PAYLOAD_SIZE * (k + 1) && remainder' + offset' == |data| + 4
  {
    PacketIsReport(cmd, sub, data, k, if remainder > PAYLOAD_SIZE then PAYLOAD_SIZE else remainder);
    if remainder > PAYLOAD_SIZE {
      packet := CutPacket(buf, 1, offset, PAYLOAD_SIZE);
      offset' := offset + PAYLOAD_SIZE;
      remainder' := remainder - PAYLOAD_SIZE;
    } else {
      packet := CutPacket(buf, 1, offset, remainder);
      offset' := offset + remainder;
      remainder' := 0;
    }
  }

  // The writing half of SendRequest: the buffer takes 508 data bytes, and the request stops at
  // the first write that fails.
  method SendRequest(cmd: byte, sub: byte, data: seq<byte>, accepts: nat -> bool)
    returns (ok: bool, written: seq<Report>)
    requires |data| <= BUFFER_SIZE - 4
    ensures written == Reports(cmd, sub, data, Accepted(accepts, 0, ReportCount(|data|)))
    ensures ok <==> |written| == ReportCount(|data|)
  {
    ghost var count := ReportCount(|data|);
    written := [];
    var buf := FillBuffer(cmd, sub, data);
    var remainder: nat, offset: nat := |data| + 4, 0;
    PacketIsReport(cmd, sub, data, 0, if remainder > REPORT_SIZE then PAYLOAD_SIZE else remainder - 1);
    var packet := CutPacket(buf, 0, 0, REPORT_SIZE);
    if remainder > REPORT_SIZE {
      offset := offset + REPORT_SIZE;
      remainder := remainder - REPORT_SIZE;
    } else {
      offset := offset + remainder;
      remainder := 0;
    }
    if !accepts(0) {
      return false, written;
    }
    written := written + [packet];
    while remainder > 0
      invariant buf[..] == BufferOf(cmd, sub, data)
      invariant 1 <= |written| <= count && written == Reports(cmd, sub, data, |written|)
      invariant remainder == 0 <==> |written| == count
      invariant remainder > 0 ==> offset == 1 + PAYLOAD_SIZE * |written| && remainder + offset == |data| + 4
      invariant Accepted(accepts, 0, count) == Accepted(accepts, |written|, count)
      decreases count - |written|
    {
      packet, offset, remainder := NextPacket(buf, offset, remainder, cmd, sub, data, |written|);
      if !accepts(|written|) {
        return false, written;
      }
      written := written + [packet];
    }
    return true, written;
  }

  // ----- The receiver -----

  function Payload(reports: seq<Report>): seq<byte> {
    if reports == [] then [] else reports[0][1..] + Payload(reports[1..])
  }

  datatype Request = Request(cmd: byte, sub: byte, data: seq<byte>)

  // A reader that trusts the length field.
  function Receive(reports: seq<Report>): Request
    requires reports != []
  {
    var p := Payload(reports);
    var n := if p[2] <= |p| - HEADER_SIZE then p[2] else |p| - HEADER_SIZE;
    Request(p[0], p[1], p[HEADER_SIZE..HEADER_SIZE + n])
  }

  lemma {:induction false} PayloadPush(reports: seq<Report>, r: Report)
    ensures Payload(reports + [r]) == Payload(reports) + r[1..]
  {
    if reports == [] {
      assert reports + [r] == [r];
    } else {
      assert (reports + [r])[1..] == reports[1..] + [r];
      PayloadPush(reports[1..], r);
    }
  }

  // The payloads put end to end are the message followed by zeros only.
  lemma {:induction false} PayloadIsMessage(cmd: byte, sub: byte, data: seq<byte>, n: nat)
    requires n <= ReportCount(|data|)
    ensures Payload(Reports(cmd, sub, data, n)) == Padded(cmd, sub, data)[..PAYLOAD_SIZE * n]
  {
    if n > 0 {
      PayloadIsMessage(cmd, sub, data, n - 1);
      PayloadPush(Reports(cmd, sub, data, n - 1), ReportAt(cmd, sub, data, n - 1));
    }
  }

  lemma ReceivedPrefix(cmd: byte, sub: byte, data: seq<byte>)
    ensures Receive(Reports(cmd, sub, data, ReportCount(|data|))) == Request(cmd, sub, data[..|data| % 256])
  {
    var p, m, n := Padded(cmd, sub, data), Message(cmd, sub, data), |data| % 256;
    PayloadIsMessage(cmd, sub, data, ReportCount(|data|));
    assert Payload(Reports(cmd, sub, data, ReportCount(|data|))) == p;
    assert p[..|m|] == m && n <= |data|;
    assert p[HEADER_SIZE..HEADER_SIZE + n] == m[HEADER_SIZE..HEADER_SIZE + n] == data[..n];
  }

  lemma FewestReports(n: nat)
    ensures PAYLOAD_SIZE * (ReportCount(n) - 1) < n + HEADER_SIZE <= PAYLOAD_SIZE * ReportCount(n)
  {
  }

  lemma {:induction false} IdIsZero(cmd: byte, sub: byte, data: seq<byte>, n: nat, k: nat)
    requires k < n <= ReportCount(|data|)
    ensures Reports(cmd, sub, data, n)[k][0] == 0
  {
    if k < n - 1 {
      IdIsZero(cmd, sub, data, n - 1, k);
    }
  }

  lemma FitsLengthByte(data: seq<byte>)
    ensures data[..|data| % 256] == data <==> |data| <= 255
  {
    assert data[..|data|] == data;
  }

  // A request that is written in full takes the fewest reports its message fits in, each with
  // report ID 0. It is received unchanged exactly when its length fits the length byte; longer
  // ones, which the buffer still takes, lose 256 bytes.
  lemma ReceivedExactly(cmd: byte, sub: byte, data: seq<byte>)
    ensures var count := ReportCount(|data|);
            PAYLOAD_SIZE * (count - 1) < |data| + HEADER_SIZE <= PAYLOAD_SIZE * count
    ensures forall k :: 0 <= k < ReportCount(|data|) ==> Reports(cmd, sub, data, ReportCount(|data|))[k][0] == 0
    ensures Receive(Reports(cmd, sub, data, ReportCount(|data|))) == Request(cmd, sub, data) <==> |data| <= 255
  {
    FewestReports(|data|);
    forall k | 0 <= k < ReportCount(|data|)
      ensures Reports(cmd, sub, data, ReportCount(|data|))[k][0] == 0
    {
      IdIsZero(cmd, sub, data, ReportCount(|data|), k);
    }
    ReceivedPrefix(cmd, sub, data);
    FitsLengthByte(data);
  }
}
