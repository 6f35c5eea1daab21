/** Message framing: an 8-byte header and the data, padded with zeros to whole 16-byte blocks. */
module Framing {
  import opened Words

  type byte = x: int | 0 <= x < 256

  /** The size field of the header is the number of data bytes. */
  datatype Message = Message(msgType: uint32, data: seq<byte>)

  /** What a 32-bit size field can describe. */
  predicate Sendable(m: Message) { |m.data| <= 0xFFFF_FFFF }

  function MaxMessageSize(): nat { 2097152 }

  predicate TooLarge(m: Message) { |m.data| > MaxMessageSize() }

  // ---------- the header ----------

  /** Little-endian bytes of a 32-bit number. */
  function Bytes32(x: uint32): (b: seq<byte>)
    ensures |b| == 4
  {
    [x % 256, x / 256 % 256, x / 65536 % 256, x / 16777216]
  }

  function Value32(b: seq<byte>): uint32
    requires |b| == 4
  {
    var b0: int, b1: int, b2: int, b3: int := b[0], b[1], b[2], b[3];
    b0 + 256 * b1 + 65536 * b2 + 16777216 * b3
  }

  /** The bytes read back give the number, and the first byte counts least. */
  lemma BytesRoundTrip(x: uint32)
    ensures Value32(Bytes32(x)) == x
    ensures var b := Bytes32(x);
      (b[0] as int) + 256 * (b[1] as int) + 65536 * (b[2] as int) + 16777216 * (b[3] as int) == x
  {
    var y := x / 256;
    var z := y / 256;
    assert x / 65536 == z && x / 16777216 == z / 256;
    assert x == 256 * y + x % 256 && y == 256 * z + y % 256 && z == 256 * (z / 256) + z % 256;
  }

  // ---------- the frame ----------

  /** Header and data, rounded up to whole blocks. */
  function FrameSize(size: nat): nat { 16 * ((8 + size + 15) / 16) }

  function Zeros(n: nat): seq<byte> { seq(n, _ => 0) }

  lemma FrameSizeBounds(size: nat)
    ensures 8 + size <= FrameSize(size) < 8 + size + 16 && 16 <= FrameSize(size)
  {
  }

  function Frame(m: Message): (f: seq<byte>)
    requires Sendable(m)
    ensures |f| == FrameSize(|m.data|)
  {
    FrameSizeBounds(|m.data|);
    Bytes32(|m.data|) + Bytes32(m.msgType) + m.data + Zeros(FrameSize(|m.data|) - 8 - |m.data|)
  }

  /** A frame is whole blocks, as few as hold the header and the data; the size comes first, then the type, then the
      data, and zeros fill the last block. */
  lemma FrameMeans(m: Message)
    requires Sendable(m)
    ensures var f, end := Frame(m), 8 + |m.data|;
      && |f| % 16 == 0 && end <= |f| < end + 16
      && Value32(f[..4]) == |m.data| && Value32(f[4..8]) == m.msgType && f[8..end] == m.data
      && forall i :: end <= i < |f| ==> f[i] == 0
  {
    var f := Frame(m);
    assert f + [] == f;
    FrameHeader(m, []);
    FrameSizeBounds(|m.data|);
  }

  /** The blocks after the first, in 32-bit arithmetic that may wrap below zero and back. */
  function Remaining(size: uint32): nat { 16 * (((size - 8) % 0x1_0000_0000 + 15) % 0x1_0000_0000 / 16) }

  lemma RemainingFits(size: uint32)
    requires size <= MaxMessageSize()
    ensures 16 + Remaining(size) == FrameSize(size) && 8 + Remaining(size) >= size
  {
    if size < 8 {
      ModMultiple(size - 8, 1, 0x1_0000_0000);
      SmallMod(size - 8 + 0x1_0000_0000, 0x1_0000_0000);
      ModMultiple(size + 7, 1, 0x1_0000_0000);
    } else {
      SmallMod(size - 8, 0x1_0000_0000);
    }
    SmallMod(size + 7, 0x1_0000_0000);
    assert Remaining(size) == 16 * ((size + 7) / 16);
  }

  function Wire(ms: seq<Message>): seq<byte>
    requires forall i :: 0 <= i < |ms| ==> Sendable(ms[i])
  {
    if ms == [] then [] else Frame(ms[0]) + Wire(ms[1..])
  }

  lemma {:induction false} WireAppend(ms: seq<Message>, m: Message)
    requires Sendable(m) && forall i :: 0 <= i < |ms| ==> Sendable(ms[i])
    ensures Wire(ms + [m]) == Wire(ms) + Frame(m)
  {
    if ms == [] {
      assert (ms + [m])[1..] == [];
    } else {
      assert (ms + [m])[1..] == ms[1..] + [m];
      WireAppend(ms[1..], m);
    }
  }

  // ---------- reading ----------

  datatype Ending = EndOfStream | OversizedMessage | HandlerFailed

  /** What the read loop makes of a stream: the messages handed to the delegate, the bytes counted and why it
      stopped. */
  datatype Reading = Reading(delivered: seq<Message>, counted: nat, ending: Ending)

  function Decoded(stream: seq<byte>): Message
    requires |stream| >= 16
    requires var size := Value32(stream[..4]); size <= MaxMessageSize() && |stream| >= 16 + Remaining(size)
  {
    RemainingFits(Value32(stream[..4]));
    Message(Value32(stream[4..8]), stream[8..8 + Value32(stream[..4])])
  }

  /** Reading ends with the stream, at an oversized message, or when the delegate fails on a message. */
  function ReadAll(stream: seq<byte>, accepts: Message -> bool): Reading
    decreases |stream|
  {
    if |stream| < 16 then Reading([], 0, EndOfStream)
    else
      var size := Value32(stream[..4]);
      if size > MaxMessageSize() then Reading([], 16, OversizedMessage)
      else if |stream| < 16 + Remaining(size) then Reading([], 16, EndOfStream)
      else
        ThenRead(Decoded(stream), 16 + Remaining(size), accepts(Decoded(stream)),
                 ReadAll(stream[16 + Remaining(size)..], accepts))
  }

  /** One message more, if the delegate accepts it; otherwise only that one. */
  function ThenRead(m: Message, counted: nat, accepted: bool, rest: Reading): Reading
  {
    if accepted then Reading([m] + rest.delivered, counted + rest.counted, rest.ending)
    else Reading([m], counted, HandlerFailed)
  }

  lemma FrameHeader(m: Message, rest: seq<byte>)
    requires Sendable(m)
    ensures var s := Frame(m) + rest;
      && |s| >= 16 && Value32(s[..4]) == |m.data| && Value32(s[4..8]) == m.msgType && s[8..8 + |m.data|] == m.data
  {
    FrameSizeBounds(|m.data|);
    var s := Frame(m) + rest;
    assert s[..4] == Bytes32(|m.data|) && s[4..8] == Bytes32(m.msgType);
    BytesRoundTrip(|m.data|);
    BytesRoundTrip(m.msgType);
  }

  /** The messages up to the first that is oversized or fails, in order and complete; without one all of them, with
      every byte counted. */
  ghost predicate Faithful(ms: seq<Message>, accepts: Message -> bool, r: Reading)
    requires forall i :: 0 <= i < |ms| ==> Sendable(ms[i])
  {
    && r.delivered <= ms
    && (forall i :: 0 <= i < |r.delivered| ==> !TooLarge(ms[i]))
    && (forall i :: 0 <= i < |r.delivered| - 1 ==> accepts(ms[i]))
    && (r.delivered != [] ==> (accepts(ms[|r.delivered| - 1]) <==> r.ending != HandlerFailed))
    && match r.ending
      case EndOfStream => r.delivered == ms && r.counted == |Wire(ms)|
      case OversizedMessage =>
        |r.delivered| < |ms| && TooLarge(ms[|r.delivered|]) && r.counted == |Wire(r.delivered)| + 16
      case HandlerFailed => r.delivered != [] && r.counted == |Wire(r.delivered)|
  }

  lemma FaithfulMore(m: Message, ms: seq<Message>, accepts: Message -> bool, r: Reading)
    requires Sendable(m) && !TooLarge(m) && (forall i :: 0 <= i < |ms| ==> Sendable(ms[i])) && Faithful(ms, accepts, r)
    ensures Faithful([m] + ms, accepts, ThenRead(m, FrameSize(|m.data|), accepts(m), r))
  {
    if accepts(m) {
      AcceptedFirst(m, ms, accepts, r);
    } else {
      WireFirst(m, []);
      assert [m] + [] == [m];
    }
  }

  lemma AcceptedFirst(m: Message, ms: seq<Message>, accepts: Message -> bool, r: Reading)
    requires Sendable(m) && !TooLarge(m) && (forall i :: 0 <= i < |ms| ==> Sendable(ms[i])) && Faithful(ms, accepts, r)
    requires accepts(m)
    ensures Faithful([m] + ms, accepts, Reading([m] + r.delivered, FrameSize(|m.data|) + r.counted, r.ending))
  {
    var all, done := [m] + ms, [m] + r.delivered;
    assert forall i :: 0 < i < |all| ==> all[i] == ms[i - 1];
    assert all[|r.delivered| + 1..] == ms[|r.delivered|..];
    WireFirst(m, ms);
    WireFirst(m, r.delivered);
  }

  lemma WireFirst(m: Message, ms: seq<Message>)
    requires Sendable(m) && forall i :: 0 <= i < |ms| ==> Sendable(ms[i])
    ensures |Wire([m] + ms)| == FrameSize(|m.data|) + |Wire(ms)|
  {
    assert ([m] + ms)[1..] == ms;
  }

  /** Reading what was sent. */
  lemma {:induction false} ReadWhatWasSent(ms: seq<Message>, accepts: Message -> bool)
    requires forall i :: 0 <= i < |ms| ==> Sendable(ms[i])
    ensures Faithful(ms, accepts, ReadAll(Wire(ms), accepts))
  {
    if ms != [] {
      ReadWhatWasSent(ms[1..], accepts);
      assert ms == [ms[0]] + ms[1..];
      ReadFirst(ms[0], ms[1..], accepts);
    }
  }

  lemma ReadFirst(m: Message, ms: seq<Message>, accepts: Message -> bool)
    requires Sendable(m) && (forall i :: 0 <= i < |ms| ==> Sendable(ms[i]))
    requires Faithful(ms, accepts, ReadAll(Wire(ms), accepts))
    ensures Faithful([m] + ms, accepts, ReadAll(Frame(m) + Wire(ms), accepts))
  {
    if TooLarge(m) {
      ReadTooLarge(m, Wire(ms), accepts);
    } else {
      FaithfulMore(m, ms, accepts, ReadAll(Wire(ms), accepts));
      ReadOne(m, Wire(ms), accepts);
    }
  }

  lemma ReadTooLarge(m: Message, rest: seq<byte>, accepts: Message -> bool)
    requires Sendable(m) && TooLarge(m)
    ensures ReadAll(Frame(m) + rest, accepts) == Reading([], 16, OversizedMessage)
  {
    FrameHeader(m, rest);
  }

  lemma ReadOne(m: Message, rest: seq<byte>, accepts: Message -> bool)
    requires Sendable(m) && !TooLarge(m)
    ensures ReadAll(Frame(m) + rest, accepts) == ThenRead(m, FrameSize(|m.data|), accepts(m), ReadAll(rest, accepts))
  {
    FrameHeader(m, rest);
    RemainingFits(|m.data|);
    var s := Frame(m) + rest;
    assert s[FrameSize(|m.data|)..] == rest;
  }

  // ---------- the connection ----------

  /** The connection's two directions: the bytes written so far and the bytes still to be read. */
  class Connection {
    var written: seq<byte>
    var bytesSent: nat
    var incoming: seq<byte>
    var bytesReceived: nat
    var delivered: seq<Message>

    constructor (incoming: seq<byte>)
      ensures written == [] && bytesSent == 0 && this.incoming == incoming && bytesReceived == 0 && delivered == []
    {
      written, bytesSent, this.incoming, bytesReceived, delivered := [], 0, incoming, 0, [];
    }

    /** send_message: fills a padded buffer and writes it. */
    method SendMessage(m: Message)
      requires Sendable(m)
      modifies this`written, this`bytesSent
      ensures written == old(written) + Frame(m) && bytesSent == old(bytesSent) + |Frame(m)|
    {
      var size := 8 + |m.data|;
      var padded := new byte[16 * ((size + 15) / 16)];
      FrameSizeBounds(|m.data|);
      CopyInto(padded, 0, Bytes32(|m.data|) + Bytes32(m.msgType));
      CopyInto(padded, 8, m.data);
      assert padded[..size] == padded[..8] + padded[8..size];
      CopyInto(padded, size, Zeros(padded.Length - size));
      assert padded[..] == padded[..size] + padded[size..];
      written := written + padded[..];
      bytesSent := bytesSent + padded.Length;
    }

    /** One message, or the reason to stop. */
    method ReadMessage(ghost accepts: Message -> bool) returns (r: Result)
      modifies this`incoming, this`bytesReceived
      ensures Next(old(incoming), accepts, r, incoming, bytesReceived - old(bytesReceived))
    {
      StopsShort(incoming, accepts);
      if |incoming| < 16 {
        return Stop(EndOfStream);
      }
      var buffer := incoming[..16];
      incoming := incoming[16..];
      bytesReceived := bytesReceived + 16;
      var size := Value32(buffer[..4]);
      if size > MaxMessageSize() {
        return Stop(OversizedMessage);
      }
      var ok, data := ReadData(buffer[8..], size);
      if !ok {
        return Stop(EndOfStream);
      }
      r := Got(Message(Value32(buffer[4..8]), data));
      ReadsOne(old(incoming), accepts, data);
    }

    /** The data start in the first block; the blocks after it are read, and the padding is cut off. */
    method ReadData(head: seq<byte>, size: uint32) returns (ok: bool, data: seq<byte>)
      requires |head| == 8 && size <= MaxMessageSize()
      modifies this`incoming, this`bytesReceived
      ensures ok <==> |old(incoming)| >= Remaining(size)
      ensures ok ==> |data| == size && data <= head + old(incoming)[..Remaining(size)]
      ensures ok ==>
        incoming == old(incoming)[Remaining(size)..] && bytesReceived == old(bytesReceived) + Remaining(size)
      ensures !ok ==> incoming == old(incoming) && bytesReceived == old(bytesReceived)
    {
      var remaining := Remaining(size);
      RemainingFits(size);
      ok, data := true, head;
      if remaining != 0 {
        if |incoming| < remaining {
          return false, [];
        }
        data := data + incoming[..remaining];
        incoming := incoming[remaining..];
        bytesReceived := bytesReceived + remaining;
      }
      data := data[..size];
    }

    /** read_loop; accepts says on which messages the delegate does not fail. */
    method ReadLoop(accepts: Message -> bool) returns (ending: Ending)
      modifies this`incoming, this`bytesReceived, this`delivered
      ensures var r := ReadAll(old(incoming), accepts);
        && delivered == old(delivered) + r.delivered
        && bytesReceived == old(bytesReceived) + r.counted && ending == r.ending
    {
      ghost var all := ReadAll(incoming, accepts);
      while true
        invariant delivered + ReadAll(incoming, accepts).delivered == old(delivered) + all.delivered
        invariant bytesReceived + ReadAll(incoming, accepts).counted == old(bytesReceived) + all.counted
        invariant ReadAll(incoming, accepts).ending == all.ending
        decreases |incoming|
      {
        var r := ReadMessage(accepts);
        match r {
          case Got(m) =>
            Regrouped(delivered, m, ReadAll(incoming, accepts).delivered);
            delivered := delivered + [m];
            if !accepts(m) {
              return HandlerFailed;
            }
          case Stop(e) =>
            return e;
        }
      }
    }
  }

  lemma Regrouped(done: seq<Message>, m: Message, rest: seq<Message>)
    ensures done + ([m] + rest) == done + [m] + rest
  {
  }

  datatype Result = Got(m: Message) | Stop(ending: Ending)

  /** What reading one message does to the stream and the byte counter. */
  ghost predicate Next(s: seq<byte>, accepts: Message -> bool, r: Result, rest: seq<byte>, counted: int)
  {
    counted >= 0 &&
    match r
    case Got(m) => |rest| < |s| && ReadAll(s, accepts) == ThenRead(m, counted, accepts(m), ReadAll(rest, accepts))
    case Stop(e) => ReadAll(s, accepts) == Reading([], counted, e)
  }

  lemma ReadsOne(s: seq<byte>, accepts: Message -> bool, data: seq<byte>)
    requires |s| >= 16 && var size := Value32(s[..16][..4]);
      && size <= MaxMessageSize() && |s[16..]| >= Remaining(size)
      && |data| == size && data <= s[..16][8..] + s[16..][..Remaining(size)]
    ensures var rest := Remaining(Value32(s[..16][..4]));
      Next(s, accepts, Got(Message(Value32(s[..16][4..8]), data)), s[16..][rest..], 16 + rest)
  {
    var size := Value32(s[..4]);
    Slices(s, Remaining(Value32(s[..16][..4])));
    RemainingFits(size);
    assert data == s[8..8 + size];
  }

  /** The first block and what follows it, as parts of the stream. */
  lemma Slices(s: seq<byte>, k: nat)
    requires |s| >= 16 + k
    ensures s[..16][..4] == s[..4] && s[..16][4..8] == s[4..8] && s[16..][k..] == s[16 + k..]
    ensures s[..16][8..] + s[16..][..k] == s[8..16 + k]
  {
  }

  lemma StopsShort(s: seq<byte>, accepts: Message -> bool)
    ensures |s| < 16 ==> Next(s, accepts, Stop(EndOfStream), s, 0)
    ensures |s| >= 16 && Value32(s[..16][..4]) > MaxMessageSize() ==>
      Next(s, accepts, Stop(OversizedMessage), s[16..], 16)
    ensures |s| >= 16 && Value32(s[..16][..4]) <= MaxMessageSize() && |s[16..]| < Remaining(Value32(s[..16][..4])) ==>
      Next(s, accepts, Stop(EndOfStream), s[16..], 16)
  {
    if |s| >= 16 {
      assert s[..16][..4] == s[..4];
    }
  }

  /** Sends the messages over one connection and reads them from the other end. Reading stops at the first message that
      is oversized or on which the delegate fails; if there is none, every message arrives and the byte
      counters agree. */
  method Transmit(ms: seq<Message>, accepts: Message -> bool)
    returns (delivered: seq<Message>, sent: nat, received: nat, ending: Ending)
    requires forall i :: 0 <= i < |ms| ==> Sendable(ms[i])
    ensures ending == EndOfStream <==> forall i :: 0 <= i < |ms| ==> !TooLarge(ms[i]) && accepts(ms[i])
    ensures ending == EndOfStream ==> delivered == ms && sent == received
    ensures ending != EndOfStream ==> StopsAt(ms, accepts, delivered, ending)
  {
    var wire;
    wire, sent := SendAll(ms);
    var inc := new Connection(wire);
    ending := inc.ReadLoop(accepts);
    delivered, received := inc.delivered, inc.bytesReceived;
    StopsAtFirstBad(ms, accepts);
  }

  /** Everything before the offending message was delivered; that one too if it was the delegate that failed. */
  ghost predicate StopsAt(ms: seq<Message>, accepts: Message -> bool, delivered: seq<Message>, ending: Ending)
  {
    var bad := if ending == HandlerFailed then |delivered| - 1 else |delivered|;
    && 0 <= bad < |ms| && delivered == ms[..|delivered|]
    && (forall i :: 0 <= i < bad ==> !TooLarge(ms[i]) && accepts(ms[i]))
    && (if ending == HandlerFailed then !TooLarge(ms[bad]) && !accepts(ms[bad]) else TooLarge(ms[bad]))
  }

  lemma StopsAtFirstBad(ms: seq<Message>, accepts: Message -> bool)
    requires forall i :: 0 <= i < |ms| ==> Sendable(ms[i])
    ensures var r := ReadAll(Wire(ms), accepts);
      && (r.ending == EndOfStream <==> forall i :: 0 <= i < |ms| ==> !TooLarge(ms[i]) && accepts(ms[i]))
      && (r.ending == EndOfStream ==> r.delivered == ms && r.counted == |Wire(ms)|)
      && (r.ending != EndOfStream ==> StopsAt(ms, accepts, r.delivered, r.ending))
  {
    ReadWhatWasSent(ms, accepts);
    FaithfulStops(ms, accepts, ReadAll(Wire(ms), accepts));
  }

  lemma FaithfulStops(ms: seq<Message>, accepts: Message -> bool, r: Reading)
    requires (forall i :: 0 <= i < |ms| ==> Sendable(ms[i])) && Faithful(ms, accepts, r)
    ensures r.ending == EndOfStream <==> forall i :: 0 <= i < |ms| ==> !TooLarge(ms[i]) && accepts(ms[i])
    ensures r.ending == EndOfStream ==> r.delivered == ms && r.counted == |Wire(ms)|
    ensures r.ending != EndOfStream ==> StopsAt(ms, accepts, r.delivered, r.ending)
  {
  }

  method SendAll(ms: seq<Message>) returns (wire: seq<byte>, sent: nat)
    requires forall i :: 0 <= i < |ms| ==> Sendable(ms[i])
    ensures wire == Wire(ms) && sent == |wire|
  {
    var out := new Connection([]);
    for i := 0 to |ms|
      invariant out.written == Wire(ms[..i]) && out.bytesSent == |out.written|
    {
      WireAppend(ms[..i], ms[i]);
      assert ms[..i + 1] == ms[..i] + [ms[i]];
      out.SendMessage(ms[i]);
    }
    assert ms[..|ms|] == ms;
    wire, sent := out.written, out.bytesSent;
  }

  method CopyInto(a: array<byte>, at: nat, s: seq<byte>)
    requires at + |s| <= a.Length
    modifies a
    ensures a[at..at + |s|] == s && a[..at] == old(a[..at])
  {
    for i := 0 to |s|
      invariant a[at..at + i] == s[..i] && a[..at] == old(a[..at])
    {
      a[at + i] := s[i];
      assert a[at..at + i + 1] == a[at..at + i] + [s[i]];
    }
  }
}
