/**
 The ZeDMD serial link (LibDmd/Output/ZeDMD/ZeDMDComm.cs): the discovery
 handshake, the first-answering-port scan, chunked streaming with 'R'/'A'/'E'
 polling, and teardown.

 The serial port is not modelled as an object. Each read consumes the next byte
 of a finite input sequence (running out of bytes is the read timeout, which
 throws), and each write appends an event to a log. Thread.Sleep settle delays
 have no observable effect here and are dropped.
 */
module ZeDMD {
  import opened Common

  const MaxSerialWriteAtOnce: int := 256
  const NCtrlChars: int := 6
  const NIntermediateCtrChars: int := 4

  /** The control signature that prefixes every command and every transfer. */
  const CtrlCharacters: seq<byte> := [0x5a, 0x65, 0x64, 0x72, 0x75, 0x6d]

  /** Command byte asking the panel for its width and height. */
  const QueryDimensions: byte := 12

  /** Command byte asking the panel to forget its cached palettes. */
  const ResetPalettesCommand: byte := 6

  /** Length of the handshake reply buffer: room for the signature plus a command byte, or for the four echoed signature bytes plus four dimension bytes, whichever is larger. */
  const ReplySize: int := 8

  /** The device's flow-control bytes: 'R' ready, 'A' acknowledge, 'E' error. */
  const Ready: byte := 0x52
  const Ack: byte := 0x41
  const Error: byte := 0x45

  /** The buffer ResetPalettes means to hand to StreamBytes. */
  const ResetCommand: seq<byte> := CtrlCharacters + [ResetPalettesCommand]

  // ---------------------------------------------------------------------------
  // Discovery handshake
  // ---------------------------------------------------------------------------

  /**
   What one serial port does during a handshake: whether it can be opened at
   all, and the bytes it has delivered by the time the host reads its reply.
   */
  datatype PortProbe = PortProbe(name: string, opens: bool, reply: seq<byte>)

  /**
   The outcome of Connect: its return value, the width and height out
   parameters, the bytes written to the port, and whether the port is left open.
   */
  datatype Handshake = Handshake(found: bool, width: int, height: int, sent: seq<byte>, leftOpen: bool)

  /** Byte `i` of the reply buffer: a byte the device sent, or the array's initial zero. */
  function ReplyByte(reply: seq<byte>, i: nat): byte
  {
    if i < |reply| then reply[i] else 0
  }

  /**
   The reply buffer after `Read(result, 0, 8)`: the read returns at most eight
   of the bytes available, and the rest of the zero-initialised array stays 0.
   */
  function ReplyBuffer(reply: seq<byte>): (b: seq<byte>)
    ensures |b| == ReplySize
    ensures forall i :: 0 <= i < ReplySize ==> b[i] == ReplyByte(reply, i)
  {
    var got := reply[..Min(|reply|, ReplySize)];
    got + Zeros(ReplySize - |got|)
  }

  /** The first four bytes of the reply buffer echo the signature exactly when the device sent them. */
  lemma EchoCheck(reply: seq<byte>)
    ensures ReplyBuffer(reply)[..NIntermediateCtrChars] == CtrlCharacters[..NIntermediateCtrChars]
            <==> |reply| >= NIntermediateCtrChars && reply[..NIntermediateCtrChars] == CtrlCharacters[..NIntermediateCtrChars]
  {
    var b := ReplyBuffer(reply);
    if |reply| >= NIntermediateCtrChars {
      assert b[..NIntermediateCtrChars] == reply[..NIntermediateCtrChars];
    } else {
      assert b[..NIntermediateCtrChars][|reply|] == 0 != CtrlCharacters[|reply|];
    }
  }

  /** A little-endian 16-bit value, as the reply carries width and height. */
  function LittleEndian16(lo: byte, hi: byte): (v: int)
    ensures 0 <= v < 0x1_0000
  {
    lo as int + hi as int * 256
  }

  /**
   Connect: open the port, send the signature and query byte 12, read the
   reply. A port that cannot be opened, a read timeout (no byte at all) and a
   reply whose first four bytes do not echo the signature all answer false with
   zero dimensions and the port closed.
   */
  function Connect(p: PortProbe): (h: Handshake)
    ensures h.found <==> p.opens && |p.reply| >= NIntermediateCtrChars
                         && p.reply[..NIntermediateCtrChars] == CtrlCharacters[..NIntermediateCtrChars]
    ensures h.found ==> h.leftOpen
                        && h.width == ReplyByte(p.reply, 4) as int + 256 * ReplyByte(p.reply, 5) as int
                        && h.height == ReplyByte(p.reply, 6) as int + 256 * ReplyByte(p.reply, 7) as int
    ensures 0 <= h.width < 0x1_0000 && 0 <= h.height < 0x1_0000
    ensures !h.found ==> h.width == 0 && h.height == 0 && !h.leftOpen
    ensures h.sent == if p.opens then CtrlCharacters + [QueryDimensions] else []
  {
    if !p.opens then
      // SerialPort.Open throws; the port is not open, so SafeClose is skipped.
      Handshake(false, 0, 0, [], false)
    else
      var query := CtrlCharacters + [QueryDimensions];
      if |p.reply| == 0 then
        // Read times out; the handler closes the open port.
        Handshake(false, 0, 0, query, false)
      else
        var result := ReplyBuffer(p.reply);
        EchoCheck(p.reply);
        if result[..NIntermediateCtrChars] != CtrlCharacters[..NIntermediateCtrChars] then
          Handshake(false, 0, 0, query, false)
        else
          Handshake(true,
                    LittleEndian16(result[NIntermediateCtrChars], result[NIntermediateCtrChars + 1]),
                    LittleEndian16(result[NIntermediateCtrChars + 2], result[NIntermediateCtrChars + 3]),
                    query, true)
  }

  // ---------------------------------------------------------------------------
  // Streaming
  // ---------------------------------------------------------------------------

  /** What happens on the port during a transfer, in order. */
  datatype Event = Wrote(data: seq<byte>) | DiscardedOutput

  /**
   How StreamBytes ended: every path but Sent returns false. DeviceError is an
   'E' read while polling; ReadTimeout and BadArgument are exceptions caught
   by the method's handler (which discards the output buffer).
   */
  datatype Status = Sent | DeviceError | ReadTimeout | BadArgument | NotOpen

  datatype StreamOutcome = StreamOutcome(status: Status, log: seq<Event>, consumed: nat) {
    /** The boolean StreamBytes returns. */
    predicate Returned() {
      status == Sent
    }
  }

  /** Where a polling loop stopped: with the awaited signal, on an 'E', or by timing out. */
  datatype Poll = Got(signal: int, next: nat) | SawError(next: nat) | TimedOut

  /** No byte of input[from..to) is the awaited one or an 'E'. */
  predicate Quiet(input: seq<byte>, from: nat, to: nat, target: byte)
    requires from <= to <= |input|
  {
    forall j :: from <= j < to ==> input[j] != target && input[j] != Error
  }

  /**
   Polling for `target`, starting at input position `pos`: as long as the
   current signal differs from the target, read the next byte into it, giving
   up on an 'E'. When the current signal already is the target, nothing is read.
   */
  function WaitFor(signal: int, target: byte, input: seq<byte>, pos: nat): (p: Poll)
    requires pos <= |input|
    requires target != Error
    decreases |input| - pos
    ensures signal == target as int ==> p == Got(signal, pos)
    ensures signal != target as int && p.Got? ==>
              p.signal == target as int && pos < p.next <= |input|
              && input[p.next - 1] == target && Quiet(input, pos, p.next - 1, target)
    ensures signal != target as int && p.SawError? ==>
              pos < p.next <= |input| && input[p.next - 1] == Error && Quiet(input, pos, p.next - 1, target)
    ensures signal != target as int && p.TimedOut? ==> Quiet(input, pos, |input|, target)
  {
    if signal == target as int then Got(signal, pos)
    else if pos == |input| then TimedOut
    else if input[pos] == Error then SawError(pos + 1)
    else WaitFor(input[pos] as int, target, input, pos + 1)
  }

  /** `Write(buffer, offset, count)` throws unless the range lies inside the buffer. */
  predicate WriteInRange(buffer: seq<byte>, offset: int, count: int)
  {
    0 <= offset && 0 <= count && offset + count <= |buffer|
  }

  /** The first chunk leaves room for the signature in the device's 256-byte buffer. */
  function FirstChunkSize(nBytes: int): int
  {
    Min(nBytes, MaxSerialWriteAtOnce - NCtrlChars)
  }

  /**
   The loop over the remaining chunks. `rearm` false is the code as written:
   the signal variable keeps its last value, so once it holds 'A' the wait after
   each chunk reads nothing. `rearm` true clears it first, so every chunk waits
   for an acknowledge of its own.
   */
  function SendRest(rearm: bool, payload: seq<byte>, nBytes: int, remaining: int,
                    signal: int, input: seq<byte>, pos: nat, log: seq<Event>): (o: StreamOutcome)
    requires pos <= |input|
    decreases remaining
    ensures pos <= o.consumed <= |input|
    ensures o.status != NotOpen
    ensures o.status == ReadTimeout ==> o.consumed == |input|
    ensures o.status == DeviceError ==> pos < o.consumed && input[o.consumed - 1] == Error
  {
    if remaining <= 0 then StreamOutcome(Sent, log, pos)
    else
      var count := Min(remaining, MaxSerialWriteAtOnce);
      var offset := nBytes - remaining;
      if !WriteInRange(payload, offset, count) then StreamOutcome(BadArgument, log + [DiscardedOutput], pos)
      else
        var log' := log + [Wrote(payload[offset..offset + count])];
        match WaitFor(if rearm then 0 else signal, Ack, input, pos)
        case TimedOut => StreamOutcome(ReadTimeout, log' + [DiscardedOutput], |input|)
        case SawError(m) => StreamOutcome(DeviceError, log', m)
        case Got(s, m) => SendRest(rearm, payload, nBytes, remaining - count, s, input, m, log')
  }

  /**
   How every transfer ends: a timeout has read all the input and, like an
   out-of-range write, ends with the handler discarding the output buffer; an
   'E' is the last byte read; a success or an 'E' discards nothing; and a
   closed port touches nothing.
   */
  predicate Ended(o: StreamOutcome, input: seq<byte>)
  {
    && o.consumed <= |input|
    && (o.status == ReadTimeout ==> o.consumed == |input|)
    && (o.status == ReadTimeout || o.status == BadArgument ==> o.log != [] && o.log[|o.log| - 1] == DiscardedOutput)
    && (o.status == DeviceError ==> 0 < o.consumed && input[o.consumed - 1] == Error)
    && (o.status == Sent || o.status == DeviceError ==> forall i :: 0 <= i < |o.log| ==> o.log[i].Wrote?)
    && (o.status == NotOpen ==> o.log == [] && o.consumed == 0)
  }

  /** StreamBytes, parameterised by whether the acknowledge wait is re-armed per chunk. */
  function StreamWith(rearm: bool, isOpen: bool, payload: seq<byte>, nBytes: int, input: seq<byte>): (o: StreamOutcome)
    ensures !isOpen <==> o.status == NotOpen
    ensures Ended(o, input)
    ensures o.status == Sent ==> exists r :: 0 <= r < o.consumed && input[r] == Ready && Quiet(input, 0, r, Ready)
  {
    if !isOpen then StreamOutcome(NotOpen, [], 0)
    else
      var first := FirstChunkSize(nBytes);
      match WaitFor(0, Ready, input, 0)
      case TimedOut => StreamOutcome(ReadTimeout, [DiscardedOutput], |input|)
      case SawError(n) => StreamOutcome(DeviceError, [], n)
      case Got(signal, n) =>
        var log := [Wrote(CtrlCharacters)];
        if !WriteInRange(payload, 0, first) then StreamOutcome(BadArgument, log + [DiscardedOutput], n)
        else
          var log := Opening(payload, first);
          match WaitFor(signal, Ack, input, n)
          case TimedOut => StreamOutcome(ReadTimeout, log + [DiscardedOutput], |input|)
          case SawError(m) => StreamOutcome(DeviceError, log, m)
          case Got(signal', m) =>
            ChunkLoopEnded(rearm, payload, nBytes, signal', input, n - 1, m);
            SendRest(rearm, payload, nBytes, nBytes - first, signal', input, m, log)
  }

  /** StreamBytes(pBytes, nBytes) as written, against the bytes the device sends. */
  function StreamBytes(isOpen: bool, payload: seq<byte>, nBytes: int, input: seq<byte>): (o: StreamOutcome)
    ensures !isOpen <==> o.status == NotOpen
    ensures Ended(o, input)
    ensures o.status == Sent ==> exists r :: 0 <= r < o.consumed && input[r] == Ready && Quiet(input, 0, r, Ready)
  {
    StreamWith(false, isOpen, payload, nBytes, input)
  }

  /** StreamBytes as the protocol intends it: an acknowledge awaited after every chunk. */
  function StreamBytesAcked(isOpen: bool, payload: seq<byte>, nBytes: int, input: seq<byte>): (o: StreamOutcome)
    ensures !isOpen <==> o.status == NotOpen
    ensures Ended(o, input)
    ensures o.status == Sent ==> exists r :: 0 <= r < o.consumed && input[r] == Ready && Quiet(input, 0, r, Ready)
  {
    StreamWith(true, isOpen, payload, nBytes, input)
  }

  // ---------------------------------------------------------------------------
  // Write logs
  // ---------------------------------------------------------------------------

  /** The data of the writes in a log, in order. */
  function Writes(log: seq<Event>): seq<seq<byte>>
  {
    if log == [] then []
    else match log[0]
      case Wrote(d) => [d] + Writes(log[1..])
      case DiscardedOutput => Writes(log[1..])
  }

  function Concat(chunks: seq<seq<byte>>): seq<byte>
  {
    if chunks == [] then [] else chunks[0] + Concat(chunks[1..])
  }

  /** Every chunk is non-empty and fits the device buffer, and only the last one may be short. */
  predicate FullChunks(chunks: seq<seq<byte>>)
  {
    && (forall i :: 0 <= i < |chunks| ==> 0 < |chunks[i]| <= MaxSerialWriteAtOnce)
    && (forall i :: 0 <= i < |chunks| - 1 ==> |chunks[i]| == MaxSerialWriteAtOnce)
  }

  /** Number of acknowledge bytes in a stretch of input. */
  function AckCount(s: seq<byte>): nat
  {
    if s == [] then 0 else (if s[0] == Ack then 1 else 0) + AckCount(s[1..])
  }

  lemma {:induction false} WritesAppend(a: seq<Event>, b: seq<Event>)
    ensures Writes(a + b) == Writes(a) + Writes(b)
  {
    if a == [] {
      assert a + b == b;
    } else {
      assert (a + b)[0] == a[0];
      assert (a + b)[1..] == a[1..] + b;
      WritesAppend(a[1..], b);
    }
  }

  lemma {:induction false} ConcatPrepend(c: seq<byte>, rest: seq<seq<byte>>)
    ensures Concat([c] + rest) == c + Concat(rest)
  {
    assert ([c] + rest)[1..] == rest;
  }

  lemma {:induction false} AckCountAppend(a: seq<byte>, b: seq<byte>)
    ensures AckCount(a + b) == AckCount(a) + AckCount(b)
  {
    if a == [] {
      assert a + b == b;
    } else {
      assert (a + b)[0] == a[0];
      assert (a + b)[1..] == a[1..] + b;
      AckCountAppend(a[1..], b);
    }
  }

  /** Splitting a stretch of input around one 'A' inside it. */
  lemma AckCountSplit(s: seq<byte>, a: nat, k: nat, b: nat)
    requires a <= k < b <= |s| && s[k] == Ack
    ensures AckCount(s[a..b]) == AckCount(s[a..k]) + 1 + AckCount(s[k + 1..b])
  {
    assert s[a..b] == s[a..k] + [Ack] + s[k + 1..b];
    AckCountAppend(s[a..k] + [Ack], s[k + 1..b]);
    AckCountAppend(s[a..k], [Ack]);
  }

  /** The events after a log that continues with `e`. */
  lemma DropPrefix(l: seq<Event>, log: seq<Event>, e: Event)
    requires |log| < |l| && l[..|log| + 1] == log + [e]
    ensures l[|log|..] == [e] + l[|log| + 1..]
  {
    assert l[|log|] == l[..|log| + 1][|log|];
  }

  // ---------------------------------------------------------------------------
  // Polling facts
  // ---------------------------------------------------------------------------

  /** A poll stops at the first awaited byte when no 'E' precedes it. */
  lemma {:induction false} WaitForFinds(signal: int, target: byte, input: seq<byte>, pos: nat, k: nat)
    requires pos <= k < |input| && target != Error && signal != target as int
    requires input[k] == target && Quiet(input, pos, k, target)
    ensures WaitFor(signal, target, input, pos) == Got(target as int, k + 1)
    decreases k - pos
  {
    if pos < k {
      WaitForFinds(input[pos] as int, target, input, pos + 1, k);
    }
  }

  /** A poll aborts at the first 'E' when the awaited byte does not precede it. */
  lemma {:induction false} WaitForErrors(signal: int, target: byte, input: seq<byte>, pos: nat, k: nat)
    requires pos <= k < |input| && target != Error && signal != target as int
    requires input[k] == Error && Quiet(input, pos, k, target)
    ensures WaitFor(signal, target, input, pos) == SawError(k + 1)
    decreases k - pos
  {
    if pos < k {
      WaitForErrors(input[pos] as int, target, input, pos + 1, k);
    }
  }

  // ---------------------------------------------------------------------------
  // Properties of the chunk loop
  // ---------------------------------------------------------------------------

  lemma WritesOne(c: seq<byte>)
    ensures Writes([Wrote(c)]) == [c]
  {
    assert [Wrote(c)][1..] == [];
  }

  /** The log of a transfer that got past the first acknowledge, before the chunk loop. */
  function Opening(payload: seq<byte>, first: int): seq<Event>
    requires 0 <= first <= |payload|
  {
    [Wrote(CtrlCharacters), Wrote(payload[..first])]
  }

  lemma WritesOpening(payload: seq<byte>, first: int)
    requires 0 <= first <= |payload|
    ensures Writes(Opening(payload, first)) == [CtrlCharacters, payload[..first]]
  {
    WritesAppend([Wrote(CtrlCharacters)], [Wrote(payload[..first])]);
    WritesOne(CtrlCharacters);
    WritesOne(payload[..first]);
    assert Opening(payload, first) == [Wrote(CtrlCharacters)] + [Wrote(payload[..first])];
  }

  /** A successful chunk loop with bytes remaining wrote a chunk, got its acknowledge and went on. */
  lemma SentStep(rearm: bool, payload: seq<byte>, nBytes: int, remaining: int,
                 signal: int, input: seq<byte>, pos: nat, log: seq<Event>)
    requires pos <= |input| && remaining > 0
    requires SendRest(rearm, payload, nBytes, remaining, signal, input, pos, log).status == Sent
    ensures WriteInRange(payload, nBytes - remaining, Min(remaining, MaxSerialWriteAtOnce))
    ensures var w := WaitFor(if rearm then 0 else signal, Ack, input, pos);
            var count := Min(remaining, MaxSerialWriteAtOnce);
            && w.Got?
            && SendRest(rearm, payload, nBytes, remaining, signal, input, pos, log)
               == SendRest(rearm, payload, nBytes, remaining - count, w.signal, input, w.next,
                           log + [Wrote(payload[nBytes - remaining..nBytes - remaining + count])])
  {
  }

  /** Putting one more chunk in front of the writes that cover payload[offset + count..nBytes). */
  lemma ChunkPrepended(payload: seq<byte>, nBytes: int, offset: int, count: int, rest: seq<Event>)
    requires WriteInRange(payload, offset, count) && 0 < count <= MaxSerialWriteAtOnce && offset + count <= nBytes
    requires offset + count < nBytes ==> count == MaxSerialWriteAtOnce
    requires forall e | e in rest :: e.Wrote?
    requires offset + count == nBytes <==> Writes(rest) == []
    requires offset + count < nBytes ==> nBytes <= |payload| && Concat(Writes(rest)) == payload[offset + count..nBytes]
    requires FullChunks(Writes(rest))
    ensures var tail := [Wrote(payload[offset..offset + count])] + rest;
            && (forall e | e in tail :: e.Wrote?)
            && Writes(tail) != []
            && nBytes <= |payload| && Concat(Writes(tail)) == payload[offset..nBytes]
            && FullChunks(Writes(tail))
  {
    var chunk := payload[offset..offset + count];
    WritesAppend([Wrote(chunk)], rest);
    WritesOne(chunk);
    ConcatPrepend(chunk, Writes(rest));
    if offset + count < nBytes {
      assert payload[offset..nBytes] == chunk + payload[offset + count..nBytes];
    }
  }

  /** A transfer that reaches the chunk loop after an 'R' at r ends as Ended describes. */
  lemma ChunkLoopEnded(rearm: bool, payload: seq<byte>, nBytes: int, signal: int, input: seq<byte>, r: nat, pos: nat)
    requires WriteInRange(payload, 0, FirstChunkSize(nBytes))
    requires r < pos <= |input| && input[r] == Ready && Quiet(input, 0, r, Ready)
    ensures var o := SendRest(rearm, payload, nBytes, nBytes - FirstChunkSize(nBytes), signal, input, pos,
                              Opening(payload, FirstChunkSize(nBytes)));
            && Ended(o, input)
            && (o.status == Sent ==> exists k :: 0 <= k < o.consumed && input[k] == Ready && Quiet(input, 0, k, Ready))
  {
    var first := FirstChunkSize(nBytes);
    var log := Opening(payload, first);
    var o := SendRest(rearm, payload, nBytes, nBytes - first, signal, input, pos, log);
    SendRestEnds(rearm, payload, nBytes, nBytes - first, signal, input, pos, log);
    if o.status == Sent || o.status == DeviceError {
      forall i | 0 <= i < |o.log| ensures o.log[i].Wrote? {
        if i < 2 {
          assert o.log[i] == o.log[..2][i];
        }
      }
    }
  }

  /**
   A successful chunk loop appends only writes, which are the payload from
   offset nBytes - remaining up to nBytes, cut into full 256-byte chunks with a
   shorter last one.
   */
  lemma SendRestSent(rearm: bool, payload: seq<byte>, nBytes: int, remaining: int,
                     signal: int, input: seq<byte>, pos: nat, log: seq<Event>)
    returns (tail: seq<Event>)
    requires pos <= |input|
    requires 0 <= remaining <= nBytes
    requires SendRest(rearm, payload, nBytes, remaining, signal, input, pos, log).status == Sent
    ensures SendRest(rearm, payload, nBytes, remaining, signal, input, pos, log).log == log + tail
    ensures forall e | e in tail :: e.Wrote?
    ensures remaining == 0 <==> Writes(tail) == []
    ensures remaining > 0 ==> nBytes <= |payload| && Concat(Writes(tail)) == payload[nBytes - remaining .. nBytes]
    ensures FullChunks(Writes(tail))
  {
    var o := SendRest(rearm, payload, nBytes, remaining, signal, input, pos, log);
    SendRestEnds(rearm, payload, nBytes, remaining, signal, input, pos, log);
    tail := o.log[|log|..];
    assert o.log == log + tail;
    SentTailShape(rearm, payload, nBytes, remaining, signal, input, pos, log);
  }

  /** The shape of what a successful chunk loop appends, by induction on the chunks. */
  lemma {:induction false} SentTailShape(rearm: bool, payload: seq<byte>, nBytes: int, remaining: int,
                                         signal: int, input: seq<byte>, pos: nat, log: seq<Event>)
    requires pos <= |input|
    requires 0 <= remaining <= nBytes
    requires SendRest(rearm, payload, nBytes, remaining, signal, input, pos, log).status == Sent
    ensures var o := SendRest(rearm, payload, nBytes, remaining, signal, input, pos, log);
            |log| <= |o.log| &&
            var tail := o.log[|log|..];
            && (forall e | e in tail :: e.Wrote?)
            && (remaining == 0 <==> Writes(tail) == [])
            && (remaining > 0 ==> nBytes <= |payload| && Concat(Writes(tail)) == payload[nBytes - remaining .. nBytes])
            && FullChunks(Writes(tail))
    decreases remaining
  {
    var o := SendRest(rearm, payload, nBytes, remaining, signal, input, pos, log);
    if remaining > 0 {
      SentStep(rearm, payload, nBytes, remaining, signal, input, pos, log);
      var count := Min(remaining, MaxSerialWriteAtOnce);
      var offset := nBytes - remaining;
      var chunk := payload[offset..offset + count];
      var log' := log + [Wrote(chunk)];
      var w := WaitFor(if rearm then 0 else signal, Ack, input, pos);
      assert o == SendRest(rearm, payload, nBytes, remaining - count, w.signal, input, w.next, log');
      SentTailShape(rearm, payload, nBytes, remaining - count, w.signal, input, w.next, log');
      SendRestEnds(rearm, payload, nBytes, remaining - count, w.signal, input, w.next, log');
      var rest := o.log[|log'|..];
      DropPrefix(o.log, log, Wrote(chunk));
      ChunkPrepended(payload, nBytes, offset, count, rest);
    } else {
      assert o.log[|log|..] == [];
    }
  }

  /**
   The chunk loop only appends to the log it is given: writes alone when it
   succeeds or reads an 'E', and a final discard of the output buffer when a
   read times out or a write is out of range.
   */
  lemma {:induction false} SendRestEnds(rearm: bool, payload: seq<byte>, nBytes: int, remaining: int,
                                        signal: int, input: seq<byte>, pos: nat, log: seq<Event>)
    requires pos <= |input|
    ensures var o := SendRest(rearm, payload, nBytes, remaining, signal, input, pos, log);
            && |log| <= |o.log| && o.log[..|log|] == log
            && (o.status == Sent || o.status == DeviceError ==> forall i :: |log| <= i < |o.log| ==> o.log[i].Wrote?)
            && (o.status == ReadTimeout || o.status == BadArgument ==>
                  |log| < |o.log| && o.log[|o.log| - 1] == DiscardedOutput)
    decreases remaining
  {
    if remaining > 0 {
      var count := Min(remaining, MaxSerialWriteAtOnce);
      var offset := nBytes - remaining;
      if WriteInRange(payload, offset, count) {
        var log' := log + [Wrote(payload[offset..offset + count])];
        var w := WaitFor(if rearm then 0 else signal, Ack, input, pos);
        if w.Got? {
          SendRestEnds(rearm, payload, nBytes, remaining - count, w.signal, input, w.next, log');
          var o := SendRest(rearm, payload, nBytes, remaining - count, w.signal, input, w.next, log');
          assert o.log[..|log|] == o.log[..|log'|][..|log|];
          assert o.log[|log|] == o.log[..|log'|][|log|];
        }
      }
    }
  }

  /** With the acknowledge wait re-armed, every chunk the loop writes has consumed an 'A'. */
  lemma {:induction false} SendRestAcks(payload: seq<byte>, nBytes: int, remaining: int,
                                        signal: int, input: seq<byte>, pos: nat, log: seq<Event>)
    requires pos <= |input|
    requires SendRest(true, payload, nBytes, remaining, signal, input, pos, log).status == Sent
    ensures var o := SendRest(true, payload, nBytes, remaining, signal, input, pos, log);
            pos <= o.consumed <= |input|
            && AckCount(input[pos..o.consumed]) + |Writes(log)| >= |Writes(o.log)|
    decreases remaining
  {
    var o := SendRest(true, payload, nBytes, remaining, signal, input, pos, log);
    if remaining > 0 {
      var count := Min(remaining, MaxSerialWriteAtOnce);
      var offset := nBytes - remaining;
      var chunk := payload[offset..offset + count];
      var log' := log + [Wrote(chunk)];
      var w := WaitFor(0, Ack, input, pos);
      assert w.Got?;
      assert o == SendRest(true, payload, nBytes, remaining - count, w.signal, input, w.next, log');
      SendRestAcks(payload, nBytes, remaining - count, w.signal, input, w.next, log');
      WritesAppend(log, [Wrote(chunk)]);
      WritesOne(chunk);
      AckCountSplit(input, pos, w.next - 1, o.consumed);
    }
  }

  /**
   As written, once the signal holds 'A' the chunk loop never reads: it either
   sends everything or fails on an out-of-range write, and it never sees an 'E'.
   */
  lemma {:induction false} SendRestWithoutRearmNeverReads(payload: seq<byte>, nBytes: int, remaining: int,
                                                         input: seq<byte>, pos: nat, log: seq<Event>)
    requires pos <= |input|
    requires 0 <= nBytes - remaining
    ensures var o := SendRest(false, payload, nBytes, remaining, Ack as int, input, pos, log);
            && o.consumed == pos
            && (o.status == Sent || o.status == BadArgument)
            && (o.status == Sent <==> remaining <= 0 || nBytes <= |payload|)
    decreases remaining
  {
    if remaining > 0 {
      var count := Min(remaining, MaxSerialWriteAtOnce);
      var offset := nBytes - remaining;
      if WriteInRange(payload, offset, count) {
        var log' := log + [Wrote(payload[offset..offset + count])];
        assert WaitFor(Ack as int, Ack, input, pos) == Got(Ack as int, pos);
        SendRestWithoutRearmNeverReads(payload, nBytes, remaining - count, input, pos, log');
      }
    }
  }

  // ---------------------------------------------------------------------------
  // Properties of a whole transfer
  // ---------------------------------------------------------------------------

  /** 'R' at r is the first 'R' and no 'E' precedes it; 'A' at a is the first 'A' after it, again with no 'E' between. */
  predicate ReadyThenAck(input: seq<byte>, r: int, a: int)
  {
    && 0 <= r < a < |input|
    && input[r] == Ready && Quiet(input, 0, r, Ready)
    && input[a] == Ack && Quiet(input, r + 1, a, Ack)
  }

  /**
   A successful transfer writes the signature, then the payload's first
   min(nBytes, 250) bytes, then the rest in contiguous chunks of at most 256;
   the payload writes together are exactly payload[0..nBytes).
   */
  lemma StreamSentWrites(rearm: bool, isOpen: bool, payload: seq<byte>, nBytes: int, input: seq<byte>)
    requires StreamWith(rearm, isOpen, payload, nBytes, input).status == Sent
    ensures var o := StreamWith(rearm, isOpen, payload, nBytes, input);
            var w := Writes(o.log);
            && isOpen && 0 <= nBytes <= |payload|
            && (forall e | e in o.log :: e.Wrote?)
            && |w| >= 2 && w[0] == CtrlCharacters
            && w[1] == payload[..FirstChunkSize(nBytes)]
            && Concat(w[1..]) == payload[..nBytes]
            && FullChunks(w[2..])
  {
    var o := StreamWith(rearm, isOpen, payload, nBytes, input);
    var first := FirstChunkSize(nBytes);
    var p := WaitFor(0, Ready, input, 0);
    assert p.Got?;
    assert WriteInRange(payload, 0, first);
    var q := WaitFor(p.signal, Ack, input, p.next);
    assert q.Got?;
    var opening := Opening(payload, first);
    var tail := SendRestSent(rearm, payload, nBytes, nBytes - first, q.signal, input, q.next, opening);
    assert o.log == opening + tail;
    WritesAppend(opening, tail);
    WritesOpening(payload, first);
    var w := Writes(o.log);
    assert w == [CtrlCharacters, payload[..first]] + Writes(tail);
    assert w[1..] == [payload[..first]] + Writes(tail);
    ConcatPrepend(payload[..first], Writes(tail));
    if nBytes - first > 0 {
      assert payload[..nBytes] == payload[..first] + payload[first..nBytes];
    }
    assert w[2..] == Writes(tail);
  }

  /**
   As written, a transfer succeeds only if the port is open, the payload range
   is valid, and the device sent an 'R' and then one 'A' (each before any 'E');
   it reads nothing after that first 'A'.
   */
  lemma StreamSentNeedsReadyAndAck(isOpen: bool, payload: seq<byte>, nBytes: int, input: seq<byte>)
    requires StreamBytes(isOpen, payload, nBytes, input).Returned()
    ensures isOpen && 0 <= nBytes <= |payload|
    ensures exists r, a :: ReadyThenAck(input, r, a) && StreamBytes(isOpen, payload, nBytes, input).consumed == a + 1
  {
    StreamSentWrites(false, isOpen, payload, nBytes, input);
    var first := FirstChunkSize(nBytes);
    var p := WaitFor(0, Ready, input, 0);
    assert p.Got?;
    var q := WaitFor(p.signal, Ack, input, p.next);
    assert q.Got?;
    SendRestWithoutRearmNeverReads(payload, nBytes, nBytes - first, input, q.next, Opening(payload, first));
    assert ReadyThenAck(input, p.next - 1, q.next - 1);
  }

  /**
   The converse: an open port, a valid range and an 'R' followed by an 'A'
   always make the transfer succeed, whatever the device sends afterwards.
   */
  lemma StreamSendsOnReadyAndAck(isOpen: bool, payload: seq<byte>, nBytes: int, input: seq<byte>, r: int, a: int)
    requires isOpen && 0 <= nBytes <= |payload|
    requires ReadyThenAck(input, r, a)
    ensures StreamBytes(isOpen, payload, nBytes, input).Returned()
    ensures StreamBytes(isOpen, payload, nBytes, input).consumed == a + 1
  {
    var first := FirstChunkSize(nBytes);
    WaitForFinds(0, Ready, input, 0, r);
    WaitForFinds(Ready as int, Ack, input, r + 1, a);
    SendRestWithoutRearmNeverReads(payload, nBytes, nBytes - first, input, a + 1, Opening(payload, first));
  }

  /**
   An 'E' can only end a transfer while it polls for 'R' (nothing written yet)
   or for the first 'A' (signature and first chunk written): as written, no 'E'
   is ever read after that.
   */
  lemma StreamErrorOnlyWhilePolling(isOpen: bool, payload: seq<byte>, nBytes: int, input: seq<byte>)
    ensures var o := StreamBytes(isOpen, payload, nBytes, input);
            o.status == DeviceError ==>
              && 0 < o.consumed <= |input| && input[o.consumed - 1] == Error
              && ((o.log == [] && Quiet(input, 0, o.consumed - 1, Ready))
                  || (&& o.log == [Wrote(CtrlCharacters), Wrote(payload[..FirstChunkSize(nBytes)])]
                      && exists r :: 0 <= r < o.consumed - 1 && input[r] == Ready
                                     && Quiet(input, 0, r, Ready) && Quiet(input, r + 1, o.consumed - 1, Ack)))
  {
    var o := StreamBytes(isOpen, payload, nBytes, input);
    if o.status == DeviceError {
      var first := FirstChunkSize(nBytes);
      var p := WaitFor(0, Ready, input, 0);
      if p.Got? {
        assert WriteInRange(payload, 0, first);
        var q := WaitFor(p.signal, Ack, input, p.next);
        if q.Got? {
          SendRestWithoutRearmNeverReads(payload, nBytes, nBytes - first, input, q.next, Opening(payload, first));
          assert false;
        }
        assert input[p.next - 1] == Ready;
      }
    }
  }

  /** An 'E' before any 'R' aborts the transfer with nothing written. */
  lemma StreamAbortsBeforeReady(payload: seq<byte>, nBytes: int, input: seq<byte>, k: nat)
    requires k < |input| && input[k] == Error && Quiet(input, 0, k, Ready)
    ensures StreamBytes(true, payload, nBytes, input) == StreamOutcome(DeviceError, [], k + 1)
  {
    WaitForErrors(0, Ready, input, 0, k);
  }

  /** An 'E' before the first 'A' aborts after the signature and first chunk, with no further write. */
  lemma StreamAbortsBeforeFirstAck(payload: seq<byte>, nBytes: int, input: seq<byte>, r: nat, k: nat)
    requires r < k < |input|
    requires input[r] == Ready && Quiet(input, 0, r, Ready)
    requires input[k] == Error && Quiet(input, r + 1, k, Ack)
    requires WriteInRange(payload, 0, FirstChunkSize(nBytes))
    ensures StreamBytes(true, payload, nBytes, input)
            == StreamOutcome(DeviceError, [Wrote(CtrlCharacters), Wrote(payload[..FirstChunkSize(nBytes)])], k + 1)
  {
    WaitForFinds(0, Ready, input, 0, r);
    WaitForErrors(Ready as int, Ack, input, r + 1, k);
  }

  /**
   Nothing is written before an 'R' is read, and the first write is exactly
   the signature, the second the first chunk of the payload.
   */
  lemma StreamWritesFollowReady(isOpen: bool, payload: seq<byte>, nBytes: int, input: seq<byte>)
    ensures var o := StreamBytes(isOpen, payload, nBytes, input);
            Writes(o.log) != [] ==>
              && o.log[0] == Wrote(CtrlCharacters)
              && exists r :: 0 <= r < o.consumed && input[r] == Ready && Quiet(input, 0, r, Ready)
    ensures var o := StreamBytes(isOpen, payload, nBytes, input);
            |o.log| >= 2 && o.log[1].Wrote? ==> o.log[1] == Wrote(payload[..FirstChunkSize(nBytes)])
  {
    var o := StreamBytes(isOpen, payload, nBytes, input);
    if isOpen {
      var first := FirstChunkSize(nBytes);
      var p := WaitFor(0, Ready, input, 0);
      if p.Got? {
        assert input[p.next - 1] == Ready;
        if WriteInRange(payload, 0, first) {
          var q := WaitFor(p.signal, Ack, input, p.next);
          if q.Got? {
            SendRestEnds(false, payload, nBytes, nBytes - first, q.signal, input, q.next, Opening(payload, first));
            assert o.log[..2] == Opening(payload, first);
            assert o.log[0] == o.log[..2][0];
            assert o.log[1] == o.log[..2][1];
          }
        }
      } else {
        assert [DiscardedOutput][1..] == [];
      }
    }
  }

  /**
   The 600-byte transfer: three payload writes of 250, 256 and 94 bytes after
   the signature. As written it succeeds having read only "RA", so the second
   and third chunks go out without any acknowledge.
   */
  lemma StreamSixHundredBytes(payload: seq<byte>)
    requires |payload| == 600
    ensures var o := StreamBytes(true, payload, 600, [Ready, Ack]);
            && o.status == Sent && o.consumed == 2
            && o.log == [Wrote(CtrlCharacters), Wrote(payload[..250]), Wrote(payload[250..506]), Wrote(payload[506..600])]
            && forall r :: 0 <= r < o.consumed && [Ready, Ack][r] == Ready ==>
                             AckCount([Ready, Ack][r + 1..o.consumed]) < |Writes(o.log)| - 1
  {
    var input := [Ready, Ack];
    assert WaitFor(0, Ready, input, 0) == Got(Ready as int, 1);
    assert WaitFor(Ready as int, Ack, input, 1) == Got(Ack as int, 2);
    var l1 := Opening(payload, 250);
    var l2 := l1 + [Wrote(payload[250..506])];
    var l3 := l2 + [Wrote(payload[506..600])];
    assert SendRest(false, payload, 600, 94, Ack as int, input, 2, l2) == StreamOutcome(Sent, l3, 2);
    assert SendRest(false, payload, 600, 350, Ack as int, input, 2, l1) == StreamOutcome(Sent, l3, 2);
    WritesOpening(payload, 250);
    WritesAppend(l1, [Wrote(payload[250..506])]);
    WritesAppend(l2, [Wrote(payload[506..600])]);
    WritesOne(payload[250..506]);
    WritesOne(payload[506..600]);
    assert |Writes(l3)| == 4;
    assert input[..2] == input && input[1..] == [Ack] && input[1..][1..] == [];
    assert AckCount(input[1..]) == 1;
    assert forall r :: 0 <= r < 2 && input[r] == Ready ==> r == 0;
  }

  /** With the acknowledge wait re-armed, the same 600 bytes need one 'A' per chunk. */
  lemma AckedStreamSixHundredBytes(payload: seq<byte>)
    requires |payload| == 600
    ensures StreamBytesAcked(true, payload, 600, [Ready, Ack]).status == ReadTimeout
    ensures var o := StreamBytesAcked(true, payload, 600, [Ready, Ack, Ack, Ack]);
            o.status == Sent && o.consumed == 4
  {
    var l1 := [Wrote(CtrlCharacters), Wrote(payload[0..250])];
    var l2 := l1 + [Wrote(payload[250..506])];
    var short := [Ready, Ack];
    assert WaitFor(0, Ready, short, 0) == Got(Ready as int, 1);
    assert WaitFor(Ready as int, Ack, short, 1) == Got(Ack as int, 2);
    assert WaitFor(0, Ack, short, 2) == TimedOut;
    var long := [Ready, Ack, Ack, Ack];
    assert WaitFor(0, Ready, long, 0) == Got(Ready as int, 1);
    assert WaitFor(Ready as int, Ack, long, 1) == Got(Ack as int, 2);
    assert WaitFor(0, Ack, long, 2) == Got(Ack as int, 3);
    assert WaitFor(0, Ack, long, 3) == Got(Ack as int, 4);
    assert SendRest(true, payload, 600, 94, Ack as int, long, 3, l2).status == Sent;
  }

  /**
   With the acknowledge wait re-armed, a successful transfer has read, after
   the device's first 'R', at least one 'A' for every payload chunk it wrote.
   */
  lemma AckedStreamCountsAcks(isOpen: bool, payload: seq<byte>, nBytes: int, input: seq<byte>)
    requires StreamBytesAcked(isOpen, payload, nBytes, input).Returned()
    ensures var o := StreamBytesAcked(isOpen, payload, nBytes, input);
            exists r :: && 0 <= r < o.consumed && input[r] == Ready && Quiet(input, 0, r, Ready)
                        && AckCount(input[r + 1..o.consumed]) >= |Writes(o.log)| - 1
  {
    var o := StreamBytesAcked(isOpen, payload, nBytes, input);
    var first := FirstChunkSize(nBytes);
    var p := WaitFor(0, Ready, input, 0);
    assert p.Got?;
    assert WriteInRange(payload, 0, first);
    var q := WaitFor(p.signal, Ack, input, p.next);
    assert q.Got?;
    assert o == SendRest(true, payload, nBytes, nBytes - first, q.signal, input, q.next, Opening(payload, first));
    SendRestAcks(payload, nBytes, nBytes - first, q.signal, input, q.next, Opening(payload, first));
    WritesOpening(payload, first);
    var r := p.next - 1;
    assert input[r] == Ready && Quiet(input, 0, r, Ready);
    AckCountSplit(input, r + 1, q.next - 1, o.consumed);
  }

  /** Payloads the first chunk holds whole behave identically under both readings of the acknowledge wait. */
  lemma ShortStreamsAgree(isOpen: bool, payload: seq<byte>, nBytes: int, input: seq<byte>)
    requires nBytes <= MaxSerialWriteAtOnce - NCtrlChars
    ensures StreamBytes(isOpen, payload, nBytes, input) == StreamBytesAcked(isOpen, payload, nBytes, input)
  {
  }

  // ---------------------------------------------------------------------------
  // Link state: Open, Close, StreamBytes on the current port
  // ---------------------------------------------------------------------------

  /** The `_serialPort` field: null, or the last port object created. */
  datatype Handle = NoPort | Port(name: string, isOpen: bool)

  /** The ZeDMDComm fields that persist between calls. */
  datatype Link = Link(port: Handle, isOpened: bool, nCOM: Option<string>)

  const Initial: Link := Link(NoPort, false, None)

  /** Exceptions the link methods let escape. */
  datatype Fault = NullReference | PortClosed

  /** Open's return value and out parameters, the link afterwards, how many ports were tried, and the reset transfer. */
  datatype OpenResult = OpenResult(code: int, width: int, height: int, link: Link, probed: nat, reset: Option<StreamOutcome>)

  /**
   Open: try Connect on each port in order and stop at the first that answers;
   then reset the device's palettes and mark the link opened.
   */
  method Open(link: Link, ports: seq<PortProbe>, resetInput: seq<byte>) returns (r: OpenResult)
    ensures r.code == 0 || r.code == 1
    ensures r.code == 1 <==> exists i :: 0 <= i < |ports| && Connect(ports[i]).found
    ensures r.code == 1 ==>
              && 1 <= r.probed <= |ports|
              && Connect(ports[r.probed - 1]).found
              && (forall j :: 0 <= j < r.probed - 1 ==> !Connect(ports[j]).found)
              && r.width == Connect(ports[r.probed - 1]).width
              && r.height == Connect(ports[r.probed - 1]).height
              && r.link == Link(Port(ports[r.probed - 1].name, true), true, Some(ports[r.probed - 1].name))
              && r.reset == Some(StreamBytes(true, ResetCommand, |ResetCommand|, resetInput))
    ensures r.code == 0 ==>
              && r.probed == |ports| && r.width == 0 && r.height == 0 && r.reset == None
              && r.link.isOpened == link.isOpened && r.link.nCOM == link.nCOM
              && r.link.port == (if |ports| == 0 then link.port else Port(ports[|ports| - 1].name, false))
  {
    var available := false;
    var width, height := 0, 0;
    var port := link.port;
    var nCOM := link.nCOM;
    var i := 0;
    while i < |ports|
      invariant 0 <= i <= |ports|
      invariant forall j :: 0 <= j < i ==> !Connect(ports[j]).found
      invariant width == 0 && height == 0
      invariant port == if i == 0 then link.port else Port(ports[i - 1].name, false)
      invariant nCOM == link.nCOM
    {
      var hs := Connect(ports[i]);
      port := Port(ports[i].name, hs.leftOpen);
      width, height := hs.width, hs.height;
      if hs.found {
        available := true;
        nCOM := Some(ports[i].name);
        i := i + 1;
        break;
      }
      i := i + 1;
    }
    if !available {
      r := OpenResult(0, width, height, Link(port, link.isOpened, nCOM), i, None);
      return;
    }
    var reset := StreamBytes(true, ResetCommand, |ResetCommand|, resetInput);
    r := OpenResult(1, width, height, Link(port, true, nCOM), i, Some(reset));
  }

  /** StreamBytes on the link's current port; with no port object the IsOpen test dereferences null. */
  function LinkStream(link: Link, payload: seq<byte>, nBytes: int, input: seq<byte>): (r: Result<StreamOutcome, Fault>)
    ensures link.port.NoPort? <==> r == Failure(NullReference)
    ensures link.port.Port? && !link.port.isOpen ==> r == Success(StreamOutcome(NotOpen, [], 0))
  {
    match link.port
    case NoPort => Failure(NullReference)
    case Port(_, isOpen) => Success(StreamBytes(isOpen, payload, nBytes, input))
  }

  /** ResetPalettes as intended: the signature and command byte 6, sent through StreamBytes. */
  function ResetPalettes(link: Link, input: seq<byte>): (r: Result<StreamOutcome, Fault>)
    ensures link.port.NoPort? <==> r == Failure(NullReference)
    ensures link.port.Port? ==> r.Success? && Ended(r.value, input)
    ensures link.port.Port? ==> (r.value.status == NotOpen <==> !link.port.isOpen)
    ensures r.Success? && r.value.Returned() ==> r.value.log == [Wrote(CtrlCharacters), Wrote(ResetCommand)]
  {
    ResetFitsFirstChunk(link.port.Port? && link.port.isOpen, input);
    LinkStream(link, ResetCommand, |ResetCommand|, input)
  }

  /** The 7-byte reset command fits the first chunk, so a successful reset writes exactly two blocks. */
  lemma ResetFitsFirstChunk(isOpen: bool, input: seq<byte>)
    ensures var o := StreamBytes(isOpen, ResetCommand, |ResetCommand|, input);
            o.Returned() ==> o.log == [Wrote(CtrlCharacters), Wrote(ResetCommand)]
  {
    var o := StreamBytes(isOpen, ResetCommand, |ResetCommand|, input);
    if o.Returned() {
      assert FirstChunkSize(|ResetCommand|) == |ResetCommand|;
      assert ResetCommand[..|ResetCommand|] == ResetCommand;
      var p := WaitFor(0, Ready, input, 0);
      assert p.Got?;
      var q := WaitFor(p.signal, Ack, input, p.next);
      assert q.Got?;
    }
  }

  /** On an open port that answers "RA", a palette reset writes the signature and then the 7-byte command. */
  lemma ResetPalettesWrites(name: string, isOpened: bool, nCOM: Option<string>)
    ensures ResetPalettes(Link(Port(name, true), isOpened, nCOM), [Ready, Ack])
            == Success(StreamOutcome(Sent, [Wrote(CtrlCharacters), Wrote(CtrlCharacters + [ResetPalettesCommand])], 2))
  {
    var input := [Ready, Ack];
    assert WaitFor(0, Ready, input, 0) == Got(Ready as int, 1);
    assert WaitFor(Ready as int, Ack, input, 1) == Got(Ack as int, 2);
    assert ResetCommand[0..7] == CtrlCharacters + [ResetPalettesCommand];
  }

  /** Close's return value, the link afterwards, and the reset transfer it attempts. */
  datatype Closed = Closed(returned: bool, link: Link, reset: Option<StreamOutcome>)

  /**
   Close: when opened, disconnect (discard both buffers and close the port) and
   then reset palettes; always clear Opened and return true. SafeClose on a
   port that is already closed throws, as does the reset with no port object.
   */
  function Close(link: Link): (r: Result<Closed, Fault>)
    ensures r.Success? ==> r.value.returned && !r.value.link.isOpened && r.value.link.nCOM == link.nCOM
    ensures r.Success? && link.isOpened ==> r.value.link.port.Port? && !r.value.link.port.isOpen
    ensures !link.isOpened ==> r == Success(Closed(true, link.(isOpened := false), None))
  {
    if !link.isOpened then Success(Closed(true, link.(isOpened := false), None))
    else match link.port
      case NoPort => Failure(NullReference)
      case Port(name, isOpen) =>
        if !isOpen then Failure(PortClosed)
        else
          var closed := Link(Port(name, false), false, link.nCOM);
          Success(Closed(true, closed, Some(StreamBytes(false, ResetCommand, |ResetCommand|, []))))
  }

  /** A link whose Opened flag is only set while its port is open. */
  predicate Consistent(link: Link)
  {
    link.isOpened ==> link.port.Port? && link.port.isOpen
  }

  /**
   Close on a consistent link always returns true and leaves the link closed;
   the palette reset it attempts finds the port already closed and writes nothing.
   */
  lemma CloseAlwaysCloses(link: Link)
    requires Consistent(link)
    ensures var r := Close(link);
            && r.Success? && r.value.returned && !r.value.link.isOpened
            && Consistent(r.value.link)
            && (r.value.reset.Some? ==> r.value.reset.value == StreamOutcome(NotOpen, [], 0))
  {
  }

  /**
   A failed Open keeps Opened set and leaves a closed port object behind (see
   Open's contract); Close on such a link throws instead of returning true.
   */
  lemma CloseAfterFailedReopenThrows(lastTried: string, nCOM: Option<string>)
    ensures Close(Link(Port(lastTried, false), true, nCOM)) == Failure(PortClosed)
  {
  }
}
