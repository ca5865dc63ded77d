/** Reassembling encrypted business packets from notification chunks of any size. */
module Reassembly {
  import opened Cbc

  /** Total length of the packet a buffer begins with. */
  function TotalLength(plainLength: nat): nat { HEADER + CeilBlocks(plainLength) }

  /** What draining a buffer yields: decoded packets, what is left, and whether the
      length field was legal throughout. */
  datatype Drained = Drained(responses: seq<seq<Byte>>, rest: seq<Byte>, ok: bool)

  function Decodes(p: Primitives, key: seq<Byte>, raw: seq<Byte>): seq<seq<Byte>>
    requires p.Lawful()
  {
    match DecryptBusinessPacket(p, key, raw)
    case Plain(bytes) => if bytes == [] then [] else [bytes]
    case Malformed => []
  }

  predicate HasLength(buffer: seq<Byte>) {
    |buffer| >= HEADER
  }

  function LengthField(buffer: seq<Byte>): nat
    requires HasLength(buffer)
  {
    Length(buffer[0], buffer[1])
  }

  predicate Illegal(buffer: seq<Byte>) {
    HasLength(buffer) && (LengthField(buffer) == 0 || LengthField(buffer) > MAXIMUM)
  }

  /** No complete packet at the front, and nothing wrong with what is there. */
  predicate Waiting(buffer: seq<Byte>) {
    HasLength(buffer) ==> !Illegal(buffer) && |buffer| < TotalLength(LengthField(buffer))
  }

  function Drain(p: Primitives, key: seq<Byte>, buffer: seq<Byte>): Drained
    requires p.Lawful()
    decreases |buffer|
  {
    if Waiting(buffer) then Drained([], buffer, true)
    else if Illegal(buffer) then Drained([], [], false)
    else
      var n := TotalLength(LengthField(buffer));
      var d := Drain(p, key, buffer[n..]);
      d.(responses := Decodes(p, key, buffer[..n]) + d.responses)
  }

  lemma DrainStops(p: Primitives, key: seq<Byte>, b: seq<Byte>)
    requires p.Lawful()
    ensures Waiting(b) ==> Drain(p, key, b) == Drained([], b, true)
    ensures Illegal(b) ==> Drain(p, key, b) == Drained([], [], false)
  {
  }

  lemma DrainNext(p: Primitives, key: seq<Byte>, b: seq<Byte>)
    requires p.Lawful() && !Waiting(b) && !Illegal(b)
    ensures var n := TotalLength(LengthField(b));
            n <= |b| &&
            var d := Drain(p, key, b[n..]);
            Drain(p, key, b) == Drained(Decodes(p, key, b[..n]) + d.responses, d.rest, d.ok)
  {
  }

  datatype Front = Incomplete | Broken | Taken

  /** The front of a buffer, told from its bytes: six of them, a length of 1 to 4096, and as many
      blocks of 16 as hold it. */
  function Told(b: seq<Byte>): Front {
    if |b| < 6 then Incomplete
    else
      var n := b[0] as nat * 256 + b[1] as nat;
      if !(1 <= n <= 4096) then Broken else if |b| < 6 + 16 * ((n + 15) / 16) then Incomplete else Taken
  }

  lemma ToldByBytes(b: seq<Byte>)
    ensures Told(b) == if Waiting(b) then Incomplete else if Illegal(b) then Broken else Taken
  {
  }

  lemma TakenShortens(b: seq<Byte>)
    requires !Waiting(b) && !Illegal(b)
    ensures HasLength(b) && 0 < TotalLength(LengthField(b)) <= |b|
  {
  }

  lemma NothingWaits()
    ensures Waiting([])
  {
  }

  class ModbusRxAssembler {
    const primitives: Primitives
    var buffer: seq<Byte>
    var encrypted: bool
    var sharedKey: seq<Byte>
    var responses: seq<seq<Byte>>

    /** The buffer never keeps a packet that could be decoded. */
    ghost predicate Valid()
      reads this
    {
      primitives.Lawful() && Waiting(buffer)
    }

    constructor (primitives: Primitives)
      requires primitives.Lawful()
      ensures Valid() && this.primitives == primitives
      ensures !encrypted && buffer == [] && responses == []
    {
      this.primitives := primitives;
      buffer, encrypted, sharedKey, responses := [], false, [], [];
    }

    method SetEncrypted(key: seq<Byte>)
      requires Valid()
      modifies this
      ensures Valid() && encrypted && sharedKey == key && buffer == [] && responses == old(responses)
    {
      encrypted := true;
      sharedKey := key;
      buffer := [];
    }

    /** Switching off drops what was collected and what was decoded. */
    method SetPlaintext()
      requires Valid()
      modifies this
      ensures Valid() && !encrypted && sharedKey == [] && buffer == [] && responses == []
    {
      NothingWaits();
      encrypted := false;
      sharedKey := [];
      buffer := [];
      responses := [];
    }

    /** Takes the packet at the front of the buffer, if it is complete. */
    method TakePacket() returns (f: Front)
      requires primitives.Lawful()
      modifies this`buffer, this`responses
      ensures f == (if Waiting(old(buffer)) then Incomplete else if Illegal(old(buffer)) then Broken else Taken)
      ensures f == Told(old(buffer))
      ensures f == Incomplete ==> buffer == old(buffer) && responses == old(responses)
      ensures f == Broken ==> buffer == [] && responses == old(responses)
      ensures f == Taken ==>
        var n := TotalLength(LengthField(old(buffer)));
        && n <= |old(buffer)| && buffer == old(buffer)[n..]
        && responses == old(responses) + Decodes(primitives, sharedKey, old(buffer)[..n])
    {
      ToldByBytes(buffer);
      hide DecryptBusinessPacket, CeilBlocks, Length, Told;
      if |buffer| < HEADER {
        return Incomplete;
      }
      var plainLength := Length(buffer[0], buffer[1]);
      if plainLength == 0 || plainLength > MAXIMUM {
        buffer := [];
        return Broken;
      }
      var total := HEADER + CeilBlocks(plainLength);
      if |buffer| < total {
        return Incomplete;
      }
      var raw := buffer[..total];
      buffer := buffer[total..];
      var decoded := DecryptBusinessPacket(primitives, sharedKey, raw);
      if decoded.Plain? && decoded.bytes != [] {
        responses := responses + [decoded.bytes];
      }
      f := Taken;
    }

    /** One notification. An illegal length drops the buffer and reports an error; the
        packets decoded before it stay in the queue. */
    method PushNotification(data: seq<Byte>) returns (ok: bool)
      requires Valid()
      modifies this`buffer, this`responses
      ensures Valid()
      ensures data == [] || !encrypted ==> ok && buffer == old(buffer) && responses == old(responses)
      ensures data != [] && encrypted ==>
        var d := Drain(primitives, sharedKey, old(buffer) + data);
        ok == d.ok && buffer == d.rest && responses == old(responses) + d.responses
    {
      hide Drain, Decodes, Waiting, Illegal, TotalLength, LengthField;
      if data == [] || !encrypted {
        return true;
      }
      buffer := buffer + data;
      ghost var all := Drain(primitives, sharedKey, buffer);
      ghost var got: seq<seq<Byte>> := [];
      var f := Taken;
      while f == Taken
        invariant primitives.Lawful() && responses == old(responses) + got
        invariant f == Taken ==>
          var d := Drain(primitives, sharedKey, buffer);
          all == Drained(got + d.responses, d.rest, d.ok)
        invariant f == Incomplete ==> Waiting(buffer) && all == Drained(got, buffer, true)
        invariant f == Broken ==> buffer == [] && all == Drained(got, [], false)
        decreases |buffer|, f == Taken
      {
        ghost var before, got0 := buffer, got;
        DrainStops(primitives, sharedKey, before);
        f := TakePacket();
        if f == Taken {
          TakenShortens(before);
          DrainNext(primitives, sharedKey, before);
          got := got0 + Decodes(primitives, sharedKey, before[..TotalLength(LengthField(before))]);
        }
      }
      NothingWaits();
      ok := f == Incomplete;
    }

    method PopResponse() returns (r: Option<seq<Byte>>)
      modifies this`responses
      ensures old(responses) == [] ==> r == None && responses == []
      ensures old(responses) != [] ==> r == Some(old(responses)[0]) && responses == old(responses)[1..]
    {
      if responses == [] {
        return None;
      }
      r := Some(responses[0]);
      responses := responses[1..];
    }
  }

  datatype Option<T> = None | Some(value: T)

  // ---------------------------------------------------------------------------
  // Chunking
  // ---------------------------------------------------------------------------

  /** Draining in two goes, the second with what the first left over. */
  lemma {:induction false} DrainInTwo(p: Primitives, key: seq<Byte>, x: seq<Byte>, y: seq<Byte>)
    requires p.Lawful()
    ensures var d := Drain(p, key, x);
            Drain(p, key, x + y) ==
              if d.ok then
                var d2 := Drain(p, key, d.rest + y);
                d2.(responses := d.responses + d2.responses)
              else d
    decreases |x|
  {
    hide Decodes, Drain, Waiting, Illegal, CeilBlocks, Length;
    DrainStops(p, key, x);
    if Waiting(x) {
      var d2 := Drain(p, key, x + y);
      assert d2.(responses := [] + d2.responses) == d2;
    } else if Illegal(x) {
      IllegalStays(x, y);
      DrainStops(p, key, x + y);
    } else {
      CompleteStays(x, y);
      var n := TotalLength(LengthField(x));
      DrainNext(p, key, x);
      DrainNext(p, key, x + y);
      DrainInTwo(p, key, x[n..], y);
      assert (x + y)[..n] == x[..n] && (x + y)[n..] == x[n..] + y;
      var first, d := Decodes(p, key, x[..n]), Drain(p, key, x[n..]);
      var d2 := Drain(p, key, d.rest + y);
      assert first + (d.responses + d2.responses) == first + d.responses + d2.responses;
    }
  }

  lemma IllegalStays(x: seq<Byte>, y: seq<Byte>)
    requires Illegal(x)
    ensures Illegal(x + y)
  {
  }

  lemma CompleteStays(x: seq<Byte>, y: seq<Byte>)
    requires !Waiting(x) && !Illegal(x)
    ensures !Waiting(x + y) && !Illegal(x + y) && LengthField(x + y) == LengthField(x)
    ensures TotalLength(LengthField(x)) <= |x|
  {
  }

  /** The assembler's state as a value, and what a notification does to it. */
  datatype State = State(responses: seq<seq<Byte>>, buffer: seq<Byte>)

  function Push(p: Primitives, key: seq<Byte>, s: State, data: seq<Byte>): State
    requires p.Lawful()
  {
    if data == [] then s
    else var d := Drain(p, key, s.buffer + data); State(s.responses + d.responses, d.rest)
  }

  /** No packet in the buffer begins with an illegal length. */
  predicate LengthsLegal(b: seq<Byte>)
    decreases |b|
  {
    Waiting(b) || (!Illegal(b) && LengthsLegal(b[TotalLength(LengthField(b))..]))
  }

  lemma {:induction false} SoundIffLegal(p: Primitives, key: seq<Byte>, b: seq<Byte>)
    requires p.Lawful()
    ensures Drain(p, key, b).ok <==> LengthsLegal(b)
    decreases |b|
  {
    hide Decodes;
    if !Waiting(b) && !Illegal(b) {
      SoundIffLegal(p, key, b[TotalLength(LengthField(b))..]);
    }
  }

  /** A whole packet always decodes to a message. */
  lemma WholeDecodes(p: Primitives, key: seq<Byte>, b: seq<Byte>)
    requires p.Lawful() && !Waiting(b) && !Illegal(b)
    ensures |Decodes(p, key, b[..TotalLength(LengthField(b))])| == 1
  {
    hide Decrypt;
  }

  /** Nothing comes of a buffer only if there is nothing in it, or it is dropped at once. */
  lemma NothingComesIff(p: Primitives, key: seq<Byte>, b: seq<Byte>)
    requires p.Lawful()
    ensures Drain(p, key, b).responses == [] && Drain(p, key, b).rest == [] <==> b == [] || Illegal(b)
  {
    hide Decodes;
    DrainStops(p, key, b);
    if !Waiting(b) && !Illegal(b) {
      DrainNext(p, key, b);
      WholeDecodes(p, key, b);
    }
  }

  lemma SplitDrains(p: Primitives, key: seq<Byte>, s: State, a: seq<Byte>, b: seq<Byte>)
    requires p.Lawful() && Waiting(s.buffer)
    ensures Push(p, key, Push(p, key, s, a), b) == Push(p, key, s, a + b) <==>
      Drain(p, key, s.buffer + a).ok || (Drain(p, key, b).responses == [] && Drain(p, key, b).rest == [])
  {
    hide Drain, Waiting;
    DrainStops(p, key, s.buffer);
    if a == [] {
      assert s.buffer + a == s.buffer && a + b == b;
    } else if b == [] {
      assert a + b == a;
      NothingWaits();
      DrainStops(p, key, b);
    } else {
      DrainInTwo(p, key, s.buffer + a, b);
      assert s.buffer + (a + b) == s.buffer + a + b;
      var d := Drain(p, key, s.buffer + a);
      var e := Drain(p, key, d.rest + b);
      assert s.responses + (d.responses + e.responses) == s.responses + d.responses + e.responses;
      if !d.ok {
        BrokenIsEmpty(p, key, s.buffer + a);
        assert d.rest + b == b;
        var r := s.responses + d.responses;
        assert r + e.responses == r <==> e.responses == [] by {
          assert |r + e.responses| == |r| + |e.responses|;
        }
      }
    }
  }

  /** Splitting a notification makes no difference, unless there is an illegal length in what
      has arrived before the split and the second part brings something. */
  lemma SplitPush(p: Primitives, key: seq<Byte>, s: State, a: seq<Byte>, b: seq<Byte>)
    requires p.Lawful() && Waiting(s.buffer)
    ensures Push(p, key, Push(p, key, s, a), b) == Push(p, key, s, a + b) <==>
      LengthsLegal(s.buffer + a) || b == [] || Illegal(b)
  {
    hide Drain, Waiting, Illegal, Push, LengthsLegal;
    SplitDrains(p, key, s, a, b);
    SoundIffLegal(p, key, s.buffer + a);
    NothingComesIff(p, key, b);
  }

  /** Such a split: the zero length is dropped with all that came in the same notification, so
      a byte is kept exactly if it comes in one of its own. */
  lemma SplitMatters(p: Primitives, key: seq<Byte>, x: Byte)
    requires p.Lawful()
    ensures var s, a, b := State([], []), Zeros(HEADER), [x];
            && Push(p, key, Push(p, key, s, a), b) == State([], [x])
            && Push(p, key, s, a + b) == State([], [])
  {
    hide Drain;
    var a := Zeros(HEADER);
    assert [] + a == a && [] + (a + [x]) == a + [x] && [] + [x] == [x];
    DrainStops(p, key, a);
    DrainStops(p, key, a + [x]);
    DrainStops(p, key, [x]);
  }

  lemma {:induction false} BrokenIsEmpty(p: Primitives, key: seq<Byte>, b: seq<Byte>)
    requires p.Lawful()
    ensures !Drain(p, key, b).ok ==> Drain(p, key, b).rest == []
    ensures Waiting(Drain(p, key, b).rest)
    decreases |b|
  {
    hide Decodes;
    if !Waiting(b) && !Illegal(b) {
      BrokenIsEmpty(p, key, b[TotalLength(LengthField(b))..]);
    }
  }

  // ---------------------------------------------------------------------------
  // Well-formed streams
  // ---------------------------------------------------------------------------

  /** A message as the device sends it, padded with any bytes to whole blocks. */
  datatype Sending = Sending(plain: seq<Byte>, nonce: seq<Byte>, fill: seq<Byte>) {
    predicate Legal() {
      0 < |plain| <= MAXIMUM && |nonce| == 4 && |plain| + |fill| == CeilBlocks(|plain|)
    }
  }

  predicate AllLegal(m: seq<Sending>) { forall i :: 0 <= i < |m| ==> m[i].Legal() }

  function Air(p: Primitives, key: seq<Byte>, m: Sending): (r: seq<Byte>)
    requires p.Lawful() && m.Legal()
    ensures |r| == TotalLength(|m.plain|)
  {
    Packet(p, key, m.plain, m.nonce, m.fill)
  }

  function Stream(p: Primitives, key: seq<Byte>, m: seq<Sending>): seq<Byte>
    requires p.Lawful() && AllLegal(m)
  {
    if m == [] then [] else Air(p, key, m[0]) + Stream(p, key, m[1..])
  }

  /** How many of the messages are complete in the first `n` bytes of the stream. */
  function Complete(m: seq<Sending>, n: nat): (j: nat)
    ensures j <= |m|
  {
    if m == [] || n < TotalLength(|m[0].plain|) then 0
    else 1 + Complete(m[1..], n - TotalLength(|m[0].plain|))
  }

  /** Where the first `j` messages end in the stream. */
  function EndOf(m: seq<Sending>, j: nat): nat
    requires j <= |m|
  {
    if j == 0 then 0 else TotalLength(|m[0].plain|) + EndOf(m[1..], j - 1)
  }

  function Plains(m: seq<Sending>, j: nat): seq<seq<Byte>>
    requires j <= |m|
  {
    if j == 0 then [] else [m[0].plain] + Plains(m[1..], j - 1)
  }

  lemma {:induction false} CompleteFits(m: seq<Sending>, n: nat)
    ensures EndOf(m, Complete(m, n)) <= n
    ensures Complete(m, n) < |m| ==> n < EndOf(m, Complete(m, n) + 1)
  {
    if m == [] {
    } else if n < TotalLength(|m[0].plain|) {
      assert EndOf(m, 1) == TotalLength(|m[0].plain|) + EndOf(m[1..], 0);
    } else {
      CompleteFits(m[1..], n - TotalLength(|m[0].plain|));
    }
  }

  lemma AirHeader(p: Primitives, key: seq<Byte>, m: Sending)
    requires p.Lawful() && m.Legal()
    ensures HasLength(Air(p, key, m)) && LengthField(Air(p, key, m)) == |m.plain|
    ensures Air(p, key, m)[..2] == LengthBytes(|m.plain|)
  {
    hide Encrypt, LengthBytes;
    LengthRoundTrip(|m.plain|);
  }

  /** A whole message at the front of a buffer is decoded. */
  lemma FrontDecoded(p: Primitives, key: seq<Byte>, m: Sending, tail: seq<Byte>)
    requires p.Lawful() && m.Legal()
    ensures var d := Drain(p, key, tail);
            Drain(p, key, Air(p, key, m) + tail) == d.(responses := [m.plain] + d.responses)
  {
    hide Drain, Packet, CeilBlocks, DecryptBusinessPacket, Length;
    var air := Air(p, key, m);
    var b := air + tail;
    AirHeader(p, key, m);
    assert b[0] == air[0] && b[1] == air[1];
    assert LengthField(b) == |m.plain|;
    assert b[..|air|] == air && b[|air|..] == tail;
    PacketDecodes(p, key, m.plain, m.nonce, m.fill);
    assert air[..|air|] == air;
    DrainNext(p, key, b);
  }

  /** Part of a message waits. */
  lemma PartWaits(p: Primitives, key: seq<Byte>, m: Sending, part: seq<Byte>)
    requires p.Lawful() && m.Legal() && part <= Air(p, key, m) && |part| < |Air(p, key, m)|
    ensures Waiting(part)
  {
    hide Packet, CeilBlocks, Length;
    AirHeader(p, key, m);
  }

  /** However much of the stream has arrived: exactly the complete messages are decoded,
      in order, and exactly the unfinished tail is kept. */
  lemma {:induction false} PrefixDrained(p: Primitives, key: seq<Byte>, m: seq<Sending>, q: seq<Byte>)
    requires p.Lawful() && AllLegal(m) && q <= Stream(p, key, m)
    ensures var j := Complete(m, |q|);
            && EndOf(m, j) <= |q|
            && Drain(p, key, q) == Drained(Plains(m, j), q[EndOf(m, j)..], true)
    decreases |m|
  {
    hide Drain, Packet, Waiting, TotalLength, Air;
    if m == [] {
      NothingWaits();
      DrainStops(p, key, q);
    } else {
      var air := Air(p, key, m[0]);
      if |q| < |air| {
        assert q <= air;
        PartWaits(p, key, m[0], q);
        DrainStops(p, key, q);
        assert q[0..] == q;
      } else {
        var q' := q[|air|..];
        assert Stream(p, key, m)[|air|..] == Stream(p, key, m[1..]);
        assert q == air + q';
        assert q' <= Stream(p, key, m[1..]);
        PrefixDrained(p, key, m[1..], q');
        FrontDecoded(p, key, m[0], q');
        var j := Complete(m[1..], |q'|);
        assert q'[EndOf(m[1..], j)..] == q[|air| + EndOf(m[1..], j)..];
      }
    }
  }

  /** Notifications received so far, latest outermost. */
  datatype Chunks = Nothing | Then(before: Chunks, data: seq<Byte>)

  function Bytes(c: Chunks): seq<Byte> {
    if c.Nothing? then [] else Bytes(c.before) + c.data
  }

  function After(p: Primitives, key: seq<Byte>, c: Chunks): State
    requires p.Lawful()
  {
    if c.Nothing? then State([], []) else Push(p, key, After(p, key, c.before), c.data)
  }

  /** Reassembly does not depend on the chunking: after every notification the queue
      holds exactly the messages received in full, the buffer exactly the rest. */
  lemma {:induction false} AnyChunking(p: Primitives, key: seq<Byte>, m: seq<Sending>, c: Chunks)
    requires p.Lawful() && AllLegal(m) && Bytes(c) <= Stream(p, key, m)
    ensures var q := Bytes(c); var j := Complete(m, |q|);
            && EndOf(m, j) <= |q|
            && After(p, key, c) == State(Plains(m, j), q[EndOf(m, j)..])
  {
    hide Drain, Waiting, Stream;
    var q := Bytes(c);
    PrefixDrained(p, key, m, q);
    if c.Then? {
      var q0 := Bytes(c.before);
      assert q0 <= q;
      AnyChunking(p, key, m, c.before);
      PrefixDrained(p, key, m, q0);
      DrainInTwo(p, key, q0, c.data);
      if c.data == [] {
        assert q == q0;
      }
    } else {
      CompleteFits(m, 0);
      PositiveEnd(m);
    }
  }

  lemma PositiveEnd(m: seq<Sending>)
    ensures Complete(m, 0) == 0
  {
  }

  // ---------------------------------------------------------------------------
  // The client's own packets
  // ---------------------------------------------------------------------------

  /** The client's packets are consumed whole by the same rule exactly if the message is
      not a whole number of blocks; otherwise the spare padding block is left behind. */
  lemma OwnPacketConsumed(p: Primitives, key: seq<Byte>, plain: seq<Byte>, nonce: seq<Byte>)
    requires p.Lawful() && |nonce| == 4 && 0 < |plain| <= MAXIMUM
    ensures Drain(p, key, EncryptBusinessPacket(p, key, plain, nonce)) == Drained([plain], [], true)
      <==> |plain| % SIZE != 0
  {
    hide Drain, Encrypt, DecryptBusinessPacket, Length, LengthBytes, Waiting, Illegal;
    var air := EncryptBusinessPacket(p, key, plain, nonce);
    var n := TotalLength(|plain|);
    OwnHeader(p, key, plain, nonce);
    PacketDecodes(p, key, plain, nonce, Zeros(SIZE - |plain| % SIZE));
    OwnComplete(air, |plain|);
    DrainNext(p, key, air);
    if |plain| % SIZE != 0 {
      assert air[n..] == [] && air[..n] == air;
      NothingWaits();
      DrainStops(p, key, []);
      assert [plain] + [] == [plain];
    } else {
      assert |air[n..]| == SIZE;
      SpareBlock(p, key, air[n..]);
      assert |[plain] + Drain(p, key, air[n..]).responses| >= 1;
    }
  }

  lemma OwnHeader(p: Primitives, key: seq<Byte>, plain: seq<Byte>, nonce: seq<Byte>)
    requires p.Lawful() && |nonce| == 4 && 0 < |plain| <= MAXIMUM
    ensures var air := EncryptBusinessPacket(p, key, plain, nonce);
            && HasLength(air) && LengthField(air) == |plain|
            && |air| == HEADER + |plain| + SIZE - |plain| % SIZE
  {
    hide Encrypt, LengthBytes;
    LengthRoundTrip(|plain|);
  }

  lemma OwnComplete(air: seq<Byte>, n: nat)
    requires HasLength(air) && LengthField(air) == n && 0 < n <= MAXIMUM && TotalLength(n) <= |air|
    ensures !Waiting(air) && !Illegal(air)
  {
  }

  /** A left-over block is never a packet: it waits, or its bytes are an illegal length. */
  lemma SpareBlock(p: Primitives, key: seq<Byte>, b: seq<Byte>)
    requires p.Lawful() && |b| == SIZE
    ensures Drain(p, key, b).responses == []
    ensures Drain(p, key, b).rest == b || !Drain(p, key, b).ok
  {
    DrainStops(p, key, b);
  }
}
