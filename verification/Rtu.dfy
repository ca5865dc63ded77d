/** Modbus RTU frames: reading holding registers, over the CRC of module Crc16. */
module Rtu {
  import opened Crc16

  function Bytes16(w: bv16): seq<Byte> { [High(w), Low(w)] }

  function Word(hi: Byte, lo: Byte): bv16 { ((hi as bv16) << 8) | (lo as bv16) }

  function AppendCrc(frame: seq<Byte>): seq<Byte> {
    frame + Trailer(Modbus, Crc(Modbus, frame))
  }

  predicate VerifyCrc(frame: seq<Byte>) {
    && |frame| >= 3
    && var n := |frame| - 2;
       Crc(Modbus, frame[..n]) == Word(frame[n + 1], frame[n])
  }

  function BuildReadHolding(slaveId: Byte, start: bv16, count: bv16): seq<Byte> {
    AppendCrc([slaveId, 3] + Bytes16(start) + Bytes16(count))
  }

  lemma WordHalves(w: bv16)
    ensures Word(High(w), Low(w)) == w
  {
  }

  lemma HighOfWord(hi: Byte, lo: Byte)
    ensures High(Word(hi, lo)) == hi
  {
  }

  lemma LowOfWord(hi: Byte, lo: Byte)
    ensures Low(Word(hi, lo)) == lo
  {
  }

  /** The check of the last two bytes is the check that the whole frame's CRC is 0. */
  lemma VerifyIsResidue(frame: seq<Byte>)
    ensures VerifyCrc(frame) <==> |frame| >= 3 && Crc(Modbus, frame) == 0
  {
    hide Crc, Low, High, Word;
    if |frame| >= 3 {
      var n := |frame| - 2;
      var body, t := frame[..n], [frame[n], frame[n + 1]];
      assert frame == body + t;
      MessageResidue(Modbus, body, t);
      WordHalves(Crc(Modbus, body));
      HighOfWord(t[1], t[0]);
      LowOfWord(t[1], t[0]);
    }
  }

  /** Every frame the client builds passes the check. */
  lemma BuiltPasses(frame: seq<Byte>)
    requires frame != []
    ensures VerifyCrc(AppendCrc(frame))
  {
    hide Crc, Trailer, VerifyCrc;
    MessageResidue(Modbus, frame, Trailer(Modbus, Crc(Modbus, frame)));
    VerifyIsResidue(AppendCrc(frame));
  }

  /** So does every request built for reading. */
  lemma ReadRequestPasses(slaveId: Byte, start: bv16, count: bv16)
    ensures var f := BuildReadHolding(slaveId, start, count);
            && |f| == 8 && VerifyCrc(f)
            && f[0] == slaveId && f[1] == 3 && Word(f[2], f[3]) == start && Word(f[4], f[5]) == count
  {
    hide Crc, Trailer, VerifyCrc, High, Low, Word;
    var body := [slaveId, 3] + Bytes16(start) + Bytes16(count);
    BuiltPasses(body);
    WordHalves(start);
    WordHalves(count);
    assert BuildReadHolding(slaveId, start, count)[..6] == body;
  }

  /** No frame that passes can turn into another one by a burst of at most 16 bits. */
  lemma BurstRejected(frame: seq<Byte>, received: seq<Byte>, i: nat)
    requires VerifyCrc(frame) && received != frame && DifferWithin16(Modbus, frame, received, i)
    ensures !VerifyCrc(received)
  {
    hide Crc, VerifyCrc, Bits;
    VerifyIsResidue(frame);
    VerifyIsResidue(received);
    BurstDetected(Modbus, frame, received, i);
  }

  datatype Reply =
    | Registers(values: seq<bv16>)
    | Short
    | WrongSlave
    | Exception(code: Byte)
    | NotARead
    | LengthMismatch
    | CrcFailed

  /** The register words of a reply, big-endian from byte 3 on. */
  function WordsAt(response: seq<Byte>, count: nat): seq<bv16>
    requires |response| >= 3 + 2 * count
  {
    seq(count, i requires 0 <= i < count => Word(response[3 + 2 * i], response[3 + 2 * i + 1]))
  }

  /** Parsing a reply: exactly the frames that belong to the request, have room for the
      registers and a CRC of 0 as a whole are accepted (bytes after the registers are
      not ruled out), and their register words are returned in order. */
  method ParseReadHolding(response: seq<Byte>, slaveId: Byte, count: nat) returns (r: Reply)
    requires count <= 0xFFFF
    ensures r.Registers? <==>
      && |response| >= 5 + 2 * count
      && response[0] == slaveId && response[1] == 3 && response[2] as int == 2 * count
      && Crc(Modbus, response) == 0
    ensures r.Registers? ==> r.values == WordsAt(response, count)
    ensures r.Exception? ==> |response| >= 5 && r.code == response[2] && response[1] & 0x80 != 0
  {
    hide Crc, Word;
    if |response| < 5 {
      return Short;
    }
    if response[0] != slaveId {
      return WrongSlave;
    }
    if response[1] & 0x80 != 0 {
      return Exception(response[2]);
    }
    if response[1] != 3 {
      return NotARead;
    }
    var byteCount := response[2] as int;
    if byteCount != count * 2 || |response| < 3 + byteCount + 2 {
      return LengthMismatch;
    }
    VerifyIsResidue(response);
    if !VerifyCrc(response) {
      return CrcFailed;
    }
    var regs: seq<bv16> := [];
    for i := 0 to count
      invariant |regs| == i
      invariant forall k :: 0 <= k < i ==> regs[k] == WordsAt(response, count)[k]
    {
      regs := regs + [Word(response[3 + i * 2], response[4 + i * 2])];
    }
    r := Registers(regs);
  }

  /** Registers as they travel, high byte first. */
  function Payload(values: seq<bv16>): (bytes: seq<Byte>)
    ensures |bytes| == 2 * |values|
  {
    seq(2 * |values|, j requires 0 <= j < 2 * |values| =>
      if j % 2 == 0 then High(values[j / 2]) else Low(values[j / 2]))
  }

  lemma PayloadAt(values: seq<bv16>, i: nat)
    requires i < |values|
    ensures Payload(values)[2 * i] == High(values[i]) && Payload(values)[2 * i + 1] == Low(values[i])
  {
    assert (2 * i) / 2 == i && (2 * i) % 2 == 0 && (2 * i + 1) / 2 == i && (2 * i + 1) % 2 == 1;
  }

  /** The normal reply of function 03 (section 6.3 of the MODBUS Application Protocol V1.1b3). */
  function NormalReply(slaveId: Byte, values: seq<bv16>): seq<Byte>
    requires |values| <= 127
  {
    AppendCrc([slaveId, 3, (2 * |values|) as Byte] + Payload(values))
  }

  /** Parsing a normal reply returns its registers. */
  lemma ReplyRoundTrip(slaveId: Byte, values: seq<bv16>)
    requires |values| <= 127
    ensures var f := NormalReply(slaveId, values);
            && |f| == 5 + 2 * |values|
            && f[..3] == [slaveId, 3, (2 * |values|) as Byte]
            && Crc(Modbus, f) == 0
            && WordsAt(f, |values|) == values
  {
    hide Crc, Low, High, Trailer, Word, VerifyCrc, Payload, WordsAt, AppendCrc;
    var header := [slaveId, 3, (2 * |values|) as Byte];
    var body := header + Payload(values);
    var f := AppendCrc(body);
    BuiltPasses(body);
    VerifyIsResidue(f);
    ReplyLayout(header, values, f);
  }

  lemma ReplyLayout(header: seq<Byte>, values: seq<bv16>, f: seq<Byte>)
    requires |header| == 3 && f == AppendCrc(header + Payload(values))
    ensures |f| == 5 + 2 * |values| && f[..3] == header
    ensures WordsAt(f, |values|) == values
  {
    hide Crc, Low, High, Trailer, Word, Payload, AppendCrc;
    PayloadBehind(header, values, f);
  }

  /** The words of a frame behind its header. */
  lemma PayloadBehind(header: seq<Byte>, values: seq<bv16>, f: seq<Byte>)
    requires f == AppendCrc(header + Payload(values))
    ensures |f| == |header| + 2 * |values| + 2 && f[..|header|] == header
    ensures forall i :: 0 <= i < |values| ==> Word(f[|header| + 2 * i], f[|header| + 2 * i + 1]) == values[i]
  {
    hide Crc, Low, High, Trailer, Word, Payload;
    var n := |header|;
    forall i | 0 <= i < |values|
      ensures Word(f[n + 2 * i], f[n + 2 * i + 1]) == values[i]
    {
      assert f[n + 2 * i] == Payload(values)[2 * i];
      assert f[n + 2 * i + 1] == Payload(values)[2 * i + 1];
      PayloadAt(values, i);
      WordHalves(values[i]);
    }
  }

  /** The low 16 bits, and the low 8. */
  function Low16(n: nat): bv16 { (n % 0x1_0000) as bv16 }

  function Low8(n: nat): Byte { (n % 0x100) as Byte }

  /** Address, function, start and the two counts, cut to their widths. */
  function WriteHeader(slaveId: Byte, start: bv16, count: nat): (h: seq<Byte>)
    ensures |h| == 7 && h[..2] == [slaveId, 0x10] && h[2..4] == Bytes16(start)
    ensures h[4..6] == Bytes16(Low16(count)) && h[6] == Low8(2 * count)
  {
    hide Low16, Low8, High, Low;
    [slaveId, 0x10] + Bytes16(start) + Bytes16(Low16(count)) + [Low8(2 * count)]
  }

  /** Writing several registers (function 16). */
  function BuildWriteMultiple(slaveId: Byte, start: bv16, values: seq<bv16>): seq<Byte> {
    AppendCrc(WriteHeader(slaveId, start, |values|) + Payload(values))
  }

  /** It passes the check and carries start and registers, high bytes first, all of them even
      where a count is cut. */
  lemma WriteMultipleReads(slaveId: Byte, start: bv16, values: seq<bv16>)
    ensures var f := BuildWriteMultiple(slaveId, start, values);
            && |f| == 9 + 2 * |values| && VerifyCrc(f) && f[0] == slaveId && f[1] == 0x10
            && Word(f[2], f[3]) == start && Word(f[4], f[5]) == Low16(|values|)
            && f[6] == Low8(2 * |values|)
            && forall i :: 0 <= i < |values| ==> Word(f[7 + 2 * i], f[8 + 2 * i]) == values[i]
  {
    hide Crc, Low, High, Trailer, Word, Payload, VerifyCrc, AppendCrc, WriteHeader, Low8, Low16;
    var header := WriteHeader(slaveId, start, |values|);
    var f := BuildWriteMultiple(slaveId, start, values);
    BuiltPasses(header + Payload(values));
    PayloadBehind(header, values, f);
    WordHalves(start);
    WordHalves(Low16(|values|));
    assert forall i :: 0 <= i < 7 ==> f[i] == f[..7][i];
    assert header[0] == header[..2][0] && header[1] == header[..2][1];
    assert header[2] == header[2..4][0] && header[3] == header[2..4][1];
    assert header[4] == header[4..6][0] && header[5] == header[4..6][1];
  }
}
