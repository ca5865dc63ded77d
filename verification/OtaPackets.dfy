/** The firmware packets of the OTA transfer. */
module OtaPackets {
  import opened Crc16

  const BLOCK := 1024
  const PACKET := 1029
  const STX: Byte := 0x02
  const ETX: Byte := 0x03
  const EOT: Byte := 0x04
  const ACK: Byte := 0x06
  const NAK: Byte := 0x15
  const CAN: Byte := 0x18
  const READY: Byte := 0x43
  const PAD: Byte := 0x1A

  datatype Option<T> = None | Some(value: T)

  function PacketCount(fileLen: nat): nat {
    (fileLen + 1023) / 1024
  }

  /** Block `k` of the image, filled up with 0x1A past its end. */
  function Block(firmware: seq<Byte>, k: nat): (b: seq<Byte>)
    ensures |b| == BLOCK
  {
    seq(BLOCK, j requires 0 <= j < BLOCK =>
      if BLOCK * k + j < |firmware| then firmware[BLOCK * k + j] else PAD)
  }

  /** The first `n` blocks, one after the other. */
  function Blocks(firmware: seq<Byte>, n: nat): (b: seq<Byte>)
    ensures |b| == BLOCK * n
  {
    if n == 0 then [] else Blocks(firmware, n - 1) + Block(firmware, n - 1)
  }

  function SeqByte(k: nat): Byte { (k % 256) as Byte }

  function Packet(firmware: seq<Byte>, k: nat): (p: seq<Byte>)
    ensures |p| == PACKET
  {
    var block := Block(firmware, k);
    [STX, SeqByte(k + 1), 0xFF - SeqByte(k + 1)] + block + Trailer(Xmodem, Crc(Xmodem, block))
  }

  /** What arrives in full: the image, then nothing but 0x1A up to the next block. */
  lemma {:induction false} BlocksAre(firmware: seq<Byte>, n: nat)
    ensures forall i :: 0 <= i < BLOCK * n ==>
      Blocks(firmware, n)[i] == if i < |firmware| then firmware[i] else PAD
  {
    if n != 0 {
      BlocksAre(firmware, n - 1);
      forall i | BLOCK * (n - 1) <= i < BLOCK * n
        ensures Blocks(firmware, n)[i] == if i < |firmware| then firmware[i] else PAD
      {
        assert Blocks(firmware, n)[i] == Block(firmware, n - 1)[i - BLOCK * (n - 1)];
      }
    }
  }

  /** The whole transfer holds the image as its prefix and fewer than 1024 pad bytes. */
  lemma TransferHoldsImage(firmware: seq<Byte>)
    ensures var all := Blocks(firmware, PacketCount(|firmware|));
            && |firmware| <= |all| < |firmware| + BLOCK
            && all[..|firmware|] == firmware
            && forall i :: |firmware| <= i < |all| ==> all[i] == PAD
  {
    BlocksAre(firmware, PacketCount(|firmware|));
  }

  /** Copies block `packetIndex` over the pad bytes between header and CRC. */
  method CopyBlock(packet: array<Byte>, firmware: seq<Byte>, packetIndex: nat)
    requires packet.Length == PACKET
    requires forall j :: 3 <= j < 3 + BLOCK ==> packet[j] == PAD
    modifies packet
    ensures packet[3..3 + BLOCK] == Block(firmware, packetIndex)
    ensures forall j :: 0 <= j < 3 || 3 + BLOCK <= j < PACKET ==> packet[j] == old(packet[j])
  {
    var offset := packetIndex * BLOCK;
    if offset < |firmware| {
      var copy := if |firmware| - offset < BLOCK then |firmware| - offset else BLOCK;
      forall j | 0 <= j < copy {
        packet[3 + j] := firmware[offset + j];
      }
    }
  }

  /** Fills a buffer of pad bytes with header, data and CRC. */
  method BuildXmodem1kPacket(firmware: seq<Byte>, packetIndex: nat) returns (packet: array<Byte>)
    ensures fresh(packet) && packet[..] == Packet(firmware, packetIndex)
  {
    hide Crc, High, Low, SeqByte, Block;
    packet := new Byte[PACKET](_ => PAD);
    packet[0] := STX;
    packet[1] := SeqByte(packetIndex + 1);
    packet[2] := 0xFF - SeqByte(packetIndex + 1);
    CopyBlock(packet, firmware, packetIndex);
    ghost var block := packet[3..3 + BLOCK];
    var crc := Compute(Xmodem, packet[3..3 + BLOCK]);
    packet[3 + BLOCK] := High(crc);
    packet[3 + BLOCK + 1] := Low(crc);
    assert packet[3..3 + BLOCK] == block;
    assert packet[..] == packet[..3] + packet[3..3 + BLOCK] + packet[3 + BLOCK..];
    assert packet[..3] == [STX, SeqByte(packetIndex + 1), 0xFF - SeqByte(packetIndex + 1)];
    assert packet[3 + BLOCK..] == Trailer(Xmodem, crc);
  }

  lemma PacketParts(firmware: seq<Byte>, k: nat)
    ensures var p := Packet(firmware, k);
            && p[0] == STX && p[1] == SeqByte(k + 1) && p[2] == 0xFF - p[1]
            && p[3..3 + BLOCK] == Block(firmware, k)
            && p[3 + BLOCK..] == Trailer(Xmodem, Crc(Xmodem, p[3..3 + BLOCK]))
  {
    hide Crc, Trailer, Block;
    var block := Block(firmware, k);
    var t := Trailer(Xmodem, Crc(Xmodem, block));
    assert Packet(firmware, k)[3..3 + BLOCK] == block;
    assert Packet(firmware, k)[3 + BLOCK..] == t;
  }

  lemma NeighboursDiffer(k: nat)
    ensures SeqByte(k) != SeqByte(k + 1)
  {
    if k % 256 == 255 {
      assert (k + 1) % 256 == 0;
    } else {
      assert (k + 1) % 256 == k % 256 + 1;
    }
  }
}
