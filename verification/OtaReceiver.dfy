/** The device's end of the firmware transfer: the XMODEM client of the communication
    module, as a function on values and as the object it is. It is stricter than the
    XMODEM protocol: a packet it already has is not acknowledged again. */
module OtaReceiver {
  import opened Crc16
  import opened OtaPackets

  const SOH: Byte := 0x01
  const SMALL := 133
  const BUFFER := 4096

  /** No transfer, a transfer under way, or one that was accepted as complete. */
  datatype Mode = Idle | Receiving | Finished

  /** `started` once anything has arrived, `count` blocks stored, `reply` the control byte
      with which the last frame was answered. */
  datatype Receiver = Receiver(mode: Mode, started: bool, count: nat, stored: seq<Byte>, reply: Option<Byte>)

  const POWER_ON := Receiver(Idle, false, 0, [], None)

  /** No frame arrives: until the first one does, the client keeps calling for it. (Later it
      complains with NAK from time to time.) */
  function Silence(r: Receiver): Receiver {
    r.(reply := if r.mode == Receiving && !r.started then Some(READY) else None)
  }

  /** A start request; it is ignored while a transfer is under way. `ok` is false if the device
      refuses, for one because it is still passing on the last image. */
  function Admit(r: Receiver, ok: bool): Receiver {
    if r.mode == Receiving then Silence(r)
    else if ok then Receiver(Receiving, false, 0, [], Some(READY))
    else r.(reply := None)
  }

  predicate Consistent(p: seq<Byte>)
    requires |p| >= 5
  {
    p[2] == 0xFF - p[1] && p[|p| - 2..] == Trailer(Xmodem, Crc(Xmodem, p[3..|p| - 2]))
  }

  /** The data fit into the buffer, which goes to flash only when it is exactly full. */
  predicate Fits(stored: seq<Byte>, n: nat) {
    |stored| % BUFFER + n <= BUFFER
  }

  /** A data packet of either size: stored if it is intact, the next one and fits, refused
      otherwise, even if it is the one just stored. */
  function Unpack(r: Receiver, p: seq<Byte>): Receiver
    requires |p| == PACKET || |p| == SMALL
  {
    if Consistent(p) && p[1] == SeqByte(r.count + 1) && Fits(r.stored, |p| - 5)
    then r.(count := r.count + 1, stored := r.stored + p[3..|p| - 2], reply := Some(ACK))
    else r.(reply := Some(NAK))
  }

  /** Nothing but 1024-byte blocks has been stored. */
  predicate Whole(r: Receiver) {
    |r.stored| % BLOCK == 0
  }

  lemma WholeFits(r: Receiver)
    requires Whole(r)
    ensures Fits(r.stored, BLOCK)
  {
  }

  /** Any frame. `ok` is false if the client gives up on it: flash cannot be written, the
      finished image does not pass its check, or there were too many errors before. */
  function Take(r: Receiver, p: seq<Byte>, ok: bool): Receiver
    requires p != []
  {
    if r.mode == Idle then r.(reply := None)
    else if r.mode == Finished then r.(reply := if ok then None else Some(CAN))
    else if !ok then r.(mode := Idle, started := true, reply := Some(CAN))
    else
      var r := r.(started := true);
      if p[0] == SOH then if |p| == SMALL then Unpack(r, p) else r.(reply := Some(NAK))
      else if p[0] == STX then if |p| == PACKET then Unpack(r, p) else r.(reply := Some(NAK))
      else if p == [ETX] then r.(mode := Idle, reply := Some(ACK))
      else if p == [EOT] then r.(mode := Finished, reply := Some(ACK))
      else r.(reply := None)
  }

  // ---------------------------------------------------------------------------
  // Packets on a disturbed channel
  // ---------------------------------------------------------------------------

  /** `got` is `sent` with a burst of at most 16 wrong bits, anywhere. */
  ghost predicate DamagedBy(sent: seq<Byte>, got: seq<Byte>, burst: nat) {
    |sent| == |got| == PACKET && sent != got && DifferWithin16(Xmodem, sent, got, burst)
  }

  /** The damage turns the number into another one, complement and all. */
  predicate Renumbers(sent: seq<Byte>, got: seq<Byte>)
    requires |sent| == |got| == PACKET
  {
    got[0] == STX && got[1] != sent[1] && got[2] == 0xFF - got[1] && got[3..] == sent[3..]
  }

  lemma CheckedByResidue(p: seq<Byte>)
    requires |p| >= 5
    ensures p[|p| - 2..] == Trailer(Xmodem, Crc(Xmodem, p[3..|p| - 2])) <==> Crc(Xmodem, p[3..]) == 0
  {
    hide Crc, Trailer;
    var data, crc := p[3..|p| - 2], p[|p| - 2..];
    assert p[3..] == data + crc;
    MessageResidue(Xmodem, data, crc);
  }

  /** A 128-byte packet is stored exactly if number, complement and CRC are right and the buffer
      has room for it, and answered with NAK otherwise. */
  lemma SmallStored(r: Receiver, p: seq<Byte>)
    requires r.mode == Receiving && |p| == 133 && p[0] == 0x01
    ensures Take(r, p, true) ==
      if p[1] == SeqByte(r.count + 1) && p[2] == 0xFF - p[1] && Crc(Xmodem, p[3..]) == 0
         && |r.stored| % 4096 + 128 <= 4096
      then Receiver(Receiving, true, r.count + 1, r.stored + p[3..131], Some(ACK))
      else r.(started := true, reply := Some(NAK))
  {
    hide Crc, Trailer, SeqByte;
    CheckedByResidue(p);
  }

  /** Damage behind the header is always noticed. */
  lemma DataDamageShows(sent: seq<Byte>, got: seq<Byte>, burst: nat)
    requires DamagedBy(sent, got, burst) && Consistent(sent) && got[3..] != sent[3..]
    ensures !Consistent(got)
  {
    hide Crc, Trailer, Bits;
    CheckedByResidue(sent);
    CheckedByResidue(got);
    BurstInSuffix(Xmodem, sent, got, burst, 3);
    BurstDetected(Xmodem, sent[3..], got[3..], if burst < 24 then 0 else burst - 24);
  }

  /** An intact packet is stored exactly if it carries the awaited number. */
  lemma IntactStored(r: Receiver, firmware: seq<Byte>, k: nat)
    requires r.mode == Receiving && Whole(r)
    ensures var p := Packet(firmware, k);
            Take(r, p, true) ==
              if SeqByte(k + 1) == SeqByte(r.count + 1)
              then Receiver(Receiving, true, r.count + 1, r.stored + Block(firmware, k), Some(ACK))
              else r.(started := true, reply := Some(NAK))
  {
    hide Packet, SeqByte, Block;
    WholeFits(r);
    PacketParts(firmware, k);
    hide Crc, Trailer, Fits;
  }

  lemma HeaderDiffers(sent: seq<Byte>, got: seq<Byte>)
    requires |sent| == |got| == PACKET && sent != got && sent[3..] == got[3..]
    ensures got[0] != sent[0] || got[1] != sent[1] || got[2] != sent[2]
  {
    assert sent == [sent[0], sent[1], sent[2]] + sent[3..];
    assert got == [got[0], got[1], got[2]] + got[3..];
  }

  /** A damaged packet is acknowledged exactly if the damage gave it the awaited number;
      otherwise nothing is stored. */
  lemma DamagedStored(r: Receiver, sent: seq<Byte>, got: seq<Byte>, burst: nat)
    requires r.mode == Receiving && Whole(r)
    requires DamagedBy(sent, got, burst) && Consistent(sent) && sent[0] == STX
    ensures var r' := Take(r, got, true);
            if Renumbers(sent, got) && got[1] == SeqByte(r.count + 1)
            then r' == Receiver(Receiving, true, r.count + 1, r.stored + sent[3..3 + BLOCK], Some(ACK))
            else r' == r.(started := true, reply := Some(NAK)) || r' == r.(started := true, reply := None)
  {
    hide SeqByte;
    WholeFits(r);
    hide Fits;
    if got[3..] != sent[3..] {
      DataDamageShows(sent, got, burst);
      hide Consistent, DifferWithin16;
    } else {
      hide Crc, Trailer, DifferWithin16;
      assert forall i :: 3 <= i < PACKET ==> got[i] == got[3..][i - 3] && sent[i] == sent[3..][i - 3];
      assert got[3..3 + BLOCK] == sent[3..3 + BLOCK] && got[3 + BLOCK..] == sent[3 + BLOCK..];
      HeaderDiffers(sent, got);
    }
  }

  lemma PacketConsistent(firmware: seq<Byte>, k: nat)
    ensures var p := Packet(firmware, k);
            Consistent(p) && p[0] == STX && p[1] == SeqByte(k + 1) && p[3..3 + BLOCK] == Block(firmware, k)
  {
    hide Packet, SeqByte, Block, Crc, Trailer;
    PacketParts(firmware, k);
  }

  /** Any other number is one burst of 16 bits away: the number and its complement are
      neighbours. */
  lemma RenumberedByBurst(sent: seq<Byte>, number: Byte)
    requires |sent| == PACKET && sent[0] == STX && number != sent[1]
    ensures var got := sent[1 := number][2 := 0xFF - number];
            DamagedBy(sent, got, 8) && Renumbers(sent, got)
  {
    hide Bits;
    var got := sent[1 := number][2 := 0xFF - number];
    AdjacentBytes(Xmodem, sent, got, 1);
    hide DifferWithin16;
    assert got[3..] == sent[3..];
    assert got[1] != sent[1];
  }

  /** The packet with the number of the one after it. */
  function Renumbered(firmware: seq<Byte>, k: nat): seq<Byte> {
    Packet(firmware, k)[1 := SeqByte(k + 2)][2 := 0xFF - SeqByte(k + 2)]
  }

  /** A device that has the packet already then stores it again as the next one. */
  lemma RenumberedTaken(r: Receiver, firmware: seq<Byte>, k: nat)
    requires r.mode == Receiving && r.count == k + 1 && Whole(r)
    ensures DamagedBy(Packet(firmware, k), Renumbered(firmware, k), 8)
    ensures Renumbers(Packet(firmware, k), Renumbered(firmware, k))
    ensures Take(r, Renumbered(firmware, k), true)
         == Receiver(Receiving, true, k + 2, r.stored + Block(firmware, k), Some(ACK))
  {
    hide Packet, SeqByte, Block, Consistent, DamagedBy, Take;
    PacketConsistent(firmware, k);
    NeighboursDiffer(k + 1);
    RenumberedByBurst(Packet(firmware, k), SeqByte(k + 2));
    DamagedStored(r, Packet(firmware, k), Renumbered(firmware, k), 8);
  }
}
