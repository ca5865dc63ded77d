/** The XMODEM client of the communication module as the object it is: a session that
    collects blocks in a 4 KiB buffer and writes the full buffer to flash. */
module OtaClient {
  import opened Crc16
  import opened OtaPackets
  import opened OtaReceiver

  const MAX_RESEND := 20

  /** `exit` as left by the last frame: the session goes on, ends, or hands the finished image
      to the next stage. */
  datatype Exit = Stay | Leave | HandOver

  /** The errors counted after a frame: those since the last success, and none from before the
      first frame. */
  function Errors(started: bool, before: nat, reply: Option<Byte>): nat {
    var since := if started then before else 0;
    if reply == Some(ACK) || reply == Some(CAN) then 0 else if reply.Some? then since + 1 else since
  }

  /** The frame calls for a write to flash, for the check of the image, or for dropping it. */
  predicate Stores(p: seq<Byte>, paylen: nat) {
    || p == [EOT] || p == [ETX]
    || (paylen == BUFFER && p != [] && ((p[0] == STX && |p| == PACKET) || (p[0] == SOH && |p| == SMALL)))
  }

  class XmodemClient {
    const buffer: array<Byte>
    var inUse: bool
    var exit: Exit
    var started: bool
    var blockSeq: nat
    var paylen: nat
    var image: seq<Byte>
    var resendCount: nat
    /** The last image was handed over; it is in flash then. */
    ghost var complete: bool
    ghost var count: nat
    ghost var received: seq<Byte>

    ghost predicate Valid()
      reads this, buffer
    {
      && blockSeq < 256 && buffer.Length == BUFFER && paylen <= BUFFER
      && (exit == HandOver ==> inUse && complete)
      && (complete && inUse ==> exit == HandOver)
      && (inUse && exit == Stay ==> blockSeq == (count + 1) % 256 && image + buffer[..paylen] == received)
      && (inUse && exit == Stay ==> paylen % BUFFER == |received| % BUFFER)
      && (complete ==> image == received)
    }

    /** The client as the value the transfer theorems are about. */
    ghost function View(reply: Option<Byte>): Receiver
      reads this
    {
      Receiver(if complete then Finished else if inUse && exit == Stay then Receiving else Idle,
               started, count, received, reply)
    }

    constructor ()
      ensures Valid() && View(None) == POWER_ON
    {
      buffer := new Byte[BUFFER](_ => 0);
      inUse, exit, started, blockSeq, paylen, image, resendCount := false, Stay, false, 0, 0, [], 0;
      complete, count, received := false, 0, [];
    }

    /** A start request: ignored while a session is in use, or other updating is under way, as
        when the last image is being passed on. */
    method CmdCheck(updating: bool, ready: bool)
      requires Valid() && (inUse ==> updating)
      modifies this
      ensures Valid()
      ensures var r := old(View(None));
              View(Admit(r, ready && !updating).reply) == Admit(r, ready && !updating)
    {
      if updating || !ready {
        return;
      }
      inUse, exit, started, blockSeq, paylen, image, resendCount := true, Stay, false, 1, 0, [], 0;
      complete, count, received := false, 0, [];
    }

    /** Complement, number and CRC. */
    static method Accepts(p: seq<Byte>, awaited: Byte) returns (ok: bool)
      requires |p| >= 5
      ensures ok <==> Consistent(p) && p[1] == awaited
    {
      hide Crc, Trailer;
      if p[2] != 0xFF - p[1] || awaited != p[1] {
        return false;
      }
      var crc := Compute(Xmodem, p[3..|p| - 2]);
      ok := p[|p| - 2..] == Trailer(Xmodem, crc);
    }

    method Append(block: seq<Byte>)
      requires buffer.Length == BUFFER && paylen + |block| <= BUFFER
      modifies this`paylen, buffer
      ensures paylen == old(paylen) + |block| && buffer[..paylen] == old(buffer[..paylen]) + block
    {
      forall i | 0 <= i < |block| {
        buffer[paylen + i] := block[i];
      }
      paylen := paylen + |block|;
    }

    /** The data go into the buffer if their packet passes, its number is the next one, and
        there is room for them. */
    method Unpack(p: seq<Byte>) returns (reply: Byte)
      requires Valid() && inUse && exit == Stay && started && !complete && paylen < BUFFER
      requires |p| == PACKET || |p| == SMALL
      modifies this, buffer
      ensures Valid() && inUse && exit == Stay && started && resendCount == old(resendCount)
      ensures View(Some(reply)) == OtaReceiver.Unpack(old(View(None)), p)
    {
      hide SeqByte, Number, Consistent;
      NumberIs(count + 1, blockSeq);
      NextNumber(count + 1);
      var accepted := Accepts(p, Number(blockSeq));
      if !accepted || paylen + (|p| - 5) > BUFFER {
        return NAK;
      }
      Append(p[3..|p| - 2]);
      blockSeq := (blockSeq + 1) % 256;
      count, received := count + 1, received + p[3..|p| - 2];
      return ACK;
    }

    /** Writes the buffer to flash: the full one under way, what there is at the end. */
    method Flush(storeOk: bool) returns (ok: bool)
      requires buffer.Length == BUFFER && paylen <= BUFFER
      modifies this`image, this`paylen
      ensures ok == storeOk
      ensures paylen == if ok then 0 else old(paylen)
      ensures image + buffer[..paylen] == old(image + buffer[..paylen])
    {
      ok := storeOk;
      if ok {
        image := image + buffer[..paylen];
        paylen := 0;
        assert buffer[..0] == [];
      }
    }

    /** A frame in a session under way. `storeOk` is the outcome of the write to flash and of
        the check of the finished image, where the frame calls for them; `ok` is false if that
        made the client give up. */
    method Handle(p: seq<Byte>, storeOk: bool) returns (reply: Option<Byte>, ghost ok: bool)
      requires Valid() && inUse && exit == Stay && started && !complete && resendCount < MAX_RESEND
      requires p != []
      modifies this, buffer
      ensures Valid() && View(reply) == Take(old(View(None)), p, ok)
      ensures ok <==> (Stores(p, old(paylen)) ==> storeOk)
      ensures inUse && started && resendCount == old(resendCount)
    {
      hide OtaReceiver.Unpack, SeqByte;
      ok := true;
      if p[0] == SOH || p[0] == STX {
        if |p| != if p[0] == SOH then SMALL else PACKET {
          return Some(NAK), true;
        }
        if paylen == BUFFER {
          var flushed := Flush(storeOk);
          if !flushed {
            exit := Leave;
            return Some(CAN), false;
          }
        }
        var answer := this.Unpack(p);
        reply := Some(answer);
      } else if p[0] == ETX && |p| == 1 {
        assert p == [ETX];
        paylen := 0;
        exit := Leave;
        reply := Some(if storeOk then ACK else CAN);
        ok := storeOk;
      } else if p[0] == EOT && |p| == 1 {
        assert p == [EOT];
        ok := storeOk;
        if storeOk {
          var flushed := Flush(true);
          exit, complete := HandOver, true;
          reply := Some(ACK);
        } else {
          exit := Leave;
          reply := Some(CAN);
        }
      } else {
        reply := None;
      }
    }

    /** One pass of the client over an arriving frame. */
    method Client(p: seq<Byte>, storeOk: bool) returns (reply: Option<Byte>, ghost ok: bool)
      requires Valid() && p != []
      modifies this, buffer
      ensures Valid() && View(reply) == Take(old(View(None)), p, ok)
      ensures old(inUse && exit == Stay) ==>
        (ok <==> old(resendCount) < MAX_RESEND && (Stores(p, old(paylen)) ==> storeOk))
      ensures old(inUse && exit == HandOver) ==> (ok <==> storeOk)
      ensures old(inUse && exit == Stay) ==> resendCount == Errors(old(started), old(resendCount), reply)
    {
      hide OtaReceiver.Unpack, SeqByte, Stores;
      ok := true;
      if !inUse {
        return None, true;
      }
      if exit != Stay {
        reply := if exit == HandOver && !storeOk then Some(CAN) else None;
        ok := exit == HandOver ==> storeOk;
        inUse, exit := false, Stay;
        return;
      }
      var first := !started;
      started := true;
      if resendCount >= MAX_RESEND {
        resendCount, exit := 0, Leave;
        return Some(CAN), false;
      }
      if first {
        resendCount := 0;
      }
      reply, ok := Handle(p, storeOk);
      if reply == Some(ACK) || reply == Some(CAN) {
        resendCount := 0;
      } else if reply.Some? {
        resendCount := resendCount + 1;
      }
    }

    /** One pass with nothing to read: a call for the first packet or a complaint about a missing
        one from time to time, and the way out of a session that has ended. */
    method Poll(due: bool, storeOk: bool) returns (reply: Option<Byte>)
      requires Valid()
      modifies this
      ensures Valid()
      ensures reply == if !old(inUse) || old(exit) == Leave then None
                       else if old(exit) == HandOver then if storeOk then None else Some(CAN)
                       else if old(resendCount) >= MAX_RESEND then Some(CAN)
                       else if !due then None else Some(if started then NAK else READY)
      ensures View(None) == old(View(None)) || (old(inUse && exit == Stay && resendCount >= MAX_RESEND))
      ensures old(inUse && exit == Stay && resendCount >= MAX_RESEND) ==> View(None).mode == Idle
      ensures View(None).(mode := Idle) == old(View(None)).(mode := Idle)
      ensures old(inUse && exit == Stay && resendCount < MAX_RESEND) ==>
        resendCount == old(resendCount) + if due then 1 else 0
    {
      reply := None;
      if !inUse {
        return;
      }
      if exit != Stay {
        reply := if exit == HandOver && !storeOk then Some(CAN) else None;
        inUse, exit := false, Stay;
      } else if resendCount >= MAX_RESEND {
        resendCount, exit := 0, Leave;
        reply := Some(CAN);
      } else if due {
        resendCount := resendCount + 1;
        reply := Some(if started then NAK else READY);
      }
    }
  }

  function Number(n: nat): Byte
    requires n < 256
  {
    n as Byte
  }

  lemma NumberIs(k: nat, n: nat)
    requires n == k % 256
    ensures SeqByte(k) == Number(n)
  {
  }

  lemma NextNumber(k: nat)
    ensures (k % 256 + 1) % 256 == (k + 1) % 256
  {
  }
}
