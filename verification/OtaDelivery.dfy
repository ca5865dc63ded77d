/** Sender and device together: what the device holds after a run, and when a finished
    transfer has delivered the image. */
module OtaDelivery {
  import opened Crc16
  import opened OtaPackets
  import opened OtaReceiver
  import opened OtaTrace

  function Receive(r: Receiver, f: Frame, firmware: seq<Byte>, ok: bool): Receiver {
    match f
    case Start => Admit(r, ok)
    case Data(k) => Take(r, Packet(firmware, k), ok)
    case Eot => Take(r, [EOT], ok)
    case Etx => Take(r, [ETX], ok)
  }

  /** The device after the run so far. */
  function Replay(t: Trace, firmware: seq<Byte>): Receiver {
    if t.Begin? then POWER_ON
    else
      var r := Replay(t.before, firmware);
      if !t.e.Sent? then r
      else
        match t.e.arrival
        case Lost => Silence(r)
        case Intact => Receive(r, t.e.f, firmware, true)
        case Refused => Receive(r, t.e.f, firmware, false)
        case Damaged(bytes) => if bytes == [] then Silence(r) else Take(r, bytes, true)
  }

  const START_LENGTH := 21

  /** Damage the checks of the device are meant for: a start request that fails its own CRC, a
      burst of at most 16 bits in a data packet, any damage to a single control byte. */
  ghost predicate Ordinary(f: Frame, bytes: seq<Byte>, firmware: seq<Byte>) {
    match f
    case Start => |bytes| == START_LENGTH
    case Data(k) => exists burst: nat :: DamagedBy(Packet(firmware, k), bytes, burst)
    case Eot => |bytes| == 1
    case Etx => |bytes| == 1
  }

  ghost predicate OrdinaryDamage(t: Trace, firmware: seq<Byte>) {
    t.Then? ==>
      && OrdinaryDamage(t.before, firmware)
      && (t.e.Sent? && t.e.arrival.Damaged? ==> Ordinary(t.e.f, t.e.arrival.bytes, firmware))
  }

  /** The damage makes one valid frame of another: a packet gets another number, or EOT becomes
      the ETX that aborts. */
  predicate Disguises(f: Frame, bytes: seq<Byte>, firmware: seq<Byte>) {
    match f
    case Data(k) => |bytes| == PACKET && Renumbers(Packet(firmware, k), bytes)
    case Eot => bytes == [ETX]
    case _ => false
  }

  /** Ordinary damage without those two. */
  ghost predicate Channel(t: Trace, firmware: seq<Byte>) {
    t.Then? ==>
      && Channel(t.before, firmware)
      && (t.e.Sent? && t.e.arrival.Damaged? ==>
            Ordinary(t.e.f, t.e.arrival.bytes, firmware) && !Disguises(t.e.f, t.e.arrival.bytes, firmware))
  }

  // ---------------------------------------------------------------------------
  // Single frames
  // ---------------------------------------------------------------------------

  predicate Same(r: Receiver, r': Receiver) {
    r'.count == r.count && r'.stored == r.stored
  }

  /** A data packet is stored and acknowledged, or nothing is stored and it is not. */
  ghost predicate DataTaken(r: Receiver, r': Receiver, firmware: seq<Byte>, k: nat) {
    || (&& Same(r, r') && r'.reply != Some(ACK)
        && (r'.mode == r.mode || (r.mode == Receiving && r'.mode == Idle)))
    || (&& r.mode == r'.mode == Receiving && SeqByte(k + 1) == SeqByte(r.count + 1) && r'.reply == Some(ACK)
        && r'.count == r.count + 1 && r'.stored == r.stored + Block(firmware, k))
  }

  lemma {:induction false} DataStep(t: Trace, firmware: seq<Byte>)
    requires Channel(t, firmware) && t.Then? && t.e.Sent? && t.e.f.Data?
    ensures DataTaken(Replay(t.before, firmware), Replay(t, firmware), firmware, t.e.f.k)
    ensures t.e.arrival == Intact && Replay(t.before, firmware).mode == Receiving
      && SeqByte(t.e.f.k + 1) == SeqByte(Replay(t.before, firmware).count + 1)
      ==> Replay(t, firmware).reply == Some(ACK)
    decreases t, 0
  {
    hide Packet, Block, SeqByte;
    WholeBlocks(t.before, firmware);
    hide Channel;
    var r, k := Replay(t.before, firmware), t.e.f.k;
    var p := Packet(firmware, k);
    match t.e.arrival
    case Lost =>
    case Refused =>
    case Intact =>
      if r.mode == Receiving {
        IntactStored(r, firmware, k);
        hide Take;
      }
    case Damaged(bytes) =>
      DamageStep(t, firmware, bytes);
  }

  lemma DamageStep(t: Trace, firmware: seq<Byte>, bytes: seq<Byte>)
    requires Channel(t, firmware) && t.Then? && t.e.Sent? && t.e.f.Data? && t.e.arrival == Damaged(bytes)
    requires Whole(Replay(t.before, firmware))
    ensures DataTaken(Replay(t.before, firmware), Replay(t, firmware), firmware, t.e.f.k)
  {
    hide Packet, Block, SeqByte;
    var r, k := Replay(t.before, firmware), t.e.f.k;
    var burst: nat :| DamagedBy(Packet(firmware, k), bytes, burst);
    PacketParts(firmware, k);
    if r.mode == Receiving {
      DamagedStored(r, Packet(firmware, k), bytes, burst);
      hide Take;
    }
  }

  /** A start request may begin a transfer anew; EOT is acknowledged if it is accepted. */
  predicate OtherTaken(r: Receiver, r': Receiver, f: Frame) {
    match f
    case Start =>
      && (Same(r, r') || (r'.count == 0 && r'.stored == []))
      && r'.reply != Some(ACK) && (r'.mode == Finished ==> r.mode == Finished)
    case Eot =>
      && Same(r, r')
      && if r.mode == Receiving && r'.reply == Some(ACK) then r'.mode == Finished
         else r'.reply != Some(ACK) && (r'.mode == r.mode || (r.mode == Receiving && r'.mode == Idle))
    case _ => Same(r, r')
  }

  /** A frame that is no data packet stores nothing; only the two control frames that end a
      session are acknowledged. */
  lemma ShortTaken(r: Receiver, p: seq<Byte>, ok: bool)
    requires p != [] && |p| != PACKET && |p| != SMALL
    ensures var r' := Take(r, p, ok);
            && Same(r, r')
            && (r'.reply == Some(ACK) <==> r.mode == Receiving && ok && (p == [EOT] || p == [ETX]))
            && (r'.mode == r.mode || (r.mode == Receiving && r'.mode == if ok && p == [EOT] then Finished else Idle))
            && (r.mode == Receiving && ok && p == [EOT] ==> r'.mode == Finished)
  {
  }

  /** The other frames store nothing. */
  lemma OtherStep(t: Trace, firmware: seq<Byte>)
    requires Channel(t, firmware) && t.Then? && (t.e.Sent? ==> !t.e.f.Data?)
    ensures !t.e.Sent? ==> Replay(t, firmware) == Replay(t.before, firmware)
    ensures t.e.Sent? ==> OtherTaken(Replay(t.before, firmware), Replay(t, firmware), t.e.f)
    ensures t.e == Sent(Eot, Intact) && Replay(t.before, firmware).mode == Receiving
      ==> Replay(t, firmware).reply == Some(ACK)
  {
    hide Take;
    var r := Replay(t.before, firmware);
    if t.e.Sent? {
      if t.e.arrival.Damaged? {
        ShortTaken(r, t.e.arrival.bytes, true);
      } else if t.e.f != Start {
        ShortTaken(r, if t.e.f == Eot then [EOT] else [ETX], t.e.arrival != Refused);
      }
    }
  }

  /** This sender's packets are all of the large size. */
  lemma {:induction false} WholeBlocks(t: Trace, firmware: seq<Byte>)
    requires Channel(t, firmware)
    ensures Whole(Replay(t, firmware))
    decreases t, 1
  {
    hide Replay, Block, SeqByte, DamagedBy, Renumbers, Packet;
    if t.Then? {
      WholeBlocks(t.before, firmware);
      if t.e.Sent? && t.e.f.Data? {
        DataStep(t, firmware);
      } else {
        OtherStep(t, firmware);
      }
    } else {
      NothingYet(firmware);
    }
  }

  // ---------------------------------------------------------------------------
  // When a finished transfer has delivered the image
  // ---------------------------------------------------------------------------

  /** The device holds the blocks the sender is done with, or one more. */
  ghost predicate InStep(t: Trace, n: nat, firmware: seq<Byte>) {
    var r, m := Replay(t, firmware), Done(t);
    && (r.count == m || (r.count == m + 1 && m < n))
    && r.stored == Blocks(firmware, r.count)
    && (!ActedOn(t, Start) ==> r.count == 0 && r.mode != Finished)
  }

  /** Every acknowledgement the sender acted on was earned: the packet had been stored, and
      the transfer accepted at its end. */
  ghost predicate Genuine(t: Trace, firmware: seq<Byte>) {
    t.Then? ==>
      && Genuine(t.before, firmware)
      && (t.e.Answer? && t.e.acted && t.e.f.Data? ==> Replay(t.before, firmware).count == t.e.f.k + 1)
      && (t.e.Answer? && t.e.acted && t.e.f == Eot ==> Replay(t.before, firmware).mode == Finished)
  }

  /** The device has accepted the transfer and holds exactly the image's blocks. */
  ghost predicate Delivered(t: Trace, n: nat, firmware: seq<Byte>) {
    var r := Replay(t, firmware);
    r.mode == Finished && r.count == n && r.stored == Blocks(firmware, n)
  }

  lemma {:induction false} GenuineInStep(t: Trace, n: nat, firmware: seq<Byte>)
    requires Safe(t, n) && Channel(t, firmware) && Genuine(t, firmware)
    ensures InStep(t, n, firmware)
  {
    hide Replay, Block, SeqByte;
    if t.Then? {
      GenuineInStep(t.before, n, firmware);
      OneByOne(t.before, n);
      if t.e.Sent? && t.e.f.Data? {
        DataStep(t, firmware);
        NeighboursDiffer(Done(t) + 1);
      } else {
        OtherStep(t, firmware);
      }
    } else {
      NothingYet(firmware);
    }
  }

  lemma NothingYet(firmware: seq<Byte>)
    ensures Replay(Trace.Begin, firmware) == POWER_ON
  {
  }

  /** After the sender has acted on the EOT acknowledgement nothing goes out any more. */
  lemma NothingAfterEot(t: Trace, n: nat)
    requires Safe(t, n) && t.Then? && ActedOn(t.before, Eot)
    ensures !t.e.Sent?
  {
    OneByOne(t.before, n);
  }

  /** A device that has fallen behind stays behind, even where numbers repeat. */
  lemma BehindStays(t: Trace, n: nat, firmware: seq<Byte>)
    requires Safe(t, n) && Channel(t, firmware) && t.Then?
    requires Replay(t.before, firmware).count < Done(t.before)
    ensures Replay(t, firmware).count < Done(t)
  {
    hide Replay, Block, SeqByte;
    OneByOne(t.before, n);
    if t.e.Sent? && t.e.f.Data? {
      DataStep(t, firmware);
      NeighboursDiffer(Done(t));
    } else {
      OtherStep(t, firmware);
    }
  }

  lemma {:induction false} UnearnedShows(t: Trace, n: nat, firmware: seq<Byte>)
    requires Safe(t, n) && Channel(t, firmware) && !Genuine(t, firmware)
    ensures Replay(t, firmware).count < Done(t) || (ActedOn(t, Eot) && Replay(t, firmware).mode != Finished)
  {
    hide Block, SeqByte, DamagedBy, Renumbers, Packet, Take, Admit;
    if Genuine(t.before, firmware) {
      GenuineInStep(t.before, n, firmware);
      OneByOne(t.before, n);
    } else {
      UnearnedShows(t.before, n, firmware);
      if Replay(t.before, firmware).count < Done(t.before) {
        BehindStays(t, n, firmware);
      } else {
        NothingAfterEot(t, n);
      }
    }
  }

  lemma {:induction false} FinishedStays(t: Trace, n: nat, firmware: seq<Byte>)
    requires Safe(t, n) && Genuine(t, firmware) && ActedOn(t, Eot)
    ensures Replay(t, firmware).mode == Finished
  {
    hide Take, Admit;
    if ActedOn(t.before, Eot) {
      FinishedStays(t.before, n, firmware);
      NothingAfterEot(t, n);
    }
  }

  /** A finished transfer has delivered the image if and only if every acknowledgement the
      sender acted on was earned. */
  lemma DeliveredIffGenuine(t: Trace, n: nat, firmware: seq<Byte>)
    requires Safe(t, n) && Channel(t, firmware) && ActedOn(t, Eot)
    ensures Delivered(t, n, firmware) <==> Genuine(t, firmware)
  {
    hide Replay, Channel, Safe, Block;
    OneByOne(t, n);
    if Genuine(t, firmware) {
      GenuineInStep(t, n, firmware);
      FinishedStays(t, n, firmware);
    } else {
      UnearnedShows(t, n, firmware);
    }
    hide Genuine;
  }

  /** What such a delivery means in bytes. */
  lemma DeliveredImage(t: Trace, firmware: seq<Byte>)
    requires Delivered(t, PacketCount(|firmware|), firmware)
    ensures var stored := Replay(t, firmware).stored;
            && |firmware| <= |stored| < |firmware| + BLOCK && stored[..|firmware|] == firmware
            && forall i :: |firmware| <= i < |stored| ==> stored[i] == PAD
  {
    hide Replay;
    TransferHoldsImage(firmware);
  }

  // ---------------------------------------------------------------------------
  // Two hypotheses that suffice
  // ---------------------------------------------------------------------------

  function Expected(f: Frame): Byte { if f == Start then READY else ACK }

  /** Every control byte the sender takes for the expected one is the device's answer to the
      latest transmission. */
  ghost predicate Prompt(t: Trace, firmware: seq<Byte>) {
    t.Then? ==>
      && Prompt(t.before, firmware)
      && (t.e.Answer? && t.e.r == Match ==>
            Replay(t.before, firmware).reply == Some(Expected(t.e.f)))
  }

  /** How many acknowledgements the device has sent, and how many the sender has taken. */
  function Emitted(t: Trace, firmware: seq<Byte>): nat {
    if t.Begin? then 0
    else Emitted(t.before, firmware) + if t.e.Sent? && Replay(t, firmware).reply == Some(ACK) then 1 else 0
  }

  function Consumed(t: Trace): nat {
    if t.Begin? then 0
    else Consumed(t.before) + if t.e.Answer? && t.e.r == Match && t.e.f != Start then 1 else 0
  }

  /** Acknowledgements may be lost or arrive as late as they like, but none arrives that was
      not sent, and none twice. */
  ghost predicate OnceEach(t: Trace, firmware: seq<Byte>) {
    t.Then? ==> OnceEach(t.before, firmware) && Consumed(t) <= Emitted(t, firmware)
  }

  /** What an acknowledgement at hand says about the device. */
  ghost predicate AnswerMeans(t: Trace, firmware: seq<Byte>) {
    var r := Replay(t, firmware);
    r.reply == Some(ACK) ==>
      match LastSent(t)
      case Some(Data(k)) => r.mode == Receiving && r.count == k + 1
      case Some(Eot) => r.mode == Finished
      case Some(Etx) => true
      case _ => false
  }

  lemma AnswerStep(t: Trace, n: nat, firmware: seq<Byte>)
    requires Safe(t, n) && Channel(t, firmware) && t.Then?
    requires InStep(t.before, n, firmware) && AnswerMeans(t.before, firmware)
    ensures AnswerMeans(t, firmware)
  {
    hide Replay, Block, SeqByte, Blocks, DamagedBy, Renumbers, Packet;
    OneByOne(t.before, n);
    if t.e.Sent? && t.e.f.Data? {
      DataStep(t, firmware);
      NeighboursDiffer(Done(t) + 1);
    } else {
      OtherStep(t, firmware);
    }
  }

  lemma {:induction false} PromptIsGenuine(t: Trace, n: nat, firmware: seq<Byte>)
    requires Safe(t, n) && Channel(t, firmware) && Prompt(t, firmware)
    ensures Genuine(t, firmware) && AnswerMeans(t, firmware)
  {
    hide Replay, Block, SeqByte, Blocks, DamagedBy, Renumbers, Packet;
    if t.Then? {
      PromptIsGenuine(t.before, n, firmware);
      GenuineInStep(t.before, n, firmware);
      AnswerStep(t, n, firmware);
    } else {
      NothingYet(firmware);
    }
  }

  /** Until an abort the device has acknowledged each block once, and the end once. */
  lemma {:induction false} EmittedIs(t: Trace, n: nat, firmware: seq<Byte>)
    requires Safe(t, n) && Channel(t, firmware) && Sends(t, Etx) == 0
    ensures var r := Replay(t, firmware);
            && Emitted(t, firmware) == r.count + (if r.mode == Finished then 1 else 0)
            && (!ActedOn(t, Start) ==> r.count == 0 && r.mode != Finished)
            && (r.mode == Finished ==> Sends(t, Eot) > 0)
  {
    hide Replay, Block, SeqByte, DamagedBy, Renumbers, Packet;
    if t.Then? {
      EmittedIs(t.before, n, firmware);
      OneByOne(t.before, n);
      if t.e.Sent? && t.e.f.Data? {
        DataStep(t, firmware);
      } else {
        OtherStep(t, firmware);
      }
    } else {
      NothingYet(firmware);
    }
  }

  lemma {:induction false} ConsumedCovers(t: Trace, n: nat)
    requires Safe(t, n)
    ensures Consumed(t) >= Done(t) + if ActedOn(t, Eot) then 1 else 0
  {
    if t.Then? {
      ConsumedCovers(t.before, n);
      OneByOne(t.before, n);
    }
  }

  lemma {:induction false} OnceEachIsGenuine(t: Trace, n: nat, firmware: seq<Byte>)
    requires Safe(t, n) && Channel(t, firmware) && OnceEach(t, firmware)
    ensures Genuine(t, firmware)
  {
    hide Replay, Block, SeqByte, Blocks, DamagedBy, Renumbers, Packet;
    if t.Then? {
      OnceEachIsGenuine(t.before, n, firmware);
      if t.e.Answer? && t.e.acted && t.e.f != Start {
        OneByOne(t.before, n);
        if Sends(t, Etx) > 0 {
          AbortWindow(t.before, n);
        } else {
          GenuineInStep(t.before, n, firmware);
          EmittedIs(t.before, n, firmware);
          ConsumedCovers(t, n);
          SameAfterAnswer(t, firmware);
        }
      }
    }
  }

  lemma SameAfterAnswer(t: Trace, firmware: seq<Byte>)
    requires t.Then? && !t.e.Sent?
    ensures Replay(t, firmware) == Replay(t.before, firmware)
  {
  }

  /** Delivery, for either hypothesis: with acknowledgements that are prompt, and with ones
      that are late but counted, a finished transfer has delivered the image. */
  lemma FinishedIsDelivered(t: Trace, firmware: seq<Byte>)
    requires var n := PacketCount(|firmware|); Safe(t, n) && Channel(t, firmware) && ActedOn(t, Eot)
    requires Prompt(t, firmware) || OnceEach(t, firmware)
    ensures Delivered(t, PacketCount(|firmware|), firmware)
    ensures Replay(t, firmware).stored[..|firmware|] == firmware
  {
    hide Replay, Safe, Channel, Genuine, Delivered;
    var n := PacketCount(|firmware|);
    if Prompt(t, firmware) {
      PromptIsGenuine(t, n, firmware);
    } else {
      OnceEachIsGenuine(t, n, firmware);
    }
    DeliveredIffGenuine(t, n, firmware);
    DeliveredImage(t, firmware);
  }

  /** No acknowledgement may be lost: if each is taken at most once, a sender that gets to act
      on the EOT acknowledgement has taken every single one the device ever sent. */
  lemma EveryAckCounts(t: Trace, n: nat, firmware: seq<Byte>)
    requires Safe(t, n) && Channel(t, firmware) && OnceEach(t, firmware) && ActedOn(t, Eot)
    ensures Consumed(t) == Emitted(t, firmware) == n + 1
  {
    hide Replay, Channel, Genuine, InStep;
    OneByOne(t, n);
    if Sends(t, Etx) > 0 {
      AbortWindow(t, n);
    }
    OnceEachIsGenuine(t, n, firmware);
    DeliveredIffGenuine(t, n, firmware);
    EmittedIs(t, n, firmware);
    ConsumedCovers(t, n);
    hide Safe;
  }
}
