/** Whether a transfer under way can still finish. The device does not acknowledge a packet
    again that it already has, so one acknowledgement lost on the way ends the transfer. */
module OtaCompletion {
  import opened Crc16
  import opened OtaPackets
  import opened OtaReceiver
  import opened OtaTrace
  import opened OtaDelivery

  /** A run that the hypotheses allow. */
  ghost predicate Fair(t: Trace, n: nat, firmware: seq<Byte>) {
    Safe(t, n) && Channel(t, firmware) && Prompt(t, firmware)
  }

  lemma FairMeans(t: Trace, n: nat, firmware: seq<Byte>)
    requires Fair(t, n, firmware)
    ensures InStep(t, n, firmware) && AnswerMeans(t, firmware)
  {
    PromptIsGenuine(t, n, firmware);
    GenuineInStep(t, n, firmware);
  }

  lemma FairIsWhole(t: Trace, n: nat, firmware: seq<Byte>)
    requires Fair(t, n, firmware)
    ensures Whole(Replay(t, firmware))
  {
    WholeBlocks(t, firmware);
  }

  /** The sender waits for the answer to `f`, and it is an acknowledgement. */
  predicate AckAtHand(t: Trace, firmware: seq<Byte>, f: Frame) {
    Pending(t) == Some(f) && Replay(t, firmware).reply == Some(ACK)
  }

  /** The device has the packet in hand, but its acknowledgement is gone: it got lost, or came
      after the sender had given up waiting. */
  ghost predicate AckLost(t: Trace, firmware: seq<Byte>) {
    ActedOn(t, Start) && Replay(t, firmware).count == Done(t) + 1 && !AckAtHand(t, firmware, Data(Done(t)))
  }

  /** The frame to be sent next, or again. */
  function Upcoming(m: nat, n: nat): Frame { if m < n then Data(m) else Eot }

  /** What the end of a transfer still hangs on: the sender has seen it already; sender and
      device agree, there is a try left and the device has not cancelled; or the sender waits
      for the acknowledgement wanted, and it is at hand. */
  ghost predicate Open(t: Trace, n: nat, firmware: seq<Byte>) {
    var r, m := Replay(t, firmware), Done(t);
    || ActedOn(t, Eot)
    || (r.mode == Receiving && r.count == m && !GaveUp(t) && Tries(t, Upcoming(m, n)) < Limit(Upcoming(m, n)))
    || (r.count == m + 1 && AckAtHand(t, firmware, Data(m)))
    || (r.mode == Finished && AckAtHand(t, firmware, Eot))
  }

  /** Started, not seen to its end, and aborted or no longer open. */
  ghost predicate Dead(t: Trace, n: nat, firmware: seq<Byte>) {
    ActedOn(t, Start) && !ActedOn(t, Eot) && (Sends(t, Etx) > 0 || !Open(t, n, firmware))
  }

  lemma DeadStays(t: Trace, n: nat, firmware: seq<Byte>)
    requires t.Then? && Fair(t, n, firmware) && Dead(t.before, n, firmware)
    ensures Dead(t, n, firmware) && Done(t) == Done(t.before)
  {
    hide Replay, Open, Channel, Prompt;
    OneByOne(t.before, n);
    if Sends(t.before, Etx) > 0 {
      AbortWindow(t.before, n);
    } else if t.e.Sent? && t.e.f.Data? {
      ClosedAfterData(t, n, firmware);
    } else if !(t.e.Sent? && t.e.f == Etx) {
      ClosedAfterOther(t, n, firmware);
    }
  }

  lemma ClosedAfterData(t: Trace, n: nat, firmware: seq<Byte>)
    requires t.Then? && Fair(t, n, firmware) && ActedOn(t.before, Start) && !Open(t.before, n, firmware)
    requires t.e.Sent? && t.e.f.Data?
    ensures !Open(t, n, firmware)
  {
    hide Replay, Block, SeqByte, Blocks, DamagedBy, Renumbers, Packet;
    FairMeans(t.before, n, firmware);
    OneByOne(t.before, n);
    DataStep(t, firmware);
    NeighboursDiffer(Done(t) + 1);
  }

  lemma ClosedAfterOther(t: Trace, n: nat, firmware: seq<Byte>)
    requires t.Then? && Fair(t, n, firmware) && ActedOn(t.before, Start) && !Open(t.before, n, firmware)
    requires t.e.Sent? ==> !t.e.f.Data? && t.e.f != Etx
    ensures !Open(t, n, firmware) && !ActedOn(t, Eot) && Done(t) == Done(t.before)
  {
    hide Replay, Block, SeqByte, Blocks, DamagedBy, Renumbers, Packet;
    FairMeans(t.before, n, firmware);
    OneByOne(t.before, n);
    OtherStep(t, firmware);
  }

  lemma {:induction false} DeadForGood(b: Trace, t: Trace, n: nat, firmware: seq<Byte>)
    requires Continues(b, t) && Fair(t, n, firmware) && Dead(b, n, firmware)
    ensures Dead(t, n, firmware) && Done(t) == Done(b)
  {
    hide Dead, Replay, Channel, Prompt;
    if t != b {
      FairBefore(t, n, firmware);
      DeadForGood(b, t.before, n, firmware);
      DeadStays(t, n, firmware);
    }
  }

  lemma FairBefore(t: Trace, n: nat, firmware: seq<Byte>)
    requires t.Then? && Fair(t, n, firmware)
    ensures Fair(t.before, n, firmware)
  {
  }

  /** However the run goes on, no further packet gets done and EOT is never acknowledged. */
  lemma LostAckEndsTransfer(b: Trace, t: Trace, n: nat, firmware: seq<Byte>)
    requires Continues(b, t) && Fair(t, n, firmware) && AckLost(b, firmware)
    ensures Done(t) == Done(b) && !ActedOn(t, Eot)
  {
    FairPrefix(b, t, n, firmware);
    FairMeans(b, n, firmware);
    OneByOne(b, n);
    hide Replay, Block, SeqByte, Blocks, Channel, Prompt, Safe;
    assert Dead(b, n, firmware);
    DeadForGood(b, t, n, firmware);
  }

  lemma {:induction false} FairPrefix(b: Trace, t: Trace, n: nat, firmware: seq<Byte>)
    requires Continues(b, t) && Fair(t, n, firmware)
    ensures Fair(b, n, firmware)
  {
    if t != b {
      FairPrefix(b, t.before, n, firmware);
    }
  }

  // ---------------------------------------------------------------------------
  // Runs that do finish
  // ---------------------------------------------------------------------------

  /** The sender is free to try the next frame, and stop has not been pressed. */
  predicate Free(t: Trace) {
    !Stopped(t) && Pending(t).None? && !GaveUp(t)
  }

  /** The run goes on from `b` to `t` with the device as it was and nothing more tried. */
  ghost predicate GoesOn(b: Trace, t: Trace, n: nat, firmware: seq<Byte>) {
    && Fair(t, n, firmware) && Continues(b, t) && Free(t) && Replay(t, firmware) == Replay(b, firmware)
    && forall g :: Tries(t, g) == Tries(b, g)
  }

  lemma Acknowledge(b: Trace, n: nat, firmware: seq<Byte>, f: Frame) returns (t: Trace)
    requires Fair(b, n, firmware) && !Stopped(b) && Pending(b) == Some(f) && f != Etx
    requires Replay(b, firmware).reply == Some(Expected(f))
    ensures t == Then(b, Answer(f, Match, true)) && GoesOn(b, t, n, firmware)
    ensures Done(t) == Done(b) + if f.Data? then 1 else 0
    ensures forall g :: ActedOn(t, g) <==> g == f || ActedOn(b, g)
  {
    NotGivenUp(b, n);
    t := Then(b, Answer(f, Match, true));
  }

  /** The sender gives up waiting, if it waits. */
  lemma Settle(b: Trace, n: nat, firmware: seq<Byte>) returns (t: Trace)
    requires Fair(b, n, firmware) && !Stopped(b) && !GaveUp(b)
    ensures t == if Pending(b).None? then b else Then(b, Answer(Pending(b).value, Timeout, false))
    ensures GoesOn(b, t, n, firmware)
    ensures Done(t) == Done(b) && forall g :: ActedOn(t, g) <==> ActedOn(b, g)
  {
    t := if Pending(b).None? then b else Then(b, Answer(Pending(b).value, Timeout, false));
  }

  lemma Transmit(b: Trace, n: nat, firmware: seq<Byte>, f: Frame) returns (t: Trace)
    requires Fair(b, n, firmware) && !Stopped(b) && MayTry(b, f, n)
    ensures t == Then(b, Sent(f, Intact)) && Fair(t, n, firmware) && !Stopped(t) && Continues(b, t)
    ensures Replay(t, firmware) == Receive(Replay(b, firmware), f, firmware, true)
    ensures Done(t) == Done(b) && Pending(t) == Some(f)
    ensures forall g :: ActedOn(t, g) <==> ActedOn(b, g)
    ensures forall g :: Tries(t, g) == Tries(b, g) + if g == f then 1 else 0
  {
    hide Receive;
    t := Then(b, Sent(f, Intact));
  }

  /** Sender and device agree, and the next frame has a try left. */
  ghost predicate Ready(b: Trace, n: nat, firmware: seq<Byte>) {
    var r, f := Replay(b, firmware), Upcoming(Done(b), n);
    && Fair(b, n, firmware) && Free(b) && ActedOn(b, Start) && !ActedOn(b, Eot)
    && r.mode == Receiving && r.count == Done(b) && Tries(b, f) < 5
  }

  /** One exchange that goes well. */
  lemma Pass(b: Trace, n: nat, firmware: seq<Byte>) returns (t: Trace)
    requires Ready(b, n, firmware)
    ensures Continues(b, t) && Fair(t, n, firmware)
    ensures Done(b) == n ==> ActedOn(t, Eot)
    ensures Done(b) < n ==>
      && Ready(t, n, firmware) && Done(t) == Done(b) + 1
      && t == Then(Then(b, Sent(Data(Done(b)), Intact)), Answer(Data(Done(b)), Match, true))
      && (forall g :: Tries(t, g) == Tries(b, g) + if g == Data(Done(b)) then 1 else 0)
  {
    hide Replay, Packet, Block, SeqByte, Prompt, Channel, Take;
    var f := Upcoming(Done(b), n);
    NoStop(b, n);
    OneByOne(b, n);
    TriedInOrder(b, n);
    var t1 := Transmit(b, n, firmware, f);
    if Done(b) < n {
      FairIsWhole(b, n, firmware);
      IntactStored(Replay(b, firmware), firmware, Done(b));
    } else {
      EotAccepted(Replay(b, firmware));
    }
    t := Acknowledge(t1, n, firmware, f);
    ContinuesOn(b, t1, t);
  }

  lemma EotAccepted(r: Receiver)
    requires r.mode == Receiving
    ensures Take(r, [EOT], true) == r.(started := true, mode := Finished, reply := Some(ACK))
  {
  }

  lemma {:induction false} ContinuesOn(a: Trace, b: Trace, t: Trace)
    requires Continues(a, b) && Continues(b, t)
    ensures Continues(a, t)
  {
    if t != b {
      ContinuesOn(a, b, t.before);
    }
  }

  lemma {:induction false} FinishInStep(b: Trace, n: nat, firmware: seq<Byte>) returns (t: Trace)
    requires Ready(b, n, firmware)
    ensures Continues(b, t) && Fair(t, n, firmware) && ActedOn(t, Eot)
    decreases n - Done(b)
  {
    hide Replay, Fair, ActedOn, Tries, Ready;
    DoneWithin(b, n, firmware);
    t := Pass(b, n, firmware);
    if Done(b) < n {
      DoneWithin(t, n, firmware);
      var t1 := t;
      t := FinishInStep(t1, n, firmware);
      ContinuesOn(b, t1, t);
    }
  }

  lemma DoneWithin(t: Trace, n: nat, firmware: seq<Byte>)
    requires Fair(t, n, firmware) || Ready(t, n, firmware)
    ensures Done(t) <= n
  {
    OneByOne(t, n);
  }

  lemma FinishOpen(b: Trace, n: nat, firmware: seq<Byte>) returns (t: Trace)
    requires Fair(b, n, firmware) && !Stopped(b) && ActedOn(b, Start) && Open(b, n, firmware)
    ensures Continues(b, t) && Fair(t, n, firmware) && ActedOn(t, Eot)
  {
    hide Replay, Channel, Prompt, Block, Blocks;
    FairMeans(b, n, firmware);
    OneByOne(b, n);
    TriedInOrder(b, n);
    var r, m := Replay(b, firmware), Done(b);
    if ActedOn(b, Eot) {
      t := b;
    } else if r.mode == Finished && AckAtHand(b, firmware, Eot) {
      t := Acknowledge(b, n, firmware, Eot);
    } else {
      var t1;
      if r.count == m + 1 && AckAtHand(b, firmware, Data(m)) {
        t1 := Acknowledge(b, n, firmware, Data(m));
      } else {
        t1 := Settle(b, n, firmware);
      }
      t := FinishInStep(t1, n, firmware);
      ContinuesOn(b, t1, t);
    }
  }

  ghost predicate Completes(b: Trace, t: Trace, n: nat, firmware: seq<Byte>) {
    Continues(b, t) && Fair(t, n, firmware) && ActedOn(t, Eot)
  }

  /** A transfer under way can still finish if and only if it is open. */
  lemma CanFinishIffOpen(b: Trace, n: nat, firmware: seq<Byte>)
    requires Fair(b, n, firmware) && !Stopped(b) && ActedOn(b, Start)
    ensures (exists t :: Completes(b, t, n, firmware)) <==> Open(b, n, firmware)
  {
    if Open(b, n, firmware) {
      var t := FinishOpen(b, n, firmware);
      assert Completes(b, t, n, firmware);
    } else {
      forall t | Completes(b, t, n, firmware)
        ensures false
      {
        DeadForGood(b, t, n, firmware);
      }
    }
  }

  // ---------------------------------------------------------------------------
  // Runs that exist, for every image
  // ---------------------------------------------------------------------------

  /** Start and the first `k` packets go through at once. */
  function Smooth(k: nat): Trace {
    if k == 0 then Then(Then(Trace.Begin, Sent(Start, Intact)), Answer(Start, Match, true))
    else Then(Then(Smooth(k - 1), Sent(Data(k - 1), Intact)), Answer(Data(k - 1), Match, true))
  }

  /** `k` packets are done, nothing is on its way, and nothing has been tried ahead. */
  ghost predicate Rested(t: Trace, k: nat, n: nat, firmware: seq<Byte>) {
    && Fair(t, n, firmware) && Free(t) && ActedOn(t, Start) && !ActedOn(t, Eot) && Done(t) == k
    && Replay(t, firmware).mode == Receiving && Replay(t, firmware).count == k
    && Tries(t, Eot) == 0 && forall j: nat :: j >= k ==> Tries(t, Data(j)) == 0
  }

  lemma {:induction false} SmoothIs(k: nat, n: nat, firmware: seq<Byte>)
    requires k <= n
    ensures Rested(Smooth(k), k, n, firmware)
  {
    hide Rested, Replay, Fair, Done, ActedOn, LastSent, Tries, Stopped, Continues;
    if k == 0 {
      Called(n, firmware);
    } else {
      SmoothIs(k - 1, n, firmware);
      SmoothStep(Smooth(k - 1), k - 1, n, firmware);
    }
  }

  lemma SmoothStep(b: Trace, k: nat, n: nat, firmware: seq<Byte>)
    requires k < n && Rested(b, k, n, firmware)
    ensures Rested(Then(Then(b, Sent(Data(k), Intact)), Answer(Data(k), Match, true)), k + 1, n, firmware)
  {
    hide Replay, Fair, Done, ActedOn, LastSent, Tries, Stopped, Continues;
    var t := Pass(b, n, firmware);
  }

  /** The device has called for the first packet. */
  lemma Called(n: nat, firmware: seq<Byte>)
    ensures Rested(Smooth(0), 0, n, firmware)
  {
    hide Take;
    var t1 := Transmit(Trace.Begin, n, firmware, Start);
    var t := Acknowledge(t1, n, firmware, Start);
  }

  /** Data may be tried next, and what is tried first changes nothing before it. */
  lemma NextTry(k: nat, n: nat, firmware: seq<Byte>)
    requires k <= n
    ensures Rested(Smooth(k), k, n, firmware) && MayTry(Smooth(k), Upcoming(k, n), n)
  {
    hide Replay, Fair, Smooth, Stopped, Continues;
    SmoothIs(k, n, firmware);
    RestedIsSafe(Smooth(k), k, n, firmware);
    NoStop(Smooth(k), n);
    OneByOne(Smooth(k), n);
  }

  lemma RestedIsSafe(t: Trace, k: nat, n: nat, firmware: seq<Byte>)
    requires Rested(t, k, n, firmware)
    ensures Safe(t, n) && Channel(t, firmware) && Prompt(t, firmware)
  {
  }

  /** In every transfer any acknowledgement may be the one that is lost: the packet arrives,
      and the sender waits in vain. */
  lemma LostAckHappens(k: nat, n: nat, firmware: seq<Byte>)
    requires k < n
    ensures var t := Then(Then(Smooth(k), Sent(Data(k), Intact)), Answer(Data(k), Timeout, false));
            && Fair(t, n, firmware) && AckLost(t, firmware) && Done(t) == k && Free(t)
            && !Open(t, n, firmware)
  {
    hide Replay, Packet, Block, SeqByte, Prompt, Channel, Take, Smooth;
    NextTry(k, n, firmware);
    var t1 := Transmit(Smooth(k), n, firmware, Data(k));
    FairIsWhole(Smooth(k), n, firmware);
    IntactStored(Replay(Smooth(k), firmware), firmware, k);
    var t := Settle(t1, n, firmware);
  }

  /** A device that cancels has ended the transfer, whatever it holds. */
  lemma CancelCloses(b: Trace, n: nat, firmware: seq<Byte>, f: Frame)
    requires Fair(b, n, firmware) && !Stopped(b) && Pending(b) == Some(f)
    ensures var t := Then(b, Answer(f, Can, false));
            Fair(t, n, firmware) && (Open(t, n, firmware) <==> ActedOn(b, Eot))
  {
    var t := Then(b, Answer(f, Can, false));
    assert Safe(t, n);
  }

  lemma LoseNext(b: Trace, n: nat, firmware: seq<Byte>, f: Frame)
    requires Fair(b, n, firmware) && MayTry(b, f, n)
    ensures var t := Then(b, Sent(f, Lost));
            && Fair(t, n, firmware) && Replay(t, firmware) == Silence(Replay(b, firmware)) && Done(t) == Done(b)
            && Pending(t) == Some(f) && (Stopped(t) <==> Stopped(b))
            && forall g :: ActedOn(t, g) <==> ActedOn(b, g)
  {
  }

  lemma {:induction false} GenuinePrefix(b: Trace, t: Trace, firmware: seq<Byte>)
    requires Continues(b, t) && Genuine(t, firmware)
    ensures Genuine(b, firmware)
  {
    if t != b {
      GenuinePrefix(b, t.before, firmware);
    }
  }

  /** An acknowledgement that the device did not send, or one taken twice, makes the sender
      skip a packet, and however the run finishes the image is not delivered. */
  lemma UnearnedAckMisleads(k: nat, n: nat, firmware: seq<Byte>, t: Trace)
    requires k < n
    requires var b := Then(Then(Smooth(k), Sent(Data(k), Lost)), Answer(Data(k), Match, true));
             Continues(b, t) && Safe(t, n) && Channel(t, firmware) && ActedOn(t, Eot)
    ensures !Delivered(t, n, firmware)
  {
    hide Replay, Packet, Block, Prompt, Channel, Take, Smooth, Delivered;
    NextTry(k, n, firmware);
    var t1 := Then(Smooth(k), Sent(Data(k), Lost));
    LoseNext(Smooth(k), n, firmware, Data(k));
    var b := Then(t1, Answer(Data(k), Match, true));
    assert !Genuine(b, firmware);
    if Genuine(t, firmware) {
      GenuinePrefix(b, t, firmware);
      assert false;
    }
    DeliveredIffGenuine(t, n, firmware);
  }

  /** Such a start of a run is one the sender can be led into, for every image and packet. */
  lemma UnearnedAckHappens(k: nat, n: nat, firmware: seq<Byte>)
    requires k < n
    ensures var b := Then(Then(Smooth(k), Sent(Data(k), Lost)), Answer(Data(k), Match, true));
            Safe(b, n) && Channel(b, firmware) && Done(b) == k + 1 && Replay(b, firmware).count == k
  {
    hide Replay, Packet, Block, Prompt, Channel, Take, Smooth;
    NextTry(k, n, firmware);
    LoseNext(Smooth(k), n, firmware, Data(k));
    var t1 := Then(Smooth(k), Sent(Data(k), Lost));
    AnswerTaken(t1, n, firmware, Data(k));
  }

  lemma AnswerTaken(t: Trace, n: nat, firmware: seq<Byte>, f: Frame)
    requires Safe(t, n) && Channel(t, firmware) && !Stopped(t) && Pending(t) == Some(f) && f != Etx
    ensures var b := Then(t, Answer(f, Match, true));
            && Safe(b, n) && Channel(b, firmware) && Done(b) == Done(t) + (if f.Data? then 1 else 0)
            && Replay(b, firmware) == Replay(t, firmware)
  {
  }

  // ---------------------------------------------------------------------------
  // Damage that makes one valid frame of another
  // ---------------------------------------------------------------------------

  /** With prompt answers all through, a burst of 16 bits in the second try of the last packet
      gives it the next number, and the device stores that block twice. */
  lemma RenumberingMisleads(n: nat, firmware: seq<Byte>) returns (t: Trace)
    requires n > 0
    ensures Safe(t, n) && OrdinaryDamage(t, firmware) && Prompt(t, firmware) && Done(t) == n
    ensures Replay(t, firmware).stored == Blocks(firmware, n) + Block(firmware, n - 1)
    ensures !Channel(t, firmware)
  {
    hide Replay, Packet, Block, SeqByte, Prompt, Channel, Take, Smooth;
    hide OrdinaryDamage, DamagedBy, Renumbers, Renumbered;
    var k := n - 1;
    NextTry(k, n, firmware);
    FairMeans(Smooth(k), n, firmware);
    var t1 := Transmit(Smooth(k), n, firmware, Data(k));
    FairIsWhole(Smooth(k), n, firmware);
    IntactStored(Replay(Smooth(k), firmware), firmware, k);
    FairIsWhole(t1, n, firmware);
    RenumberedTaken(Replay(t1, firmware), firmware, k);
    var t2 := Settle(t1, n, firmware);
    NoStop(t2, n);
    DisguisedByNumber(firmware, k, Renumbered(firmware, k));
    t := MisleadBy(t2, n, firmware, Data(k), Renumbered(firmware, k));
  }

  lemma DisguisedByNumber(firmware: seq<Byte>, k: nat, got: seq<Byte>)
    requires DamagedBy(Packet(firmware, k), got, 8) && Renumbers(Packet(firmware, k), got)
    ensures Ordinary(Data(k), got, firmware) && Disguises(Data(k), got, firmware)
  {
  }

  /** For every image: EOT that arrives as ETX is acknowledged all the same, and the device has
      dropped the transfer that the sender takes for finished. */
  lemma DisguisedEotMisleads(n: nat, firmware: seq<Byte>)
    ensures var t := Then(Then(Smooth(n), Sent(Eot, Damaged([ETX]))), Answer(Eot, Match, true));
            && Safe(t, n) && OrdinaryDamage(t, firmware) && Prompt(t, firmware) && ActedOn(t, Eot)
            && !Delivered(t, n, firmware) && !Channel(t, firmware)
  {
    hide Replay, Prompt, Channel, Take, Smooth, OrdinaryDamage;
    NextTry(n, n, firmware);
    ShortTaken(Replay(Smooth(n), firmware), [ETX], true);
    var t := MisleadBy(Smooth(n), n, firmware, Eot, [ETX]);
  }

  lemma MisleadBy(b: Trace, n: nat, firmware: seq<Byte>, f: Frame, got: seq<Byte>) returns (t: Trace)
    requires Fair(b, n, firmware) && !Stopped(b) && MayTry(b, f, n) && f != Start && f != Etx
    requires got != [] && Ordinary(f, got, firmware) && Disguises(f, got, firmware)
    requires Take(Replay(b, firmware), got, true).reply == Some(ACK)
    ensures t == Then(Then(b, Sent(f, Damaged(got))), Answer(f, Match, true))
    ensures Safe(t, n) && OrdinaryDamage(t, firmware) && Prompt(t, firmware) && ActedOn(t, f)
    ensures Done(t) == Done(b) + if f.Data? then 1 else 0
    ensures Replay(t, firmware) == Take(Replay(b, firmware), got, true)
    ensures !Channel(t, firmware)
  {
    hide Packet, Take, Ordinary, Disguises;
    ChannelIsOrdinary(b, firmware);
    var t1 := Then(b, Sent(f, Damaged(got)));
    t := Then(t1, Answer(f, Match, true));
    assert OrdinaryDamage(t1, firmware);
  }

  lemma {:induction false} ChannelIsOrdinary(t: Trace, firmware: seq<Byte>)
    requires Channel(t, firmware)
    ensures OrdinaryDamage(t, firmware)
  {
    if t.Then? {
      ChannelIsOrdinary(t.before, firmware);
    }
  }
}
