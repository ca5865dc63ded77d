/** The OTA sender: start request, XMODEM-1K data, EOT, distribution, and the way out
    when the user presses stop. Every answer, loss, send failure and the moment of stop
    are the environment's choice. */
module OtaSender {
  import opened Crc16
  import opened OtaPackets
  import opened OtaReceiver
  import opened OtaTrace
  import opened OtaDelivery
  import opened OtaDistribution
  import Rtu

  datatype AbortPhase = AwaitingReady | InXmodem | AfterXmodem

  function AbortShouldDisconnect(phase: AbortPhase, etxAcked: bool): bool {
    match phase
    case AwaitingReady => true
    case InXmodem => !etxAcked
    case AfterXmodem => false
  }

  const START_REGISTER: bv16 := 0x02BC

  /** The version with its last two decimal digits replaced by 99. */
  function WireVersion(version: nat): nat { version / 100 * 100 + 99 }

  /** The device group a firmware type belongs to. */
  function GroupWord(firmwareType: nat): bv16 {
    if firmwareType == 0 then 0x0300
    else if 3 <= firmwareType <= 10 then 0x0200
    else if firmwareType == 11 || firmwareType == 12 then 0x0400
    else if firmwareType == 16 then 0x0700
    else 0x0100
  }

  /** Start flag, firmware type, wire version low word first, number of packets, group. */
  function StartRegisters(firmwareType: nat, version: nat, packets: nat): seq<bv16> {
    var v := WireVersion(version);
    [1, Rtu.Low16(firmwareType), Rtu.Low16(v), Rtu.Low16(v / 0x1_0000), Rtu.Low16(packets), GroupWord(firmwareType)]
  }

  /** The start request, if the image is not empty and its packets can be counted. */
  function BuildOtaStartRequest(slaveId: Byte, firmwareType: nat, version: nat, fileLen: nat): Option<seq<Byte>> {
    if fileLen == 0 || PacketCount(fileLen) > 65535 then None
    else
      Some(Rtu.BuildWriteMultiple(slaveId, START_REGISTER, StartRegisters(firmwareType, version, PacketCount(fileLen))))
  }

  /** The device groups: 1 inverters, 2 packs, 3 the communication module, 4 displays, 7 chargers. */
  predicate InGroup(firmwareType: nat, word: bv16) {
    && (word == 0x0300 <==> firmwareType == 0)
    && (word == 0x0200 <==> firmwareType in {3, 4, 5, 6, 7, 8, 9, 10})
    && (word == 0x0400 <==> firmwareType in {11, 12})
    && (word == 0x0700 <==> firmwareType == 16)
    && (word == 0x0100 <==> firmwareType !in {0, 3, 4, 5, 6, 7, 8, 9, 10, 11, 12, 16})
  }

  lemma StartExists(slaveId: Byte, firmwareType: nat, version: nat, fileLen: nat)
    ensures BuildOtaStartRequest(slaveId, firmwareType, version, fileLen).Some? <==> 0 < fileLen <= 65535 * BLOCK
  {
    hide Rtu.BuildWriteMultiple, StartRegisters;
  }

  /** The device reads from the request what the client put into it. */
  lemma StartRequestReads(slaveId: Byte, firmwareType: nat, version: nat, fileLen: nat)
    ensures var request := BuildOtaStartRequest(slaveId, firmwareType, version, fileLen);
            && (request.Some? <==> 0 < fileLen <= 65535 * BLOCK)
            && (request.Some? ==>
                  var f, wire := request.value, version - version % 100 + 99;
                  && |f| == 21 && Rtu.VerifyCrc(f) && f[0] == slaveId && f[1] == 0x10
                  && Rtu.Word(f[2], f[3]) == 700 && Rtu.Word(f[4], f[5]) == Rtu.Low16(6)
                  && Rtu.Word(f[7], f[8]) == 1 && Rtu.Word(f[9], f[10]) == Rtu.Low16(firmwareType)
                  && Rtu.Word(f[11], f[12]) == Rtu.Low16(wire) && Rtu.Word(f[13], f[14]) == Rtu.Low16(wire / 0x1_0000)
                  && Rtu.Word(f[15], f[16]) == Rtu.Low16((fileLen + BLOCK - 1) / BLOCK)
                  && InGroup(firmwareType, Rtu.Word(f[17], f[18])))
  {
    hide Rtu.VerifyCrc, Rtu.Word, Rtu.BuildWriteMultiple, Rtu.Low16, GroupWord;
    if fileLen != 0 && PacketCount(fileLen) <= 65535 {
      var values := StartRegisters(firmwareType, version, PacketCount(fileLen));
      Rtu.WriteMultipleReads(slaveId, START_REGISTER, values);
      var f := Rtu.BuildWriteMultiple(slaveId, START_REGISTER, values);
      assert Rtu.Word(f[7 + 2 * 0], f[8 + 2 * 0]) == values[0];
      assert Rtu.Word(f[7 + 2 * 1], f[8 + 2 * 1]) == values[1];
      assert Rtu.Word(f[7 + 2 * 2], f[8 + 2 * 2]) == values[2];
      assert Rtu.Word(f[7 + 2 * 3], f[8 + 2 * 3]) == values[3];
      assert Rtu.Word(f[7 + 2 * 4], f[8 + 2 * 4]) == values[4];
      assert Rtu.Word(f[7 + 2 * 5], f[8 + 2 * 5]) == values[5];
      Grouped(firmwareType);
    }
  }

  lemma Grouped(firmwareType: nat)
    ensures InGroup(firmwareType, GroupWord(firmwareType))
  {
  }

  /** Only the first byte of a short packet counts: longer payloads are never searched for
      a control byte. */
  function MatchOtaControl(chunk: seq<Byte>, expected: Byte): Option<CtrlResult> {
    if |chunk| == 0 || |chunk| > 4 then None
    else if chunk[0] == expected then Some(Match)
    else if (expected == ACK || expected == READY) && chunk[0] == NAK then Some(Nak)
    else if chunk[0] == CAN then Some(Can)
    else None
  }

  /** The first chunk that means something decides; the others are skipped. */
  function FirstControl(chunks: seq<seq<Byte>>, expected: Byte): Option<CtrlResult> {
    if chunks == [] then None
    else if MatchOtaControl(chunks[0], expected).Some? then MatchOtaControl(chunks[0], expected)
    else FirstControl(chunks[1..], expected)
  }

  /** What a wait amounts to if stop does not cut it short: the first meaningful packet of
      the first poll that has one. */
  function Scan(polls: seq<seq<seq<Byte>>>, expected: Byte): CtrlResult {
    if polls == [] then Timeout
    else if FirstControl(polls[0], expected).Some? then FirstControl(polls[0], expected).value
    else Scan(polls[1..], expected)
  }

  /** The packet means something to a sender that expects `expected`. */
  predicate Meaningful(chunk: seq<Byte>, expected: Byte) {
    && 1 <= |chunk| <= 4
    && (chunk[0] == expected || chunk[0] == CAN || (chunk[0] == NAK && (expected == ACK || expected == READY)))
  }

  predicate Quiet(chunks: seq<seq<Byte>>, expected: Byte) {
    forall j :: 0 <= j < |chunks| ==> !Meaningful(chunks[j], expected)
  }

  /** Packet `q` of poll `p` is the first that means something. */
  predicate FirstMeaningful(polls: seq<seq<seq<Byte>>>, expected: Byte, p: nat, q: nat)
    requires p < |polls| && q < |polls[p]|
  {
    && Meaningful(polls[p][q], expected) && Quiet(polls[p][..q], expected)
    && forall i :: 0 <= i < p ==> Quiet(polls[i], expected)
  }

  /** What the first byte of such a packet says. */
  predicate Says(b: Byte, expected: Byte, r: CtrlResult) {
    && (r == Match <==> b == expected)
    && (r == Nak <==> b != expected && b == NAK)
    && (r == Can <==> b != expected && b == CAN)
  }

  /** The answer to a wait, told from the packets alone. */
  ghost predicate Decides(polls: seq<seq<seq<Byte>>>, expected: Byte, r: CtrlResult) {
    && (r == Timeout <==> forall i :: 0 <= i < |polls| ==> Quiet(polls[i], expected))
    && forall p: nat, q: nat ::
         p < |polls| && q < |polls[p]| && FirstMeaningful(polls, expected, p, q) ==> Says(polls[p][q][0], expected, r)
  }

  lemma MatchSays(chunk: seq<Byte>, expected: Byte)
    ensures var r := MatchOtaControl(chunk, expected);
            && (r.Some? <==> Meaningful(chunk, expected))
            && (r.Some? ==> Says(chunk[0], expected, r.value) && r.value != Timeout)
  {
  }

  lemma {:induction false} FirstControlSays(chunks: seq<seq<Byte>>, expected: Byte)
    ensures var r := FirstControl(chunks, expected);
            && (r.None? <==> Quiet(chunks, expected))
            && (r.Some? ==> r.value != Timeout)
            && forall q: nat :: q < |chunks| && Meaningful(chunks[q], expected) && Quiet(chunks[..q], expected) ==>
                 r.Some? && Says(chunks[q][0], expected, r.value)
  {
    hide Meaningful, MatchOtaControl, Says;
    if chunks != [] {
      MatchSays(chunks[0], expected);
      FirstControlSays(chunks[1..], expected);
      forall q: nat | 0 < q < |chunks| && Quiet(chunks[..q], expected)
        ensures !Meaningful(chunks[0], expected) && Quiet(chunks[1..][..q - 1], expected)
      {
        assert chunks[..q][0] == chunks[0];
        assert chunks[1..][..q - 1] == chunks[..q][1..];
      }
      assert Quiet(chunks, expected) <==> !Meaningful(chunks[0], expected) && Quiet(chunks[1..], expected) by {
        assert forall j :: 0 <= j < |chunks[1..]| ==> chunks[1..][j] == chunks[j + 1];
      }
      assert forall q: nat :: 0 < q < |chunks| ==> chunks[1..][q - 1] == chunks[q];
    }
  }

  /** The first packet in poll order that means something decides, by its first byte; without
      one the wait times out. */
  lemma {:induction false} ScanDecides(polls: seq<seq<seq<Byte>>>, expected: Byte)
    ensures Decides(polls, expected, Scan(polls, expected))
  {
    hide FirstControl, Says, Quiet;
    if polls != [] {
      var r := Scan(polls, expected);
      FirstControlSays(polls[0], expected);
      ScanDecides(polls[1..], expected);
      forall p: nat, q: nat | p < |polls| && q < |polls[p]| && FirstMeaningful(polls, expected, p, q)
        ensures Says(polls[p][q][0], expected, r)
      {
        if p > 0 {
          assert polls[1..][p - 1] == polls[p] && q < |polls[1..][p - 1]|;
          assert FirstMeaningful(polls[1..], expected, p - 1, q);
        }
      }
    }
  }

  /** The device's reply to a frame, heard alone: an acknowledgement is a match and nothing else
      is, NAK and CAN are what they are. */
  lemma ReplyHeard(r: Receiver, p: seq<Byte>, ok: bool)
    requires p != [] && Take(r, p, ok).reply.Some?
    ensures var b := Take(r, p, ok).reply.value; var heard := Scan([[[b]]], ACK);
            && (heard == Match <==> b == ACK) && (heard == Nak <==> b == NAK) && (heard == Can <==> b == CAN)
            && (heard == Timeout <==> b == READY)
  {
    hide Consistent, SeqByte;
    var b := Take(r, p, ok).reply.value;
    assert b == ACK || b == NAK || b == CAN || b == READY;
    hide Take;
    assert FirstControl([[b]], ACK) == if MatchOtaControl([b], ACK).Some? then MatchOtaControl([b], ACK) else None;
  }

  /** How a run ended, or that it still polls the distribution. */
  datatype Outcome = Succeeded | Failed | UserStopped | Polling

  datatype Exchanged = Acked | StopSeen | DeviceCancelled | Exhausted

  /** Everything a run does not decide itself: whether the link takes the i-th frame tried, the
      packets found at each poll of the i-th wait, and whether the user presses stop before the
      i-th look at it. */
  datatype World = World(open: nat -> bool, found: nat -> seq<seq<seq<Byte>>>, stop: nat -> bool)

  /** How many frames have been tried, and how many waits are over. */
  function Tried(t: Trace): nat {
    if t.Begin? then 0 else Tried(t.before) + if t.e.Sent? || t.e.Unsent? then 1 else 0
  }

  function Waited(t: Trace): nat {
    if t.Begin? then 0 else Waited(t.before) + if t.e.Answer? then 1 else 0
  }

  /** The event is what the world has in store; only a stop cuts a wait short. */
  ghost predicate Happens(t: Trace, e: Event, world: World) {
    match e
    case Sent(_, _) => world.open(Tried(t))
    case Unsent(_) => !world.open(Tried(t))
    case Answer(f, r, _) =>
      r == Scan(world.found(Waited(t)), Expected(f)) || (f != Etx && Stopped(t) && r == Timeout)
    case Stop => exists i: nat :: world.stop(i)
  }

  ghost predicate Plays(t: Trace, world: World) {
    t.Then? ==> Plays(t.before, world) && Happens(t.before, t.e, world)
  }

  /** What the abort phase and the ETX outcome demand after stop. */
  ghost predicate DisconnectDemanded(t: Trace) {
    !ActedOn(t, Eot) && !(ActedOn(t, Start) && Heard(t, Etx) && Sends(t, Etx) == 2)
  }

  /** No wait is under way, the device has not cancelled, and nothing has been aborted. */
  ghost predicate MayGoOn(t: Trace) {
    Pending(t).None? && !GaveUp(t) && Tries(t, Etx) == 0
  }

  /** The device is in the transfer and has to be told of a stop. */
  predicate TellsDevice(t: Trace) {
    ActedOn(t, Start) && !ActedOn(t, Eot)
  }

  /** `f` is the frame to send next. */
  ghost predicate Next(t: Trace, f: Frame, n: nat) {
    && !ActedOn(t, f) && MayGoOn(t)
    && match f
       case Start => true
       case Data(k) => k < n && ActedOn(t, Opener(k))
       case Eot => ActedOn(t, Opener(n))
       case Etx => false
  }

  /** Nothing but at most one press of stop lies between the two traces. */
  ghost predicate Idled(t: Trace, t': Trace) {
    t' == t || (!Stopped(t) && t' == Then(t, Stop))
  }

  /** The two traces treat every frame but `f` alike. */
  ghost predicate Elsewhere(t: Trace, t': Trace, f: Frame) {
    forall g :: g != f ==>
      ActedOn(t', g) == ActedOn(t, g) && Sends(t', g) == Sends(t, g) && Tries(t', g) == Tries(t, g)
  }

  lemma AnswerRecorded(t: Trace, f: Frame, r: CtrlResult, acted: bool, n: nat)
    requires Safe(t, n) && Pending(t) == Some(f)
    requires acted <==> r == Match && f != Etx && !Stopped(t)
    ensures var t' := Then(t, Answer(f, r, acted));
            && Safe(t', n) && Elsewhere(t, t', f) && Stopped(t') == Stopped(t)
            && Sends(t', f) == Sends(t, f) && Tries(t', f) == Tries(t, f) && ActedOn(t', f) == acted
            && Pending(t').None? && (GaveUp(t') <==> r == Can && !Stopped(t))
            && Tried(t') == Tried(t) && Waited(t') == Waited(t) + 1
  {
    OneByOne(t, n);
    NotGivenUp(t, n);
  }

  /** A frame tried, and what it changes. */
  lemma TryRecorded(t: Trace, t': Trace, f: Frame)
    requires t'.Then? && t'.before == t && (t'.e == Unsent(f) || (t'.e.Sent? && t'.e.f == f))
    ensures Elsewhere(t, t', f) && Stopped(t') == Stopped(t)
    ensures Tries(t', f) == Tries(t, f) + 1 && ActedOn(t', f) == ActedOn(t, f) && GaveUp(t') == GaveUp(t)
    ensures Sends(t', f) == Sends(t, f) + (if t'.e.Sent? then 1 else 0)
    ensures Pending(t') == if t'.e.Sent? then Some(f) else Pending(t)
    ensures Tried(t') == Tried(t) + 1 && Waited(t') == Waited(t)
  {
  }

  lemma IdleChangesNothing(t: Trace, t': Trace)
    requires Idled(t, t')
    ensures forall g :: ActedOn(t', g) == ActedOn(t, g) && Sends(t', g) == Sends(t, g) && Heard(t', g) == Heard(t, g)
    ensures forall g :: Tries(t', g) == Tries(t, g)
    ensures LastSent(t') == LastSent(t) && TotalAfterStop(t') == TotalAfterStop(t)
    ensures Pending(t') == Pending(t) && GaveUp(t') == GaveUp(t)
    ensures Tried(t') == Tried(t) && Waited(t') == Waited(t)
    ensures Stopped(t) ==> Stopped(t')
  {
  }

  /** The plain bytes of a frame. */
  predicate Carries(firmware: seq<Byte>, start: Option<seq<Byte>>, f: Frame, plain: seq<Byte>) {
    match f
    case Start => start == Some(plain)
    case Data(k) => plain == Packet(firmware, k)
    case Eot => plain == [EOT]
    case Etx => plain == [ETX]
  }

  /** All tries of the frame were in vain. */
  predicate Exhausts(t: Trace, f: Frame) {
    Tries(t, f) == 5 && !ActedOn(t, f)
  }

  /** The device cancelled, or all tries of some frame were in vain. */
  ghost predicate Fails(t: Trace) {
    GaveUp(t) || exists f :: Exhausts(t, f)
  }

  /** The link takes every frame, the device answers the first wait with its call and every other
      one with an acknowledgement, and the user never presses stop. */
  ghost predicate Cooperative(world: World) {
    && (forall i: nat :: world.open(i) && !world.stop(i))
    && (forall i: nat :: Scan(world.found(i), if i == 0 then READY else ACK) == Match)
  }

  lemma CooperativeWorld()
    ensures Cooperative(World(_ => true, i => [[[if i == 0 then READY else ACK]]], _ => false))
  {
  }

  /** In such a world nothing is tried twice, and no run fails or is stopped. */
  lemma {:induction false} CooperativeRuns(t: Trace, n: nat, world: World)
    requires Safe(t, n) && Plays(t, world) && Cooperative(world)
    ensures !Stopped(t) && !GaveUp(t)
    ensures Waited(t) == 0 <==> !ActedOn(t, Start)
    ensures forall f :: Tries(t, f) == if ActedOn(t, f) || Pending(t) == Some(f) then 1 else 0
  {
    hide Scan;
    if t.Then? {
      CooperativeRuns(t.before, n, world);
      OneByOne(t.before, n);
      NoStop(t.before, n);
    }
  }

  /** What a verdict makes of a run. */
  function Reported(v: Option<Verdict>): Outcome {
    match v
    case None => Polling
    case Some(Success) => Succeeded
    case Some(Failure) => Failed
  }

  lemma SomePackets(length: nat)
    requires length > 0
    ensures PacketCount(length) > 0
  {
  }

  class OtaRun {
    const firmware: seq<Byte>
    const firmwareType: nat
    const slaveId: Byte
    const version: nat
    const world: World
    var looks: nat
    var tries: nat
    var waits: nat
    var running: bool
    var cancel: bool
    var requestDisconnect: bool
    ghost var trace: Trace

    ghost predicate Live()
      reads this
    {
      running && !requestDisconnect && Faithful()
    }

    /** The trace is a safe one that the world allows, and the fields agree with it. */
    ghost predicate Faithful()
      reads this
    {
      && cancel == Stopped(trace) && Safe(trace, N())
      && tries == Tried(trace) && waits == Waited(trace) && Plays(trace, world)
    }

    ghost function N(): nat { PacketCount(|firmware|) }

    function StartRequest(): Option<seq<Byte>> {
      BuildOtaStartRequest(slaveId, firmwareType, version, |firmware|)
    }

    constructor (firmware: seq<Byte>, firmwareType: nat, slaveId: Byte, version: nat, world: World)
      ensures this.firmware == firmware && this.firmwareType == firmwareType
      ensures this.slaveId == slaveId && this.version == version && this.world == world
      ensures Live() && trace == Begin
    {
      this.firmware, this.firmwareType, this.slaveId, this.version := firmware, firmwareType, slaveId, version;
      this.world := world;
      running, cancel, requestDisconnect, trace := true, false, false, Begin;
      looks, tries, waits := 0, 0, 0;
    }

    /** The user may press stop at any moment; stop stays pressed. */
    method User()
      requires Live()
      modifies this`cancel, this`trace, this`looks
      ensures Live()
      ensures Idled(old(trace), trace)
      ensures cancel <==> old(cancel) || world.stop(old(looks))
    {
      if world.stop(looks) && !cancel {
        cancel := true;
        trace := Then(trace, Stop);
      }
      looks := looks + 1;
    }

    /** Tries to hand a frame to the write channel, which may be closed. */
    method Send(ghost f: Frame, plain: seq<Byte>) returns (ok: bool)
      requires Live() && MayTry(trace, f, N()) && Carries(firmware, StartRequest(), f, plain)
      modifies this`trace, this`tries
      ensures Live() && ok == world.open(old(tries))
      ensures trace.Then? && trace.before == old(trace)
      ensures if ok then trace.e.Sent? && trace.e.f == f else trace.e == Unsent(f)
    {
      ok := world.open(tries);
      tries := tries + 1;
      ghost var arrival: Arrival := *;
      trace := Then(trace, if ok then Sent(f, arrival) else Unsent(f));
    }

    /** Drains decoded packets until one is the expected control byte, NAK or CAN, the
        deadline passes, or stop is seen. `polls` are the packets found at each poll. */
    method WaitControl(expected: Byte, ignoreCancel: bool, polls: seq<seq<seq<Byte>>>)
      returns (r: CtrlResult)
      requires Live()
      modifies this`cancel, this`trace, this`looks
      ensures Live()
      ensures Idled(old(trace), trace)
      ensures r == Scan(polls, expected) || (!ignoreCancel && cancel && r == Timeout)
      ensures Decides(polls, expected, r) || (!ignoreCancel && cancel && r == Timeout)
    {
      ScanDecides(polls, expected);
      hide Decides;
      for p := 0 to |polls|
        invariant Live()
        invariant Idled(old(trace), trace)
        invariant Scan(polls[p..], expected) == Scan(polls, expected)
      {
        User();
        if !ignoreCancel && cancel {
          return Timeout;
        }
        var chunks := polls[p];
        while chunks != []
          invariant FirstControl(chunks, expected) == FirstControl(polls[p], expected)
          decreases |chunks|
        {
          var m := MatchOtaControl(chunks[0], expected);
          if m.Some? {
            return m.value;
          }
          chunks := chunks[1..];
        }
        assert polls[p..][1..] == polls[p + 1..];
      }
      r := Timeout;
    }

    /** Waits for the answer to the frame that has just gone out; stop discards it. */
    method Await(ghost f: Frame, expected: Byte) returns (r: Option<CtrlResult>)
      requires Live() && Pending(trace) == Some(f) && f != Etx && expected == Expected(f)
      modifies this`cancel, this`trace, this`looks, this`waits
      ensures Live() && Elsewhere(old(trace), trace, f) && Tries(trace, f) == old(Tries(trace, f))
      ensures Pending(trace).None? && (GaveUp(trace) <==> r == Some(Can))
      ensures r.None? <==> cancel
      ensures ActedOn(trace, f) <==> r == Some(Match)
    {
      hide FirstControl, BuildOtaStartRequest, Decides, Scan;
      hide Safe, Sends, Tries, ActedOn, LastSent, TotalAfterStop, Heard, Pending, GaveUp, Tried, Waited;
      ghost var t2 := trace;
      var polls := world.found(waits);
      var answer := WaitControl(expected, false, polls);
      ghost var t3 := trace;
      IdleChangesNothing(t2, t3);
      User();
      ghost var t4 := trace;
      IdleChangesNothing(t3, t4);
      AnswerRecorded(t4, f, answer, !cancel && answer == Match, N());
      trace := Then(trace, Answer(f, answer, !cancel && answer == Match));
      waits := waits + 1;
      r := if cancel then None else Some(answer);
    }

    /** Sends `f` once and waits for its answer. */
    method Attempt(ghost f: Frame, plain: seq<Byte>, expected: Byte) returns (r: Option<CtrlResult>)
      requires Live() && !cancel && Next(trace, f, N()) && Tries(trace, f) < 5
      requires Carries(firmware, StartRequest(), f, plain) && expected == Expected(f)
      modifies this`cancel, this`trace, this`looks, this`tries, this`waits
      ensures Live() && Elsewhere(old(trace), trace, f)
      ensures Tries(trace, f) == old(Tries(trace, f)) + 1
      ensures Pending(trace).None? && (GaveUp(trace) <==> r == Some(Can))
      ensures r.None? && !cancel ==> !ActedOn(trace, f)
      ensures cancel ==> r.None? && !ActedOn(trace, f)
      ensures r.Some? ==> (r.value == Match <==> ActedOn(trace, f))
    {
      hide Packet, PacketCount, FirstControl, BuildOtaStartRequest, Decides, Scan;
      hide Safe, Sends, Tries, ActedOn, LastSent, TotalAfterStop, Heard, Pending, GaveUp, Tried, Waited;
      ghost var t0 := trace;
      NoStop(t0, N());
      User();
      ghost var t1 := trace;
      IdleChangesNothing(t0, t1);
      var ok := Send(f, plain);
      ghost var t2 := trace;
      TryRecorded(t1, t2, f);
      if !ok {
        return None;
      }
      r := Await(f, expected);
    }

    /** One frame, up to five tries, as in the three send loops of the transfer. */
    method Exchange(ghost f: Frame, plain: seq<Byte>, expected: Byte) returns (x: Exchanged)
      requires Live() && Next(trace, f, N()) && Tries(trace, f) == 0
      requires Carries(firmware, StartRequest(), f, plain) && expected == Expected(f)
      modifies this`cancel, this`trace, this`looks, this`tries, this`waits
      ensures Live() && Elsewhere(old(trace), trace, f) && Pending(trace).None?
      ensures x == Acked <==> ActedOn(trace, f)
      ensures x == StopSeen <==> cancel
      ensures x == DeviceCancelled <==> GaveUp(trace)
      ensures x == Exhausted ==> Tries(trace, f) == 5
    {
      hide Packet, Safe, PacketCount, BuildOtaStartRequest;
      for attempt := 0 to 5
        invariant Live() && Next(trace, f, N()) && Tries(trace, f) == attempt
        invariant Elsewhere(old(trace), trace, f)
      {
        if cancel {
          return StopSeen;
        }
        var r := Attempt(f, plain, expected);
        if r.None? {
          continue;
        }
        match r.value
        case Match => return Acked;
        case Can => return DeviceCancelled;
        case Nak =>
        case Timeout =>
      }
      x := if cancel then StopSeen else Exhausted;
    }

    /** The device is told to give up, then nudged with a second ETX so that it leaves
        the transfer. True if the first was acknowledged and the second went out. */
    method NotifyDeviceXmodemAbort() returns (done: bool)
      requires Live() && cancel && MayGoOn(trace)
      requires ActedOn(trace, Start) && !ActedOn(trace, Eot)
      modifies this`cancel, this`trace, this`looks, this`tries, this`waits
      ensures Live() && cancel && Elsewhere(old(trace), trace, Etx)
      ensures done <==> Heard(trace, Etx) && Sends(trace, Etx) == 2
      ensures Tries(trace, Etx) == if world.open(old(tries)) then 2 else 1
    {
      hide BuildOtaStartRequest, Scan, Packet, PacketCount, Decides;
      SendsWereTried(trace, Etx);
      NotHeard(trace, N(), Etx);
      var ok := Send(Etx, [ETX]);
      if !ok {
        return false;
      }
      ghost var t1 := trace;
      assert Elsewhere(old(trace), t1, Etx);
      var polls := world.found(waits);
      var r := WaitControl(ACK, true, polls);
      IdleChangesNothing(t1, trace);
      trace := Then(trace, Answer(Etx, r, false));
      waits := waits + 1;
      ghost var t2 := trace;
      assert Elsewhere(t1, t2, Etx);
      var kickOk := Send(Etx, [ETX]);
      assert Elsewhere(t2, trace, Etx);
      done := r == Match && kickOk;
    }

    /** Ends the run on the user's stop. */
    method FinishUserStop(phase: AbortPhase)
      requires Live() && cancel && MayGoOn(trace)
      requires phase == (if ActedOn(trace, Eot) then AfterXmodem
                         else if ActedOn(trace, Start) then InXmodem else AwaitingReady)
      requires ActedOn(trace, Eot) ==> ActedOn(trace, Start)
      modifies this
      ensures !running && cancel && Stopped(trace) && Faithful()
      ensures requestDisconnect <==> DisconnectDemanded(trace)
      ensures Elsewhere(old(trace), trace, Etx) && (Tries(trace, Etx) > 0 <==> phase == InXmodem)
    {
      var etxAcked := false;
      if phase == InXmodem {
        etxAcked := NotifyDeviceXmodemAbort();
      } else {
        SendsWereTried(trace, Etx);
        NotHeard(trace, N(), Etx);
      }
      if AbortShouldDisconnect(phase, etxAcked) {
        requestDisconnect := true;
      }
      running := false;
    }

    /** Polls the distribution registers until the slot reports 100 %, an error, nothing new
        for too long, or stop; without any of these the polling goes on. `readings` are the
        polls so far. */
    method WaitOtaDistribution(now: int, readings: seq<Reading>) returns (o: Outcome)
      requires Live()
      modifies this`cancel, this`trace, this`looks
      ensures Live() && Idled(old(trace), trace)
      ensures !old(cancel) ==> (o == UserStopped <==> cancel)
      ensures o != UserStopped ==> o == Reported(Judged(NewWatch(now), readings, firmwareType))
      ensures forall i: nat :: i < |readings| && Decisive(NewWatch(now), readings, firmwareType, i) ==>
        o == UserStopped || o == if Completed(NewWatch(now), readings, firmwareType, i) then Succeeded else Failed
    {
      hide Picked, Decisive, Completed;
      forall i: nat | i < |readings| && Decisive(NewWatch(now), readings, firmwareType, i)
        ensures Judged(NewWatch(now), readings, firmwareType)
             == Some(if Completed(NewWatch(now), readings, firmwareType, i) then Success else Failure)
      {
        DecisiveDecides(NewWatch(now), readings, firmwareType, i);
      }
      var w := NewWatch(now);
      for i := 0 to |readings|
        invariant Judged(w, readings[i..], firmwareType) == Judged(NewWatch(now), readings, firmwareType)
        invariant Live() && Idled(old(trace), trace) && cancel == old(cancel)
      {
        User();
        if cancel {
          return UserStopped;
        }
        var r := readings[i];
        if r.before >= w.deadline {
          return Failed;
        }
        if r.values.Some? {
          var found := PickDistributionSlot(r.values.value, firmwareType, w.locked);
          if found.Some? {
            w := Noted(w, found.value, r.later);
            if found.value.errorCode != 0 {
              return Failed;
            }
            if found.value.percent >= 100 {
              return Succeeded;
            }
          }
        }
        assert readings[i..][1..] == readings[i + 1..];
      }
      o := Polling;
    }

    /** All data packets, each until it is acknowledged. */
    method SendPackets() returns (x: Exchanged)
      requires Live() && ActedOn(trace, Start) && MayGoOn(trace) && 0 < N()
      requires forall j: nat :: !ActedOn(trace, Data(j)) && Tries(trace, Data(j)) == 0
      modifies this`cancel, this`trace, this`looks, this`tries, this`waits
      ensures Live() && Pending(trace).None?
      ensures forall f: Frame :: !f.Data? ==>
        && ActedOn(trace, f) == ActedOn(old(trace), f) && Sends(trace, f) == Sends(old(trace), f)
        && Tries(trace, f) == Tries(old(trace), f)
      ensures x == Acked <==> ActedOn(trace, Opener(N()))
      ensures x == StopSeen ==> cancel
      ensures x == DeviceCancelled <==> GaveUp(trace)
      ensures x == Exhausted ==> exists f :: Exhausts(trace, f)
    {
      hide Packet, Safe, PacketCount, FirstControl, BuildOtaStartRequest, Plays, Tried, Waited;
      x := Acked;
      for k := 0 to PacketCount(|firmware|)
        invariant Live() && MayGoOn(trace) && ActedOn(trace, Start) && ActedOn(trace, Opener(k))
        invariant forall f: Frame :: !f.Data? ==>
          && ActedOn(trace, f) == ActedOn(old(trace), f) && Sends(trace, f) == Sends(old(trace), f)
          && Tries(trace, f) == Tries(old(trace), f)
        invariant forall j: nat :: k <= j ==> !ActedOn(trace, Data(j)) && Tries(trace, Data(j)) == 0
        invariant x == Acked
      {
        ghost var t := trace;
        User();
        IdleChangesNothing(t, trace);
        var packet := BuildXmodem1kPacket(firmware, k);
        x := Exchange(Data(k), packet[..], ACK);
        if x != Acked {
          assert x == Exhausted ==> Exhausts(trace, Data(k));
          return;
        }
      }
    }

    /** Start request, data and EOT; None if the device has acknowledged all of it. */
    method Transfer(start: seq<Byte>) returns (o: Option<Outcome>)
      requires Live() && trace == Begin && StartRequest() == Some(start) && 0 < N()
      modifies this
      ensures Faithful() && (o.None? <==> ActedOn(trace, Eot))
      ensures o.None? ==> Live() && !cancel && ActedOn(trace, Start) && MayGoOn(trace)
      ensures o.Some? ==> !running && (o.value == UserStopped || o.value == Failed)
      ensures o == Some(UserStopped) ==> Stopped(trace) && (requestDisconnect <==> DisconnectDemanded(trace))
      ensures o == Some(UserStopped) ==> (Tries(trace, Etx) > 0 <==> TellsDevice(trace))
      ensures o == Some(Failed) ==> !requestDisconnect && Sends(trace, Etx) == 0 && Fails(trace)
    {
      hide BuildOtaStartRequest, PacketCount;
      hide Plays, Safe, DisconnectDemanded, Heard, TotalAfterStop, LastSent;
      ghost var t := trace;
      User();
      IdleChangesNothing(t, trace);
      var x := Exchange(Start, start, READY);
      if x != Acked {
        assert x == Exhausted ==> Exhausts(trace, Start);
        var out := Conclude(x, AwaitingReady);
        return Some(out);
      }
      x := SendPackets();
      if x != Acked {
        var out := Conclude(x, InXmodem);
        return Some(out);
      }
      x := Exchange(Eot, [EOT], ACK);
      if x != Acked {
        assert x == Exhausted ==> Exhausts(trace, Eot);
        var out := Conclude(x, InXmodem);
        return Some(out);
      }
      o := None;
    }

    /** The whole run. It fails only for a reason: the link is not encrypted, the image has no
        start request, the device cancelled, five tries of a frame were in vain, or the
        distribution failed; and once EOT is through the outcome is what the distribution comes
        to, or a stop. The trace is safe and played by the world; a stopped run asks for a
        disconnect exactly when phase and ETX outcome demand it, and one whose transfer got
        through has delivered the image if and only if its acknowledgements were earned, as they
        are if they were prompt, or none was taken twice. */
    method RunBleOta(encryptionReady: bool, now: int, readings: seq<Reading>)
      returns (o: Outcome)
      requires Live() && trace == Begin
      modifies this
      ensures Faithful() && (running <==> o == Polling)
      ensures o == Failed ==>
        || !encryptionReady || !(0 < |firmware| <= 65535 * BLOCK) || Fails(trace)
        || (ActedOn(trace, Eot) && firmwareType != 0
            && Judged(NewWatch(now), readings, firmwareType) == Some(Failure))
      ensures Cooperative(world) && encryptionReady && 0 < |firmware| <= 65535 * BLOCK ==> ActedOn(trace, Eot)
      ensures Cooperative(world) ==> o != UserStopped && forall f :: Tries(trace, f) <= 1
      ensures ActedOn(trace, Eot) && firmwareType == 0 ==> o == Succeeded
      ensures ActedOn(trace, Eot) && firmwareType != 0 && o != UserStopped ==>
        o == Reported(Judged(NewWatch(now), readings, firmwareType))
      ensures o == Succeeded || o == Polling ==> encryptionReady && ActedOn(trace, Eot)
      ensures o == UserStopped ==> Stopped(trace) && (requestDisconnect <==> DisconnectDemanded(trace))
      ensures o == UserStopped ==> (Tries(trace, Etx) > 0 <==> TellsDevice(trace))
      ensures o != UserStopped ==> !requestDisconnect && Sends(trace, Etx) == 0
      ensures ActedOn(trace, Eot) && Channel(trace, firmware) ==>
        && (Delivered(trace, N(), firmware) <==> Genuine(trace, firmware))
        && (Prompt(trace, firmware) || OnceEach(trace, firmware) ==> Delivered(trace, N(), firmware))
    {
      hide BuildOtaStartRequest, PacketCount, DisconnectDemanded, Delivered, Genuine, Channel, Prompt, OnceEach;
      hide Cooperative;
      var startRequest := StartRequest();
      StartExists(slaveId, firmwareType, version, |firmware|);
      if !encryptionReady || startRequest.None? {
        running := false;
        return Failed;
      }
      SomePackets(|firmware|);
      var ended := Transfer(startRequest.value);
      if ended.Some? {
        Deliveries();
        CooperativePlay();
        return ended.value;
      }
      if firmwareType == 0 {
        o := Succeeded;
      } else {
        ghost var t := trace;
        o := WaitOtaDistribution(now, readings);
        IdleChangesNothing(t, trace);
        if o == UserStopped {
          FinishUserStop(AfterXmodem);
          Deliveries();
          CooperativePlay();
          return;
        }
      }
      SendsWereTried(trace, Etx);
      Deliveries();
      CooperativePlay();
      running := o == Polling;
    }

    lemma CooperativePlay()
      requires Faithful()
      ensures Cooperative(world) ==> !Stopped(trace) && !Fails(trace) && forall f :: Tries(trace, f) <= 1
    {
      if Cooperative(world) {
        CooperativeRuns(trace, N(), world);
      }
    }

    /** What the delivery lemmas say of the trace. */
    lemma Deliveries()
      requires Safe(trace, N())
      ensures ActedOn(trace, Eot) && Channel(trace, firmware) ==>
        && (Delivered(trace, N(), firmware) <==> Genuine(trace, firmware))
        && (Prompt(trace, firmware) || OnceEach(trace, firmware) ==> Delivered(trace, N(), firmware))
    {
      if ActedOn(trace, Eot) && Channel(trace, firmware) {
        DeliveredIffGenuine(trace, N(), firmware);
        if Prompt(trace, firmware) || OnceEach(trace, firmware) {
          FinishedIsDelivered(trace, firmware);
        }
      }
    }

    /** The common way out of a send loop that did not end in an acknowledgement. */
    method Conclude(x: Exchanged, phase: AbortPhase) returns (o: Outcome)
      requires Live() && Pending(trace).None? && Tries(trace, Etx) == 0
      requires x == StopSeen ==> cancel && !GaveUp(trace)
      requires !ActedOn(trace, Eot) || x == Acked
      requires x != Acked ==> phase == if ActedOn(trace, Start) then InXmodem else AwaitingReady
      modifies this
      ensures x == Acked ==> Live() && trace == old(trace)
      ensures x != StopSeen ==> Sends(trace, Etx) == 0
      ensures ActedOn(trace, Eot) == old(ActedOn(trace, Eot))
      ensures x != Acked ==> !running && Faithful()
      ensures x == StopSeen ==> o == UserStopped && Stopped(trace) && (requestDisconnect <==> DisconnectDemanded(trace))
      ensures x == StopSeen ==> (Tries(trace, Etx) > 0 <==> TellsDevice(trace))
      ensures x != Acked && x != StopSeen ==> o == Failed && !requestDisconnect && trace == old(trace)
    {
      o := Failed;
      SendsWereTried(trace, Etx);
      match x
      case Acked =>
      case StopSeen =>
        FinishUserStop(phase);
        o := UserStopped;
      case DeviceCancelled =>
        running := false;
      case Exhausted =>
        running := false;
    }
  }

  lemma {:induction false} NotHeard(t: Trace, n: nat, f: Frame)
    requires Safe(t, n) && Sends(t, f) == 0
    ensures !Heard(t, f) && !ActedOn(t, f)
  {
    if t.Then? {
      NotHeard(t.before, n, f);
      OneByOne(t.before, n);
    }
  }
}
