/** What an OTA run may do, told as a trace: the frames that go out, the answers the
    sender waits for and the moment the user presses stop. `Safe` is the stop-and-wait
    discipline; the lemmas say what follows from it for every trace. */
module OtaTrace {
  import opened Crc16
  import opened OtaPackets

  datatype Frame = Start | Data(k: nat) | Eot | Etx

  datatype CtrlResult = Match | Nak | Can | Timeout

  /** What became of a frame: lost, arrived as sent or damaged, or refused by a device that
      gives up on it. */
  datatype Arrival = Lost | Intact | Damaged(bytes: seq<Byte>) | Refused

  /** A frame goes out, or cannot be handed to the link; the wait for its answer ends; stop is
      pressed. `acted` tells whether the sender acted on the answer; a match is dropped exactly
      when the user had pressed stop meanwhile. */
  datatype Event =
    | Sent(f: Frame, arrival: Arrival)
    | Unsent(f: Frame)
    | Answer(f: Frame, r: CtrlResult, acted: bool)
    | Stop

  /** A trace, latest event outermost. */
  datatype Trace = Begin | Then(before: Trace, e: Event)

  predicate ActedOn(t: Trace, f: Frame) {
    t.Then? && (t.e == Answer(f, Match, true) || ActedOn(t.before, f))
  }

  predicate Heard(t: Trace, f: Frame) {
    t.Then? && ((t.e.Answer? && t.e.f == f && t.e.r == Match) || Heard(t.before, f))
  }

  predicate Stopped(t: Trace) {
    t.Then? && (t.e.Stop? || Stopped(t.before))
  }

  function Sends(t: Trace, f: Frame): nat {
    if t.Begin? then 0 else Sends(t.before, f) + if t.e.Sent? && t.e.f == f then 1 else 0
  }

  /** Tries to send a frame, whether or not it went out. */
  function Tries(t: Trace, f: Frame): nat {
    if t.Begin? then 0 else Tries(t.before, f) + if (t.e.Sent? || t.e.Unsent?) && t.e.f == f then 1 else 0
  }

  /** The frame whose answer is awaited. */
  function Pending(t: Trace): Option<Frame> {
    if t.Begin? || t.e.Answer? then None else if t.e.Sent? then Some(t.e.f) else Pending(t.before)
  }

  /** The device has cancelled, which ends a run that is not being stopped. */
  predicate GaveUp(t: Trace) {
    t.Then? && ((t.e.Answer? && t.e.r == Can && !Stopped(t.before)) || GaveUp(t.before))
  }

  /** Start, data and EOT frames. */
  function Total(t: Trace): nat {
    if t.Begin? then 0 else Total(t.before) + if t.e.Sent? && t.e.f != Etx then 1 else 0
  }

  function TotalAfterStop(t: Trace): nat {
    if t.Begin? then 0
    else TotalAfterStop(t.before) + if t.e.Sent? && t.e.f != Etx && Stopped(t.before) then 1 else 0
  }

  function LastSent(t: Trace): Option<Frame> {
    if t.Begin? then None else if t.e.Sent? then Some(t.e.f) else LastSent(t.before)
  }

  function Limit(f: Frame): nat { if f == Etx then 2 else 5 }

  /** The frame whose answer opens the way for data packet `k`, or for EOT if `k` is
      the number of packets. */
  function Opener(k: nat): Frame { if k == 0 then Start else Data(k - 1) }

  /** A frame may be tried: the last wait is over, the device has not cancelled, tries are left.
      Only a stop pressed since the last look at it can precede a start, data or EOT frame. */
  ghost predicate MayTry(t: Trace, f: Frame, n: nat) {
    && Pending(t).None? && !GaveUp(t)
    && Tries(t, f) < Limit(f)
    && !ActedOn(t, f)
    && (f != Etx ==> (!Stopped(t) || t.e.Stop?) && Tries(t, Etx) == 0)
    && (f == Etx ==> Stopped(t) && ActedOn(t, Start) && !ActedOn(t, Eot) && Tries(t, Etx) == Sends(t, Etx))
    && (f.Data? ==> f.k < n && ActedOn(t, Opener(f.k)))
    && (f == Eot ==> ActedOn(t, Opener(n)))
  }

  /** One wait for each frame that went out, and one answer at most from each wait. */
  ghost predicate Allowed(t: Trace, e: Event, n: nat) {
    match e
    case Sent(f, _) => MayTry(t, f, n)
    case Unsent(f) => MayTry(t, f, n)
    case Answer(f, r, acted) => Pending(t) == Some(f) && (acted <==> r == Match && f != Etx && !Stopped(t))
    case Stop => !Stopped(t)
  }

  ghost predicate Safe(t: Trace, n: nat) {
    t.Then? ==> Safe(t.before, n) && Allowed(t.before, t.e, n)
  }

  // ---------------------------------------------------------------------------
  // Order and bounds
  // ---------------------------------------------------------------------------

  /** How many data packets have been acknowledged and acted on. */
  function Done(t: Trace): nat {
    if t.Begin? then 0
    else Done(t.before) + if t.e.Answer? && t.e.f.Data? && t.e.acted then 1 else 0
  }

  /** Packets are acknowledged strictly one after the other, and nothing is sent ahead:
      a data packet only when all earlier ones are done, EOT only when all are. */
  lemma {:induction false} OneByOne(t: Trace, n: nat)
    requires Safe(t, n)
    ensures Done(t) <= n
    ensures forall k: nat :: ActedOn(t, Data(k)) <==> k < Done(t)
    ensures forall k: nat :: Sends(t, Data(k)) > 0 ==> ActedOn(t, Start) && k <= Done(t) && k < n
    ensures Done(t) > 0 ==> ActedOn(t, Start)
    ensures Sends(t, Eot) > 0 ==> ActedOn(t, Start) && Done(t) == n
    ensures LastSent(t).Some? ==> Sends(t, LastSent(t).value) > 0
    ensures ActedOn(t, Eot) ==> ActedOn(t, Start) && Done(t) == n
    ensures !ActedOn(t, Etx)
    ensures Pending(t).Some? ==> LastSent(t) == Pending(t) && !ActedOn(t, Pending(t).value)
  {
    if t.Then? {
      OneByOne(t.before, n);
    }
  }

  /** Nor is anything tried ahead. */
  lemma {:induction false} TriedInOrder(t: Trace, n: nat)
    requires Safe(t, n)
    ensures forall k: nat :: Tries(t, Data(k)) > 0 ==> k <= Done(t) && k < n
    ensures Tries(t, Eot) > 0 ==> Done(t) == n
  {
    if t.Then? {
      TriedInOrder(t.before, n);
      OneByOne(t.before, n);
    }
  }

  function DataSends(t: Trace, n: nat): nat {
    if n == 0 then 0 else DataSends(t, n - 1) + Sends(t, Data(n - 1))
  }

  lemma {:induction false} DataSendsStep(t: Trace, n: nat)
    requires t.Then?
    ensures DataSends(t, n) ==
      DataSends(t.before, n) + if t.e.Sent? && t.e.f.Data? && t.e.f.k < n then 1 else 0
  {
    if n != 0 {
      DataSendsStep(t, n - 1);
    }
  }

  lemma {:induction false} TotalIsSum(t: Trace, n: nat)
    requires Safe(t, n)
    ensures Total(t) == Sends(t, Start) + DataSends(t, n) + Sends(t, Eot)
    ensures forall f :: Sends(t, f) <= Tries(t, f) <= Limit(f)
  {
    if t.Then? {
      TotalIsSum(t.before, n);
      DataSendsStep(t, n);
    } else {
      NothingSent(n);
    }
  }

  lemma {:induction false} NothingSent(n: nat)
    ensures DataSends(Begin, n) == 0
  {
    if n != 0 {
      NothingSent(n - 1);
    }
  }

  lemma {:induction false} DataSendsBound(t: Trace, n: nat)
    requires forall f :: Sends(t, f) <= Limit(f)
    ensures DataSends(t, n) <= 5 * n
  {
    if n != 0 {
      DataSendsBound(t, n - 1);
      assert Sends(t, Data(n - 1)) <= Limit(Data(n - 1));
    }
  }

  /** However the device answers, the transfer is finite: at most five tries per frame,
      at most one more frame after stop, at most two ETX. */
  lemma {:induction false} Bounds(t: Trace, n: nat)
    requires Safe(t, n)
    ensures Total(t) <= 5 + 5 * n + 5
    ensures TotalAfterStop(t) <= 1
    ensures Sends(t, Etx) <= 2
  {
    TotalIsSum(t, n);
    DataSendsBound(t, n);
    assert Sends(t, Start) <= Limit(Start) && Sends(t, Eot) <= Limit(Eot) && Sends(t, Etx) <= Limit(Etx);
    AtMostOneAfterStop(t, n);
  }

  lemma {:induction false} AtMostOneAfterStop(t: Trace, n: nat)
    requires Safe(t, n)
    ensures TotalAfterStop(t) <= 1
    ensures !Stopped(t) || t.e.Stop? ==> TotalAfterStop(t) == 0
  {
    if t.Then? {
      AtMostOneAfterStop(t.before, n);
    }
  }

  /** An abort comes only after stop, between acting on the device's `C` and acting on
      its EOT acknowledgement, and it ends the transfer: no other frame follows. */
  lemma {:induction false} AbortWindow(t: Trace, n: nat)
    requires Safe(t, n) && Sends(t, Etx) > 0
    ensures Stopped(t) && ActedOn(t, Start) && !ActedOn(t, Eot)
    ensures LastSent(t) == Some(Etx)
    ensures Tries(t, Etx) > 0
  {
    if t.e.Sent? && t.e.f == Etx {
    } else {
      AbortWindow(t.before, n);
    }
  }

  // ---------------------------------------------------------------------------
  // Stop
  // ---------------------------------------------------------------------------

  lemma {:induction false} NoStop(t: Trace, n: nat)
    requires Safe(t, n) && !Stopped(t)
    ensures TotalAfterStop(t) == 0 && Sends(t, Etx) == 0 && Tries(t, Etx) == 0
  {
    if t.Then? {
      NoStop(t.before, n);
    }
  }

  predicate Continues(b: Trace, t: Trace) {
    t == b || (t.Then? && Continues(b, t.before))
  }

  lemma {:induction false} ActedStays(b: Trace, t: Trace, f: Frame)
    requires Continues(b, t) && ActedOn(b, f)
    ensures ActedOn(t, f)
  {
    if t != b {
      ActedStays(b, t.before, f);
    }
  }

  /** The run goes on from `b` to `t` and an abort goes out. */
  ghost predicate Aborts(b: Trace, t: Trace, n: nat) {
    Continues(b, t) && Safe(t, n) && Sends(t, Etx) > 0
  }

  /** Once the device has acknowledged EOT an abort can still follow exactly if the sender
      has not acted on that answer, because stop came first. */
  lemma AbortAfterEotAnswer(t: Trace, n: nat)
    requires Safe(t, n) && Heard(t, Eot) && Tries(t, Etx) == 0
    ensures !ActedOn(t, Eot) <==> Stopped(t) && Dropped(t, Eot)
    ensures !ActedOn(t, Eot) <==> exists t' :: Aborts(t, t', n)
  {
    HeardIsActedOrDropped(t, n, Eot);
    OneByOne(t, n);
    if ActedOn(t, Eot) {
      forall t' | Aborts(t, t', n)
        ensures false
      {
        ActedStays(t, t', Eot);
        AbortWindow(t', n);
      }
    } else {
      HeardWasSent(t, n, Eot);
      AbortNow(t, n);
      assert Aborts(t, Then(t, Sent(Etx, Lost)), n);
    }
  }

  lemma AbortNow(t: Trace, n: nat)
    requires Safe(t, n) && Dropped(t, Eot) && Tries(t, Etx) == 0 && ActedOn(t, Start) && !ActedOn(t, Eot)
    ensures Aborts(t, Then(t, Sent(Etx, Lost)), n)
  {
    hide Dropped;
    DroppedIsLast(t, n);
    SendsWereTried(t, Etx);
    OneByOne(t, n);
    assert Pending(t).None? && MayTry(t, Etx, n);
    hide MayTry;
    var t' := Then(t, Sent(Etx, Lost));
    assert Allowed(t, t'.e, n) && Continues(t, t');
  }

  lemma {:induction false} SendsWereTried(t: Trace, f: Frame)
    ensures Sends(t, f) <= Tries(t, f)
  {
    if t.Then? {
      SendsWereTried(t.before, f);
    }
  }

  /** Nothing but an abort follows an answer that was dropped. */
  lemma {:induction false} DroppedIsLast(t: Trace, n: nat)
    requires Safe(t, n) && Dropped(t, Eot) && Tries(t, Etx) == 0
    ensures t.e.Answer? && Stopped(t) && !GaveUp(t)
  {
    if t.e == Answer(Eot, Match, false) {
      NotGivenUp(t.before, n);
    } else {
      DroppedIsLast(t.before, n);
    }
  }

  /** While an answer is awaited the device has not cancelled. */
  lemma {:induction false} NotGivenUp(t: Trace, n: nat)
    requires Safe(t, n) && Pending(t).Some?
    ensures !GaveUp(t)
  {
    if !t.e.Sent? {
      NotGivenUp(t.before, n);
    }
  }

  /** Such a run exists wherever EOT has just gone out. */
  lemma AbortAfterEotHappens(b: Trace, n: nat)
    requires Safe(b, n) && Pending(b) == Some(Eot) && !Stopped(b)
    ensures var t := Then(Then(Then(b, Stop), Answer(Eot, Match, false)), Sent(Etx, Intact));
            Safe(t, n) && Heard(t, Eot) && Sends(t, Etx) == 1
  {
    OneByOne(b, n);
    NoStop(b, n);
    NotGivenUp(b, n);
    var t1 := Then(b, Stop);
    assert Safe(t1, n) && Sends(t1, Etx) == 0 && Tries(t1, Etx) == 0;
    var t2 := Then(t1, Answer(Eot, Match, false));
    assert Safe(t2, n) && ActedOn(t2, Start) && !ActedOn(t2, Eot) && !GaveUp(t2);
    assert Sends(t2, Etx) == 0 && Tries(t2, Etx) == 0;
  }

  predicate Dropped(t: Trace, f: Frame) {
    t.Then? && (t.e == Answer(f, Match, false) || Dropped(t.before, f))
  }

  lemma {:induction false} HeardIsActedOrDropped(t: Trace, n: nat, f: Frame)
    requires Safe(t, n)
    ensures Heard(t, f) <==> ActedOn(t, f) || Dropped(t, f)
    ensures Dropped(t, f) && f != Etx ==> Stopped(t) && !ActedOn(t, f)
  {
    if t.Then? {
      HeardIsActedOrDropped(t.before, n, f);
      OneByOne(t.before, n);
    }
  }

  lemma {:induction false} HeardWasSent(t: Trace, n: nat, f: Frame)
    requires Safe(t, n) && Heard(t, f)
    ensures Sends(t, f) > 0
  {
    OneByOne(t.before, n);
    if !(t.e.Answer? && t.e.f == f && t.e.r == Match) {
      HeardWasSent(t.before, n, f);
    }
  }
}
