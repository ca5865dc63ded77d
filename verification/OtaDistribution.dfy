/** Choosing which of the 16 distribution slots of registers 720..768 reports on the
    current firmware, after the Bluetooth transfer is over. */
module OtaDistribution {
  import opened Crc16
  import opened OtaPackets

  const SLOTS := 16
  const REGISTERS := 49

  datatype Progress = Progress(percent: nat, errorCode: nat, depth: nat, slot: nat)

  /** Slot `i`: a state word, a file word and a percentage word. */
  function Base(i: nat): nat { 1 + i * 3 }

  function FileType(values: seq<bv16>, i: nat): nat
    requires |values| >= REGISTERS && i < SLOTS
  {
    High(values[Base(i) + 1]) as nat
  }

  function Depth(values: seq<bv16>, i: nat): nat
    requires |values| >= REGISTERS && i < SLOTS
  {
    var stateDepth, fileDepth := Low(values[Base(i)]) as nat, Low(values[Base(i) + 1]) as nat;
    if stateDepth != 0 then stateDepth else fileDepth
  }

  /** An active slot outranks an inactive one, then a slot that is distributing, then
      one that reports an error, then higher progress. */
  function Score(values: seq<bv16>, i: nat): nat
    requires |values| >= REGISTERS && i < SLOTS
  {
    (High(values[Base(i) + 2]) as nat)
    + (if High(values[Base(i)]) == 1 then 1000 else 0)
    + (if Depth(values, i) == 1 || Depth(values, i) == 2 then 200 else 0)
    + (if Low(values[Base(i) + 2]) != 0 then 100 else 0)
  }

  function Report(values: seq<bv16>, i: nat): (p: Progress)
    requires |values| >= REGISTERS && i < SLOTS
    ensures p.slot == i && p.percent <= 100
    ensures p.percent == 100 || p.percent == High(values[3 * i + 3]) as nat
    ensures p.errorCode == Low(values[3 * i + 3]) as nat
    ensures p.depth == Low(values[3 * i + 1]) as nat || p.depth == Low(values[3 * i + 2]) as nat
  {
    hide High, Low;
    var percent := High(values[Base(i) + 2]) as nat;
    Progress(if percent < 100 then percent else 100, Low(values[Base(i) + 2]) as nat, Depth(values, i), i)
  }

  /** The first best-ranked slot of the right file type among the first `n`, or -1. */
  function Best(values: seq<bv16>, firmwareType: nat, n: nat): (b: int)
    requires |values| >= REGISTERS && n <= SLOTS
    ensures -1 <= b < n
  {
    if n == 0 then -1
    else
      var b := Best(values, firmwareType, n - 1);
      if FileType(values, n - 1) == firmwareType && (b == -1 || Score(values, n - 1) > Score(values, b)) then n - 1
      else b
  }

  function Picked(values: seq<bv16>, firmwareType: nat, locked: int): (p: Option<Progress>)
    ensures p.Some? ==> p.value.percent <= 100
  {
    if |values| < REGISTERS then None
    else if 0 <= locked < SLOTS then Some(Report(values, locked))
    else
      var b := Best(values, firmwareType, SLOTS);
      if b == -1 then None else Some(Report(values, b))
  }

  /** A slot once locked stays, whatever it holds; otherwise the first best-ranked slot of
      the right file type is reported, if there is one. */
  method PickDistributionSlot(values: seq<bv16>, firmwareType: nat, locked: int)
    returns (r: Option<Progress>)
    ensures r == Picked(values, firmwareType, locked)
    ensures |values| < REGISTERS ==> r.None?
    ensures |values| >= REGISTERS && 0 <= locked < SLOTS ==> r == Some(Report(values, locked))
    ensures |values| >= REGISTERS && !(0 <= locked < SLOTS) ==>
      (r.None? <==> forall i :: 0 <= i < SLOTS ==> FileType(values, i) != firmwareType)
    ensures |values| >= REGISTERS && !(0 <= locked < SLOTS) && r.Some? ==>
      var s := r.value.slot;
      && s < SLOTS && FileType(values, s) == firmwareType && r.value == Report(values, s)
      && forall i :: 0 <= i < SLOTS && FileType(values, i) == firmwareType ==>
           (if i < s then Score(values, i) < Score(values, s) else Score(values, i) <= Score(values, s))
  {
    hide High, Low, Depth, Report;
    if |values| < REGISTERS {
      return None;
    }
    var selected := locked;
    if !(0 <= selected < SLOTS) {
      var best: int, bestScore: int := -1, -1;
      for index := 0 to SLOTS
        invariant best == -1 ==> bestScore == -1
        invariant best == Best(values, firmwareType, index)
        invariant best == -1 <==> forall i :: 0 <= i < index ==> FileType(values, i) != firmwareType
        invariant best != -1 ==>
          0 <= best < index && FileType(values, best) == firmwareType && bestScore == Score(values, best)
        invariant best != -1 ==> forall i :: 0 <= i < index && FileType(values, i) == firmwareType ==>
          (if i < best then Score(values, i) < bestScore else Score(values, i) <= bestScore)
      {
        if FileType(values, index) == firmwareType {
          var score := Score(values, index);
          if score > bestScore {
            bestScore := score;
            best := index;
          }
        }
      }
      selected := best;
    }
    if !(0 <= selected < SLOTS) {
      return None;
    }
    if FileType(values, selected) != firmwareType && locked < 0 {
      return None;
    }
    r := Some(Report(values, selected));
  }

  predicate Active(values: seq<bv16>, i: nat)
    requires |values| >= REGISTERS && i < SLOTS
  {
    High(values[3 * i + 1]) == 1
  }

  predicate Distributing(values: seq<bv16>, i: nat)
    requires |values| >= REGISTERS && i < SLOTS
  {
    var d := if Low(values[3 * i + 1]) as nat != 0 then Low(values[3 * i + 1]) else Low(values[3 * i + 2]);
    d as nat == 1 || d as nat == 2
  }

  function Percent(values: seq<bv16>, i: nat): nat
    requires |values| >= REGISTERS && i < SLOTS
  {
    High(values[3 * i + 3]) as nat
  }

  predicate Faulty(values: seq<bv16>, i: nat)
    requires |values| >= REGISTERS && i < SLOTS
  {
    Low(values[3 * i + 3]) as nat != 0
  }

  /** What the pick means: no slot of the type is active unless the one picked is; among slots
      alike in that, one that distributes is passed over only for 100 % more progress at least, one
      with an error likewise if they also agree on the former, and if they agree on both for no
      less. */
  lemma Ranking(values: seq<bv16>, firmwareType: nat, i: nat)
    requires |values| >= REGISTERS && i < SLOTS && High(values[3 * i + 2]) as nat == firmwareType
    ensures var p := Picked(values, firmwareType, -1);
            && p.Some?
            && var s := p.value.slot;
               && s < SLOTS && High(values[3 * s + 2]) as nat == firmwareType
               && (Active(values, i) ==> Active(values, s))
               && (Active(values, i) == Active(values, s) ==>
                     && (Distributing(values, i) && !Distributing(values, s) ==>
                           Percent(values, s) >= Percent(values, i) + 100)
                     && (Distributing(values, i) == Distributing(values, s) ==>
                           && (Faulty(values, i) && !Faulty(values, s) ==>
                                 Percent(values, s) >= Percent(values, i) + 100)
                           && (Faulty(values, i) == Faulty(values, s) ==> Percent(values, s) >= Percent(values, i))))
  {
    assert FileType(values, i) == High(values[3 * i + 2]) as nat;
    BestIs(values, firmwareType, SLOTS, i);
    var s := Picked(values, firmwareType, -1).value.slot;
    ScoreIs(values, i);
    ScoreIs(values, s);
    PercentFits(values, i);
    PercentFits(values, s);
    assert FileType(values, s) == High(values[3 * s + 2]) as nat;
    hide Score, Picked, Best, FileType, Percent, Faulty, Distributing, Active, High;
  }

  lemma {:induction false} BestIs(values: seq<bv16>, firmwareType: nat, n: nat, i: nat)
    requires |values| >= REGISTERS && i < n <= SLOTS && FileType(values, i) == firmwareType
    ensures var b := Best(values, firmwareType, n);
            0 <= b < SLOTS && FileType(values, b) == firmwareType && Score(values, i) <= Score(values, b)
  {
    hide Score, FileType;
    if i < n - 1 {
      BestIs(values, firmwareType, n - 1, i);
    } else if Best(values, firmwareType, n - 1) != -1 {
      BestHasType(values, firmwareType, n - 1);
    }
  }

  lemma {:induction false} BestHasType(values: seq<bv16>, firmwareType: nat, n: nat)
    requires |values| >= REGISTERS && n <= SLOTS && Best(values, firmwareType, n) != -1
    ensures FileType(values, Best(values, firmwareType, n)) == firmwareType
  {
    hide Score, FileType;
    if Best(values, firmwareType, n) != n - 1 {
      BestHasType(values, firmwareType, n - 1);
    }
  }

  lemma ScoreIs(values: seq<bv16>, i: nat)
    requires |values| >= REGISTERS && i < SLOTS
    ensures Score(values, i) == Percent(values, i) + (if Active(values, i) then 1000 else 0)
                                + (if Distributing(values, i) then 200 else 0) + (if Faulty(values, i) then 100 else 0)
  {
    hide High, Low;
    assert Low(values[3 * i + 3]) as nat == 0 <==> Low(values[3 * i + 3]) == 0;
  }

  lemma PercentFits(values: seq<bv16>, i: nat)
    requires |values| >= REGISTERS && i < SLOTS
    ensures Percent(values, i) < 256
  {
    hide High;
  }

  // ---------------------------------------------------------------------------
  // Watching the distribution
  // ---------------------------------------------------------------------------

  const STALL := 90

  datatype Verdict = Success | Failure

  /** One poll: the time before it, the registers if they could be read, and the time after. */
  datatype Reading = Reading(before: int, values: Option<seq<bv16>>, later: int)

  /** The slot locked on, the last report, and when patience ends. */
  datatype Watch = Watch(locked: int, percent: int, depth: int, slot: int, deadline: int)

  function NewWatch(now: int): Watch { Watch(-1, -1, -1, -1, now + STALL) }

  predicate Changed(w: Watch, p: Progress) {
    p.percent != w.percent || p.depth != w.depth || p.slot != w.slot
  }

  /** A report that differs from the last one renews the patience. */
  function Noted(w: Watch, p: Progress, later: int): Watch {
    if Changed(w, p) then Watch(p.slot, p.percent, p.depth, p.slot, later + STALL) else w.(locked := p.slot)
  }

  function Look(w: Watch, r: Reading, firmwareType: nat): (Watch, Option<Verdict>) {
    if r.before >= w.deadline then (w, Some(Failure))
    else if r.values.None? || Picked(r.values.value, firmwareType, w.locked).None? then (w, None)
    else
      var p := Picked(r.values.value, firmwareType, w.locked).value;
      (Noted(w, p, r.later),
       if p.errorCode != 0 then Some(Failure) else if p.percent >= 100 then Some(Success) else None)
  }

  function Judged(w: Watch, readings: seq<Reading>, firmwareType: nat): Option<Verdict>
    decreases |readings|
  {
    if readings == [] then None
    else
      var (w', v) := Look(w, readings[0], firmwareType);
      if v.Some? then v else Judged(w', readings[1..], firmwareType)
  }

  /** The watch after the first `n` polls. */
  function WatchAt(w: Watch, readings: seq<Reading>, firmwareType: nat, n: nat): Watch
    requires n <= |readings|
  {
    if n == 0 then w else Look(WatchAt(w, readings, firmwareType, n - 1), readings[n - 1], firmwareType).0
  }

  /** Success means that some poll in time reported 100 % without an error. */
  lemma {:induction false} SuccessWasReported(w: Watch, readings: seq<Reading>, firmwareType: nat) returns (i: nat)
    requires Judged(w, readings, firmwareType) == Some(Success)
    ensures i < |readings| && readings[i].values.Some?
    ensures var u := WatchAt(w, readings, firmwareType, i);
            var p := Picked(readings[i].values.value, firmwareType, u.locked);
            readings[i].before < u.deadline && p.Some? && p.value.percent == 100 && p.value.errorCode == 0
    decreases |readings|
  {
    hide Picked;
    var (w', v) := Look(w, readings[0], firmwareType);
    if v.Some? {
      i := 0;
    } else {
      var j := SuccessWasReported(w', readings[1..], firmwareType);
      i := j + 1;
      WatchShift(w, readings, firmwareType, j);
    }
  }

  lemma {:induction false} WatchShift(w: Watch, readings: seq<Reading>, firmwareType: nat, n: nat)
    requires n < |readings|
    ensures WatchAt(Look(w, readings[0], firmwareType).0, readings[1..], firmwareType, n)
         == WatchAt(w, readings, firmwareType, n + 1)
  {
    hide Look;
    if n != 0 {
      WatchShift(w, readings, firmwareType, n - 1);
    }
  }

  /** The poll comes in time and reports something new. */
  predicate Renews(w: Watch, r: Reading, firmwareType: nat) {
    && r.before < w.deadline && r.values.Some?
    && var p := Picked(r.values.value, firmwareType, w.locked); p.Some? && Changed(w, p.value)
  }

  lemma LookRenews(w: Watch, r: Reading, firmwareType: nat)
    ensures Look(w, r, firmwareType).0.deadline == if Renews(w, r, firmwareType) then r.later + STALL else w.deadline
  {
    hide Picked;
  }

  predicate RenewsAt(w: Watch, readings: seq<Reading>, firmwareType: nat, i: nat)
    requires i < |readings|
  {
    Renews(WatchAt(w, readings, firmwareType, i), readings[i], firmwareType)
  }

  /** The latest report before poll `n`. */
  function LastShown(w: Watch, readings: seq<Reading>, firmwareType: nat, n: nat): Option<Progress>
    requires n <= |readings|
  {
    if n == 0 then None
    else
      var u, r := WatchAt(w, readings, firmwareType, n - 1), readings[n - 1];
      if r.before < u.deadline && r.values.Some? && Picked(r.values.value, firmwareType, u.locked).Some?
      then Picked(r.values.value, firmwareType, u.locked)
      else LastShown(w, readings, firmwareType, n - 1)
  }

  lemma {:induction false} WatchShows(now: int, readings: seq<Reading>, firmwareType: nat, n: nat)
    requires n <= |readings|
    ensures var u, last := WatchAt(NewWatch(now), readings, firmwareType, n),
                           LastShown(NewWatch(now), readings, firmwareType, n);
            if last.None? then u.percent == u.depth == u.slot == u.locked == -1
            else u.percent == last.value.percent && u.depth == last.value.depth
                 && u.slot == u.locked == last.value.slot
  {
    hide Picked;
    if n != 0 {
      WatchShows(now, readings, firmwareType, n - 1);
    }
  }

  /** A poll renews the patience exactly if it comes in time with the first report, or with one
      that differs from the one before in percentage, depth or slot. */
  lemma RenewsIff(now: int, readings: seq<Reading>, firmwareType: nat, n: nat)
    requires n < |readings|
    ensures var u, r := WatchAt(NewWatch(now), readings, firmwareType, n), readings[n];
            var last := LastShown(NewWatch(now), readings, firmwareType, n);
            RenewsAt(NewWatch(now), readings, firmwareType, n) <==>
              && r.before < u.deadline && r.values.Some?
              && var p := Picked(r.values.value, firmwareType, u.locked);
                 && p.Some?
                 && (last.None? || p.value.percent != last.value.percent || p.value.depth != last.value.depth
                     || p.value.slot != last.value.slot)
  {
    hide Picked, WatchAt, LastShown;
    WatchShows(now, readings, firmwareType, n);
  }

  /** Patience ends 90 seconds after the last report that changed, and never earlier than 90
      seconds after any that did. */
  lemma {:induction false} PatienceLasts(w: Watch, readings: seq<Reading>, firmwareType: nat, j: nat, n: nat)
    requires j < n <= |readings| && RenewsAt(w, readings, firmwareType, j)
    ensures (forall b :: j < b < n ==> !RenewsAt(w, readings, firmwareType, b)) ==>
      WatchAt(w, readings, firmwareType, n).deadline == readings[j].later + STALL
    ensures (forall b :: j <= b < n ==> readings[j].later <= readings[b].later) ==>
      WatchAt(w, readings, firmwareType, n).deadline >= readings[j].later + STALL
  {
    hide Renews, Look;
    LookRenews(WatchAt(w, readings, firmwareType, n - 1), readings[n - 1], firmwareType);
    var last := RenewsAt(w, readings, firmwareType, n - 1);
    if j + 1 < n {
      PatienceLasts(w, readings, firmwareType, j, n - 1);
    }
  }

  /** In time, and neither an error nor 100 %. */
  predicate Undecided(w: Watch, r: Reading, firmwareType: nat) {
    && r.before < w.deadline
    && (r.values.Some? ==>
          var p := Picked(r.values.value, firmwareType, w.locked);
          p.Some? ==> p.value.errorCode == 0 && p.value.percent < 100)
  }

  /** There is no verdict yet if and only if every poll began before the deadline then in force
      and reported neither an error nor 100 %. */
  lemma {:induction false} UnjudgedIff(w: Watch, readings: seq<Reading>, firmwareType: nat)
    ensures Judged(w, readings, firmwareType).None? <==>
            forall i :: 0 <= i < |readings| ==>
              Undecided(WatchAt(w, readings, firmwareType, i), readings[i], firmwareType)
    decreases |readings|
  {
    hide Picked;
    if readings != [] {
      var w' := Look(w, readings[0], firmwareType).0;
      var rest := readings[1..];
      UnjudgedIff(w', rest, firmwareType);
      forall i | 0 <= i < |rest|
        ensures WatchAt(w', rest, firmwareType, i) == WatchAt(w, readings, firmwareType, i + 1)
      {
        WatchShift(w, readings, firmwareType, i);
      }
      assert WatchAt(w, readings, firmwareType, 0) == w;
      if Judged(w, readings, firmwareType).None? {
        forall i | 0 <= i < |readings|
          ensures Undecided(WatchAt(w, readings, firmwareType, i), readings[i], firmwareType)
        {
          assert i > 0 ==> readings[i] == rest[i - 1];
        }
      } else if Undecided(w, readings[0], firmwareType) {
        var i :| 0 <= i < |rest| && !Undecided(WatchAt(w', rest, firmwareType, i), rest[i], firmwareType);
        assert !Undecided(WatchAt(w, readings, firmwareType, i + 1), readings[i + 1], firmwareType);
      }
    }
  }

  /** The first poll that is not undecided. */
  ghost predicate Decisive(w: Watch, readings: seq<Reading>, firmwareType: nat, i: nat)
    requires i < |readings|
  {
    && !Undecided(WatchAt(w, readings, firmwareType, i), readings[i], firmwareType)
    && forall j :: 0 <= j < i ==> Undecided(WatchAt(w, readings, firmwareType, j), readings[j], firmwareType)
  }

  /** In time, and on a slot that reads 100 % or more and no error. */
  ghost predicate Completed(w: Watch, readings: seq<Reading>, firmwareType: nat, i: nat)
    requires i < |readings|
  {
    var u, r := WatchAt(w, readings, firmwareType, i), readings[i];
    && r.before < u.deadline && r.values.Some?
    && var p := Picked(r.values.value, firmwareType, u.locked);
       && p.Some?
       && High(r.values.value[3 * p.value.slot + 3]) as nat >= 100
       && Low(r.values.value[3 * p.value.slot + 3]) as nat == 0
  }

  /** That poll decides: success if it shows 100 % without an error in time, failure otherwise. */
  lemma {:induction false} DecisiveDecides(w: Watch, readings: seq<Reading>, firmwareType: nat, i: nat)
    requires i < |readings| && Decisive(w, readings, firmwareType, i)
    ensures Judged(w, readings, firmwareType)
         == Some(if Completed(w, readings, firmwareType, i) then Success else Failure)
    decreases |readings|
  {
    hide Picked;
    var w' := Look(w, readings[0], firmwareType).0;
    var rest := readings[1..];
    if i == 0 {
      CompletedShows(w, readings[0], firmwareType);
      hide High, Low;
      assert WatchAt(w, readings, firmwareType, 0) == w;
    } else {
      assert Undecided(WatchAt(w, readings, firmwareType, 0), readings[0], firmwareType);
      forall j | 0 <= j < |rest|
        ensures WatchAt(w', rest, firmwareType, j) == WatchAt(w, readings, firmwareType, j + 1)
        ensures rest[j] == readings[j + 1]
      {
        WatchShift(w, readings, firmwareType, j);
      }
      hide Undecided;
      DecisiveDecides(w', rest, firmwareType, i - 1);
    }
  }

  /** What a report says of its slot. */
  lemma CompletedShows(w: Watch, r: Reading, firmwareType: nat)
    ensures r.values.Some? && Picked(r.values.value, firmwareType, w.locked).Some? ==>
      var p, values := Picked(r.values.value, firmwareType, w.locked).value, r.values.value;
      && |values| >= REGISTERS && p.slot < SLOTS
      && (p.percent >= 100 <==> High(values[3 * p.slot + 3]) as nat >= 100)
      && p.errorCode == Low(values[3 * p.slot + 3]) as nat
  {
    hide High, Low, Depth, Best;
  }

  /** Polls a second apart that find `a` and `b` in turn. */
  function Flicker(a: seq<bv16>, b: seq<bv16>, now: int, n: nat): seq<Reading> {
    seq(n, i => Reading(now + i, Some(if i % 2 == 0 then a else b), now + i))
  }

  /** What the `i`-th of those polls reports on slot `s`. */
  function Shown(a: seq<bv16>, b: seq<bv16>, s: nat, i: nat): Progress
    requires |a| >= REGISTERS && |b| >= REGISTERS && s < SLOTS
  {
    Report(if i % 2 == 0 then a else b, s)
  }

  /** Two reports on the slot picked that differ, without an error and short of 100 %. */
  ghost predicate Restless(a: seq<bv16>, b: seq<bv16>, firmwareType: nat, s: nat) {
    && |a| >= REGISTERS && |b| >= REGISTERS && s < SLOTS && Picked(a, firmwareType, -1) == Some(Report(a, s))
    && Report(a, s).errorCode == 0 && Report(b, s).errorCode == 0
    && Report(a, s).percent < 100 && Report(b, s).percent < 100
    && Report(a, s) != Report(b, s)
  }

  /** A device whose report keeps changing is polled for ever, however little it gets done. */
  lemma EndlessPolls(a: seq<bv16>, b: seq<bv16>, firmwareType: nat, s: nat, now: int, n: nat)
    requires Restless(a, b, firmwareType, s)
    ensures Judged(NewWatch(now), Flicker(a, b, now, n), firmwareType).None?
  {
    hide Report;
    var w, readings := NewWatch(now), Flicker(a, b, now, n);
    forall i | 0 <= i < n
      ensures Undecided(WatchAt(w, readings, firmwareType, i), readings[i], firmwareType)
    {
      FlickerRenews(a, b, firmwareType, s, now, n, i);
      FlickerPicks(a, b, firmwareType, s, i);
      hide Picked, WatchAt;
    }
    UnjudgedIff(w, readings, firmwareType);
  }

  lemma FlickerPicks(a: seq<bv16>, b: seq<bv16>, firmwareType: nat, s: nat, i: nat)
    requires Restless(a, b, firmwareType, s)
    ensures Picked(if i % 2 == 0 then a else b, firmwareType, if i == 0 then -1 else s) == Some(Shown(a, b, s, i))
  {
    hide Report;
  }

  lemma LookNotes(w: Watch, r: Reading, firmwareType: nat, p: Progress)
    requires r.before < w.deadline && r.values.Some? && Picked(r.values.value, firmwareType, w.locked) == Some(p)
    requires Changed(w, p)
    ensures Look(w, r, firmwareType).0 == Watch(p.slot, p.percent, p.depth, p.slot, r.later + STALL)
  {
    hide Picked;
  }

  /** Each of those polls renews the patience. */
  lemma {:induction false} FlickerRenews(
      a: seq<bv16>, b: seq<bv16>, firmwareType: nat, s: nat, now: int, n: nat, i: nat)
    requires i <= n && Restless(a, b, firmwareType, s)
    ensures WatchAt(NewWatch(now), Flicker(a, b, now, n), firmwareType, i)
         == if i == 0 then NewWatch(now)
            else
              var p := Shown(a, b, s, i - 1);
              Watch(s, p.percent, p.depth, s, now + i - 1 + STALL)
  {
    hide Picked, Report, Look;
    if i != 0 {
      FlickerRenews(a, b, firmwareType, s, now, n, i - 1);
      FlickerPicks(a, b, firmwareType, s, i - 1);
      LookNotes(WatchAt(NewWatch(now), Flicker(a, b, now, n), firmwareType, i - 1), Flicker(a, b, now, n)[i - 1],
                firmwareType, Shown(a, b, s, i - 1));
    }
  }
}
