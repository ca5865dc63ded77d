/** The black-box log of the communication module: a circular file of fixed-size
    records with a write index and a saved count, read back incrementally by
    timestamp. The record file is an array of `N` slots; every call into the file
    system, the allocator or the lock is an outcome chosen by the environment. */
module BlackBox {

  datatype Record = Record(curTime: nat, body: seq<int>)

  /** A queued message: only device 0 (the summary) is stored. */
  datatype Message = Message(devNum: nat, data: Record)

  // ---------------------------------------------------------------------------
  // The bounded list the file stands for
  // ---------------------------------------------------------------------------

  /** The last `n` elements of `s`, or all of them if there are fewer. */
  function Last<T>(s: seq<T>, n: nat): (r: seq<T>)
    ensures |r| == if |s| < n then |s| else n
  {
    if |s| <= n then s else s[|s| - n..]
  }

  /** The records of a file in logical order, oldest first. */
  function Unroll(file: seq<Record>, addr: nat, count: nat): (log: seq<Record>)
    requires addr <= |file| && count <= |file|
    ensures |log| == count
  {
    if count < |file| then file[..count] else file[addr..] + file[..addr]
  }

  function CountNewer(s: seq<Record>, since: int): (n: nat)
    ensures n <= |s|
  {
    if s == [] then 0
    else CountNewer(s[..|s| - 1], since) + if s[|s| - 1].curTime > since then 1 else 0
  }

  ghost predicate Nondecreasing(s: seq<Record>) {
    forall i, j :: 0 <= i < j < |s| ==> s[i].curTime <= s[j].curTime
  }

  /** What an incremental read hands over when no operation fails. */
  function NewRecords(s: seq<Record>, since: int): seq<Record> {
    if since == 0 then s else s[|s| - CountNewer(s, since)..]
  }

  /** Where the newer records start is determined by one crossing in a sorted log. */
  lemma {:induction false} CountNewerAtCrossing(s: seq<Record>, since: int, first: nat)
    requires first <= |s|
    requires forall i :: 0 <= i < first ==> s[i].curTime <= since
    requires forall i :: first <= i < |s| ==> s[i].curTime > since
    ensures CountNewer(s, since) == |s| - first
  {
    if s == [] {
    } else if first == |s| {
      CountNewerAtCrossing(s[..|s| - 1], since, first - 1);
    } else {
      CountNewerAtCrossing(s[..|s| - 1], since, first);
    }
  }

  lemma ModWrap(a: nat, n: nat)
    requires 0 < n && a < 2 * n
    ensures a % n == if a < n then a else a - n
  {
    if a >= n {
      assert a == n * 1 + (a - n);
    }
  }

  /** Physical index of logical record `i`. */
  function Physical(oldest: nat, i: nat, n: nat): (p: nat)
    requires 0 < n
    ensures p < n
  {
    (oldest + i) % n
  }

  lemma PhysicalWraps(oldest: nat, i: nat, n: nat)
    requires oldest < n && i < n
    ensures Physical(oldest, i, n) == if oldest + i < n then oldest + i else oldest + i - n
  {
    ModWrap(oldest + i, n);
  }

  function Oldest(addr: nat, count: nat, n: nat): nat {
    if count < n then 0 else addr
  }

  ghost predicate Holds(file: seq<Record>, oldest: nat, log: seq<Record>)
    requires 0 < |file|
  {
    forall i :: 0 <= i < |log| ==> log[i] == file[Physical(oldest, i, |file|)]
  }

  /** Logical record `i` lives at physical index (oldest + i) mod N. */
  lemma UnrollHolds(file: seq<Record>, addr: nat, count: nat)
    requires addr < |file| && count <= |file|
    ensures Holds(file, Oldest(addr, count, |file|), Unroll(file, addr, count))
  {
    hide Physical;
    var oldest := Oldest(addr, count, |file|);
    forall i | 0 <= i < count
      ensures Unroll(file, addr, count)[i] == file[Physical(oldest, i, |file|)]
    {
      PhysicalWraps(oldest, i, |file|);
    }
  }

  /** The `count` records from physical index `p` on, around the end of the file. */
  function Range(file: seq<Record>, p: nat, count: nat): seq<Record>
    requires p < |file| && count <= |file|
  {
    if count <= |file| - p then file[p..p + count] else file[p..] + file[..count - (|file| - p)]
  }

  lemma UnrollAt(file: seq<Record>, addr: nat, saved: nat, i: nat)
    requires addr < |file| && saved <= |file| && i < saved
    ensures var o := Oldest(addr, saved, |file|) + i;
            Unroll(file, addr, saved)[i] == file[if o < |file| then o else o - |file|]
  {
  }

  lemma RangeAt(file: seq<Record>, p: nat, count: nat, k: nat)
    requires p < |file| && k < count <= |file|
    ensures |Range(file, p, count)| == count
    ensures Range(file, p, count)[k] == file[if p + k < |file| then p + k else p + k - |file|]
  {
  }

  /** The last `count` records of the log are the range from the first of them on. */
  lemma UnrollSuffix(file: seq<Record>, addr: nat, saved: nat, count: nat)
    requires addr < |file| && 0 < count <= saved <= |file|
    ensures var p := Physical(Oldest(addr, saved, |file|), saved - count, |file|);
            Last(Unroll(file, addr, saved), count) == Range(file, p, count)
  {
    hide Physical, Unroll, Range;
    var n, first := |file|, saved - count;
    var p := Physical(Oldest(addr, saved, n), first, n);
    PhysicalWraps(Oldest(addr, saved, n), first, n);
    var log := Unroll(file, addr, saved);
    RangeAt(file, p, count, 0);
    forall k | 0 <= k < count
      ensures log[first..][k] == Range(file, p, count)[k]
    {
      UnrollAt(file, addr, saved, first + k);
      RangeAt(file, p, count, k);
    }
  }

  /** Writing slot `addr` of the file appends to the bounded list. */
  lemma WriteAppends(file: seq<Record>, addr: nat, count: nat, written: seq<Record>, r: Record)
    requires addr < |file| && count <= |file|
    requires count < |file| ==> addr == count == |written|
    requires count == |file| ==> |written| >= |file|
    requires Unroll(file, addr, count) == Last(written, |file|)
    ensures var addr' := if addr + 1 >= |file| then 0 else addr + 1;
            var count' := if count == |file| || addr + 1 >= |file| then |file| else addr + 1;
            Unroll(file[addr := r], addr', count') == Last(written + [r], |file|)
  {
    var n := |file|;
    var addr' := if addr + 1 >= n then 0 else addr + 1;
    var count' := if count == n || addr + 1 >= n then n else addr + 1;
    var log, log' := Unroll(file, addr, count), Unroll(file[addr := r], addr', count');
    var want := Last(written + [r], n);
    assert |log'| == |want|;
    forall k | 0 <= k < |want|
      ensures log'[k] == want[k]
    {
      if k + 1 < |want| {
        assert want[k] == if count < n then log[k] else log[k + 1];
      }
    }
  }

  /** What the search returns: a true crossing on any log, the linear count on a
      sorted one, and 0 exactly when neither end of the log is newer. */
  ghost predicate Counted(s: seq<Record>, since: int, r: nat) {
    && r <= |s|
    && (since == 0 ==> r == |s|)
    && (since != 0 ==>
      && (0 < r ==> s[|s| - r].curTime > since)
      && (0 < r < |s| ==> s[|s| - r - 1].curTime <= since)
      && (r == 0 <==> s == [] || (s[0].curTime <= since && s[|s| - 1].curTime <= since))
      && (Nondecreasing(s) ==> r == CountNewer(s, since)))
  }

  lemma CountedAll(s: seq<Record>, since: int)
    ensures s == [] ==> Counted(s, since, 0)
    ensures since == 0 ==> Counted(s, since, |s|)
  {
  }

  /** In a sorted log a crossing is the linear count. */
  lemma CrossingCounts(s: seq<Record>, since: int, r: nat)
    requires since != 0 && s != [] && r <= |s|
    requires r < |s| ==> s[|s| - r - 1].curTime <= since
    requires 0 < r ==> s[|s| - r].curTime > since
    requires r == 0 <==> s[0].curTime <= since && s[|s| - 1].curTime <= since
    ensures Counted(s, since, r)
  {
    if Nondecreasing(s) {
      CountNewerAtCrossing(s, since, |s| - r);
    }
  }

  /** Finds the first newer record of `log` by halving; 0 if a read fails. The caller
      has found that the oldest record is not newer and the newest one is. */
  method Search(file: array<Record>, oldest: nat, count: nat, since: int, readOk: nat -> bool,
                ghost log: seq<Record>)
    returns (r: nat)
    requires 0 < file.Length && |log| == count > 0 && since != 0
    requires Holds(file[..], oldest, log)
    requires log[0].curTime <= since < log[count - 1].curTime
    ensures r <= count && (r == 0 || Counted(log, since, r))
    ensures (forall k: nat :: readOk(k)) ==> Counted(log, since, r)
  {
    var low, high := 0, count - 1;
    var first := -1;
    var nextRead := 2;
    while low <= high
      invariant 0 <= low <= high + 1 <= count
      invariant low > 0 ==> log[low - 1].curTime <= since
      invariant first == -1 ==> high == count - 1
      invariant first != -1 ==> first == high + 1 < count && log[first].curTime > since
      decreases high - low + 1
    {
      var mid := low + (high - low) / 2;
      var p := Physical(oldest, mid, file.Length);
      if !readOk(nextRead) {
        return 0;
      }
      nextRead := nextRead + 1;
      if file[p].curTime > since {
        first := mid;
        high := mid - 1;
      } else {
        low := mid + 1;
      }
    }
    if first == -1 {
      assert false;
    } else {
      CrossingCounts(log, since, count - first);
      r := count - first;
    }
  }

  /** On a sorted log, handing over the counted suffix is handing over the new records. */
  lemma CountedSuffixIsNew(log: seq<Record>, since: int, r: nat)
    requires Counted(log, since, r) && Nondecreasing(log)
    ensures Last(log, r) == NewRecords(log, since)
  {
  }

  /** Reads the `count` records from physical index `p` on in one or two chunks. */
  method CopyRange(file: array<Record>, p: nat, count: nat, copy1Ok: bool, copy2Ok: bool)
    returns (ok: bool, buffer: seq<Record>)
    requires p < file.Length && 0 < count <= file.Length
    ensures ok <==> copy1Ok && (count <= file.Length - p || copy2Ok)
    ensures buffer == if ok then Range(file[..], p, count) else []
  {
    var spaceToEnd := file.Length - p;
    if count <= spaceToEnd {
      if !copy1Ok {
        return false, [];
      }
      buffer := file[p..p + count];
    } else {
      var cnt1 := spaceToEnd;
      var cnt2 := count - cnt1;
      if !copy1Ok {
        return false, [];
      }
      buffer := file[p..p + cnt1];
      if !copy2Ok {
        return false, [];
      }
      buffer := buffer + file[..cnt2];
    }
    ok := true;
  }

  // ---------------------------------------------------------------------------
  // Whole runs: a reader that always asks from the newest timestamp it has
  // ---------------------------------------------------------------------------

  /** `Read(false)` is a read that hands nothing over, whether it reports -1 or,
      after a failed single-record read, success with an empty result. */
  datatype Op = Write(r: Record) | Clear | Read(ok: bool)

  /** `base`: how many records had been written at the last clear. */
  datatype System = System(written: seq<Record>, base: nat, received: seq<Record>) {
    ghost predicate Ok() { base <= |written| }
  }

  function Available(n: nat, s: System): seq<Record>
    requires s.Ok()
  {
    Last(s.written[s.base..], n)
  }

  function Since(received: seq<Record>): int {
    if received == [] then 0 else received[|received| - 1].curTime
  }

  function Step(n: nat, s: System, op: Op): (s': System)
    requires s.Ok()
    ensures s'.Ok()
  {
    match op
    case Write(r) => s.(written := s.written + [r])
    case Clear => s.(base := |s.written|)
    case Read(ok) =>
      if ok then s.(received := s.received + NewRecords(Available(n, s), Since(s.received))) else s
  }

  /** A run, latest operation outermost. */
  datatype History = Start | Then(before: History, op: Op)

  function Run(n: nat, h: History): (s: System)
    ensures s.Ok()
  {
    match h
    case Start => System([], 0, [])
    case Then(before, op) => Step(n, Run(n, before), op)
  }

  /** Written records are stamped with positive, strictly increasing times. */
  ghost predicate Ticking(s: seq<Record>) {
    && (forall i :: 0 <= i < |s| ==> s[i].curTime > 0)
    && (forall i, j :: 0 <= i < j < |s| ==> s[i].curTime < s[j].curTime)
  }

  /** How many records had been written when the reader last succeeded. */
  function Mark(n: nat, h: History): (k: nat)
    ensures k <= |Run(n, h).written|
  {
    match h
    case Start => 0
    case Then(before, op) => if op == Read(true) then |Run(n, before).written| else Mark(n, before)
  }

  /** At every successful read nothing written since the previous one was cleared, and
      at most `n` records were. A caller can check this before each read. */
  ghost predicate InTime(n: nat, h: History) {
    match h
    case Start => true
    case Then(before, op) =>
      && InTime(n, before)
      && (op == Read(true) ==>
            && Run(n, before).base <= Mark(n, before)
            && |Run(n, before).written| - Mark(n, before) <= n)
  }

  /** A read of a sorted window starting from the time of record `mark - 1` returns
      exactly the window's records at index `mark` and later. */
  lemma NewRecordsFromMark(w: seq<Record>, lo: nat, mark: nat, since: int)
    requires Ticking(w) && lo <= |w| && mark <= |w|
    requires since == Stamp(w, mark)
    ensures NewRecords(w[lo..], since) == w[if lo < mark then mark else lo..]
  {
    var s := w[lo..];
    var first := if lo < mark then mark - lo else 0;
    if mark != 0 {
      WindowCrossing(w, lo, mark, first);
      hide Ticking, CountNewer;
      assert s[first..] == w[lo + first..];
    }
  }

  /** In the window, the records from `mark` on are the newer ones. */
  lemma WindowCrossing(w: seq<Record>, lo: nat, mark: nat, first: nat)
    requires Ticking(w) && lo <= |w| && 0 < mark <= |w|
    requires first == if lo < mark then mark - lo else 0
    ensures w[mark - 1].curTime != 0
    ensures CountNewer(w[lo..], w[mark - 1].curTime) == |w| - lo - first
  {
    hide CountNewer;
    var s, since := w[lo..], w[mark - 1].curTime;
    forall i | 0 <= i < |s|
      ensures i < first <==> s[i].curTime <= since
    {
      assert s[i] == w[lo + i];
    }
    hide Ticking;
    CountNewerAtCrossing(s, since, first);
  }

  lemma TickingBefore(n: nat, h: History)
    requires h.Then? && Ticking(Run(n, h).written)
    ensures Run(n, h.before).written <= Run(n, h).written
    ensures Ticking(Run(n, h.before).written)
  {
    var w, w' := Run(n, h.before).written, Run(n, h).written;
    assert forall i :: 0 <= i < |w| ==> w[i] == w'[i];
  }

  /** Index of the oldest record still in the file. */
  function WindowStart(n: nat, s: System): (lo: nat)
    requires s.Ok()
    ensures s.base <= lo <= |s.written|
    ensures Available(n, s) == s.written[lo..]
  {
    if |s.written| - s.base <= n then s.base else |s.written| - n
  }

  /** The time a reader asks from when record `pos - 1` is the newest it has. */
  function Stamp(w: seq<Record>, pos: nat): int
    requires pos <= |w|
  {
    if pos == 0 then 0 else w[pos - 1].curTime
  }

  lemma PositionAfterRead(n: nat, s: System, pos: nat) returns (pos': nat)
    requires 0 < n && s.Ok() && Ticking(s.written)
    requires pos <= |s.written| && Since(s.received) == Stamp(s.written, pos)
    ensures pos' <= |s.written| && Since(Step(n, s, Read(true)).received) == Stamp(s.written, pos')
    ensures pos' == |s.written| || s.base == |s.written|
  {
    hide NewRecords, Available, Ticking;
    var lo := WindowStart(n, s);
    NewRecordsFromMark(s.written, lo, pos, Since(s.received));
    var from := if lo < pos then pos else lo;
    var received' := Step(n, s, Read(true)).received;
    assert received' == s.received + s.written[from..];
    if from < |s.written| {
      assert received'[|received'| - 1] == s.written[|s.written| - 1];
      pos' := |s.written|;
    } else {
      assert received' == s.received;
      pos' := pos;
    }
  }

  /** The timestamp a reader asks from is that of some record `pos - 1`, and nothing
      that is still in the file lies between `pos` and the reader's mark. */
  lemma {:induction false} ReaderPosition(n: nat, h: History) returns (pos: nat)
    requires 0 < n && Ticking(Run(n, h).written)
    ensures pos <= Mark(n, h)
    ensures Since(Run(n, h).received) == Stamp(Run(n, h).written, pos)
    ensures pos == Mark(n, h) || Mark(n, h) <= Run(n, h).base
  {
    hide Ticking, NewRecords, Available;
    match h
    case Start =>
      pos := 0;
    case Then(before, op) =>
      TickingBefore(n, h);
      pos := ReaderPosition(n, before);
      if op == Read(true) {
        pos := PositionAfterRead(n, Run(n, before), pos);
      }
  }

  /** A successful read hands over exactly the records written since the previous
      successful read, minus those already cleared or overwritten, in order. */
  lemma ReadDelivers(n: nat, h: History)
    requires 0 < n && Ticking(Run(n, h).written)
    ensures var s := Run(n, h);
            var lo := WindowStart(n, s);
            var from := if lo < Mark(n, h) then Mark(n, h) else lo;
            Step(n, s, Read(true)).received == s.received + s.written[from..]
  {
    hide NewRecords, Available, Ticking;
    var s := Run(n, h);
    var pos := ReaderPosition(n, h);
    NewRecordsFromMark(s.written, WindowStart(n, s), pos, Since(s.received));
  }

  lemma Glue<T>(w: seq<T>, got: seq<T>, mark: nat, from: nat)
    requires |got| <= mark <= from <= |w|
    ensures got + w[from..] == w <==> got == w[..mark] && from == mark
  {
    if got + w[from..] == w {
      assert |got| + |w| - from == |w|;
      assert got == w[..mark];
    }
  }

  /** Incremental sync is exactly-once: over any interleaving of writes, clears and
      (failing or succeeding) reads the reader holds every record written up to its
      last successful read, once and in order, if and only if it always read in time. */
  lemma {:induction false} ExactlyOnce(n: nat, h: History)
    requires 0 < n && Ticking(Run(n, h).written)
    ensures |Run(n, h).received| <= Mark(n, h)
    ensures Run(n, h).received == Run(n, h).written[..Mark(n, h)] <==> InTime(n, h)
  {
    hide Ticking, NewRecords, Available;
    match h
    case Start =>
    case Then(before, op) =>
      TickingBefore(n, h);
      ExactlyOnce(n, before);
      var s := Run(n, before);
      if op == Read(true) {
        ReadDelivers(n, before);
        var lo, mark := WindowStart(n, s), Mark(n, before);
        Glue(s.written, s.received, mark, if lo < mark then mark else lo);
        assert s.written[..|s.written|] == s.written;
      } else {
        assert Run(n, h).written[..Mark(n, before)] == s.written[..Mark(n, before)];
      }
  }

  /** The records written since the last clear. */
  function Kept(n: nat, h: History): seq<Record> { Run(n, h).written[Run(n, h).base..] }

  lemma KeptAfter(n: nat, h: History, op: Op)
    ensures Kept(n, Then(h, op)) == match op
      case Write(r) => Kept(n, h) + [r]
      case Clear => []
      case Read(_) => Kept(n, h)
  {
    hide NewRecords, Available;
  }

  lemma WindowSorted(n: nat, s: System)
    requires s.Ok() && Ticking(s.written)
    ensures Nondecreasing(Available(n, s))
  {
    var lo := WindowStart(n, s);
    var window := s.written[lo..];
    assert Available(n, s) == window;
    hide Available, WindowStart;
    forall i, j | 0 <= i < j < |window|
      ensures window[i].curTime <= window[j].curTime
    {
      assert window[i] == s.written[lo + i] && window[j] == s.written[lo + j];
    }
  }

  // ---------------------------------------------------------------------------
  // The log as the object it is
  // ---------------------------------------------------------------------------

  class BoxLog {
    const N: nat
    const file: array<Record>
    var queue: seq<Message>
    var addrIndex: nat
    var saveCount: nat
    /** All records stored since the file was last removed. */
    ghost var written: seq<Record>
    /** All writes, clears and reads so far. */
    ghost var past: History

    ghost predicate Valid()
      reads this, file
    {
      && 0 < N <= 0xFFFF
      && file.Length == N
      && addrIndex < N && saveCount <= N
      && (saveCount < N ==> addrIndex == saveCount == |written|)
      && (saveCount == N ==> |written| >= N)
      && Contents() == Last(written, N)
      && written == Kept(N, past)
    }

    ghost function Contents(): seq<Record>
      requires addrIndex <= file.Length && saveCount <= file.Length
      reads this, file
    {
      Unroll(file[..], addrIndex, saveCount)
    }

    constructor (capacity: nat, blank: Record)
      requires 0 < capacity <= 0xFFFF
      ensures Valid() && N == capacity && fresh(file)
      ensures written == [] && queue == [] && past == Start
    {
      N := capacity;
      file := new Record[capacity](_ => blank);
      queue, addrIndex, saveCount, written, past := [], 0, 0, [], Start;
    }

    /** Moves one message from the queue to the file. A message of another device is
        dropped, and so is a message whose write fails; without the lock nothing moves. */
    method Pop(lockOk: bool, writeOk: bool) returns (rtn: nat)
      requires Valid()
      modifies this, file
      ensures Valid()
      ensures !lockOk || old(queue) == [] ==>
        rtn == 0 && queue == old(queue) && written == old(written) && Contents() == old(Contents())
      ensures lockOk && old(queue) != [] ==>
        var m := old(queue[0]);
        && queue == old(queue)[1..]
        && written == (if m.devNum == 0 && writeOk then old(written) + [m.data] else old(written))
        && rtn == (if m.devNum == 0 && !writeOk then 2 else 0)
      ensures past == if lockOk && old(queue) != [] && old(queue[0]).devNum == 0 && writeOk
                      then Then(old(past), Write(old(queue[0]).data)) else old(past)
    {
      hide Kept, Unroll, Last;
      rtn := 0;
      if !lockOk || queue == [] {
        return;
      }
      var m := queue[0];
      queue := queue[1..];
      if m.devNum != 0 {
        return;
      }
      if writeOk {
        Store(m.data);
      } else {
        rtn := 2;
      }
    }

    /** A record that has been written: index and count move on, round the end of the file. */
    method Store(r: Record)
      requires Valid()
      modifies this`addrIndex, this`saveCount, this`written, this`past, file
      ensures Valid()
      ensures written == old(written) + [r] && past == Then(old(past), Write(r))
    {
      hide Kept, Unroll;
      KeptAfter(N, past, Write(r));
      WriteAppends(file[..], addrIndex, saveCount, written, r);
      ghost var before := file[..];
      file[addrIndex] := r;
      assert file[..] == before[addrIndex := r];
      addrIndex := addrIndex + 1;
      if addrIndex >= N {
        addrIndex := 0;
        saveCount := N;
      }
      if saveCount != N {
        saveCount := addrIndex;
      }
      written := written + [r];
      past := Then(past, Write(r));
    }

    /** Removes the file and resets both counters, but only if the file can be opened. */
    method Clear(fileOpens: bool)
      requires Valid()
      modifies this
      ensures Valid() && queue == old(queue)
      ensures written == if fileOpens then [] else old(written)
      ensures Contents() == if fileOpens then [] else old(Contents())
      ensures past == if fileOpens then Then(old(past), Op.Clear) else old(past)
    {
      if !fileOpens {
        return;
      }
      KeptAfter(N, past, Op.Clear);
      hide Kept;
      addrIndex := 0;
      saveCount := 0;
      written := [];
      past := Then(past, Op.Clear);
    }

    /** Number of records newer than `since`; `readOk(k)` is the outcome of the k-th
        single-record read. A failed read makes the answer 0, never a wrong count. */
    method CountNew(since: int, readOk: nat -> bool) returns (r: nat)
      requires Valid()
      ensures r <= saveCount
      ensures r == 0 || Counted(Contents(), since, r)
      ensures (forall k: nat :: readOk(k)) ==> Counted(Contents(), since, r)
    {
      hide Counted, Unroll, Kept, Last, Physical, Oldest;
      ghost var log := Contents();
      CountedAll(log, since);
      if saveCount == 0 {
        return 0;
      }
      if since == 0 {
        return saveCount;
      }
      var oldest := Oldest(addrIndex, saveCount, N);
      UnrollHolds(file[..], addrIndex, saveCount);
      if !readOk(0) {
        return 0;
      }
      var p := Physical(oldest, 0, N);
      if since < file[p].curTime {
        CrossingCounts(log, since, saveCount);
        return saveCount;
      }
      p := Physical(oldest, saveCount - 1, N);
      if !readOk(1) {
        return 0;
      }
      if since >= file[p].curTime {
        CrossingCounts(log, since, 0);
        return 0;
      }
      r := Search(file, oldest, saveCount, since, readOk, log);
    }

    /** Copies the new records, in one or two chunks, into a fresh buffer.
        `ret` is 0 on success (also when nothing is new) and -1 otherwise. */
    method ReadIncremental(since: int, lockOk: bool, readOk: nat -> bool, allocOk: bool,
                           copy1Ok: bool, copy2Ok: bool)
      returns (ret: int, out: seq<Record>)
      requires Valid()
      ensures ret == 0 || ret == -1
      ensures ret == -1 ==> out == []
      ensures !lockOk ==> ret == -1
      ensures ret == 0 ==> out == Last(Contents(), |out|)
      ensures ret == 0 ==> out == [] || Counted(Contents(), since, |out|)
      ensures lockOk && allocOk && copy1Ok && copy2Ok ==> ret == 0
      ensures ret == 0 && (forall k: nat :: readOk(k)) ==> Counted(Contents(), since, |out|)
    {
      hide Counted, Unroll, Range, Physical, Kept;
      CountedAll([], since);
      if !lockOk {
        return -1, [];
      }
      var count := CountNew(since, readOk);
      if count == 0 {
        return 0, [];
      }
      if !allocOk {
        return -1, [];
      }
      UnrollSuffix(file[..], addrIndex, saveCount, count);
      var first := Physical(Oldest(addrIndex, saveCount, N), saveCount - count, N);
      var ok, buffer := CopyRange(file, first, count, copy1Ok, copy2Ok);
      ret, out := if ok then 0 else -1, buffer;
    }

    /** The file holds what its history leaves available to a reader. */
    lemma HoldsAvailable()
      requires Valid()
      ensures Contents() == Available(N, Run(N, past))
    {
    }

    /** The reader's next read: it asks from the newest time it has. In the history this is a
        successful read exactly if what it got is what there was to get; an empty result after a
        failed single-record read is not. */
    method ReadNext(since: int, lockOk: bool, readOk: nat -> bool, allocOk: bool, copy1Ok: bool, copy2Ok: bool)
      returns (ret: int, out: seq<Record>)
      requires Valid() && Ticking(Run(N, past).written) && since == Since(Run(N, past).received)
      modifies this`past
      ensures Valid()
      ensures Run(N, past).received == Run(N, old(past)).received + out
      ensures past == Then(old(past), Read(true)) || (past == Then(old(past), Read(false)) && out == [])
      ensures past == Then(old(past), Read(true)) <==>
        ret == 0 && out == NewRecords(Contents(), since)
      ensures ret == 0 && (out != [] || forall k: nat :: readOk(k)) ==> past == Then(old(past), Read(true))
      ensures Run(N, past).received == Run(N, past).written[..Mark(N, past)] <==> InTime(N, past)
    {
      hide Ticking, Counted, NewRecords, Unroll;
      ghost var s := Run(N, past);
      KeptAfter(N, past, Read(true));
      KeptAfter(N, past, Read(false));
      ret, out := ReadIncremental(since, lockOk, readOk, allocOk, copy1Ok, copy2Ok);
      ghost var new' := NewRecords(Contents(), since);
      WindowSorted(N, s);
      if ret == 0 && Counted(Contents(), since, |out|) {
        CountedSuffixIsNew(Contents(), since, |out|);
      }
      past := Then(past, Read(ret == 0 && out == new'));
      hide InTime, Mark, Kept;
      ExactlyOnce(N, past);
    }
  }
}
