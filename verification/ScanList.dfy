/** The list of devices found while scanning: live advertisements put a device on it,
    age takes it off, and what the list shows agrees with the history of advertisements. */
module ScanList {

  datatype LinkHint = Unknown | Available | Occupied

  datatype Entry = Entry(name: string, address: string, rssi: int, isTarget: bool, hint: LinkHint)

  datatype Option<T> = None | Some(value: T)

  function Upper(c: char): char {
    if 'a' <= c <= 'z' then (c as int - 'a' as int + 'A' as int) as char else if c == '-' then ':' else c
  }

  /** Addresses are compared without regard to separator and ASCII case. */
  function Normal(address: string): (n: string)
    ensures |n| == |address|
  {
    seq(|address|, i requires 0 <= i < |address| => Upper(address[i]))
  }

  predicate Blank(c: char) {
    '\t' <= c <= '\r' || c == ' ' || c == '\U{85}' || c == '\U{A0}' || c == '\U{1680}' || '\U{2000}' <= c <= '\U{200A}'
    || c == '\U{2028}' || c == '\U{2029}' || c == '\U{202F}' || c == '\U{205F}' || c == '\U{3000}'
  }

  function TrimLeft(s: string): string {
    if s != [] && Blank(s[0]) then TrimLeft(s[1..]) else s
  }

  function TrimRight(s: string): string {
    if s != [] && Blank(s[|s| - 1]) then TrimRight(s[..|s| - 1]) else s
  }

  function Trim(s: string): string { TrimRight(TrimLeft(s)) }

  function PlaceholderName(address: string): string { "蓝牙设备 (" + address + ")" }

  datatype Advert = Advert(name: string, address: string, rssi: int, isTarget: bool, hint: LinkHint, live: bool)

  datatype State = State(devices: seq<Entry>, seenAt: map<string, int>, generation: nat)

  /** Position of the device with this address, or the length of the list. */
  function Find(devices: seq<Entry>, address: string): (i: nat)
    ensures i <= |devices|
    ensures i < |devices| ==> Normal(devices[i].address) == Normal(address)
    ensures forall j :: 0 <= j < i ==> Normal(devices[j].address) != Normal(address)
  {
    if devices == [] then 0
    else if Normal(devices[0].address) == Normal(address) then 0
    else 1 + Find(devices[1..], address)
  }

  /** The entry after an advertisement: strength and hint only from a live one, the name
      from any that carries one. */
  function Refreshed(d: Entry, ad: Advert): Entry {
    var d := if ad.live then d.(rssi := ad.rssi, hint := ad.hint, isTarget := true) else d;
    if Trim(ad.name) != "" then d.(name := Trim(ad.name)) else d
  }

  function Upsert(s: State, ad: Advert, now: int): State {
    if !ad.isTarget then s
    else
      var i := Find(s.devices, ad.address);
      if i < |s.devices| then
        var d := s.devices[i];
        var d' := Refreshed(d, ad);
        State(s.devices[i := d'],
              if ad.live then s.seenAt[d.address := now] else s.seenAt,
              if (ad.live && (d.rssi != ad.rssi || d.hint != ad.hint)) || d'.name != d.name
              then s.generation + 1 else s.generation)
      else if ad.live then
        var name := if Trim(ad.name) != "" then Trim(ad.name) else PlaceholderName(ad.address);
        State(s.devices + [Entry(name, ad.address, ad.rssi, ad.isTarget, ad.hint)],
              s.seenAt[ad.address := now], s.generation + 1)
      else s
  }

  /** No recent advertisement; time differences saturate at zero. */
  predicate Stale(s: State, address: string, now: int, maxAge: nat) {
    address in s.seenAt ==> now - s.seenAt[address] > maxAge
  }

  function StaleAddresses(s: State, now: int, maxAge: nat): set<string> {
    set d | d in s.devices && Stale(s, d.address, now, maxAge) :: d.address
  }

  function Retain(devices: seq<Entry>, stale: set<string>): seq<Entry> {
    if devices == [] then []
    else
      var rest, d := Retain(devices[..|devices| - 1], stale), devices[|devices| - 1];
      if d.address in stale then rest else rest + [d]
  }

  function Prune(s: State, now: int, maxAge: nat): State {
    var stale := StaleAddresses(s, now, maxAge);
    if stale == {} then s else State(Retain(s.devices, stale), s.seenAt - stale, s.generation + 1)
  }

  function Cleared(s: State): State { s.(devices := [], seenAt := map[]) }

  // ---------------------------------------------------------------------------
  // The shared state object
  // ---------------------------------------------------------------------------

  class BleInner {
    var scanDevices: seq<Entry>
    var scanSeenAt: map<string, int>
    var scanListGeneration: nat

    ghost function View(): State
      reads this
    {
      State(scanDevices, scanSeenAt, scanListGeneration)
    }

    constructor ()
      ensures View() == State([], map[], 0)
    {
      scanDevices, scanSeenAt, scanListGeneration := [], map[], 0;
    }

    method ClearScanResults()
      modifies this
      ensures View() == Cleared(old(View()))
    {
      scanDevices := [];
      scanSeenAt := map[];
    }

    method Position(address: string) returns (i: nat)
      ensures i == Find(scanDevices, address)
    {
      i := 0;
      while i < |scanDevices| && Normal(scanDevices[i].address) != Normal(address)
        invariant i <= |scanDevices|
        invariant i + Find(scanDevices[i..], address) == Find(scanDevices, address)
      {
        assert scanDevices[i..][1..] == scanDevices[i + 1..];
        i := i + 1;
      }
    }

    method UpsertAdvertisement(ad: Advert, now: int)
      modifies this
      ensures View() == Upsert(old(View()), ad, now)
      ensures var i := Find(old(scanDevices), ad.address);
              && (ad.isTarget && i < |old(scanDevices)| ==>
                    && i < |scanDevices| && scanDevices[i].address == old(scanDevices)[i].address
                    && scanDevices[i].name == (if Trim(ad.name) != "" then Trim(ad.name) else old(scanDevices)[i].name)
                    && scanDevices[i].rssi == (if ad.live then ad.rssi else old(scanDevices)[i].rssi)
                    && scanDevices[i].hint == (if ad.live then ad.hint else old(scanDevices)[i].hint))
              && (ad.isTarget && ad.live && i == |old(scanDevices)| ==>
                    scanDevices == old(scanDevices) +
                      [Entry(if Trim(ad.name) != "" then Trim(ad.name) else PlaceholderName(ad.address),
                             ad.address, ad.rssi, true, ad.hint)])
              && (!ad.isTarget || (!ad.live && i == |old(scanDevices)|) ==> scanDevices == old(scanDevices))
    {
      hide Normal, Trim, PlaceholderName, Find;
      if !ad.isTarget {
        return;
      }
      var name := Trim(ad.name);
      var idx := Position(ad.address);
      if idx < |scanDevices| {
        var d := scanDevices[idx];
        var changed := false;
        if ad.live {
          changed := d.rssi != ad.rssi || d.hint != ad.hint;
          d := d.(rssi := ad.rssi, hint := ad.hint, isTarget := true);
          scanSeenAt := scanSeenAt[d.address := now];
        }
        if name != "" && d.name != name {
          d := d.(name := name);
          changed := true;
        }
        scanDevices := scanDevices[idx := d];
        if changed {
          scanListGeneration := scanListGeneration + 1;
        }
      } else if ad.live {
        var displayName := if name != "" then name else PlaceholderName(ad.address);
        scanSeenAt := scanSeenAt[ad.address := now];
        scanDevices := scanDevices + [Entry(displayName, ad.address, ad.rssi, ad.isTarget, ad.hint)];
        scanListGeneration := scanListGeneration + 1;
      }
    }

    method PruneStaleScanDevices(now: int, maxAge: nat) returns (pruned: bool)
      modifies this
      ensures View() == Prune(old(View()), now, maxAge)
      ensures pruned <==> StaleAddresses(old(View()), now, maxAge) != {}
    {
      var stale := set d |
        d in scanDevices && (d.address in scanSeenAt ==> now - scanSeenAt[d.address] > maxAge) :: d.address;
      assert stale == StaleAddresses(View(), now, maxAge);
      if stale == {} {
        return false;
      }
      var kept: seq<Entry> := [];
      for i := 0 to |scanDevices|
        invariant kept == Retain(scanDevices[..i], stale)
      {
        assert scanDevices[..i + 1][..i] == scanDevices[..i];
        if scanDevices[i].address !in stale {
          kept := kept + [scanDevices[i]];
        }
      }
      assert scanDevices[..|scanDevices|] == scanDevices;
      scanDevices := kept;
      scanSeenAt := scanSeenAt - stale;
      scanListGeneration := scanListGeneration + 1;
      pruned := true;
    }
  }

  // ---------------------------------------------------------------------------
  // Agreement with history
  // ---------------------------------------------------------------------------

  datatype Event = Seen(ad: Advert) | Aged | Reset

  /** What happened and when, latest event outermost. */
  datatype History = Start | Then(before: History, e: Event, now: int)

  function After(h: History, maxAge: nat): State {
    match h
    case Start => State([], map[], 0)
    case Then(before, e, now) =>
      var s := After(before, maxAge);
      match e
      case Seen(ad) => Upsert(s, ad, now)
      case Aged => Prune(s, now, maxAge)
      case Reset => Cleared(s)
  }

  function Now(h: History): int { if h.Start? then 0 else h.now }

  /** The clock never goes back. */
  predicate Monotone(h: History) {
    h.Then? ==> Monotone(h.before) && Now(h.before) <= h.now
  }

  /** When and how a device was last advertised live. */
  datatype Sighting = Sighting(at: int, rssi: int, hint: LinkHint)

  /** The device's latest live advertisement as a target since the last reset. */
  function LastLive(h: History, n: string): Option<Sighting> {
    match h
    case Start => None
    case Then(before, e, now) =>
      if e.Reset? then None
      else if e.Seen? && e.ad.isTarget && e.ad.live && Normal(e.ad.address) == n
      then Some(Sighting(now, e.ad.rssi, e.ad.hint))
      else LastLive(before, n)
  }

  /** When the list was last aged. */
  function LastAged(h: History): int {
    if h.Start? then 0 else if h.e.Aged? then h.now else LastAged(h.before)
  }

  predicate Listed(s: State, n: string) {
    exists d :: d in s.devices && Normal(d.address) == n
  }

  function Addresses(devices: seq<Entry>): set<string> { set d | d in devices :: d.address }

  /** No two entries for the same device. */
  ghost predicate Unique(devices: seq<Entry>) {
    forall i, j :: 0 <= i < j < |devices| ==> Normal(devices[i].address) != Normal(devices[j].address)
  }

  /** No device twice, only targets, and a time for exactly the listed addresses. */
  ghost predicate Tidy(s: State) {
    Unique(s.devices) && (forall d :: d in s.devices ==> d.isTarget) && s.seenAt.Keys == Addresses(s.devices)
  }

  /** The device is listed, with this as its latest live advertisement. */
  predicate SeenAt(s: State, n: string, u: Sighting) {
    exists d :: d in s.devices && Normal(d.address) == n && Shows(s, d, u)
  }

  /** The entry carries the strength, hint and time of this sighting. */
  predicate Shows(s: State, d: Entry, u: Sighting) {
    d.address in s.seenAt && Sighting(s.seenAt[d.address], d.rssi, d.hint) == u
  }

  /** The list against the history: listed are the devices fresh enough at the last
      ageing, each with the time, strength and hint of its last live advertisement. */
  ghost predicate Agrees(h: History, maxAge: nat) {
    forall n, u :: SeenAt(After(h, maxAge), n, u) <==> LastLive(h, n) == Some(u) && LastAged(h) - u.at <= maxAge
  }

  lemma {:induction false} RetainMeans(devices: seq<Entry>, stale: set<string>)
    ensures forall d :: d in Retain(devices, stale) <==> d in devices && d.address !in stale
    ensures |Retain(devices, stale)| <= |devices|
    ensures (exists d :: d in devices && d.address in stale) ==> |Retain(devices, stale)| < |devices|
  {
    if devices != [] {
      RetainMeans(devices[..|devices| - 1], stale);
      assert devices == devices[..|devices| - 1] + [devices[|devices| - 1]];
    }
  }

  lemma {:induction false} RetainUnique(devices: seq<Entry>, stale: set<string>)
    requires Unique(devices)
    ensures Unique(Retain(devices, stale))
  {
    if devices != [] {
      var init, d := devices[..|devices| - 1], devices[|devices| - 1];
      RetainUnique(init, stale);
      RetainMeans(init, stale);
      forall e | e in init
        ensures Normal(e.address) != Normal(d.address)
      {
      }
      hide Normal;
    }
  }

  lemma Replaced(devices: seq<Entry>, i: nat, d: Entry)
    requires i < |devices| && d.address == devices[i].address
    ensures Addresses(devices[i := d]) == Addresses(devices)
    ensures Unique(devices) ==> Unique(devices[i := d])
    ensures forall e :: e in devices[i := d] ==> e == d || e in devices
  {
    hide Normal;
    var t := devices[i := d];
    forall a
      ensures a in Addresses(t) <==> a in Addresses(devices)
    {
      if a in Addresses(devices) {
        var k :| 0 <= k < |devices| && devices[k].address == a;
        assert t[k].address == a;
      }
      if a in Addresses(t) {
        var k :| 0 <= k < |t| && t[k].address == a;
        assert devices[k].address == a;
      }
    }
  }

  lemma Appended(devices: seq<Entry>, d: Entry)
    requires forall j :: 0 <= j < |devices| ==> Normal(devices[j].address) != Normal(d.address)
    ensures Addresses(devices + [d]) == Addresses(devices) + {d.address}
    ensures Unique(devices) ==> Unique(devices + [d])
  {
    hide Normal;
  }

  lemma UpsertTidy(s: State, ad: Advert, now: int)
    requires Tidy(s)
    ensures Tidy(Upsert(s, ad, now))
  {
    hide Normal, Trim, PlaceholderName, Unique, Addresses, Find;
    var s' := Upsert(s, ad, now);
    var i := Find(s.devices, ad.address);
    if !ad.isTarget {
    } else if i < |s.devices| {
      Replaced(s.devices, i, Refreshed(s.devices[i], ad));
      assert s.devices[i].address in Addresses(s.devices) by { InAddresses(s.devices, s.devices[i]); }
    } else if ad.live {
      Appended(s.devices, s'.devices[|s.devices|]);
      assert s'.devices == s.devices + [s'.devices[|s.devices|]];
    }
  }

  lemma InAddresses(devices: seq<Entry>, d: Entry)
    requires d in devices
    ensures d.address in Addresses(devices)
  {
  }

  lemma PruneTidy(s: State, now: int, maxAge: nat)
    requires Tidy(s)
    ensures Tidy(Prune(s, now, maxAge))
  {
    hide Normal, Unique;
    var stale := StaleAddresses(s, now, maxAge);
    RetainMeans(s.devices, stale);
    RetainUnique(s.devices, stale);
    hide Retain, StaleAddresses;
    assert Addresses(Retain(s.devices, stale)) == Addresses(s.devices) - stale;
  }

  lemma {:induction false} AlwaysTidy(h: History, maxAge: nat)
    ensures Tidy(After(h, maxAge))
  {
    hide Tidy, Upsert, Prune;
    match h
    case Start =>
      EmptyTidy(0);
    case Then(before, e, now) =>
      AlwaysTidy(before, maxAge);
      var s := After(before, maxAge);
      match e
      case Seen(ad) => UpsertTidy(s, ad, now);
      case Aged => PruneTidy(s, now, maxAge);
      case Reset => EmptyTidy(s.generation);
  }

  lemma EmptyTidy(generation: nat)
    ensures Tidy(State([], map[], generation))
  {
  }

  /** A live advertisement dates its own device and no other; a cached one dates nothing. */
  lemma UpsertDates(s: State, ad: Advert, now: int, n: string, u: Sighting)
    requires Tidy(s)
    ensures SeenAt(Upsert(s, ad, now), n, u) <==>
            if ad.isTarget && ad.live && Normal(ad.address) == n
            then u == Sighting(now, ad.rssi, ad.hint) else SeenAt(s, n, u)
  {
    hide Normal, Trim, PlaceholderName, Find;
    var i := Find(s.devices, ad.address);
    if !ad.isTarget {
    } else if i < |s.devices| {
      RefreshDates(s, i, ad, now, n, u);
    } else if ad.live {
      AppendDates(s, ad, now, n, u);
    }
  }

  /** The device at position `i` is replaced, keeping its address. */
  lemma RefreshDates(s: State, i: nat, ad: Advert, now: int, n: string, u: Sighting)
    requires Tidy(s) && i < |s.devices|
    requires Normal(s.devices[i].address) == Normal(ad.address)
    ensures var s' := State(s.devices[i := Refreshed(s.devices[i], ad)],
                            if ad.live then s.seenAt[s.devices[i].address := now] else s.seenAt, s.generation);
            SeenAt(s', n, u) <==>
            if ad.live && Normal(ad.address) == n then u == Sighting(now, ad.rssi, ad.hint) else SeenAt(s, n, u)
  {
    hide Normal, Trim;
    var d := s.devices[i];
    var t := s.devices[i := Refreshed(d, ad)];
    assert t[i].address == d.address;
    InAddresses(s.devices, d);
    var s' := State(t, if ad.live then s.seenAt[d.address := now] else s.seenAt, s.generation);
    if SeenAt(s', n, u) {
      var k :| 0 <= k < |t| && Normal(t[k].address) == n && Shows(s', t[k], u);
      assert s.devices[k].address == t[k].address;
    }
    if SeenAt(s, n, u) {
      var k :| 0 <= k < |t| && Normal(s.devices[k].address) == n && Shows(s, s.devices[k], u);
      assert s.devices[k].address == t[k].address && t[k] in t;
    }
    assert t[i] in t;
  }

  lemma AppendDates(s: State, ad: Advert, now: int, n: string, u: Sighting)
    requires Tidy(s) && ad.isTarget && ad.live && Find(s.devices, ad.address) == |s.devices|
    ensures SeenAt(Upsert(s, ad, now), n, u) <==>
            if Normal(ad.address) == n then u == Sighting(now, ad.rssi, ad.hint) else SeenAt(s, n, u)
  {
    hide Normal, Trim, PlaceholderName;
    var s' := Upsert(s, ad, now);
    var d := s'.devices[|s.devices|];
    hide Find, Upsert;
    assert forall e :: e in s'.devices <==> e in s.devices || e == d;
  }

  /** Ageing keeps the dates that are recent enough. */
  lemma PruneDates(s: State, now: int, maxAge: nat, n: string, u: Sighting)
    requires Tidy(s)
    ensures SeenAt(Prune(s, now, maxAge), n, u) <==> SeenAt(s, n, u) && now - u.at <= maxAge
  {
    hide Normal, Unique;
    var stale := StaleAddresses(s, now, maxAge);
    RetainMeans(s.devices, stale);
    hide Retain;
  }

  /** For every run: the list shows the devices whose latest live advertisement was recent
      enough when the list was last aged, whatever cached ones reported. */
  lemma {:induction false} AgreesWithHistory(h: History, maxAge: nat)
    requires Monotone(h)
    ensures Agrees(h, maxAge)
    ensures forall n :: LastLive(h, n).Some? ==> LastLive(h, n).value.at <= Now(h)
    ensures 0 <= LastAged(h) <= Now(h)
  {
    hide Normal, Upsert, Prune, SeenAt, Tidy;
    match h
    case Start =>
      NothingDated(0);
    case Then(before, e, now) =>
      AgreesWithHistory(before, maxAge);
      AlwaysTidy(before, maxAge);
      var s := After(before, maxAge);
      forall n, u
        ensures SeenAt(After(h, maxAge), n, u) <==> LastLive(h, n) == Some(u) && LastAged(h) - u.at <= maxAge
      {
        match e
        case Seen(ad) => UpsertDates(s, ad, now, n, u);
        case Aged => PruneDates(s, now, maxAge, n, u);
        case Reset => NothingDated(s.generation);
      }
  }

  lemma NothingDated(generation: nat)
    ensures forall n, u :: !SeenAt(State([], map[], generation), n, u)
  {
  }

  lemma ListedIsDated(s: State, n: string)
    requires Tidy(s)
    ensures Listed(s, n) <==> exists u :: SeenAt(s, n, u)
  {
    hide Normal, Unique;
    if Listed(s, n) {
      var d :| d in s.devices && Normal(d.address) == n;
      InAddresses(s.devices, d);
      var u := Sighting(s.seenAt[d.address], d.rssi, d.hint);
      assert Shows(s, d, u);
      assert SeenAt(s, n, u);
    }
  }

  /** Right after an ageing, listed are exactly the devices advertised live no longer ago
      than the limit since the last reset, each of them once. */
  lemma ListedAfterAgeing(h: History, maxAge: nat, n: string)
    requires Monotone(h) && h.Then? && h.e.Aged?
    ensures Listed(After(h, maxAge), n) <==> LastLive(h, n).Some? && h.now - LastLive(h, n).value.at <= maxAge
    ensures Unique(After(h, maxAge).devices)
  {
    AgreesWithHistory(h, maxAge);
    AlwaysTidy(h, maxAge);
    hide Normal, SeenAt, After, Listed;
    ListedIsDated(After(h, maxAge), n);
  }

  // ---------------------------------------------------------------------------
  // The generation counter
  // ---------------------------------------------------------------------------

  /** An advertisement bumps the generation by one exactly if it changes the list. */
  lemma UpsertBumps(s: State, ad: Advert, now: int)
    requires Tidy(s)
    ensures var s' := Upsert(s, ad, now);
            s'.generation == s.generation + if s'.devices != s.devices then 1 else 0
  {
    hide Normal, Trim, PlaceholderName, Unique, Addresses, Find;
    var i := Find(s.devices, ad.address);
    if ad.isTarget && i < |s.devices| {
      var d, d' := s.devices[i], Refreshed(s.devices[i], ad);
      assert d in s.devices;
      assert s.devices[i := d'][i] == d';
      if d' == d {
        assert s.devices[i := d'] == s.devices;
      }
    }
  }

  /** So does ageing. */
  lemma PruneBumps(s: State, now: int, maxAge: nat)
    ensures var s' := Prune(s, now, maxAge);
            s'.generation == s.generation + if s'.devices != s.devices then 1 else 0
  {
    var stale := StaleAddresses(s, now, maxAge);
    RetainMeans(s.devices, stale);
    if stale != {} {
      var a :| a in stale;
      assert exists d :: d in s.devices && d.address in stale;
    }
    hide Retain;
  }

  /** A reset does not: equal generations mean equal lists only if it had nothing to clear. */
  lemma ResetKeepsGeneration(s: State)
    ensures Cleared(s).generation == s.generation
    ensures Cleared(s).devices == s.devices <==> s.devices == []
  {
  }
}
