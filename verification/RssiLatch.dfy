/** The signal-strength filter of the scan list: a device enters the shown list by meeting
    the threshold and, once in, stays however weak it gets until it leaves the list. */
module RssiLatch {
  import opened ScanList

  const DEFAULT_RSSI_MIN := -70

  /** The text without its unit at the end, however often it is there. */
  function WithoutUnit(s: string): string {
    if |s| >= 3 && s[|s| - 3..] == "dBm" then WithoutUnit(s[..|s| - 3]) else s
  }

  /** The value of a text of digits; None if there is none or it has anything else in it. */
  function Digits(s: string): Option<nat> {
    if s == "" || !('0' <= s[|s| - 1] <= '9') then None
    else
      var d := s[|s| - 1] as int - '0' as int;
      if |s| == 1 then Some(d)
      else if Digits(s[..|s| - 1]).Some? then Some(10 * Digits(s[..|s| - 1]).value + d)
      else None
  }

  /** A decimal number with an optional sign that fits 32 bits. */
  function ParseInt32(s: string): (n: Option<int>)
    ensures n.Some? ==> -0x8000_0000 <= n.value < 0x8000_0000
  {
    var negative := s != "" && s[0] == '-';
    var v := Digits(if s != "" && (s[0] == '-' || s[0] == '+') then s[1..] else s);
    if v.None? then None
    else
      var m: int := v.value;
      var n := if negative then -m else m;
      if -0x8000_0000 <= n < 0x8000_0000 then Some(n) else None
  }

  /** The threshold in the text field; the default if it is not a number. */
  function ParseRssiMin(text: string): (n: int)
    ensures -0x8000_0000 <= n < 0x8000_0000
  {
    var n := ParseInt32(Trim(WithoutUnit(Trim(text))));
    if n.Some? then n.value else DEFAULT_RSSI_MIN
  }

  // ---------------------------------------------------------------------------
  // Reading the threshold
  // ---------------------------------------------------------------------------

  function Decimal(n: nat): string {
    if n < 10 then [('0' as int + n) as char] else Decimal(n / 10) + [('0' as int + n % 10) as char]
  }

  function Signed(n: int): string { if n < 0 then "-" + Decimal(-n) else Decimal(n) }

  predicate Blanks(s: string) { forall c <- s :: Blank(c) }

  /** Neither the first nor the last character is blank. */
  predicate Tight(s: string) { s != "" && !Blank(s[0]) && !Blank(s[|s| - 1]) }

  lemma {:induction false} DecimalBack(n: nat)
    ensures var s := Decimal(n);
            s != "" && '0' <= s[0] <= '9' && '0' <= s[|s| - 1] <= '9' && Digits(s) == Some(n)
  {
    if n >= 10 {
      DecimalBack(n / 10);
      var init := Decimal(n / 10);
      assert Decimal(n)[..|init|] == init;
    }
  }

  lemma SignedBack(n: int)
    requires -0x8000_0000 <= n < 0x8000_0000
    ensures ParseInt32(Signed(n)) == Some(n)
  {
    hide Digits, Decimal;
    DecimalBack(if n < 0 then -n else n);
    if n < 0 {
      assert Signed(n)[1..] == Decimal(-n);
    }
  }

  lemma SignedTight(n: int)
    ensures Tight(Signed(n)) && Signed(n)[|Signed(n)| - 1] != 'm'
  {
    hide Digits, Decimal;
    var m := if n < 0 then -n else n;
    DecimalBack(m);
    assert Signed(n)[|Signed(n)| - 1] == Decimal(m)[|Decimal(m)| - 1];
    assert Signed(n)[0] == '-' || Signed(n)[0] == Decimal(m)[0];
  }

  lemma {:induction false} TrimLeftBlanks(a: string, s: string)
    requires Blanks(a) && s != "" && !Blank(s[0])
    ensures TrimLeft(a + s) == s
  {
    hide Blank;
    if a == "" {
      assert a + s == s;
    } else {
      assert (a + s)[1..] == a[1..] + s;
      TrimLeftBlanks(a[1..], s);
    }
  }

  lemma {:induction false} TrimRightBlanks(s: string, b: string)
    requires Blanks(b) && s != "" && !Blank(s[|s| - 1])
    ensures TrimRight(s + b) == s
  {
    hide Blank;
    if b == "" {
      assert s + b == s;
    } else {
      assert (s + b)[..|s + b| - 1] == s + b[..|b| - 1];
      TrimRightBlanks(s, b[..|b| - 1]);
    }
  }

  lemma TrimTight(a: string, s: string, b: string)
    requires Blanks(a) && Blanks(b) && Tight(s)
    ensures Trim(a + (s + b)) == s
  {
    hide Blank;
    TrimLeftBlanks(a, s + b);
    TrimRightBlanks(s, b);
  }

  lemma NoUnit(s: string)
    requires s == "" || s[|s| - 1] != 'm'
    ensures WithoutUnit(s) == s
    ensures WithoutUnit(s + "dBm") == s
  {
    assert "dBm"[2] == 'm';
    var t := s + "dBm";
    assert t[|t| - 3..] == "dBm" && t[..|t| - 3] == s;
    assert |s| >= 3 ==> s[|s| - 3..][2] == s[|s| - 1];
  }

  lemma UnitTight(s: string, b: string)
    requires Tight(s)
    ensures Tight(s + (b + "dBm"))
  {
    assert (s + (b + "dBm"))[|s| + |b| + 2] == 'm';
  }

  lemma BlankEnd(s: string, b: string)
    requires Tight(s) && s[|s| - 1] != 'm' && Blanks(b)
    ensures (s + b)[|s + b| - 1] != 'm'
  {
    if b != "" {
      assert (s + b)[|s + b| - 1] == b[|b| - 1];
      assert b[|b| - 1] in b;
    }
  }

  /** Every 32-bit threshold is read as it is written, with or without the unit and with blanks
      anywhere around. */
  lemma ThresholdRead(n: int, a: string, b: string, c: string)
    requires -0x8000_0000 <= n < 0x8000_0000 && Blanks(a) && Blanks(b) && Blanks(c)
    ensures ParseRssiMin(a + (Signed(n) + b)) == n
    ensures ParseRssiMin(a + ((Signed(n) + (b + "dBm")) + c)) == n
  {
    hide Signed, ParseInt32, WithoutUnit, Blank, Trim;
    var s := Signed(n);
    SignedBack(n);
    SignedTight(n);
    TrimTight(a, s, b);
    NoUnit(s);
    TrimTight("", s, "");
    assert "" + (s + "") == s;
    UnitTight(s, b);
    TrimTight(a, s + (b + "dBm"), c);
    BlankEnd(s, b);
    NoUnit(s + b);
    assert s + (b + "dBm") == (s + b) + "dBm";
    TrimTight("", s, b);
    assert "" + (s + b) == s + b;
  }

  /** One refresh of the list: what was scanned, and the filters in force. */
  datatype Tick = Tick(devices: seq<Entry>, nameFilter: string, favorites: seq<string>, enabled: bool,
                       minText: string) {
    function MinRssi(): int { ParseRssiMin(minText) }
  }

  predicate Equal(a: string, b: string) { Normal(a) == Normal(b) }

  predicate Contains(s: string, part: string) {
    exists i :: 0 <= i <= |s| && part <= s[i..]
  }

  /** A target, not occupied by another phone, not a favourite, with a matching name.
      `lower` is the lower-case mapping. */
  predicate Eligible(t: Tick, lower: string -> string, d: Entry) {
    && d.isTarget
    && d.hint != Occupied
    && (forall f <- t.favorites :: !Equal(f, d.address))
    && (Trim(t.nameFilter) == "" || Contains(lower(d.name), lower(Trim(t.nameFilter))))
  }

  function Candidates(devices: seq<Entry>, t: Tick, lower: string -> string): seq<Entry> {
    if devices == [] then []
    else
      var rest, d := Candidates(devices[..|devices| - 1], t, lower), devices[|devices| - 1];
      if Eligible(t, lower, d) then rest + [d] else rest
  }

  predicate Held(addresses: seq<string>, address: string) {
    exists a <- addresses :: Equal(a, address)
  }

  function Latched(devices: seq<Entry>, minRssi: int, held: seq<string>): seq<Entry> {
    if devices == [] then []
    else
      var rest, d := Latched(devices[..|devices| - 1], minRssi, held), devices[|devices| - 1];
      if Held(held, d.address) || d.rssi >= minRssi then rest + [d] else rest
  }

  function AddressesOf(devices: seq<Entry>): seq<string> {
    seq(|devices|, i requires 0 <= i < |devices| => devices[i].address)
  }

  datatype Hold = Hold(minRssi: Option<int>, addresses: seq<string>)

  /** The addresses still held when the threshold is `minRssi`. */
  function Kept(h: Hold, minRssi: int): seq<string> {
    if h.minRssi != Some(minRssi) then [] else h.addresses
  }

  function Shown(h: Hold, t: Tick, lower: string -> string): seq<Entry> {
    var devices := Candidates(t.devices, t, lower);
    if t.enabled then Latched(devices, t.MinRssi(), Kept(h, t.MinRssi())) else devices
  }

  function Next(h: Hold, t: Tick, lower: string -> string): Hold {
    if t.enabled then Hold(Some(t.MinRssi()), AddressesOf(Shown(h, t, lower))) else Hold(None, [])
  }

  // ---------------------------------------------------------------------------
  // The hold kept between refreshes
  // ---------------------------------------------------------------------------

  /** What is left of a list when some entries are dropped. */
  predicate InOrder(part: seq<Entry>, all: seq<Entry>) {
    || part == []
    || (all != [] && InOrder(part, all[..|all| - 1]))
    || (all != [] && part[|part| - 1] == all[|all| - 1] && InOrder(part[..|part| - 1], all[..|all| - 1]))
  }

  lemma {:induction false} CandidatesInOrder(devices: seq<Entry>, t: Tick, lower: string -> string)
    ensures InOrder(Candidates(devices, t, lower), devices)
  {
    hide Eligible;
    if devices != [] {
      CandidatesInOrder(devices[..|devices| - 1], t, lower);
      var c := Candidates(devices, t, lower);
      assert c != Candidates(devices[..|devices| - 1], t, lower) ==>
        c[..|c| - 1] == Candidates(devices[..|devices| - 1], t, lower);
    }
  }

  /** Dropping entries of what is left leaves the order as well. */
  lemma {:induction false} LatchedInOrder(part: seq<Entry>, all: seq<Entry>, minRssi: int, held: seq<string>)
    requires InOrder(part, all)
    ensures InOrder(Latched(part, minRssi, held), all)
    decreases |part| + |all|
  {
    hide Held;
    if part != [] {
      var init := all[..|all| - 1];
      if InOrder(part, init) {
        LatchedInOrder(part, init, minRssi, held);
      } else {
        LatchedInOrder(part[..|part| - 1], init, minRssi, held);
        var l := Latched(part, minRssi, held);
        assert l != Latched(part[..|part| - 1], minRssi, held) ==>
          l[..|l| - 1] == Latched(part[..|part| - 1], minRssi, held);
      }
    }
  }

  lemma ShownList(h: Hold, t: Tick, lower: string -> string)
    ensures InOrder(Shown(h, t, lower), t.devices)
    ensures forall d :: d in Shown(h, t, lower) <==>
              && d in t.devices && Eligible(t, lower, d)
              && (t.enabled ==> Held(Kept(h, t.MinRssi()), d.address) || d.rssi >= t.MinRssi())
  {
    hide Eligible, Held, Kept, InOrder;
    CandidatesInOrder(t.devices, t, lower);
    LatchedInOrder(Candidates(t.devices, t, lower), t.devices, t.MinRssi(), Kept(h, t.MinRssi()));
    forall d
      ensures d in Shown(h, t, lower) <==>
              && d in t.devices && Eligible(t, lower, d)
              && (t.enabled ==> Held(Kept(h, t.MinRssi()), d.address) || d.rssi >= t.MinRssi())
    {
      ShownAre(h, t, lower, d);
    }
  }

  class RssiFilterHold {
    var minRssi: Option<int>
    var addresses: seq<string>

    ghost function View(): Hold
      reads this
    {
      Hold(minRssi, addresses)
    }

    constructor ()
      ensures View() == Hold(None, [])
    {
      minRssi, addresses := None, [];
    }

    method Reset()
      modifies this
      ensures View() == Hold(None, [])
    {
      minRssi, addresses := None, [];
    }

    method RssiHeld(held: seq<string>, address: string) returns (found: bool)
      ensures found <==> Held(held, address)
    {
      found := false;
      for i := 0 to |held|
        invariant found <==> exists a <- held[..i] :: Equal(a, address)
      {
        assert held[..i + 1] == held[..i] + [held[i]];
        found := found || Equal(held[i], address);
      }
      assert held[..|held|] == held;
    }

    method ApplyRssiLatch(devices: seq<Entry>, threshold: int, held: seq<string>) returns (kept: seq<Entry>)
      ensures kept == Latched(devices, threshold, held)
    {
      kept := [];
      for i := 0 to |devices|
        invariant kept == Latched(devices[..i], threshold, held)
      {
        assert devices[..i + 1][..i] == devices[..i];
        var h := RssiHeld(held, devices[i].address);
        if h || devices[i].rssi >= threshold {
          kept := kept + [devices[i]];
        }
      }
      assert devices[..|devices|] == devices;
    }

    method Apply(threshold: int, devices: seq<Entry>) returns (kept: seq<Entry>)
      modifies this
      ensures kept == Latched(devices, threshold, Kept(old(View()), threshold))
      ensures View() == Hold(Some(threshold), AddressesOf(kept))
    {
      if minRssi != Some(threshold) {
        minRssi := Some(threshold);
        addresses := [];
      }
      kept := ApplyRssiLatch(devices, threshold, addresses);
      addresses := AddressesOf(kept);
    }

    method PrepareScanDevices(t: Tick, lower: string -> string) returns (result: seq<Entry>)
      modifies this
      ensures result == Shown(old(View()), t, lower)
      ensures View() == Next(old(View()), t, lower)
      ensures InOrder(result, t.devices)
      ensures forall d :: d in result ==>
        && d in t.devices && d.isTarget && d.hint != Occupied
        && (forall f <- t.favorites :: !Equal(f, d.address))
        && (Trim(t.nameFilter) == "" || Contains(lower(d.name), lower(Trim(t.nameFilter))))
      ensures forall d | d in t.devices && d.isTarget && d.hint != Occupied ::
        && (forall f <- t.favorites :: !Equal(f, d.address))
        && (Trim(t.nameFilter) == "" || Contains(lower(d.name), lower(Trim(t.nameFilter))))
        && (!t.enabled || d.rssi >= ParseRssiMin(t.minText))
        ==> d in result
    {
      ShownList(View(), t, lower);
      result := Candidates(t.devices, t, lower);
      if t.enabled {
        result := Apply(t.MinRssi(), result);
      } else {
        Reset();
      }
    }
  }

  // ---------------------------------------------------------------------------
  // Whole runs
  // ---------------------------------------------------------------------------

  /** The hold before tick `n`. */
  function HoldAt(ticks: seq<Tick>, lower: string -> string, n: nat): Hold
    requires n <= |ticks|
  {
    if n == 0 then Hold(None, []) else Next(HoldAt(ticks, lower, n - 1), ticks[n - 1], lower)
  }

  function ShownAt(ticks: seq<Tick>, lower: string -> string, n: nat): seq<Entry>
    requires n < |ticks|
  {
    Shown(HoldAt(ticks, lower, n), ticks[n], lower)
  }

  /** The device with this address is scanned and eligible. */
  predicate Present(t: Tick, lower: string -> string, address: string) {
    exists d <- t.devices :: Eligible(t, lower, d) && Equal(d.address, address)
  }

  /** It is so with a signal that meets the threshold. */
  predicate Strong(t: Tick, lower: string -> string, address: string) {
    exists d <- t.devices :: Eligible(t, lower, d) && Equal(d.address, address) && d.rssi >= t.MinRssi()
  }

  /** From tick `s` to tick `n` the filter is on with one threshold and the device eligible. */
  predicate Unbroken(ticks: seq<Tick>, lower: string -> string, s: nat, n: nat, address: string)
    requires s <= n < |ticks|
  {
    forall k :: s <= k <= n ==>
      ticks[k].enabled && ticks[k].MinRssi() == ticks[n].MinRssi() && Present(ticks[k], lower, address)
  }

  /** At some tick up to `n` it met the threshold, and nothing interrupted it since. */
  predicate Admitted(ticks: seq<Tick>, lower: string -> string, n: nat, address: string)
    requires n < |ticks|
  {
    exists s :: 0 <= s <= n && Unbroken(ticks, lower, s, n, address) && Strong(ticks[s], lower, address)
  }

  lemma {:induction false} CandidatesAre(devices: seq<Entry>, t: Tick, lower: string -> string)
    ensures forall d :: d in Candidates(devices, t, lower) <==> d in devices && Eligible(t, lower, d)
  {
    hide Eligible;
    if devices != [] {
      CandidatesAre(devices[..|devices| - 1], t, lower);
      assert devices == devices[..|devices| - 1] + [devices[|devices| - 1]];
    }
  }

  lemma {:induction false} LatchedAre(devices: seq<Entry>, minRssi: int, held: seq<string>)
    ensures forall d :: d in Latched(devices, minRssi, held) <==>
                        d in devices && (Held(held, d.address) || d.rssi >= minRssi)
  {
    hide Held;
    if devices != [] {
      LatchedAre(devices[..|devices| - 1], minRssi, held);
      assert devices == devices[..|devices| - 1] + [devices[|devices| - 1]];
    }
  }

  lemma HeldAddresses(devices: seq<Entry>, address: string)
    ensures Held(AddressesOf(devices), address) <==> exists d <- devices :: Equal(d.address, address)
  {
    hide Equal;
    var addresses := AddressesOf(devices);
    if Held(addresses, address) {
      var k :| 0 <= k < |addresses| && Equal(addresses[k], address);
      assert devices[k] in devices;
    }
    if d :| d in devices && Equal(d.address, address) {
      var k :| 0 <= k < |devices| && devices[k] == d;
      assert addresses[k] in addresses;
    }
  }

  /** With the filter on, an eligible device is shown if its own signal is strong enough or
      its address is held. */
  lemma ShownAre(h: Hold, t: Tick, lower: string -> string, d: Entry)
    ensures d in Shown(h, t, lower) <==>
            && d in t.devices && Eligible(t, lower, d)
            && (t.enabled ==> Held(Kept(h, t.MinRssi()), d.address) || d.rssi >= t.MinRssi())
  {
    hide Eligible, Held, Kept;
    CandidatesAre(t.devices, t, lower);
    LatchedAre(Candidates(t.devices, t, lower), t.MinRssi(), Kept(h, t.MinRssi()));
  }

  /** An address held into tick `n` is one admitted by tick `n - 1` under the same threshold. */
  lemma {:induction false} HeldIsAdmitted(ticks: seq<Tick>, lower: string -> string, n: nat, address: string)
    requires n < |ticks| && ticks[n].enabled
    ensures Held(Kept(HoldAt(ticks, lower, n), ticks[n].MinRssi()), address) <==>
            Goes(ticks, n) && Admitted(ticks, lower, n - 1, address)
    decreases n, 0
  {
    if n > 0 && ticks[n - 1].enabled {
      AddressShown(ticks, lower, n - 1, address);
      hide Shown, Admitted, Equal, Held;
      HeldAddresses(ShownAt(ticks, lower, n - 1), address);
    }
    hide Shown, Admitted, Equal;
  }

  /** The filter stays on with the same threshold from tick `n - 1` to tick `n`. */
  predicate Goes(ticks: seq<Tick>, n: nat)
    requires n < |ticks|
  {
    n > 0 && ticks[n - 1].enabled && ticks[n].enabled && ticks[n - 1].MinRssi() == ticks[n].MinRssi()
  }

  /** An admission continues while the device stays eligible. */
  lemma AdmissionContinues(ticks: seq<Tick>, lower: string -> string, n: nat, address: string)
    requires n < |ticks| && Goes(ticks, n)
    requires Admitted(ticks, lower, n - 1, address) && Present(ticks[n], lower, address)
    ensures Admitted(ticks, lower, n, address)
  {
    hide Present, Strong;
    var s :| 0 <= s <= n - 1 && Unbroken(ticks, lower, s, n - 1, address) && Strong(ticks[s], lower, address);
    assert Unbroken(ticks, lower, s, n, address);
  }

  /** An admission that did not start now was one already. */
  lemma AdmissionStarted(ticks: seq<Tick>, lower: string -> string, n: nat, address: string)
    requires n < |ticks| && Admitted(ticks, lower, n, address)
    ensures Present(ticks[n], lower, address)
    ensures Strong(ticks[n], lower, address) || (Goes(ticks, n) && Admitted(ticks, lower, n - 1, address))
  {
    hide Present, Strong;
    var s :| 0 <= s <= n && Unbroken(ticks, lower, s, n, address) && Strong(ticks[s], lower, address);
    if s < n {
      assert Unbroken(ticks, lower, s, n - 1, address);
    }
  }

  /** So an admission continues from the tick before, or starts now. */
  lemma AdmittedStep(ticks: seq<Tick>, lower: string -> string, n: nat, address: string)
    requires n < |ticks| && ticks[n].enabled
    ensures Admitted(ticks, lower, n, address) <==>
            && Present(ticks[n], lower, address)
            && (Strong(ticks[n], lower, address) || (Goes(ticks, n) && Admitted(ticks, lower, n - 1, address)))
  {
    if Admitted(ticks, lower, n, address) {
      AdmissionStarted(ticks, lower, n, address);
    } else if Present(ticks[n], lower, address) && Goes(ticks, n) && Admitted(ticks, lower, n - 1, address) {
      AdmissionContinues(ticks, lower, n, address);
    }
    if Present(ticks[n], lower, address) && Strong(ticks[n], lower, address) {
      assert Unbroken(ticks, lower, n, n, address);
    }
    hide Present, Strong, Goes;
  }

  /** With the filter on, an address is shown exactly if it met the threshold at some tick
      and from then on stayed eligible, with the filter on and the threshold unchanged. */
  lemma {:induction false} AddressShown(ticks: seq<Tick>, lower: string -> string, n: nat, address: string)
    requires n < |ticks| && ticks[n].enabled
    ensures (exists d <- ShownAt(ticks, lower, n) :: Equal(d.address, address)) <==> Admitted(ticks, lower, n, address)
    decreases n, 1
  {
    HeldIsAdmitted(ticks, lower, n, address);
    AdmittedStep(ticks, lower, n, address);
    AddressShownNow(HoldAt(ticks, lower, n), ticks[n], lower, address);
  }

  lemma AddressShownNow(h: Hold, t: Tick, lower: string -> string, address: string)
    requires t.enabled
    ensures (exists d <- Shown(h, t, lower) :: Equal(d.address, address)) <==>
            Present(t, lower, address) && (Strong(t, lower, address) || Held(Kept(h, t.MinRssi()), address))
  {
    forall d
      ensures d in Shown(h, t, lower) <==>
              && d in t.devices && Eligible(t, lower, d)
              && (Held(Kept(h, t.MinRssi()), d.address) || d.rssi >= t.MinRssi())
    {
      ShownAre(h, t, lower, d);
    }
    forall d: Entry | Equal(d.address, address)
      ensures Held(Kept(h, t.MinRssi()), d.address) <==> Held(Kept(h, t.MinRssi()), address)
    {
    }
    hide Eligible, Held, Shown, Kept, Equal;
  }

  /** Entry by entry: with the filter on, an eligible device is shown exactly if its own signal
      is strong enough now or its address was admitted by the tick before. */
  lemma EntryShown(ticks: seq<Tick>, lower: string -> string, n: nat, d: Entry)
    requires n < |ticks| && ticks[n].enabled
    ensures d in ShownAt(ticks, lower, n) <==>
            && d in ticks[n].devices && Eligible(ticks[n], lower, d)
            && (d.rssi >= ticks[n].MinRssi() || (Goes(ticks, n) && Admitted(ticks, lower, n - 1, d.address)))
  {
    ShownAre(HoldAt(ticks, lower, n), ticks[n], lower, d);
    HeldIsAdmitted(ticks, lower, n, d.address);
  }

  /** With the filter off everything eligible is shown, and nothing is held for later. */
  lemma OffForgets(ticks: seq<Tick>, lower: string -> string, n: nat, d: Entry)
    requires n < |ticks| && !ticks[n].enabled
    ensures d in ShownAt(ticks, lower, n) <==> d in ticks[n].devices && Eligible(ticks[n], lower, d)
    ensures n + 1 < |ticks| && ticks[n + 1].enabled ==>
              (d in ShownAt(ticks, lower, n + 1) <==>
               && d in ticks[n + 1].devices && Eligible(ticks[n + 1], lower, d) && d.rssi >= ticks[n + 1].MinRssi())
  {
    ShownAre(HoldAt(ticks, lower, n), ticks[n], lower, d);
    if n + 1 < |ticks| && ticks[n + 1].enabled {
      EntryShown(ticks, lower, n + 1, d);
    }
  }
}
