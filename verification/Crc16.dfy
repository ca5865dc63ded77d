/** The two 16-bit CRCs of the repository: CRC-16/XMODEM of the firmware packets (most
    significant bit first) and CRC-16/MODBUS of the register frames (least significant
    bit first), with what they detect. The word operations have names of their own so
    that most proofs can treat them as uninterpreted. */
module Crc16 {

  type Byte = bv8

  datatype Variant = Xmodem | Modbus

  function Poly(v: Variant): bv16 { if v == Xmodem then 0x1021 else 0xA001 }

  function Init(v: Variant): bv16 { if v == Xmodem then 0 else 0xFFFF }

  /** The bit that is about to leave the register. */
  function OutBit(v: Variant): bv16 { if v == Xmodem then 0x8000 else 1 }

  function Plain(v: Variant, c: bv16): bv16 { if v == Xmodem then c << 1 else c >> 1 }

  function Xor(c: bv16, d: bv16): bv16 { c ^ d }

  function And(c: bv16, d: bv16): bv16 { c & d }

  predicate Outgoing(v: Variant, c: bv16) { c & OutBit(v) != 0 }

  /** One bit of polynomial division. */
  function Shift(v: Variant, c: bv16): bv16 {
    if Outgoing(v, c) then Xor(Plain(v, c), Poly(v)) else Plain(v, c)
  }

  function Shifts(v: Variant, c: bv16, n: nat): bv16 {
    if n == 0 then c else Shift(v, Shifts(v, c, n - 1))
  }

  /** A message byte at the end of the register where it enters. */
  function Place(v: Variant, b: Byte): bv16 {
    if v == Xmodem then (b as bv16) << 8 else b as bv16
  }

  function Step(v: Variant, c: bv16, b: Byte): bv16 {
    Shifts(v, Xor(c, Place(v, b)), 8)
  }

  function Fold(v: Variant, c: bv16, data: seq<Byte>): bv16
    decreases data
  {
    if data == [] then c else Fold(v, Step(v, c, data[0]), data[1..])
  }

  function Crc(v: Variant, data: seq<Byte>): bv16 {
    Fold(v, Init(v), data)
  }

  function High(c: bv16): Byte { (c >> 8) as Byte }

  function Low(c: bv16): Byte { (c & 0xFF) as Byte }

  /** The CRC as it travels: high byte first for XMODEM, low byte first for Modbus RTU
      (section 6.2.2 of MODBUS over Serial Line V1.02). */
  function Trailer(v: Variant, c: bv16): (t: seq<Byte>)
    ensures |t| == 2
  {
    if v == Xmodem then [High(c), Low(c)] else [Low(c), High(c)]
  }

  /** The bitwise loop of both implementations. */
  method Compute(v: Variant, data: seq<Byte>) returns (crc: bv16)
    ensures crc == Crc(v, data)
  {
    hide Shift, Place, Xor;
    crc := Init(v);
    for i := 0 to |data|
      invariant Fold(v, crc, data[i..]) == Crc(v, data)
    {
      ghost var before := crc;
      crc := Xor(crc, Place(v, data[i]));
      for k := 0 to 8
        invariant crc == Shifts(v, Xor(before, Place(v, data[i])), k)
      {
        crc := Shift(v, crc);
      }
      assert data[i..][1..] == data[i + 1..];
    }
  }

  // ---------------------------------------------------------------------------
  // Single steps of the register
  // ---------------------------------------------------------------------------

  lemma XorCancels(c: bv16, k: bv16)
    ensures Xor(Xor(c, k), k) == c
  {
  }

  lemma XorAssociative(c: bv16, d: bv16, k: bv16)
    ensures Xor(c, Xor(d, k)) == Xor(Xor(c, d), k)
  {
  }

  lemma XorCommutes(c: bv16, d: bv16)
    ensures Xor(c, d) == Xor(d, c)
  {
  }

  /** Adding `k` on either side or on both. */
  lemma XorSwap(c: bv16, d: bv16, k: bv16)
    ensures Xor(Xor(c, k), d) == Xor(Xor(c, d), k) == Xor(c, Xor(d, k))
    ensures Xor(Xor(c, k), Xor(d, k)) == Xor(c, d)
  {
    hide Xor;
    XorAssociative(c, d, k);
    XorAssociative(c, k, d);
    XorCommutes(k, d);
    XorAssociative(Xor(c, k), d, k);
    XorCancels(Xor(c, d), k);
  }

  /** The bit shifted out shows in the register afterwards. */
  lemma FeedbackShows(v: Variant, c: bv16)
    ensures var in' := OutBit(if v == Xmodem then Modbus else Xmodem);
            Plain(v, c) & in' == 0 && Xor(Plain(v, c), Poly(v)) & in' == in'
  {
    match v
    case Xmodem => assert (c << 1) & 1 == 0 && ((c << 1) ^ 0x1021) & 1 == 1;
    case Modbus => assert (c >> 1) & 0x8000 == 0 && ((c >> 1) ^ 0xA001) & 0x8000 == 0x8000;
  }

  lemma PlainInjective(v: Variant, c: bv16, d: bv16)
    requires Plain(v, c) == Plain(v, d) && (Outgoing(v, c) <==> Outgoing(v, d))
    ensures c == d
  {
    match v
    case Xmodem => assert c & 0x8000 == 0 || c & 0x8000 == 0x8000;
    case Modbus => assert c & 1 == 0 || c & 1 == 1;
  }

  lemma ShiftInjective(v: Variant, c: bv16, d: bv16)
    requires Shift(v, c) == Shift(v, d)
    ensures c == d
  {
    FeedbackShows(v, c);
    FeedbackShows(v, d);
    XorCancels(Plain(v, c), Poly(v));
    XorCancels(Plain(v, d), Poly(v));
    hide Plain, Xor, Outgoing;
    assert Outgoing(v, c) <==> Outgoing(v, d);
    PlainInjective(v, c, d);
  }

  lemma PlainXor(v: Variant, c: bv16, d: bv16)
    ensures Plain(v, Xor(c, d)) == Xor(Plain(v, c), Plain(v, d))
  {
    match v
    case Xmodem => assert (c ^ d) << 1 == (c << 1) ^ (d << 1);
    case Modbus => assert (c ^ d) >> 1 == (c >> 1) ^ (d >> 1);
  }

  lemma OutgoingXor(v: Variant, c: bv16, d: bv16)
    ensures Outgoing(v, Xor(c, d)) <==> !(Outgoing(v, c) <==> Outgoing(v, d))
  {
    match v
    case Xmodem => assert (c ^ d) & 0x8000 == 0 <==> (c & 0x8000 == 0 <==> d & 0x8000 == 0);
    case Modbus => assert (c ^ d) & 1 == 0 <==> (c & 1 == 0 <==> d & 1 == 0);
  }

  lemma ShiftXor(v: Variant, c: bv16, d: bv16)
    ensures Shift(v, Xor(c, d)) == Xor(Shift(v, c), Shift(v, d))
  {
    hide Plain, Xor, Outgoing;
    PlainXor(v, c, d);
    OutgoingXor(v, c, d);
    XorSwap(Plain(v, c), Plain(v, d), Poly(v));
  }

  // ---------------------------------------------------------------------------
  // Whole messages
  // ---------------------------------------------------------------------------

  lemma {:induction false} ShiftsInjective(v: Variant, c: bv16, d: bv16, n: nat)
    requires Shifts(v, c, n) == Shifts(v, d, n)
    ensures c == d
  {
    hide Shift;
    if n != 0 {
      ShiftInjective(v, Shifts(v, c, n - 1), Shifts(v, d, n - 1));
      ShiftsInjective(v, c, d, n - 1);
    }
  }

  lemma {:induction false} ShiftsXor(v: Variant, c: bv16, d: bv16, n: nat)
    ensures Shifts(v, Xor(c, d), n) == Xor(Shifts(v, c, n), Shifts(v, d, n))
  {
    hide Shift, Xor;
    if n != 0 {
      ShiftsXor(v, c, d, n - 1);
      ShiftXor(v, Shifts(v, c, n - 1), Shifts(v, d, n - 1));
    }
  }

  /** Messages with one common suffix have equal CRCs only if their prefixes do. */
  lemma {:induction false} FoldInjective(v: Variant, c: bv16, d: bv16, data: seq<Byte>)
    requires Fold(v, c, data) == Fold(v, d, data)
    ensures c == d
    decreases data
  {
    hide Shifts, Place, Xor;
    if data != [] {
      FoldInjective(v, Step(v, c, data[0]), Step(v, d, data[0]), data[1..]);
      var p := Place(v, data[0]);
      ShiftsInjective(v, Xor(c, p), Xor(d, p), 8);
      XorCancels(c, p);
      XorCancels(d, p);
    }
  }

  lemma {:induction false} FoldAppend(v: Variant, c: bv16, a: seq<Byte>, b: seq<Byte>)
    ensures Fold(v, c, a + b) == Fold(v, Fold(v, c, a), b)
    decreases a
  {
    hide Step;
    if a == [] {
      assert a + b == b;
    } else {
      FoldAppend(v, Step(v, c, a[0]), a[1..], b);
      assert (a + b)[1..] == a[1..] + b;
    }
  }

  // ---------------------------------------------------------------------------
  // The same CRC, one message bit at a time
  // ---------------------------------------------------------------------------

  function Plains(v: Variant, c: bv16, n: nat): bv16 {
    if n == 0 then c else Plain(v, Plains(v, c, n - 1))
  }

  /** Bit `i` of a byte in the order the CRC takes them. */
  predicate Bit(v: Variant, b: Byte, i: nat) {
    Outgoing(v, Plains(v, Place(v, b), i))
  }

  function Feed(v: Variant, c: bv16, bit: bool): bv16 {
    Shift(v, if bit then Xor(c, OutBit(v)) else c)
  }

  /** The bits of a message in the order the CRC takes them. */
  function Bits(v: Variant, data: seq<Byte>): (bits: seq<bool>)
    ensures |bits| == 8 * |data|
  {
    seq(8 * |data|, j requires 0 <= j < 8 * |data| => Bit(v, data[j / 8], j % 8))
  }

  /** The register after the first `k` bits. */
  function After(v: Variant, c: bv16, bits: seq<bool>, k: nat): bv16
    requires k <= |bits|
  {
    if k == 0 then c else Feed(v, After(v, c, bits, k - 1), bits[k - 1])
  }

  lemma DropTop(p: bv16)
    ensures Outgoing(Xmodem, p) ==> !Outgoing(Xmodem, Xor(p, 0x8000))
  {
    assert p & 0x8000 != 0 ==> (p ^ 0x8000) & 0x8000 == 0;
  }

  lemma DropBottom(p: bv16)
    ensures Outgoing(Modbus, p) ==> !Outgoing(Modbus, Xor(p, 1))
  {
    assert p & 1 != 0 ==> (p ^ 1) & 1 == 0;
  }

  lemma DropPlainBit(p: bv16)
    ensures Plain(Xmodem, Xor(p, 0x8000)) == Plain(Xmodem, p)
    ensures Plain(Modbus, Xor(p, 1)) == Plain(Modbus, p)
  {
    assert (p ^ 0x8000) << 1 == p << 1;
    assert (p ^ 1) >> 1 == p >> 1;
  }

  /** Dropping the outgoing bit first does not change a plain shift. */
  lemma DropOutgoing(v: Variant, p: bv16)
    requires Outgoing(v, p)
    ensures !Outgoing(v, Xor(p, OutBit(v))) && Plain(v, Xor(p, OutBit(v))) == Plain(v, p)
  {
    hide Plain, Xor, Outgoing;
    DropTop(p);
    DropBottom(p);
    DropPlainBit(p);
    assert v == Xmodem || v == Modbus;
  }

  /** Adding a whole word and shifting is feeding its first bit and keeping the rest. */
  lemma PeelBit(v: Variant, c: bv16, p: bv16)
    ensures Shift(v, Xor(c, p)) == Xor(Feed(v, c, Outgoing(v, p)), Plain(v, p))
  {
    hide Xor, Plain, Outgoing, OutBit;
    if Outgoing(v, p) {
      var rest := Xor(p, OutBit(v));
      DropOutgoing(v, p);
      XorCancels(p, OutBit(v));
      XorSwap(c, rest, OutBit(v));
      ShiftXor(v, Xor(c, OutBit(v)), rest);
    } else {
      ShiftXor(v, c, p);
    }
  }

  lemma {:induction false} PeelBits(v: Variant, c: bv16, p: bv16, bits: seq<bool>, n: nat)
    requires n <= |bits| && forall i :: 0 <= i < n ==> bits[i] == Outgoing(v, Plains(v, p, i))
    ensures Shifts(v, Xor(c, p), n) == Xor(After(v, c, bits, n), Plains(v, p, n))
  {
    hide Xor, Plain, Outgoing, Shift;
    if n != 0 {
      PeelBits(v, c, p, bits, n - 1);
      PeelBit(v, After(v, c, bits, n - 1), Plains(v, p, n - 1));
    }
  }

  // ---------------------------------------------------------------------------
  // Words whose last-fed bits are clear
  // ---------------------------------------------------------------------------

  /** The `s` bits at the end of the register where it is fed. */
  function Mask(v: Variant, s: nat): bv16 {
    if s == 0 then 0
    else if v == Xmodem then (Mask(v, s - 1) << 1) | 1
    else (Mask(v, s - 1) >> 1) | 0x8000
  }

  predicate Clear(v: Variant, c: bv16, s: nat) {
    And(c, Mask(v, s)) == 0
  }

  lemma MaskValues(v: Variant)
    ensures Mask(v, 1) == (if v == Xmodem then 1 else 0x8000)
    ensures Mask(v, 2) == (if v == Xmodem then 3 else 0xC000)
    ensures Mask(v, 3) == (if v == Xmodem then 7 else 0xE000)
    ensures Mask(v, 4) == (if v == Xmodem then 0xF else 0xF000)
    ensures Mask(v, 5) == (if v == Xmodem then 0x1F else 0xF800)
    ensures Mask(v, 6) == (if v == Xmodem then 0x3F else 0xFC00)
    ensures Mask(v, 7) == (if v == Xmodem then 0x7F else 0xFE00)
    ensures Mask(v, 8) == (if v == Xmodem then 0xFF else 0xFF00)
    ensures Mask(v, 9) == (if v == Xmodem then 0x1FF else 0xFF80)
    ensures Mask(v, 10) == (if v == Xmodem then 0x3FF else 0xFFC0)
    ensures Mask(v, 11) == (if v == Xmodem then 0x7FF else 0xFFE0)
    ensures Mask(v, 12) == (if v == Xmodem then 0xFFF else 0xFFF0)
    ensures Mask(v, 13) == (if v == Xmodem then 0x1FFF else 0xFFF8)
    ensures Mask(v, 14) == (if v == Xmodem then 0x3FFF else 0xFFFC)
    ensures Mask(v, 15) == (if v == Xmodem then 0x7FFF else 0xFFFE)
    ensures Mask(v, 16) == 0xFFFF
  {
    assert Mask(v, 1) == if v == Xmodem then 1 else 0x8000;
    assert Mask(v, 3) == if v == Xmodem then 7 else 0xE000;
    assert Mask(v, 5) == if v == Xmodem then 0x1F else 0xF800;
    assert Mask(v, 7) == if v == Xmodem then 0x7F else 0xFE00;
    assert Mask(v, 9) == if v == Xmodem then 0x1FF else 0xFF80;
    assert Mask(v, 11) == if v == Xmodem then 0x7FF else 0xFFE0;
    assert Mask(v, 13) == if v == Xmodem then 0x1FFF else 0xFFF8;
    assert Mask(v, 15) == if v == Xmodem then 0x7FFF else 0xFFFE;
  }

  lemma MaskSparesOutgoing(v: Variant, s: nat)
    requires s < 16
    ensures And(OutBit(v), Mask(v, s)) == 0
  {
    MaskValues(v);
    assert Mask(v, 0) == 0;
    hide Mask;
    assert s == 0 || s == 1 || s == 2 || s == 3 || s == 4 || s == 5 || s == 6 || s == 7 || s == 8
        || s == 9 || s == 10 || s == 11 || s == 12 || s == 13 || s == 14 || s == 15;
  }

  lemma AndXor(c: bv16, d: bv16, m: bv16)
    ensures And(Xor(c, d), m) == Xor(And(c, m), And(d, m))
  {
    assert (c ^ d) & m == (c & m) ^ (d & m);
  }

  /** Adding the outgoing bit does not touch the bits at the other end. */
  lemma ClearSparesOutgoing(v: Variant, c: bv16, s: nat)
    requires s < 16
    ensures Clear(v, Xor(c, OutBit(v)), s) <==> Clear(v, c, s)
  {
    hide Mask, OutBit, Xor, And;
    MaskSparesOutgoing(v, s);
    AndXor(c, OutBit(v), Mask(v, s));
    XorZero(And(c, Mask(v, s)));
  }

  lemma XorZero(c: bv16)
    ensures Xor(c, 0) == c
  {
  }

  lemma AndLeft(c: bv16, m: bv16)
    ensures (c << 1) & ((m << 1) | 1) == (c & m) << 1
  {
  }

  lemma PlainAndLeft(c: bv16, s: nat)
    ensures And(Plain(Xmodem, c), Mask(Xmodem, s + 1)) == Plain(Xmodem, And(c, Mask(Xmodem, s)))
  {
    AndLeft(c, Mask(Xmodem, s));
  }

  lemma PlainAndRight(c: bv16, s: nat)
    ensures And(Plain(Modbus, c), Mask(Modbus, s + 1)) == Plain(Modbus, And(c, Mask(Modbus, s)))
  {
    var m := Mask(Modbus, s);
    assert (c >> 1) & ((m >> 1) | 0x8000) == (c & m) >> 1;
  }

  /** The masks move with the register. */
  lemma PlainAnd(v: Variant, c: bv16, s: nat)
    ensures And(Plain(v, c), Mask(v, s + 1)) == Plain(v, And(c, Mask(v, s)))
  {
    hide And, Plain, Mask;
    if v == Xmodem {
      PlainAndLeft(c, s);
    } else {
      PlainAndRight(c, s);
    }
  }

  lemma PlainZero(v: Variant)
    ensures Plain(v, 0) == 0 && !Outgoing(v, 0)
  {
  }

  lemma ClearPlain(v: Variant, c: bv16, s: nat)
    requires Clear(v, c, s)
    ensures Clear(v, Plain(v, c), s + 1)
  {
    hide And, Plain, Mask, Outgoing;
    PlainAnd(v, c, s);
    PlainZero(v);
  }

  lemma AndOutgoing(v: Variant, c: bv16, m: bv16)
    requires !Outgoing(v, c)
    ensures !Outgoing(v, And(c, m))
  {
    assert (c & m) & OutBit(v) == (c & OutBit(v)) & m;
  }

  lemma LeftNoFeedback(c: bv16, s: nat)
    requires Clear(Xmodem, Shift(Xmodem, c), s + 1)
    ensures !Outgoing(Xmodem, c)
  {
    var m := Mask(Xmodem, s);
    assert ((c << 1) ^ 0x1021) & ((m << 1) | 1) != 0;
  }

  lemma RightNoFeedback(c: bv16, s: nat)
    requires Clear(Modbus, Shift(Modbus, c), s + 1)
    ensures !Outgoing(Modbus, c)
  {
    var m := Mask(Modbus, s);
    assert ((c >> 1) ^ 0xA001) & ((m >> 1) | 0x8000) != 0;
  }

  /** If a shift leaves `s + 1` clear bits there was no feedback, which would have set
      one of them, and `s` bits were clear before. */
  lemma ClearBack(v: Variant, c: bv16, s: nat)
    requires Clear(v, Shift(v, c), s + 1)
    ensures !Outgoing(v, c) && Clear(v, c, s)
  {
    hide Outgoing, Plain, Xor, And, Mask;
    if v == Xmodem {
      LeftNoFeedback(c, s);
    } else {
      RightNoFeedback(c, s);
    }
    PlainAnd(v, c, s);
    PlainZero(v);
    AndOutgoing(v, c, Mask(v, s));
    PlainInjective(v, And(c, Mask(v, s)), 0);
  }

  lemma {:induction false} PlainsClear(v: Variant, c: bv16, s: nat, n: nat)
    requires Clear(v, c, s)
    ensures Clear(v, Plains(v, c, n), s + n)
  {
    hide Clear, Plain;
    if n != 0 {
      PlainsClear(v, c, s, n - 1);
      ClearPlain(v, Plains(v, c, n - 1), s + n - 1);
    }
  }

  lemma ByteBits(b: Byte)
    ensures ((b as bv16) << 8) & 0xFF == 0 && (b as bv16) & 0xFF00 == 0
  {
  }

  lemma ByteClear(v: Variant, b: Byte)
    ensures Clear(v, Place(v, b), 8)
  {
    MaskValues(v);
    ByteBits(b);
    hide Mask;
  }

  lemma ClearAll(v: Variant, c: bv16)
    ensures Clear(v, c, 16) <==> c == 0
  {
    MaskValues(v);
    AndOnes(c);
    hide Mask;
  }

  lemma AndOnes(c: bv16)
    ensures And(c, 0xFFFF) == c
  {
  }

  /** After eight plain shifts a byte has left the register. */
  lemma ByteGone(v: Variant, b: Byte)
    ensures Plains(v, Place(v, b), 8) == 0
  {
    hide Clear, Place, Plain;
    ByteClear(v, b);
    PlainsClear(v, Place(v, b), 8, 8);
    ClearAll(v, Plains(v, Place(v, b), 8));
  }

  /** A byte step is eight bit steps. */
  lemma StepIsBits(v: Variant, c: bv16, b: Byte, bits: seq<bool>)
    requires 8 <= |bits| && forall i :: 0 <= i < 8 ==> bits[i] == Bit(v, b, i)
    ensures Step(v, c, b) == After(v, c, bits, 8)
  {
    hide Xor, Plain, Outgoing, Shift, Place;
    PeelBits(v, c, Place(v, b), bits, 8);
    ByteGone(v, b);
    XorZero(After(v, c, bits, 8));
  }

  lemma {:induction false} AfterShift(v: Variant, c: bv16, a: seq<bool>, b: seq<bool>, i: nat, k: nat)
    requires i + k <= |a| && k <= |b| && forall t :: 0 <= t < k ==> b[t] == a[i + t]
    ensures After(v, c, a, i + k) == After(v, After(v, c, a, i), b, k)
  {
    hide Feed;
    if k != 0 {
      AfterShift(v, c, a, b, i, k - 1);
    }
  }

  lemma BitAt(v: Variant, data: seq<Byte>, k: nat, t: nat)
    requires k < |data| && t < 8
    ensures Bits(v, data)[8 * k + t] == Bit(v, data[k], t)
  {
    assert (8 * k + t) / 8 == k && (8 * k + t) % 8 == t;
  }

  lemma BitsTail(v: Variant, data: seq<Byte>, t: nat)
    requires data != [] && t < 8 * |data| - 8
    ensures Bits(v, data[1..])[t] == Bits(v, data)[8 + t]
  {
    hide Bits, Bit;
    BitAt(v, data[1..], t / 8, t % 8);
    BitAt(v, data, t / 8 + 1, t % 8);
  }

  /** The CRC of a message is its bits fed one at a time. */
  lemma {:induction false} FoldIsBits(v: Variant, c: bv16, data: seq<Byte>)
    ensures Fold(v, c, data) == After(v, c, Bits(v, data), 8 * |data|)
    decreases data
  {
    hide Step, Feed, Bit, Bits;
    if data != [] {
      var bits, rest := Bits(v, data), Bits(v, data[1..]);
      forall i | 0 <= i < 8
        ensures bits[i] == Bit(v, data[0], i)
      {
        BitAt(v, data, 0, i);
      }
      StepIsBits(v, c, data[0], bits);
      FoldIsBits(v, Step(v, c, data[0]), data[1..]);
      forall t | 0 <= t < |rest|
        ensures rest[t] == bits[8 + t]
      {
        BitsTail(v, data, t);
      }
      AfterShift(v, c, bits, rest, 8, |rest|);
    }
  }

  // ---------------------------------------------------------------------------
  // Error detection
  // ---------------------------------------------------------------------------

  /** The difference of two registers evolves by the difference of their bits. */
  lemma FeedXor(v: Variant, c: bv16, d: bv16, x: bool, y: bool)
    ensures Xor(Feed(v, c, x), Feed(v, d, y)) == Feed(v, Xor(c, d), x != y)
  {
    hide Xor, Shift, OutBit;
    var o := OutBit(v);
    var c', d' := if x then Xor(c, o) else c, if y then Xor(d, o) else d;
    ShiftXor(v, c', d');
    XorSwap(c, d, o);
  }

  /** Undoing one bit: what was fed is what came out, and one clear bit fewer remains. */
  lemma FeedBack(v: Variant, c: bv16, bit: bool, s: nat)
    requires s < 16 && Clear(v, Feed(v, c, bit), s + 1)
    ensures bit == Outgoing(v, c) && Clear(v, c, s)
  {
    hide Xor, Shift, Clear, OutBit, Outgoing;
    var c' := if bit then Xor(c, OutBit(v)) else c;
    ClearBack(v, c', s);
    if bit {
      ClearSparesOutgoing(v, c, s);
      XorCancels(c, OutBit(v));
      if !Outgoing(v, c) {
        SetOutgoing(v, c);
      }
    }
  }

  lemma SetOutgoing(v: Variant, c: bv16)
    requires !Outgoing(v, c)
    ensures Outgoing(v, Xor(c, OutBit(v)))
  {
    hide Xor, OutBit;
    OutgoingXor(v, c, OutBit(v));
    OutBitGoes(v);
  }

  lemma OutBitGoes(v: Variant)
    ensures Outgoing(v, OutBit(v))
  {
  }

  function Diff(v: Variant, c: bv16, x: seq<bool>, y: seq<bool>, k: nat): bv16
    requires k <= |x| == |y|
  {
    Xor(After(v, c, x, k), After(v, c, y, k))
  }

  lemma {:induction false} DiffZero(v: Variant, c: bv16, x: seq<bool>, y: seq<bool>, i: nat, k: nat)
    requires i <= k <= |x| == |y| && forall j :: i <= j < k ==> x[j] == y[j]
    ensures Diff(v, c, x, y, i) == 0 <==> Diff(v, c, x, y, k) == 0
  {
    hide Xor, Shift;
    if i < k {
      DiffZero(v, c, x, y, i, k - 1);
      FeedXor(v, After(v, c, x, k - 1), After(v, c, y, k - 1), x[k - 1], y[k - 1]);
      ShiftZero(v);
      if Diff(v, c, x, y, k) == 0 {
        ShiftInjective(v, Diff(v, c, x, y, k - 1), 0);
      }
    }
  }

  lemma ShiftZero(v: Variant)
    ensures Shift(v, 0) == 0
  {
  }

  lemma XorWithSelf(c: bv16)
    ensures Xor(c, c) == 0
  {
  }

  lemma XorSelf(c: bv16, d: bv16)
    ensures Xor(c, d) == 0 <==> c == d
  {
    hide Xor;
    XorWithSelf(c);
    XorCancels(c, d);
    XorZero(d);
    XorCommutes(0, d);
  }

  /** Backwards through a window that ends without a difference. */
  lemma {:induction false} WindowBack(v: Variant, c: bv16, x: seq<bool>, y: seq<bool>, k: nat, w: nat)
    requires k <= w <= |x| == |y| && w - k <= 16 && Diff(v, c, x, y, w) == 0
    ensures Clear(v, Diff(v, c, x, y, k), 16 - (w - k))
    decreases w - k
  {
    hide Xor, Feed, Clear;
    if k == w {
      ClearAll(v, 0);
    } else {
      WindowBack(v, c, x, y, k + 1, w);
      FeedXor(v, After(v, c, x, k), After(v, c, y, k), x[k], y[k]);
      FeedBack(v, Diff(v, c, x, y, k), x[k] != y[k], 16 - (w - k));
    }
  }

  /** Forwards through the same window: no difference ever enters. */
  lemma {:induction false} WindowForward(v: Variant, c: bv16, x: seq<bool>, y: seq<bool>, i: nat, k: nat, w: nat)
    requires i <= k <= w <= |x| == |y| && w - i <= 16
    requires Diff(v, c, x, y, i) == 0 && Diff(v, c, x, y, w) == 0
    ensures Diff(v, c, x, y, k) == 0 && forall j :: i <= j < k ==> x[j] == y[j]
  {
    hide Xor, Shift, Clear, Outgoing;
    if i < k {
      WindowForward(v, c, x, y, i, k - 1, w);
      WindowBack(v, c, x, y, k, w);
      FeedXor(v, After(v, c, x, k - 1), After(v, c, y, k - 1), x[k - 1], y[k - 1]);
      FeedBack(v, 0, x[k - 1] != y[k - 1], 15 - (w - k));
      PlainZero(v);
      ShiftZero(v);
    }
  }

  /** The messages agree outside the 16 bits from position `i` on. */
  ghost predicate DifferWithin16(v: Variant, m: seq<Byte>, m': seq<Byte>, i: nat) {
    && |m| == |m'|
    && forall j :: 0 <= j < 8 * |m| && !(i <= j < i + 16) ==> Bits(v, m)[j] == Bits(v, m')[j]
  }

  /** Every error burst of at most 16 bits changes the register, whatever it held. */
  lemma BurstChangesRegister(v: Variant, c: bv16, m: seq<Byte>, m': seq<Byte>, i: nat)
    requires DifferWithin16(v, m, m', i) && m != m'
    ensures Fold(v, c, m) != Fold(v, c, m')
  {
    hide Bits, Xor, Feed;
    var n, x, y := 8 * |m|, Bits(v, m), Bits(v, m');
    if Fold(v, c, m) == Fold(v, c, m') {
      FoldIsBits(v, c, m);
      FoldIsBits(v, c, m');
      var a, w := if i < n then i else n, if i + 16 < n then i + 16 else n;
      XorSelf(c, c);
      DiffZero(v, c, x, y, 0, a);
      XorSelf(After(v, c, x, n), After(v, c, y, n));
      DiffZero(v, c, x, y, w, n);
      WindowForward(v, c, x, y, a, w, w);
      assert x == y;
      BitsInjective(v, m, m');
      assert false;
    }
  }

  /** Every error burst of at most 16 bits is detected. */
  lemma BurstDetected(v: Variant, m: seq<Byte>, m': seq<Byte>, i: nat)
    requires DifferWithin16(v, m, m', i) && m != m'
    ensures Crc(v, m) != Crc(v, m')
  {
    BurstChangesRegister(v, Init(v), m, m', i);
  }

  /** In particular two messages that differ only in bytes `k` and `k + 1`. */
  lemma AdjacentBytes(v: Variant, m: seq<Byte>, m': seq<Byte>, k: nat)
    requires |m| == |m'| && forall j :: 0 <= j < |m| && j != k && j != k + 1 ==> m[j] == m'[j]
    ensures DifferWithin16(v, m, m', 8 * k)
  {
    hide Bits, Bit;
    forall j | 0 <= j < 8 * |m| && !(8 * k <= j < 8 * k + 16)
      ensures Bits(v, m)[j] == Bits(v, m')[j]
    {
      BitAt(v, m, j / 8, j % 8);
      BitAt(v, m', j / 8, j % 8);
    }
  }

  /** What follows the first `k` bytes is hit by no longer a burst than the whole. */
  lemma BurstInSuffix(v: Variant, m: seq<Byte>, m': seq<Byte>, i: nat, k: nat)
    requires DifferWithin16(v, m, m', i) && k <= |m|
    ensures DifferWithin16(v, m[k..], m'[k..], if i < 8 * k then 0 else i - 8 * k)
  {
    hide Bits, Bit;
    forall t | 0 <= t < 8 * (|m| - k)
      ensures Bits(v, m[k..])[t] == Bits(v, m)[8 * k + t]
      ensures Bits(v, m'[k..])[t] == Bits(v, m')[8 * k + t]
    {
      BitsDrop(v, m, k, t);
      BitsDrop(v, m', k, t);
    }
  }

  lemma BitsDrop(v: Variant, data: seq<Byte>, k: nat, t: nat)
    requires k <= |data| && t < 8 * (|data| - k)
    ensures Bits(v, data[k..])[t] == Bits(v, data)[8 * k + t]
  {
    hide Bits, Bit;
    BitAt(v, data[k..], t / 8, t % 8);
    BitAt(v, data, t / 8 + k, t % 8);
  }

  lemma BitsInjective(v: Variant, m: seq<Byte>, m': seq<Byte>)
    requires |m| == |m'| && Bits(v, m) == Bits(v, m')
    ensures m == m'
  {
    hide Bits, Bit;
    forall k | 0 <= k < |m|
      ensures m[k] == m'[k]
    {
      forall t | 0 <= t < 8
        ensures Bit(v, m[k], t) == Bit(v, m'[k], t)
      {
        BitAt(v, m, k, t);
        BitAt(v, m', k, t);
      }
      ByteFromBits(v, m[k], m'[k]);
    }
  }

  lemma {:induction false} PlainsInjective(v: Variant, c: bv16, d: bv16, n: nat)
    requires Plains(v, c, n) == Plains(v, d, n)
    requires forall t :: 0 <= t < n ==> Outgoing(v, Plains(v, c, t)) == Outgoing(v, Plains(v, d, t))
    ensures c == d
  {
    hide Plain, Outgoing;
    if n != 0 {
      PlainInjective(v, Plains(v, c, n - 1), Plains(v, d, n - 1));
      PlainsInjective(v, c, d, n - 1);
    }
  }

  lemma ByteFromBits(v: Variant, b: Byte, d: Byte)
    requires forall t :: 0 <= t < 8 ==> Bit(v, b, t) == Bit(v, d, t)
    ensures b == d
  {
    hide Plains, Place, Outgoing;
    ByteGone(v, b);
    ByteGone(v, d);
    forall t | 0 <= t < 8
      ensures Outgoing(v, Plains(v, Place(v, b), t)) == Outgoing(v, Plains(v, Place(v, d), t))
    {
      assert Bit(v, b, t) == Bit(v, d, t);
    }
    PlainsInjective(v, Place(v, b), Place(v, d), 8);
    PlaceInjective(v, b, d);
  }

  lemma PlaceInjective(v: Variant, b: Byte, d: Byte)
    requires Place(v, b) == Place(v, d)
    ensures b == d
  {
    if v == Xmodem {
      PlaceLeft(b, d);
    } else {
      PlaceRight(b, d);
    }
  }

  lemma PlaceLeft(b: Byte, d: Byte)
    requires (b as bv16) << 8 == (d as bv16) << 8
    ensures b == d
  {
  }

  lemma PlaceRight(b: Byte, d: Byte)
    requires b as bv16 == d as bv16
    ensures b == d
  {
  }

  // ---------------------------------------------------------------------------
  // The residue
  // ---------------------------------------------------------------------------

  lemma {:induction false} PlainsAnd(v: Variant, c: bv16, s: nat, n: nat)
    ensures Plains(v, And(c, Mask(v, s)), n) == And(Plains(v, c, n), Mask(v, s + n))
  {
    hide And, Plain, Mask;
    if n != 0 {
      PlainsAnd(v, c, s, n - 1);
      PlainAnd(v, Plains(v, c, n - 1), s + n - 1);
    }
  }

  lemma AndSpares(v: Variant, c: bv16, m: bv16)
    requires And(OutBit(v), m) == 0
    ensures !Outgoing(v, And(c, m))
  {
    assert (c & m) & OutBit(v) == c & (OutBit(v) & m);
  }

  /** A register whose first byte is clear shifts eight times without feedback. */
  lemma {:induction false} QuietShifts(v: Variant, c: bv16, n: nat)
    requires n <= 8
    ensures Shifts(v, And(c, Mask(v, 8)), n) == Plains(v, And(c, Mask(v, 8)), n)
  {
    hide And, Plain, Mask, Outgoing, OutBit;
    if n != 0 {
      QuietShifts(v, c, n - 1);
      PlainsAnd(v, c, 8, n - 1);
      MaskSparesOutgoing(v, 7 + n);
      AndSpares(v, Plains(v, c, n - 1), Mask(v, 7 + n));
    }
  }

  lemma PlainLeftBy(c: bv16)
    ensures Plain(Xmodem, c) == c << 1 && Plain(Xmodem, c << 1) == c << 2
    ensures Plain(Xmodem, c << 2) == c << 3 && Plain(Xmodem, c << 3) == c << 4
    ensures Plain(Xmodem, c << 4) == c << 5 && Plain(Xmodem, c << 5) == c << 6
    ensures Plain(Xmodem, c << 6) == c << 7 && Plain(Xmodem, c << 7) == c << 8
  {
  }

  lemma PlainRightBy(c: bv16)
    ensures Plain(Modbus, c) == c >> 1 && Plain(Modbus, c >> 1) == c >> 2
    ensures Plain(Modbus, c >> 2) == c >> 3 && Plain(Modbus, c >> 3) == c >> 4
    ensures Plain(Modbus, c >> 4) == c >> 5 && Plain(Modbus, c >> 5) == c >> 6
    ensures Plain(Modbus, c >> 6) == c >> 7 && Plain(Modbus, c >> 7) == c >> 8
  {
  }

  lemma PlainsUnrolled(v: Variant, c: bv16)
    ensures Plains(v, c, 8) ==
      Plain(v, Plain(v, Plain(v, Plain(v, Plain(v, Plain(v, Plain(v, Plain(v, c))))))))
  {
    hide Plain;
    assert Plains(v, c, 1) == Plain(v, c);
    assert Plains(v, c, 3) == Plain(v, Plain(v, Plain(v, c)));
    assert Plains(v, c, 5) == Plain(v, Plain(v, Plains(v, c, 3)));
    assert Plains(v, c, 7) == Plain(v, Plain(v, Plains(v, c, 5)));
  }

  lemma Halves(c: bv16)
    ensures c << 8 == (Low(c) as bv16) << 8 && c >> 8 == High(c) as bv16
  {
  }

  lemma FirstHalf(c: bv16)
    ensures Xor(c, (High(c) as bv16) << 8) == And(c, 0xFF)
    ensures Xor(c, Low(c) as bv16) == And(c, 0xFF00)
  {
  }

  /** The trailer's first byte clears the first half of the register, its second byte
      is what the other half has become. */
  lemma TrailerFits(v: Variant, c: bv16)
    ensures Xor(c, Place(v, Trailer(v, c)[0])) == And(c, Mask(v, 8))
    ensures Plains(v, c, 8) == Place(v, Trailer(v, c)[1])
  {
    hide Xor, And, Mask, Low, High, Plain, Plains;
    MaskValues(v);
    FirstHalf(c);
    Halves(c);
    PlainsUnrolled(v, c);
    if v == Xmodem {
      PlainLeftBy(c);
    } else {
      PlainRightBy(c);
    }
  }

  lemma {:induction false} ShiftsZero(v: Variant, n: nat)
    ensures Shifts(v, 0, n) == 0
  {
    hide Shift;
    if n != 0 {
      ShiftsZero(v, n - 1);
      ShiftZero(v);
    }
  }

  lemma FoldPair(v: Variant, c: bv16, t: seq<Byte>)
    requires |t| == 2
    ensures Fold(v, c, t) == Step(v, Step(v, c, t[0]), t[1])
  {
    hide Step;
    var d := Step(v, c, t[0]);
    assert Fold(v, d, t[1..]) == Fold(v, Step(v, d, t[1]), t[1..][1..]);
  }

  lemma TrailerResidue(v: Variant, c: bv16)
    ensures Fold(v, c, Trailer(v, c)) == 0
  {
    hide Xor, And, Mask, Place, Shifts, Plains, Trailer;
    var t1 := Trailer(v, c)[1];
    TrailerFits(v, c);
    QuietShifts(v, c, 8);
    PlainsAnd(v, c, 8, 8);
    MaskValues(v);
    AndOnes(Plains(v, c, 8));
    XorSelf(Place(v, t1), Place(v, t1));
    ShiftsZero(v, 8);
    FoldPair(v, c, Trailer(v, c));
  }

  /** A register followed by its own bytes becomes 0, and by no other two bytes. */
  lemma Residue(v: Variant, c: bv16, t: seq<Byte>)
    requires |t| == 2
    ensures Fold(v, c, t) == 0 <==> t == Trailer(v, c)
  {
    hide Fold, Trailer, Bits;
    TrailerResidue(v, c);
    if t != Trailer(v, c) {
      AdjacentBytes(v, t, Trailer(v, c), 0);
      BurstChangesRegister(v, c, t, Trailer(v, c), 0);
    }
  }

  /** The CRC of a message with two more bytes is 0 exactly if they are its CRC. */
  lemma MessageResidue(v: Variant, data: seq<Byte>, t: seq<Byte>)
    requires |t| == 2
    ensures Crc(v, data + t) == 0 <==> t == Trailer(v, Crc(v, data))
  {
    hide Fold, Trailer;
    FoldAppend(v, Init(v), data, t);
    Residue(v, Crc(v, data), t);
  }

  // ---------------------------------------------------------------------------
  // Check values
  // ---------------------------------------------------------------------------

  lemma TwoShifts(v: Variant, c: bv16, n: nat)
    ensures Shifts(v, c, n + 2) == Shift(v, Shift(v, Shifts(v, c, n)))
  {
    hide Shift;
    assert Shifts(v, c, n + 1) == Shift(v, Shifts(v, c, n));
  }

  function Eight(v: Variant, c: bv16): bv16 {
    Shift(v, Shift(v, Shift(v, Shift(v, Shift(v, Shift(v, Shift(v, Shift(v, c))))))))
  }

  lemma StepIs(v: Variant, c: bv16, b: Byte)
    ensures Step(v, c, b) == Eight(v, Xor(c, Place(v, b)))
  {
    hide Shift, Xor, Place;
    var x := Xor(c, Place(v, b));
    assert Shifts(v, x, 0) == x;
    TwoShifts(v, x, 0);
    TwoShifts(v, x, 2);
    TwoShifts(v, x, 4);
    TwoShifts(v, x, 6);
  }

  lemma XmodemSteps()
    ensures Step(Xmodem, 0x0000, 0x31) == 0x2672
    ensures Step(Xmodem, 0x2672, 0x32) == 0x20B5
    ensures Step(Xmodem, 0x20B5, 0x33) == 0x9752
    ensures Step(Xmodem, 0x9752, 0x34) == 0xD789
    ensures Step(Xmodem, 0xD789, 0x35) == 0x546C
    ensures Step(Xmodem, 0x546C, 0x36) == 0x20E4
    ensures Step(Xmodem, 0x20E4, 0x37) == 0x86D6
    ensures Step(Xmodem, 0x86D6, 0x38) == 0x9015
    ensures Step(Xmodem, 0x9015, 0x39) == 0x31C3
  {
    StepIs(Xmodem, 0x0000, 0x31);
    StepIs(Xmodem, 0x2672, 0x32);
    StepIs(Xmodem, 0x20B5, 0x33);
    StepIs(Xmodem, 0x9752, 0x34);
    StepIs(Xmodem, 0xD789, 0x35);
    StepIs(Xmodem, 0x546C, 0x36);
    StepIs(Xmodem, 0x20E4, 0x37);
    StepIs(Xmodem, 0x86D6, 0x38);
    StepIs(Xmodem, 0x9015, 0x39);
  }

  lemma ModbusFirst()
    ensures Step(Modbus, 0xFFFF, 0x31) == 0x947E
    ensures Step(Modbus, 0x947E, 0x32) == 0xF595
    ensures Step(Modbus, 0xF595, 0x33) == 0x7A75
    ensures Step(Modbus, 0x7A75, 0x34) == 0x30BA
    ensures Step(Modbus, 0x30BA, 0x35) == 0xA471
  {
    StepIs(Modbus, 0xFFFF, 0x31);
    StepIs(Modbus, 0x947E, 0x32);
    StepIs(Modbus, 0xF595, 0x33);
    StepIs(Modbus, 0x7A75, 0x34);
    StepIs(Modbus, 0x30BA, 0x35);
  }

  lemma ModbusLast()
    ensures Step(Modbus, 0xA471, 0x36) == 0x32E4
    ensures Step(Modbus, 0x32E4, 0x37) == 0x9D73
    ensures Step(Modbus, 0x9D73, 0x38) == 0x37DD
    ensures Step(Modbus, 0x37DD, 0x39) == 0x4B37
  {
    StepIs(Modbus, 0xA471, 0x36);
    StepIs(Modbus, 0x32E4, 0x37);
    StepIs(Modbus, 0x9D73, 0x38);
    StepIs(Modbus, 0x37DD, 0x39);
  }

  /** What the standard test message "123456789" comes to. */
  lemma CheckValues()
    ensures var m: seq<Byte> := [0x31, 0x32, 0x33, 0x34, 0x35, 0x36, 0x37, 0x38, 0x39];
            Crc(Xmodem, m) == 0x31C3 && Crc(Modbus, m) == 0x4B37
  {
    hide Step;
    XmodemSteps();
    ModbusFirst();
    ModbusLast();
    NineBytes(Xmodem, Init(Xmodem), 0x31, 0x32, 0x33, 0x34, 0x35, 0x36, 0x37, 0x38, 0x39);
    NineBytes(Modbus, Init(Modbus), 0x31, 0x32, 0x33, 0x34, 0x35, 0x36, 0x37, 0x38, 0x39);
  }

  lemma ThreeBytes(v: Variant, c: bv16, b1: Byte, b2: Byte, b3: Byte, rest: seq<Byte>)
    ensures Fold(v, c, [b1, b2, b3] + rest) == Fold(v, Step(v, Step(v, Step(v, c, b1), b2), b3), rest)
  {
    hide Step;
    assert ([b1, b2, b3] + rest)[1..] == [b2, b3] + rest;
    assert ([b2, b3] + rest)[1..] == [b3] + rest;
    assert ([b3] + rest)[1..] == rest;
    assert Fold(v, c, [b1, b2, b3] + rest) == Fold(v, Step(v, c, b1), [b2, b3] + rest);
    assert Fold(v, Step(v, c, b1), [b2, b3] + rest) == Fold(v, Step(v, Step(v, c, b1), b2), [b3] + rest);
  }

  lemma NineBytes(v: Variant, c: bv16, b1: Byte, b2: Byte, b3: Byte, b4: Byte, b5: Byte, b6: Byte, b7: Byte, b8: Byte,
                  b9: Byte)
    ensures var c3 := Step(v, Step(v, Step(v, c, b1), b2), b3);
            var c6 := Step(v, Step(v, Step(v, c3, b4), b5), b6);
            Fold(v, c, [b1, b2, b3, b4, b5, b6, b7, b8, b9]) == Step(v, Step(v, Step(v, c6, b7), b8), b9)
  {
    hide Step, Fold;
    var c3 := Step(v, Step(v, Step(v, c, b1), b2), b3);
    var c6 := Step(v, Step(v, Step(v, c3, b4), b5), b6);
    ThreeBytes(v, c, b1, b2, b3, [b4, b5, b6, b7, b8, b9]);
    ThreeBytes(v, c3, b4, b5, b6, [b7, b8, b9]);
    ThreeBytes(v, c6, b7, b8, b9, []);
    assert [b1, b2, b3] + [b4, b5, b6, b7, b8, b9] == [b1, b2, b3, b4, b5, b6, b7, b8, b9];
    assert [b4, b5, b6] + [b7, b8, b9] == [b4, b5, b6, b7, b8, b9];
    assert [b7, b8, b9] + [] == [b7, b8, b9];
    NoMore(v, Step(v, Step(v, Step(v, c6, b7), b8), b9));
  }

  lemma NoMore(v: Variant, c: bv16)
    ensures Fold(v, c, []) == c
  {
  }
}
