/** The image trailer: a CRC-32 computed one 32-bit word at a time, and the packer that
    appends it so that it never straddles a 1024-byte transfer block. */
module Crc32 {

  type Byte = bv8

  function Xor(c: bv32, d: bv32): bv32 { c ^ d }

  predicate Outgoing(c: bv32) { c & 0x8000_0000 != 0 }

  function Plain(c: bv32): bv32 { c << 1 }

  const POLY: bv32 := 0x04C1_1DB7

  /** One bit of division by the CRC-32 polynomial, most significant bit first. */
  function Shift(c: bv32): bv32 {
    if Outgoing(c) then Xor(Plain(c), POLY) else Plain(c)
  }

  function Shifts(c: bv32, n: nat): bv32 {
    if n == 0 then c else Shift(Shifts(c, n - 1))
  }

  /** Four bytes as a word, first byte on top. */
  function Word(b0: Byte, b1: Byte, b2: Byte, b3: Byte): bv32 {
    ((b0 as bv32) << 24) | ((b1 as bv32) << 16) | ((b2 as bv32) << 8) | (b3 as bv32)
  }

  function Top(w: bv32): bv32 { w & 0xFF00_0000 }

  /** A byte where the register takes it. */
  function Place(b: Byte): bv32 { (b as bv32) << 24 }

  function Left8(w: bv32): bv32 { w << 8 }

  function Low24(w: bv32): bv32 { w & 0x00FF_FFFF }

  function WordStep(c: bv32, w: bv32): bv32 { Shifts(Xor(c, w), 32) }

  /** The reference: one byte at a time, most significant bit first. */
  function ByteStep(c: bv32, b: Byte): bv32 { Shifts(Xor(c, Place(b)), 8) }

  function ByBytes(c: bv32, data: seq<Byte>): bv32
    decreases data
  {
    if data == [] then c else ByBytes(ByteStep(c, data[0]), data[1..])
  }

  /** The implementation: whole words, and a last partial word whose bytes sit at the
      low end. */
  function ByWords(c: bv32, data: seq<Byte>): bv32
    decreases data
  {
    if data == [] then c
    else if |data| >= 4 then ByWords(WordStep(c, Word(data[0], data[1], data[2], data[3])), data[4..])
    else WordStep(c, TailWord(data))
  }

  function TailWord(tail: seq<Byte>): bv32
    requires 0 < |tail| < 4
  {
    if |tail| == 3 then Word(0, tail[0], tail[1], tail[2])
    else if |tail| == 2 then Word(0, 0, tail[0], tail[1])
    else Word(0, 0, 0, tail[0])
  }

  // ---------------------------------------------------------------------------
  // A word step is four byte steps
  // ---------------------------------------------------------------------------

  lemma XorAssociative(c: bv32, d: bv32, e: bv32)
    ensures Xor(Xor(c, d), e) == Xor(c, Xor(d, e))
  {
  }

  lemma XorCommutes(c: bv32, d: bv32)
    ensures Xor(c, d) == Xor(d, c)
  {
  }

  lemma XorZero(c: bv32)
    ensures Xor(c, 0) == c && Xor(c, c) == 0
  {
  }

  lemma PlainXor(c: bv32, d: bv32)
    ensures Plain(Xor(c, d)) == Xor(Plain(c), Plain(d))
  {
  }

  lemma OutgoingXor(c: bv32, d: bv32)
    ensures Outgoing(Xor(c, d)) <==> !(Outgoing(c) <==> Outgoing(d))
  {
    TopBitXor(c, d);
    TopBit(c);
    TopBit(d);
  }

  lemma TopBitXor(c: bv32, d: bv32)
    ensures (c ^ d) & 0x8000_0000 == (c & 0x8000_0000) ^ (d & 0x8000_0000)
  {
  }

  lemma TopBit(c: bv32)
    ensures c & 0x8000_0000 == 0 || c & 0x8000_0000 == 0x8000_0000
  {
  }

  /** Adding `k` on either side or on both. */
  lemma XorSwap(c: bv32, d: bv32, k: bv32)
    ensures Xor(Xor(c, k), d) == Xor(Xor(c, d), k) == Xor(c, Xor(d, k))
    ensures Xor(Xor(c, k), Xor(d, k)) == Xor(c, d)
  {
    hide Xor;
    XorAssociative(c, d, k);
    XorAssociative(c, k, d);
    XorCommutes(k, d);
    XorAssociative(Xor(c, k), d, k);
    XorAssociative(Xor(c, d), k, k);
    XorZero(k);
    XorZero(Xor(c, d));
  }

  lemma ShiftXor(c: bv32, d: bv32)
    ensures Shift(Xor(c, d)) == Xor(Shift(c), Shift(d))
  {
    hide Xor, Plain, Outgoing;
    PlainXor(c, d);
    OutgoingXor(c, d);
    XorSwap(Plain(c), Plain(d), POLY);
  }

  /** The bit shifted out shows in the lowest bit afterwards. */
  lemma FeedbackShows(c: bv32)
    ensures Plain(c) & 1 == 0 && Xor(Plain(c), POLY) & 1 == 1
  {
  }

  lemma PlainInjective(c: bv32, d: bv32)
    requires Plain(c) == Plain(d) && (Outgoing(c) <==> Outgoing(d))
    ensures c == d
  {
  }

  lemma XorCancels(c: bv32, k: bv32)
    ensures Xor(Xor(c, k), k) == c
  {
  }

  lemma ShiftInjective(c: bv32, d: bv32)
    requires Shift(c) == Shift(d)
    ensures c == d
  {
    FeedbackShows(c);
    FeedbackShows(d);
    XorCancels(Plain(c), POLY);
    XorCancels(Plain(d), POLY);
    hide Plain, Xor, Outgoing;
    assert Outgoing(c) <==> Outgoing(d);
    PlainInjective(c, d);
  }

  lemma {:induction false} ShiftsInjective(c: bv32, d: bv32, n: nat)
    requires Shifts(c, n) == Shifts(d, n)
    ensures c == d
  {
    hide Shift;
    if n != 0 {
      ShiftInjective(Shifts(c, n - 1), Shifts(d, n - 1));
      ShiftsInjective(c, d, n - 1);
    }
  }

  /** Different words leave different registers. */
  lemma WordStepInjective(c: bv32, w: bv32, u: bv32)
    requires WordStep(c, w) == WordStep(c, u)
    ensures w == u
  {
    hide Shifts, Xor;
    ShiftsInjective(Xor(c, w), Xor(c, u), 32);
    XorCommutes(c, w);
    XorCommutes(c, u);
    XorCancels(w, c);
    XorCancels(u, c);
  }

  lemma {:induction false} ShiftsXor(c: bv32, d: bv32, n: nat)
    ensures Shifts(Xor(c, d), n) == Xor(Shifts(c, n), Shifts(d, n))
  {
    hide Shift, Xor;
    if n != 0 {
      ShiftsXor(c, d, n - 1);
      ShiftXor(Shifts(c, n - 1), Shifts(d, n - 1));
    }
  }
  
  lemma {:induction false} ShiftsAdd(c: bv32, m: nat, n: nat)
    ensures Shifts(c, m + n) == Shifts(Shifts(c, m), n)
  {
    hide Shift;
    if n != 0 {
      ShiftsAdd(c, m, n - 1);
    }
  }

  lemma SplitTop(w: bv32)
    ensures w == Xor(Top(w), Low24(w))
  {
  }

  lemma Quiet(w: bv32)
    requires w & 0xFF00_0000 == 0
    ensures !Outgoing(w) && !Outgoing(w << 1) && !Outgoing(w << 2) && !Outgoing(w << 3)
    ensures !Outgoing(w << 4) && !Outgoing(w << 5) && !Outgoing(w << 6) && !Outgoing(w << 7)
  {
  }

  lemma PlainBy(w: bv32)
    ensures Plain(w) == w << 1 && Plain(w << 1) == w << 2
    ensures Plain(w << 2) == w << 3 && Plain(w << 3) == w << 4
    ensures Plain(w << 4) == w << 5 && Plain(w << 5) == w << 6
    ensures Plain(w << 6) == w << 7 && Plain(w << 7) == w << 8
  {
  }

  lemma Shifts8(c: bv32)
    ensures Shifts(c, 8) == Shift(Shift(Shift(Shift(Shift(Shift(Shift(Shift(c))))))))
  {
    hide Shift;
    assert Shifts(c, 1) == Shift(c);
    assert Shifts(c, 3) == Shift(Shift(Shift(c)));
    assert Shifts(c, 5) == Shift(Shift(Shifts(c, 3)));
    assert Shifts(c, 7) == Shift(Shift(Shifts(c, 5)));
  }

  lemma LowAway(w: bv32)
    ensures Low24(w) & 0xFF00_0000 == 0 && Left8(Low24(w)) == Left8(w)
  {
  }

  /** Without its top byte a word just moves. */
  lemma QuietByte(w: bv32)
    ensures Shifts(Low24(w), 8) == Left8(Low24(w))
  {
    hide Low24, Shifts, Xor, Plain, Outgoing;
    var low := Low24(w);
    LowAway(w);
    Quiet(low);
    PlainBy(low);
    Shifts8(low);
  }

  /** Eight shifts use up the top byte of an added word and just move the rest. */
  lemma PeelByte(c: bv32, w: bv32)
    ensures Shifts(Xor(c, w), 8) == Xor(Shifts(Xor(c, Top(w)), 8), Left8(w))
  {
    hide Xor, Top, Low24, Left8, Shifts;
    LowAway(w);
    QuietByte(w);
    SplitTop(w);
    XorAssociative(c, Top(w), Low24(w));
    ShiftsXor(Xor(c, Top(w)), Low24(w), 8);
  }

  lemma Tops(b0: Byte, b1: Byte, b2: Byte, b3: Byte)
    ensures Top(Word(b0, b1, b2, b3)) == Place(b0)
    ensures Left8(Word(b0, b1, b2, b3)) == Word(b1, b2, b3, 0)
  {
  }

  lemma NoWord()
    ensures Word(0, 0, 0, 0) == 0
  {
  }

  /** A word step is four byte steps. */
  lemma WordStepIsByteSteps(c: bv32, b0: Byte, b1: Byte, b2: Byte, b3: Byte)
    ensures WordStep(c, Word(b0, b1, b2, b3)) ==
            ByteStep(ByteStep(ByteStep(ByteStep(c, b0), b1), b2), b3)
  {
    hide Xor, Shifts, Word, Top, Place, Left8;
    var w0, w1 := Word(b0, b1, b2, b3), Word(b1, b2, b3, 0);
    var w2, w3 := Word(b2, b3, 0, 0), Word(b3, 0, 0, 0);
    var c1 := ByteStep(c, b0);
    var c2 := ByteStep(c1, b1);
    var c3 := ByteStep(c2, b2);
    var c4 := ByteStep(c3, b3);
    Tops(b0, b1, b2, b3);
    Tops(b1, b2, b3, 0);
    Tops(b2, b3, 0, 0);
    Tops(b3, 0, 0, 0);
    NoWord();
    PeelByte(c, w0);
    PeelByte(c1, w1);
    PeelByte(c2, w2);
    PeelByte(c3, w3);
    ShiftsAdd(Xor(c, w0), 8, 24);
    ShiftsAdd(Xor(c1, w1), 8, 16);
    ShiftsAdd(Xor(c2, w2), 8, 8);
    XorZero(c4);
  }

  function Zeros(n: nat): (z: seq<Byte>)
    ensures |z| == n && forall i :: 0 <= i < n ==> z[i] == 0
  {
    seq(n, _ => 0)
  }

  /** The data with its partial last word filled up with zero bytes on the left. */
  function Padded(data: seq<Byte>): seq<Byte> {
    var r := |data| % 4;
    if r == 0 then data else data[..|data| - r] + Zeros(4 - r) + data[|data| - r..]
  }

  lemma ByBytesFour(c: bv32, d: seq<Byte>)
    requires |d| >= 4
    ensures ByBytes(c, d) ==
      ByBytes(ByteStep(ByteStep(ByteStep(ByteStep(c, d[0]), d[1]), d[2]), d[3]), d[4..])
  {
    hide ByteStep;
    var c1 := ByteStep(c, d[0]);
    var c2 := ByteStep(c1, d[1]);
    assert d[1..][1..] == d[2..];
    assert ByBytes(c, d) == ByBytes(c2, d[2..]);
    var c3 := ByteStep(c2, d[2]);
    assert d[2..][1..] == d[3..] && d[3..][1..] == d[4..];
    assert ByBytes(c2, d[2..]) == ByBytes(c3, d[3..]);
    assert ByBytes(c3, d[3..]) == ByBytes(ByteStep(c3, d[3]), d[4..]);
  }

  /** The word-wise CRC is the byte-wise CRC, on the data itself when its length is a
      multiple of four and on the padded data otherwise. */
  lemma {:induction false} WordsAreBytes(c: bv32, data: seq<Byte>)
    ensures ByWords(c, data) == ByBytes(c, Padded(data))
    decreases data
  {
    hide WordStep, ByteStep, Word;
    if |data| >= 4 {
      hide Padded;
      var p := Padded(data);
      WordStepIsByteSteps(c, data[0], data[1], data[2], data[3]);
      PaddedTail(data);
      assert p[..4][0] == p[0] && p[..4][1] == p[1] && p[..4][2] == p[2] && p[..4][3] == p[3];
      ByBytesFour(c, p);
      WordsAreBytes(WordStep(c, Word(data[0], data[1], data[2], data[3])), data[4..]);
    } else if data != [] {
      TailIsBytes(c, data);
    }
  }

  lemma TailIsBytes(c: bv32, tail: seq<Byte>)
    requires 0 < |tail| < 4
    ensures WordStep(c, TailWord(tail)) == ByBytes(c, Padded(tail))
  {
    hide WordStep, ByteStep, Word;
    var p := Padded(tail);
    assert p == Zeros(4 - |tail|) + tail;
    WordStepIsByteSteps(c, p[0], p[1], p[2], p[3]);
    ByBytesFour(c, p);
  }

  lemma PaddedTail(data: seq<Byte>)
    requires |data| >= 4
    ensures |Padded(data)| >= 4 && Padded(data)[4..] == Padded(data[4..]) && Padded(data)[..4] == data[..4]
  {
    var r, rest := |data| % 4, data[4..];
    assert |rest| % 4 == r;
    assert data[..|data| - r] == data[..4] + rest[..|rest| - r];
    assert data[|data| - r..] == rest[|rest| - r..];
    assert Padded(data) == data[..4] + Padded(rest);
  }

  // ---------------------------------------------------------------------------
  // The loops
  // ---------------------------------------------------------------------------

  /** A byte moved up `i` places, as `b << (8 * i)`. */
  function MovedUp(b: Byte, i: nat): bv32
    requires i < 3
  {
    if i == 0 then b as bv32 else if i == 1 then (b as bv32) << 8 else (b as bv32) << 16
  }

  function OrIn(w: bv32, x: bv32): bv32 { w | x }

  /** The word after the last `i` bytes of the tail have been or-ed in. */
  function Collected(tail: seq<Byte>, i: nat): bv32
    requires i <= |tail| < 4
  {
    if i == 0 then 0 else OrIn(Collected(tail, i - 1), MovedUp(tail[|tail| - i], i - 1))
  }

  lemma OneByte(b0: Byte)
    ensures OrIn(0, MovedUp(b0, 0)) == Word(0, 0, 0, b0)
  {
  }

  lemma SecondByte(b0: Byte, b1: Byte)
    ensures OrIn(Word(0, 0, 0, b1), MovedUp(b0, 1)) == Word(0, 0, b0, b1)
  {
  }

  lemma ThirdByte(b0: Byte, b1: Byte, b2: Byte)
    ensures OrIn(Word(0, 0, b1, b2), MovedUp(b0, 2)) == Word(0, b0, b1, b2)
  {
  }

  lemma CollectedAll(tail: seq<Byte>)
    requires 0 < |tail| < 4
    ensures Collected(tail, |tail|) == TailWord(tail)
  {
    hide Word, OrIn, MovedUp;
    var n := |tail|;
    OneByte(tail[n - 1]);
    assert Collected(tail, 1) == Word(0, 0, 0, tail[n - 1]);
    if n > 1 {
      SecondByte(tail[n - 2], tail[n - 1]);
      assert Collected(tail, 2) == Word(0, 0, tail[n - 2], tail[n - 1]);
    }
    if n > 2 {
      ThirdByte(tail[0], tail[1], tail[2]);
    }
  }

  /** The CRC loop of the packer. */
  method Crc32Calc(icrc: bv32, data: seq<Byte>) returns (crc: bv32)
    ensures crc == ByWords(icrc, data)
  {
    hide Word, WordStep, MovedUp;
    crc := icrc;
    var pos, length := 0, |data|;
    while length > 0
      invariant 0 <= length && pos + length == |data|
      invariant ByWords(crc, data[pos..]) == ByWords(icrc, data)
    {
      ghost var before, rest := crc, data[pos..];
      var word: bv32;
      if length >= 4 {
        word := Word(data[pos], data[pos + 1], data[pos + 2], data[pos + 3]);
        length := length - 4;
        pos := pos + 4;
        assert data[pos..] == rest[4..];
      } else {
        word := 0;
        for i := 0 to length
          invariant word == Collected(rest, i)
        {
          word := word | MovedUp(data[pos + length - 1 - i], i);
        }
        CollectedAll(rest);
        pos := pos + length;
        length := 0;
      }
      crc := ShiftOut(crc, word);
    }
  }

  method ShiftOut(crc: bv32, word: bv32) returns (c: bv32)
    ensures c == WordStep(crc, word)
  {
    hide Shift, Xor;
    c := Xor(crc, word);
    for k := 0 to 32
      invariant c == Shifts(Xor(crc, word), k)
    {
      c := Shift(c);
    }
  }

  // ---------------------------------------------------------------------------
  // The packer
  // ---------------------------------------------------------------------------

  const BLOCK := 1024
  const TRAILER := 20

  function BigEndian(c: bv32): (b: seq<Byte>)
    ensures |b| == 4
  {
    [(c >> 24) as Byte, ((c >> 16) & 0xFF) as Byte, ((c >> 8) & 0xFF) as Byte, (c & 0xFF) as Byte]
  }

  function Filled(n: nat): seq<Byte> { seq(n, _ => 0xFF) }

  /** A trailer starting at `at` lies within one transfer block. */
  predicate WithinBlock(at: nat) {
    at / BLOCK == (at + TRAILER - 1) / BLOCK
  }

  /** With fewer than 20 bytes left in the block, no earlier start fits. */
  lemma Straddles(n: nat, at: nat)
    requires n % BLOCK != 0 && BLOCK - n % BLOCK < TRAILER && n <= at < n + BLOCK - n % BLOCK
    ensures !WithinBlock(at)
  {
    assert at / BLOCK == n / BLOCK;
    assert at + TRAILER - 1 >= BLOCK * (n / BLOCK + 1);
  }

  /** Appends filler, CRC and 16 closing bytes: the least filler that keeps the trailer
      within one block, and a CRC over everything before it. */
  method AddCrc32(data: seq<Byte>) returns (file: seq<Byte>, padding: nat)
    ensures padding < TRAILER && WithinBlock(|data| + padding)
    ensures padding > 0 ==> (|data| + padding) % BLOCK == 0
    ensures forall at: nat :: |data| <= at < |data| + padding ==> !WithinBlock(at)
    ensures file == (var body := data + Filled(padding);
                     body + BigEndian(ByWords(0xFFFF_FFFF, body)) + Filled(16))
  {
    hide ByWords;
    var position := |data| % BLOCK;
    var remaining := if position != 0 then BLOCK - position else BLOCK;
    var body := data;
    padding := 0;
    if TRAILER > remaining {
      padding := remaining;
      forall at: nat | |data| <= at < |data| + padding
        ensures !WithinBlock(at)
      {
        Straddles(|data|, at);
      }
      body := body + Filled(padding);
    }
    var crc := Crc32Calc(0xFFFF_FFFF, body);
    file := body + BigEndian(crc);
    file := file + Filled(16);
    assert padding == 0 ==> data + Filled(0) == data;
  }

  /** Checking a packed file: over whole words the CRC through its own four bytes is 0. */
  lemma PackedResidue(body: seq<Byte>)
    requires |body| % 4 == 0
    ensures ByWords(0xFFFF_FFFF, body + BigEndian(ByWords(0xFFFF_FFFF, body))) == 0
  {
    var c := ByWords(0xFFFF_FFFF, body);
    ByWordsAppend(0xFFFF_FFFF, body, BigEndian(c));
    OwnWord(c);
  }

  lemma {:induction false} ByWordsAppend(c: bv32, a: seq<Byte>, b: seq<Byte>)
    requires |a| % 4 == 0
    ensures ByWords(c, a + b) == ByWords(ByWords(c, a), b)
    decreases a
  {
    hide WordStep, Word;
    if a == [] {
      assert a + b == b;
    } else {
      assert (a + b)[4..] == a[4..] + b;
      ByWordsAppend(WordStep(c, Word(a[0], a[1], a[2], a[3])), a[4..], b);
    }
  }

  lemma OfBigEndian(c: bv32)
    ensures var b := BigEndian(c); Word(b[0], b[1], b[2], b[3]) == c
  {
  }

  lemma {:induction false} ShiftsZero(n: nat)
    ensures Shifts(0, n) == 0
  {
    if n != 0 {
      ShiftsZero(n - 1);
    }
  }

  lemma OwnWord(c: bv32)
    ensures ByWords(c, BigEndian(c)) == 0
  {
    hide Word, Xor;
    OfBigEndian(c);
    XorZero(c);
    ShiftsZero(32);
    var b := BigEndian(c);
    assert ByWords(c, b) == ByWords(WordStep(c, Word(b[0], b[1], b[2], b[3])), b[4..]);
  }
}
