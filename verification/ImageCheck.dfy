/** The device's check of a finished image: its own CRC-32 over everything in front of the
    trailer must be the one stored there. What the packer writes and what the device checks
    are not quite the same CRC. */
module ImageCheck {
  import opened Crc32
  import OtaPackets

  const START: bv32 := 0xFFFF_FFFF
  const PAD: Byte := 0x1A

  // ---------------------------------------------------------------------------
  // The device's CRC-32
  // ---------------------------------------------------------------------------

  function TopByte(c: bv32): Byte { (c >> 24) as Byte }

  /** Entry `i` of the lookup table. */
  function Table(i: Byte): bv32 { Shifts(Place(i), 8) }

  function TableStep(c: bv32, b: Byte): bv32 { Xor(Left8(c), Table(TopByte(c) ^ b)) }

  lemma TopOfSum(c: bv32, b: Byte)
    ensures Top(Xor(c, Place(b))) == Place(TopByte(c) ^ b)
    ensures Left8(Xor(c, Place(b))) == Left8(c)
  {
  }

  lemma ZeroFirst(w: bv32)
    ensures Xor(0, w) == w
  {
  }

  /** Looking a byte up is shifting eight times. */
  lemma TableStepIsByteStep(c: bv32, b: Byte)
    ensures TableStep(c, b) == ByteStep(c, b)
  {
    hide Shifts, Xor, Top, Left8, Place, TopByte;
    var w := Xor(c, Place(b));
    PeelByte(0, w);
    ZeroFirst(w);
    ZeroFirst(Top(w));
    TopOfSum(c, b);
    XorCommutes(Left8(c), Table(TopByte(c) ^ b));
  }

  /** The data with zero bytes after it up to whole words. */
  function FilledUp(data: seq<Byte>): seq<Byte> { data + Zeros((4 - |data| % 4) % 4) }

  lemma {:induction false} ByBytesAppend(c: bv32, a: seq<Byte>, b: seq<Byte>)
    ensures ByBytes(c, a + b) == ByBytes(ByBytes(c, a), b)
    decreases a
  {
    hide ByteStep;
    if a == [] {
      assert a + b == b;
    } else {
      assert (a + b)[1..] == a[1..] + b;
      ByBytesAppend(ByteStep(c, a[0]), a[1..], b);
    }
  }

  lemma ByBytesSnoc(c: bv32, a: seq<Byte>, b: Byte)
    ensures ByBytes(c, a + [b]) == ByteStep(ByBytes(c, a), b)
  {
    hide ByteStep;
    ByBytesAppend(c, a, [b]);
  }

  /** The table-driven loop, which fills up the last word with zeros behind the data. */
  method CalcuCrc32(icrc: bv32, data: seq<Byte>) returns (crc: bv32)
    ensures crc == ByBytes(icrc, FilledUp(data))
  {
    hide ByBytes, TableStep, ByteStep;
    crc := icrc;
    assert ByBytes(icrc, []) == icrc by {
      NoBytes(icrc);
    }
    for i := 0 to |data|
      invariant crc == ByBytes(icrc, data[..i])
    {
      TableStepIsByteStep(crc, data[i]);
      ByBytesSnoc(icrc, data[..i], data[i]);
      assert data[..i + 1] == data[..i] + [data[i]];
      crc := TableStep(crc, data[i]);
    }
    assert data[..|data|] == data + Zeros(0);
    var pad := (4 - |data| % 4) % 4;
    for j := 0 to pad
      invariant crc == ByBytes(icrc, data + Zeros(j))
    {
      TableStepIsByteStep(crc, 0);
      ByBytesSnoc(icrc, data + Zeros(j), 0);
      assert data + Zeros(j + 1) == data + Zeros(j) + [0];
      crc := TableStep(crc, 0);
    }
  }

  lemma NoBytes(c: bv32)
    ensures ByBytes(c, []) == c
  {
  }

  // ---------------------------------------------------------------------------
  // The check
  // ---------------------------------------------------------------------------

  /** How many bytes 0x1A an image ends with. */
  function Trailing(s: seq<Byte>): (n: nat)
    ensures n <= |s|
  {
    if s != [] && s[|s| - 1] == PAD then 1 + Trailing(s[..|s| - 1]) else 0
  }

  /** So many bytes are tried for the end of the padding. */
  const LOOK := 2048

  /** The check stays inside the image: there is a trailer before the padding, or the search for
      the end of the padding is given up. */
  predicate Checkable(stored: seq<Byte>) {
    Trailing(stored) >= LOOK || |stored| - Trailing(stored) >= TRAILER
  }

  /** The stored CRC is the device's own; if the padding is too long for the search, 0 stands
      for the stored one. */
  predicate Passes(stored: seq<Byte>)
    requires Checkable(stored)
  {
    if Trailing(stored) >= LOOK then ByBytes(START, FilledUp(stored[..|stored| - LOOK])) == 0
    else
      var n := |stored| - Trailing(stored) - TRAILER;
      stored[n..n + 4] == BigEndian(ByBytes(START, FilledUp(stored[..n])))
  }

  /** Where the padding starts, if it is found. */
  method SkipPadding(stored: seq<Byte>) returns (end: nat, found: bool)
    requires Trailing(stored) >= LOOK || |stored| > Trailing(stored)
    ensures found <==> Trailing(stored) < LOOK
    ensures end == |stored| - if found then Trailing(stored) else LOOK
  {
    end := |stored|;
    assert stored[..end] == stored;
    var i := 0;
    while i < LOOK && stored[end - 1] == PAD
      invariant i <= LOOK && i <= Trailing(stored) && end == |stored| - i
      invariant Trailing(stored) == i + Trailing(stored[..end])
    {
      assert stored[..end][..end - 1] == stored[..end - 1];
      end := end - 1;
      i := i + 1;
    }
    found := i < LOOK;
  }

  /** The CRC in pieces of 1024 bytes. */
  method ImageCrc(image: seq<Byte>) returns (crc: bv32)
    ensures crc == ByBytes(START, FilledUp(image))
  {
    hide ByBytes, FilledUp;
    crc := START;
    var at := 0;
    FilledWhole(image[..0]);
    assert image[..0] == [];
    NoBytes(START);
    while at < |image|
      invariant at <= |image| && (at < |image| ==> at % 1024 == 0)
      invariant crc == ByBytes(START, FilledUp(image[..at]))
    {
      var size := if |image| - at > 1024 then 1024 else |image| - at;
      PiecesAreWords(at);
      FilledWhole(image[..at]);
      crc := CalcuCrc32(crc, image[at..at + size]);
      PieceByPiece(START, image[..at], image[at..at + size]);
      assert image[..at] + image[at..at + size] == image[..at + size];
      at := at + size;
    }
    assert image[..|image|] == image;
  }

  /** Skips the padding, steps over the trailer and compares. */
  method VerifyCrc(stored: seq<Byte>) returns (ok: bool)
    requires Checkable(stored)
    ensures ok <==> Passes(stored)
  {
    hide ByBytes, BigEndian, Trailing, FilledUp;
    var end, found := SkipPadding(stored);
    var n, expected := end, Zeros(4);
    if found {
      n := end - TRAILER;
      expected := stored[n..n + 4];
    } else {
      ZeroIsZeros();
    }
    var crc := ImageCrc(stored[..n]);
    if !found && BigEndian(crc) == BigEndian(0) {
      BigEndianInjective(crc, 0);
    }
    ok := expected == BigEndian(crc);
  }

  lemma ZeroIsZeros()
    ensures BigEndian(0) == Zeros(4)
  {
  }

  lemma FilledWhole(data: seq<Byte>)
    requires |data| % 4 == 0
    ensures FilledUp(data) == data
  {
  }

  lemma PiecesAreWords(at: nat)
    requires at % 1024 == 0
    ensures at % 4 == 0 && (at + 1024) % 1024 == 0
  {
    var k := at / 1024;
    assert at == 4 * (256 * k);
    assert at + 1024 == 1024 * (k + 1);
  }

  lemma SameRest(m: nat, n: nat)
    requires m % 4 == 0
    ensures (m + n) % 4 == n % 4
  {
    assert m == 4 * (m / 4);
  }

  lemma PieceByPiece(c: bv32, before: seq<Byte>, piece: seq<Byte>)
    requires |before| % 4 == 0
    ensures ByBytes(ByBytes(c, before), FilledUp(piece)) == ByBytes(c, FilledUp(before + piece))
  {
    hide ByBytes, Zeros;
    ByBytesAppend(c, before, FilledUp(piece));
    SameRest(|before|, |piece|);
    var z := Zeros((4 - |piece| % 4) % 4);
    assert before + (piece + z) == (before + piece) + z;
  }

  // ---------------------------------------------------------------------------
  // Packed images
  // ---------------------------------------------------------------------------

  /** What the packer makes of a file body, filler included. */
  function Packed(body: seq<Byte>): seq<Byte> {
    body + BigEndian(ByWords(START, body)) + Filled(16)
  }

  lemma {:induction false} TrailingPads(file: seq<Byte>, n: nat, stored: seq<Byte>)
    requires file != [] && file[|file| - 1] != PAD
    requires |stored| == |file| + n && stored[..|file|] == file
    requires forall i :: |file| <= i < |stored| ==> stored[i] == PAD
    ensures Trailing(stored) == n
  {
    if n != 0 {
      var init := stored[..|stored| - 1];
      assert init[..|file|] == stored[..|file|];
      TrailingPads(file, n - 1, init);
    } else {
      assert stored == file;
    }
  }

  /** What arrives of a packed file: the file, padded with 0x1A to whole blocks. */
  lemma StoredParts(body: seq<Byte>)
    ensures var stored := OtaPackets.Blocks(Packed(body), OtaPackets.PacketCount(|Packed(body)|));
            && |stored| - Trailing(stored) == |body| + TRAILER && Trailing(stored) < 1024
            && stored[..|body|] == body
            && stored[|body|..|body| + 4] == BigEndian(ByWords(START, body))
  {
    hide ByWords, BigEndian, OtaPackets.Blocks;
    var file := Packed(body);
    var stored := OtaPackets.Blocks(file, OtaPackets.PacketCount(|file|));
    OtaPackets.TransferHoldsImage(file);
    assert file[|file| - 1] == 0xFF;
    TrailingPads(file, |stored| - |file|, stored);
    assert forall i :: 0 <= i < |file| ==> stored[i] == stored[..|file|][i];
    assert stored[..|body|] == body;
    assert stored[|body|..|body| + 4] == BigEndian(ByWords(START, body));
  }

  lemma BigEndianInjective(c: bv32, d: bv32)
    requires BigEndian(c) == BigEndian(d)
    ensures c == d
  {
    OfBigEndian(c);
    OfBigEndian(d);
    hide BigEndian, Word;
  }

  /** The bytes of the last, partial word. */
  function Tail(data: seq<Byte>): seq<Byte> { data[|data| - |data| % 4..] }

  lemma BothPaddings(data: seq<Byte>)
    requires |data| % 4 != 0
    ensures var whole, tail := data[..|data| - |data| % 4], Tail(data);
            && Padded(data) == whole + (Zeros(4 - |tail|) + tail)
            && FilledUp(data) == whole + (tail + Zeros(4 - |tail|))
  {
    var whole, tail := data[..|data| - |data| % 4], Tail(data);
    assert data == whole + tail;
    assert (whole + Zeros(4 - |tail|)) + tail == whole + (Zeros(4 - |tail|) + tail);
    assert (whole + tail) + Zeros(4 - |tail|) == whole + (tail + Zeros(4 - |tail|));
  }

  lemma FourBytes(c: bv32, d: seq<Byte>)
    requires |d| == 4
    ensures ByBytes(c, d) == WordStep(c, Word(d[0], d[1], d[2], d[3]))
  {
    hide ByteStep, WordStep, Word;
    ByBytesFour(c, d);
    WordStepIsByteSteps(c, d[0], d[1], d[2], d[3]);
    var r := ByteStep(ByteStep(ByteStep(ByteStep(c, d[0]), d[1]), d[2]), d[3]);
    assert d[4..] == [];
    NoBytes(r);
  }

  lemma WordInjective(a0: Byte, a1: Byte, a2: Byte, a3: Byte, b0: Byte, b1: Byte, b2: Byte, b3: Byte)
    requires Word(a0, a1, a2, a3) == Word(b0, b1, b2, b3)
    ensures a0 == b0 && a1 == b1 && a2 == b2 && a3 == b3
  {
  }

  /** After one register, two words give one CRC only if they are the same. */
  lemma FourBytesInjective(c: bv32, d: seq<Byte>, e: seq<Byte>)
    requires |d| == |e| == 4
    ensures ByBytes(c, d) == ByBytes(c, e) <==> d == e
  {
    hide ByBytes, WordStep, Word;
    FourBytes(c, d);
    FourBytes(c, e);
    if ByBytes(c, d) == ByBytes(c, e) {
      WordStepInjective(c, Word(d[0], d[1], d[2], d[3]), Word(e[0], e[1], e[2], e[3]));
      WordInjective(d[0], d[1], d[2], d[3], e[0], e[1], e[2], e[3]);
    }
  }

  predicate AllZero(s: seq<Byte>) { forall b <- s :: b == 0 }

  lemma SameOnBothSides(tail: seq<Byte>)
    requires 0 < |tail| < 4
    ensures Zeros(4 - |tail|) + tail == tail + Zeros(4 - |tail|) <==> AllZero(tail)
  {
    var l, r := Zeros(4 - |tail|) + tail, tail + Zeros(4 - |tail|);
    if l == r {
      assert l[0] == r[0] && l[1] == r[1] && l[2] == r[2] && l[3] == r[3];
      assert AllZero(tail);
    }
    if AllZero(tail) {
      forall i | 0 <= i < 4
        ensures l[i] == r[i]
      {
        assert forall j :: 0 <= j < |tail| ==> tail[j] in tail;
      }
    }
  }

  lemma PaddingsAgree(c: bv32, whole: seq<Byte>, tail: seq<Byte>)
    requires 0 < |tail| < 4
    ensures ByBytes(c, whole + (Zeros(4 - |tail|) + tail)) == ByBytes(c, whole + (tail + Zeros(4 - |tail|)))
      <==> AllZero(tail)
  {
    hide ByBytes, AllZero, Zeros;
    ByBytesAppend(c, whole, Zeros(4 - |tail|) + tail);
    ByBytesAppend(c, whole, tail + Zeros(4 - |tail|));
    FourBytesInjective(ByBytes(c, whole), Zeros(4 - |tail|) + tail, tail + Zeros(4 - |tail|));
    SameOnBothSides(tail);
  }

  /** The two CRCs agree exactly on whole words and on data whose partial word is all zero. */
  lemma CrcsAgree(body: seq<Byte>)
    ensures ByWords(START, body) == ByBytes(START, FilledUp(body)) <==> |body| % 4 == 0 || AllZero(Tail(body))
  {
    hide ByBytes, ByWords, Tail, AllZero, Zeros;
    WordsAreBytes(START, body);
    hide FilledUp;
    if |body| % 4 == 0 {
      FilledWhole(body);
    } else {
      hide Padded;
      BothPaddings(body);
      TailLength(body);
      PaddingsAgree(START, body[..|body| - |body| % 4], Tail(body));
    }
  }

  lemma TailLength(data: seq<Byte>)
    ensures |Tail(data)| == |data| % 4
  {
  }

  /** A packed image that has been delivered passes the device's check if and only if its body
      is a whole number of words, or its last bytes beyond that are all zero. */
  lemma PackedPasses(body: seq<Byte>)
    ensures var stored := OtaPackets.Blocks(Packed(body), OtaPackets.PacketCount(|Packed(body)|));
            && Checkable(stored)
            && (Passes(stored) <==> |body| % 4 == 0 || AllZero(Tail(body)))
  {
    hide ByBytes, ByWords, BigEndian, Trailing, OtaPackets.Blocks, FilledUp, Packed, Tail;
    StoredParts(body);
    CrcsAgree(body);
    if BigEndian(ByWords(START, body)) == BigEndian(ByBytes(START, FilledUp(body))) {
      BigEndianInjective(ByWords(START, body), ByBytes(START, FilledUp(body)));
    }
  }
}
