/** AES-CBC as both ends use it (section 6.2 of NIST SP 800-38A) over an arbitrary block
    permutation, zero padding, and the business packet of the encrypted link. */
module Cbc {

  newtype Byte = x: int | 0 <= x < 0x100

  const SIZE := 16

  /** The primitives the protocol is built on, known only by their laws. */
  datatype Primitives = Primitives(
    enc: (seq<Byte>, seq<Byte>) -> seq<Byte>,
    dec: (seq<Byte>, seq<Byte>) -> seq<Byte>,
    xor: (Byte, Byte) -> Byte,
    md5: seq<Byte> -> seq<Byte>)
  {
    /** For every key `dec` undoes `enc` on blocks, and XOR with a byte undoes itself. */
    ghost predicate Lawful() {
      && (forall a, b {:trigger xor(a, b)} :: xor(xor(a, b), b) == a)
      && (forall k, b {:trigger enc(k, b)} :: |b| == SIZE ==> |enc(k, b)| == SIZE && dec(k, enc(k, b)) == b)
      && (forall k, b {:trigger dec(k, b)} :: |b| == SIZE ==> |dec(k, b)| == SIZE)
      && (forall x :: |md5(x)| == SIZE)
    }
  }

  function XorBlock(p: Primitives, a: seq<Byte>, b: seq<Byte>): (r: seq<Byte>)
    requires |a| == |b| == SIZE
    ensures |r| == SIZE
  {
    seq(SIZE, i requires 0 <= i < SIZE => p.xor(a[i], b[i]))
  }

  lemma XorTwice(p: Primitives, a: seq<Byte>, b: seq<Byte>)
    requires p.Lawful() && |a| == |b| == SIZE
    ensures XorBlock(p, XorBlock(p, a, b), b) == a
  {
  }

  function Encrypt(p: Primitives, key: seq<Byte>, iv: seq<Byte>, data: seq<Byte>): (r: seq<Byte>)
    requires p.Lawful() && |iv| == SIZE && |data| % SIZE == 0
    ensures |r| == |data|
    decreases data
  {
    if data == [] then []
    else
      var c := p.enc(key, XorBlock(p, data[..SIZE], iv));
      c + Encrypt(p, key, c, data[SIZE..])
  }

  function Decrypt(p: Primitives, key: seq<Byte>, iv: seq<Byte>, data: seq<Byte>): (r: seq<Byte>)
    requires p.Lawful() && |iv| == SIZE && |data| % SIZE == 0
    ensures |r| == |data|
    decreases data
  {
    if data == [] then []
    else XorBlock(p, p.dec(key, data[..SIZE]), iv) + Decrypt(p, key, data[..SIZE], data[SIZE..])
  }

  /** Decrypting the first blocks of a ciphertext gives the first blocks of the message,
      whatever follows them. */
  lemma {:induction false} DecryptUndoesPrefix(p: Primitives, key: seq<Byte>, iv: seq<Byte>, data: seq<Byte>, n: nat)
    requires p.Lawful() && |iv| == SIZE && |data| % SIZE == 0 && n % SIZE == 0 && n <= |data|
    ensures Decrypt(p, key, iv, Encrypt(p, key, iv, data)[..n]) == data[..n]
    decreases n
  {
    if n != 0 {
      var m, c := data[..SIZE], p.enc(key, XorBlock(p, data[..SIZE], iv));
      var rest := Encrypt(p, key, c, data[SIZE..]);
      assert Encrypt(p, key, iv, data)[..n] == c + rest[..n - SIZE];
      DecryptUndoesPrefix(p, key, c, data[SIZE..], n - SIZE);
      XorTwice(p, m, iv);
      assert (c + rest[..n - SIZE])[..SIZE] == c && (c + rest[..n - SIZE])[SIZE..] == rest[..n - SIZE];
      assert data[..n] == m + data[SIZE..][..n - SIZE];
    }
  }

  /** CBC decryption undoes encryption. */
  lemma DecryptUndoes(p: Primitives, key: seq<Byte>, iv: seq<Byte>, data: seq<Byte>)
    requires p.Lawful() && |iv| == SIZE && |data| % SIZE == 0
    ensures Decrypt(p, key, iv, Encrypt(p, key, iv, data)) == data
  {
    DecryptUndoesPrefix(p, key, iv, data, |data|);
    assert Encrypt(p, key, iv, data)[..|data|] == Encrypt(p, key, iv, data) && data[..|data|] == data;
  }

  /** Block by block: each ciphertext block is the cipher of the message block combined with the
      ciphertext block before it, or with the initialisation vector. */
  lemma {:induction false} CbcBlock(p: Primitives, key: seq<Byte>, iv: seq<Byte>, data: seq<Byte>, at: nat)
    requires p.Lawful() && |iv| == SIZE && |data| % SIZE == 0 && at % SIZE == 0 && at < |data|
    ensures var e := Encrypt(p, key, iv, data); var before := if at == 0 then iv else e[at - SIZE..at];
            e[at..at + SIZE] == p.enc(key, XorBlock(p, data[at..at + SIZE], before))
    decreases at
  {
    hide XorBlock;
    var c := p.enc(key, XorBlock(p, data[..SIZE], iv));
    var rest := Encrypt(p, key, c, data[SIZE..]);
    var e := Encrypt(p, key, iv, data);
    assert e == c + rest;
    if at == 0 {
      assert data[0..SIZE] == data[..SIZE] && e[0..SIZE] == c;
    } else {
      var back := at - SIZE;
      CbcBlock(p, key, c, data[SIZE..], back);
      hide Encrypt;
      assert data[SIZE..][back..at] == data[at..at + SIZE];
      assert rest[back..at] == e[at..at + SIZE];
      if back == 0 {
        assert e[0..SIZE] == c;
      } else {
        assert rest[back - SIZE..back] == e[back..at];
      }
    }
  }

  /** The block loop: one cipher object carries the chaining block from call to call. */
  method AesCbc(p: Primitives, encrypt: bool, key: seq<Byte>, iv: seq<Byte>, data: seq<Byte>)
    returns (output: seq<Byte>)
    requires p.Lawful() && |iv| == SIZE && |data| % SIZE == 0
    ensures output == if encrypt then Encrypt(p, key, iv, data) else Decrypt(p, key, iv, data)
  {
    hide XorBlock, Encrypt, Decrypt;
    output := [];
    var chain, offset := iv, 0;
    assert data[0..] == data;
    while offset < |data|
      invariant 0 <= offset <= |data| && offset % SIZE == 0 && |chain| == SIZE
      invariant encrypt ==> output + Encrypt(p, key, chain, data[offset..]) == Encrypt(p, key, iv, data)
      invariant !encrypt ==> output + Decrypt(p, key, chain, data[offset..]) == Decrypt(p, key, iv, data)
    {
      var block := data[offset..offset + SIZE];
      Unchain(p, key, chain, block, data[offset + SIZE..]);
      assert data[offset..] == block + data[offset + SIZE..];
      if encrypt {
        var c := p.enc(key, XorBlock(p, block, chain));
        output := output + c;
        chain := c;
      } else {
        output := output + XorBlock(p, p.dec(key, block), chain);
        chain := block;
      }
      offset := offset + SIZE;
    }
    Empty(p, key, chain);
  }

  lemma Unchain(p: Primitives, key: seq<Byte>, iv: seq<Byte>, block: seq<Byte>, rest: seq<Byte>)
    requires p.Lawful() && |iv| == |block| == SIZE && |rest| % SIZE == 0
    ensures var c := p.enc(key, XorBlock(p, block, iv));
            Encrypt(p, key, iv, block + rest) == c + Encrypt(p, key, c, rest)
    ensures Decrypt(p, key, iv, block + rest) == XorBlock(p, p.dec(key, block), iv) + Decrypt(p, key, block, rest)
  {
    hide XorBlock;
    assert (block + rest)[..SIZE] == block && (block + rest)[SIZE..] == rest;
  }

  lemma Empty(p: Primitives, key: seq<Byte>, iv: seq<Byte>)
    requires p.Lawful() && |iv| == SIZE
    ensures Encrypt(p, key, iv, []) == [] && Decrypt(p, key, iv, []) == []
  {
  }

  // ---------------------------------------------------------------------------
  // Zero padding
  // ---------------------------------------------------------------------------

  function Zeros(n: nat): (z: seq<Byte>)
    ensures |z| == n
  {
    seq(n, _ => 0)
  }

  /** Always adds at least one byte: a whole block to a message of whole blocks. */
  function ZeroPad(data: seq<Byte>): (r: seq<Byte>)
    ensures |r| % SIZE == 0 && |data| < |r| <= |data| + SIZE
  {
    data + Zeros(SIZE - |data| % SIZE)
  }

  function TrimZero(data: seq<Byte>): seq<Byte> {
    if data != [] && data[|data| - 1] == 0 then TrimZero(data[..|data| - 1]) else data
  }

  method TrimTrailingZeros(data: seq<Byte>) returns (r: seq<Byte>)
    ensures r == TrimZero(data)
  {
    var length := |data|;
    assert data[..length] == data;
    while length > 0 && data[length - 1] == 0
      invariant 0 <= length <= |data|
      invariant TrimZero(data[..length]) == TrimZero(data)
    {
      assert data[..length][..length - 1] == data[..length - 1];
      length := length - 1;
    }
    r := data[..length];
  }

  lemma {:induction false} TrimZerosOff(data: seq<Byte>, n: nat)
    ensures TrimZero(data + Zeros(n)) == TrimZero(data)
  {
    if n == 0 {
      assert data + Zeros(0) == data;
    } else {
      assert (data + Zeros(n))[..|data| + n - 1] == data + Zeros(n - 1);
      TrimZerosOff(data, n - 1);
    }
  }

  /** Padding is undone exactly for messages that do not end in a zero byte. */
  lemma TrimUndoesPad(m: seq<Byte>)
    ensures TrimZero(ZeroPad(m)) == m <==> m == [] || m[|m| - 1] != 0
  {
    TrimZerosOff(m, SIZE - |m| % SIZE);
    TrimShortens(m);
  }

  lemma {:induction false} TrimShortens(m: seq<Byte>)
    ensures |TrimZero(m)| <= |m|
    ensures m != [] && m[|m| - 1] == 0 ==> |TrimZero(m)| < |m|
  {
    if m != [] && m[|m| - 1] == 0 {
      TrimShortens(m[..|m| - 1]);
    }
  }

  // ---------------------------------------------------------------------------
  // The business packet
  // ---------------------------------------------------------------------------

  const HEADER := 6
  const MAXIMUM := 4096

  function Length(high: Byte, low: Byte): nat { (high as nat) * 256 + low as nat }

  function LengthBytes(n: nat): (b: seq<Byte>)
    ensures |b| == 2
  {
    [(n / 256 % 256) as Byte, (n % 256) as Byte]
  }

  lemma LengthRoundTrip(n: nat)
    requires n <= 0xFFFF
    ensures Length(LengthBytes(n)[0], LengthBytes(n)[1]) == n
  {
  }

  /** Whole blocks needed for `n` bytes. */
  function CeilBlocks(n: nat): (r: nat)
    ensures r % SIZE == 0 && n <= r < n + SIZE
  {
    (n + 15) / 16 * 16
  }

  /** What a sender puts on the air: length, nonce, ciphertext of the message with `fill`. */
  function Packet(p: Primitives, key: seq<Byte>, plain: seq<Byte>, nonce: seq<Byte>, fill: seq<Byte>): (r: seq<Byte>)
    requires p.Lawful() && |nonce| == 4 && (|plain| + |fill|) % SIZE == 0
    ensures |r| == HEADER + |plain| + |fill|
  {
    LengthBytes(|plain|) + nonce + Encrypt(p, key, p.md5(nonce), plain + fill)
  }

  /** Length, high byte first, nonce, and the message with what fills it up, under the hash of the
      nonce. */
  predicate LaidOut(p: Primitives, key: seq<Byte>, plain: seq<Byte>, nonce: seq<Byte>, fill: seq<Byte>, sent: seq<Byte>)
    requires p.Lawful() && |nonce| == 4 && (|plain| + |fill|) % SIZE == 0
  {
    && |sent| == 6 + |plain| + |fill|
    && sent[0] as nat * 256 + sent[1] as nat == |plain| && sent[2..6] == nonce
    && Decrypt(p, key, p.md5(nonce), sent[6..]) == plain + fill
  }

  lemma PacketLayout(p: Primitives, key: seq<Byte>, plain: seq<Byte>, nonce: seq<Byte>, fill: seq<Byte>)
    requires p.Lawful() && |nonce| == 4 && (|plain| + |fill|) % SIZE == 0 && |plain| <= 0xFFFF
    ensures LaidOut(p, key, plain, nonce, fill, Packet(p, key, plain, nonce, fill))
  {
    hide Encrypt, Decrypt, LengthBytes;
    LengthRoundTrip(|plain|);
    DecryptUndoes(p, key, p.md5(nonce), plain + fill);
    var sent := Packet(p, key, plain, nonce, fill);
    assert sent[2..6] == nonce && sent[6..] == Encrypt(p, key, p.md5(nonce), plain + fill);
    assert sent[0] == LengthBytes(|plain|)[0] && sent[1] == LengthBytes(|plain|)[1];
  }

  /** What fills up a message of the client: zeros, a whole block of them if it is whole already. */
  function OwnFill(plain: seq<Byte>): (fill: seq<Byte>)
    ensures (|plain| + |fill|) % SIZE == 0
  {
    Zeros(SIZE - |plain| % SIZE)
  }

  /** The client's own sender: zero padding, hence a spare block for whole-block messages. */
  function EncryptBusinessPacket(p: Primitives, key: seq<Byte>, plain: seq<Byte>, nonce: seq<Byte>): seq<Byte>
    requires p.Lawful() && |nonce| == 4
  {
    Packet(p, key, plain, nonce, Zeros(SIZE - |plain| % SIZE))
  }

  datatype Decoded = Plain(bytes: seq<Byte>) | Malformed

  function DecryptBusinessPacket(p: Primitives, key: seq<Byte>, packet: seq<Byte>): Decoded
    requires p.Lawful()
  {
    if |packet| < 22 then Malformed
    else
      var n := Length(packet[0], packet[1]);
      if n == 0 || n > MAXIMUM || |packet| - HEADER != CeilBlocks(n) then Malformed
      else Plain(Decrypt(p, key, p.md5(packet[2..HEADER]), packet[HEADER..])[..n])
  }

  /** The first blocks of a sent packet decode to its message, whatever was filled in. */
  lemma PacketDecodes(p: Primitives, key: seq<Byte>, plain: seq<Byte>, nonce: seq<Byte>, fill: seq<Byte>)
    requires p.Lawful() && |nonce| == 4 && (|plain| + |fill|) % SIZE == 0
    requires 0 < |plain| <= MAXIMUM
    ensures var total := HEADER + CeilBlocks(|plain|);
            var sent := Packet(p, key, plain, nonce, fill);
            total <= |sent| && DecryptBusinessPacket(p, key, sent[..total]) == Plain(plain)
  {
    hide Encrypt, Decrypt, LengthBytes, Length;
    var n, sent := CeilBlocks(|plain|), Packet(p, key, plain, nonce, fill);
    var packet := sent[..HEADER + n];
    var cipher := Encrypt(p, key, p.md5(nonce), plain + fill);
    LengthRoundTrip(|plain|);
    assert packet[2..HEADER] == nonce;
    assert packet[HEADER..] == cipher[..n];
    DecryptUndoesPrefix(p, key, p.md5(nonce), plain + fill, n);
    assert (plain + fill)[..n][..|plain|] == plain;
  }
}
