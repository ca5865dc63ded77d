/** The handshake with a device that derives its own keys: from the random number it sends it
    computes hash and key by itself, opens the client's answers with them, and seals its own
    packets. */
module HandshakeDevice {
  import opened Cbc
  import opened HandshakeSpec
  import opened HandshakeSafety

  // ---------------------------------------------------------------------------
  // The device's keys
  // ---------------------------------------------------------------------------

  /** The hash of the reversed random number, and the key that combined with the root key gives
      the hash, byte by byte. */
  ghost predicate Derives(c: Crypto, random: seq<Byte>, key: seq<Byte>, hash: seq<Byte>)
    requires c.Lawful() && |random| == 4
  {
    && |key| == SIZE
    && hash == c.p.md5([random[3], random[2], random[1], random[0]])
    && forall i :: 0 <= i < SIZE ==> c.p.xor(key[i], c.rootKey[i]) == hash[i]
  }

  lemma DerivesOne(c: Crypto, random: seq<Byte>, key: seq<Byte>, hash: seq<Byte>, key': seq<Byte>, hash': seq<Byte>)
    requires c.Lawful() && |random| == 4
    requires Derives(c, random, key, hash) && Derives(c, random, key', hash')
    ensures key == key' && hash == hash'
  {
    forall i | 0 <= i < SIZE
      ensures key[i] == key'[i]
    {
      assert key[i] == c.p.xor(c.p.xor(key[i], c.rootKey[i]), c.rootKey[i]);
      assert key'[i] == c.p.xor(c.p.xor(key'[i], c.rootKey[i]), c.rootKey[i]);
    }
  }

  function Sum(data: seq<Byte>): nat {
    if data == [] then 0 else data[0] as nat + Sum(data[1..])
  }

  lemma {:induction false} SumSnoc(data: seq<Byte>, b: Byte)
    ensures Sum(data + [b]) == Sum(data) + b as nat
  {
    if data != [] {
      assert (data + [b])[1..] == data[1..] + [b];
      SumSnoc(data[1..], b);
    } else {
      assert ([] + [b])[1..] == [];
    }
  }

  lemma {:induction false} ChecksumIsSum(data: seq<Byte>)
    ensures Checksum(data) == Sum(data) % 0x1_0000
  {
    if data != [] {
      var init, last := data[..|data| - 1], data[|data| - 1];
      ChecksumIsSum(init);
      SumSnoc(init, last);
      assert init + [last] == data;
    }
  }

  /** The message between the two bytes 2A it begins with and its sum, high byte first. */
  predicate Framed(answer: seq<Byte>, frame: seq<Byte>) {
    && |answer| == |frame| + 4 && answer[..2] == [0x2A, 0x2A] && answer[2..2 + |frame|] == frame
    && answer[2 + |frame|] as nat * 256 + answer[3 + |frame|] as nat == Sum(frame) % 0x1_0000
  }

  lemma ChecksumFrames(frame: seq<Byte>)
    ensures Framed(WithChecksum(frame), frame)
  {
    hide LengthBytes;
    ChecksumIsSum(frame);
    LengthRoundTrip(Checksum(frame));
    var sum, answer := LengthBytes(Checksum(frame)), WithChecksum(frame);
    assert answer[2 + |frame|] == sum[0] && answer[3 + |frame|] == sum[1];
  }

  /** A request gives the session the keys that the device derives, and the answer shows the
      device four bytes of its hash. */
  lemma RequestDerives(c: Crypto, s: Session, data: seq<Byte>)
    requires c.Lawful() && |data| >= 8
    ensures var (s', e) := AuthRequest(c, s, data);
            && s'.newAesKey.Some? && s'.md5Hash.Some?
            && Derives(c, data[4..8], s'.newAesKey.value, s'.md5Hash.value)
            && e.Respond? && Framed(e.bytes, [0x02, 0x04] + s'.md5Hash.value[8..12])
  {
    hide WithChecksum;
    var hash := c.p.md5([data[7], data[6], data[5], data[4]]);
    ChecksumFrames([0x02, 0x04] + hash[8..12]);
    assert data[4..8] == [data[4], data[5], data[6], data[7]];
  }

  // ---------------------------------------------------------------------------
  // The device's packets
  // ---------------------------------------------------------------------------

  function RequestWith(random: seq<Byte>): seq<Byte> { [0x2A, 0x2A, 0x01, 0x00] + random }

  function ResultWith(status: Byte): seq<Byte> { [0x2A, 0x2A, 0x03, 0x00, status] }

  /** A message as the device seals it under its own keys. */
  function Sealed(c: Crypto, key: seq<Byte>, hash: seq<Byte>, magic: seq<Byte>, message: seq<Byte>): seq<Byte>
    requires c.Lawful() && |hash| == SIZE
  {
    magic + Encrypt(c.p, key, hash, ZeroPad(message))
  }

  /** The device's exchange message: its public key, and a signature over key and hash that holds;
      the checksum it ends in does not end in 00. */
  predicate GoodExchange(c: Crypto, hash: seq<Byte>, message: seq<Byte>) {
    && |message| == 134 && message[133] != 0
    && c.verify(message[68..132], message[4..68] + hash)
  }

  /** Its outcome message: status 0, with the same proviso. */
  predicate GoodOutcome(message: seq<Byte>) {
    |message| > 5 && message[4] == 0 && message[|message| - 1] != 0
  }

  /** The session keys are the device's. */
  predicate Shares(s: Session, key: seq<Byte>, hash: seq<Byte>) {
    s.newAesKey == Some(key) && s.md5Hash == Some(hash)
  }

  lemma RequestShares(c: Crypto, s: Session, random: seq<Byte>, key: seq<Byte>, hash: seq<Byte>)
    requires c.Lawful() && Sized(s) && |random| == 4 && Derives(c, random, key, hash)
    ensures var s' := AuthRequest(c, s, RequestWith(random)).0;
            && Shares(s', key, hash) && s'.authSucceeded == s.authSucceeded
            && s'.(authStarted := s.authStarted, phase := s.phase, md5Hash := s.md5Hash, newAesKey := s.newAesKey) == s
  {
    hide Derives;
    RequestDerives(c, s, RequestWith(random));
    assert RequestWith(random)[4..8] == random;
    var s' := AuthRequest(c, s, RequestWith(random)).0;
    DerivesOne(c, random, key, hash, s'.newAesKey.value, s'.md5Hash.value);
    hide XorBlock, WithChecksum;
  }

  lemma RequestTaken(c: Crypto, s: Session, random: seq<Byte>)
    requires c.Lawful() && Sized(s) && |random| == 4 && s.prefix.None?
    ensures Notify(c, s, RequestWith(random)) == AuthRequest(c, s, RequestWith(random))
  {
    hide AuthRequest, AuthResult;
    NotAPacket(s, RequestWith(random));
  }

  lemma StatusTaken(c: Crypto, s: Session, status: Byte)
    requires c.Lawful() && Sized(s) && s.prefix.None?
    ensures Notify(c, s, ResultWith(status)) == AuthResult(s, ResultWith(status))
  {
    hide AuthRequest, AuthResult;
    NotAPacket(s, ResultWith(status));
    Distinct(ResultWith(status));
  }

  /** What opening a sealed message gives. */
  lemma SealedOpens(c: Crypto, s: Session, key: seq<Byte>, hash: seq<Byte>, pre: Prefix, message: seq<Byte>)
    requires c.Lawful() && Sized(s) && Shares(s, key, hash)
    requires message != [] && message[|message| - 1] != 0
    ensures var packet := Sealed(c, key, hash, Magic(pre), message);
            && Aligned(packet) && StartsWith(packet, Magic(pre)) && Opened(c, s, packet) == message
  {
    hide Encrypt, Decrypt, TrimZero, ZeroPad;
    var cipher := Encrypt(c.p, key, hash, ZeroPad(message));
    assert Sealed(c, key, hash, Magic(pre), message)[2..] == cipher;
    DecryptUndoes(c.p, key, hash, ZeroPad(message));
    TrimUndoesPad(message);
  }

  // ---------------------------------------------------------------------------
  // The whole handshake
  // ---------------------------------------------------------------------------

  /** Of all the exchange messages that a device seals under the shared keys, exactly those of full
      length whose signature holds are accepted, and only after a successful authentication. */
  lemma ExchangeVerdict(c: Crypto, s: Session, key: seq<Byte>, hash: seq<Byte>, message: seq<Byte>)
    requires c.Lawful() && Sized(s) && s.prefix.None? && s.acc == [] && !s.keyExchangeDone && Shares(s, key, hash)
    requires message != [] && message[|message| - 1] != 0 && PacketComplete(Exchange, 2 + |ZeroPad(message)|)
    ensures var (s', e) := Notify(c, s, Sealed(c, key, hash, [0x00, 0x86], message));
            if s.authSucceeded && |message| >= 134 && c.verify(message[68..132], message[4..68] + hash)
            then s'.iotPublicKey == Some(message[4..68]) && s'.ephemeral == Some(s.generated)
            else (s', e) == (s, Fail)
  {
    hide Encrypt, WithChecksum, ZeroPad, Opened;
    var packet := Sealed(c, key, hash, Magic(Exchange), message);
    SealedOpens(c, s, key, hash, Exchange, message);
    hide Sealed, StartsWith;
    WholePacket(s, Exchange, packet);
    assert s.(acc := [], prefix := None) == s;
  }

  /** Of all outcome messages exactly those with status 0 complete the agreement, if there is one
      to complete; any other takes the secret away. */
  lemma OutcomeVerdict(c: Crypto, s: Session, key: seq<Byte>, hash: seq<Byte>, message: seq<Byte>)
    requires c.Lawful() && Sized(s) && s.prefix.None? && s.acc == [] && !s.keyExchangeDone && Shares(s, key, hash)
    requires message != [] && message[|message| - 1] != 0
    ensures var (s', e) := Notify(c, s, Sealed(c, key, hash, [0x00, 0x07], message));
            if |message| >= 5 && message[4] == 0 && s.ephemeral.Some? && s.iotPublicKey.Some?
               && c.agree(s.ephemeral.value, s.iotPublicKey.value).Some?
            then s'.encryptionReady && s'.keyExchangeDone && s'.ephemeral.None?
                 && s'.sharedKey == c.agree(s.ephemeral.value, s.iotPublicKey.value)
            else (s', e) == (s.(ephemeral := None), Fail)
  {
    hide Encrypt, ZeroPad, Opened;
    var packet := Sealed(c, key, hash, Magic(Outcome), message);
    SealedOpens(c, s, key, hash, Outcome, message);
    OutcomeLength(message);
    hide Sealed, StartsWith;
    WholePacket(s, Outcome, packet);
    assert s.(acc := [], prefix := None) == s;
  }

  /** The exchange packet of a device that has derived the same keys is accepted, and the answer
      opens under the device's keys: it holds the client's public key and its signature. */
  lemma ExchangeTaken(c: Crypto, s: Session, key: seq<Byte>, hash: seq<Byte>, message: seq<Byte>)
    requires c.Lawful() && Sized(s) && s.prefix.None? && s.acc == [] && !s.keyExchangeDone && s.authSucceeded
    requires Shares(s, key, hash) && GoodExchange(c, hash, message)
    ensures var (s', e) := Notify(c, s, Sealed(c, key, hash, [0x00, 0x86], message));
            && s' == s.(iotPublicKey := Some(message[4..68]), phase := AuthDone, ephemeral := Some(s.generated),
                        generated := s.generated + 1)
            && e == match c.sign(c.publicOf(s.generated) + hash)
                    case None => Fail
                    case Some(signature) => Respond(Reply(c, key, hash, c.publicOf(s.generated), signature))
  {
    hide Encrypt, WithChecksum, ZeroPad, Opened;
    var packet := Sealed(c, key, hash, Magic(Exchange), message);
    SealedOpens(c, s, key, hash, Exchange, message);
    ExchangeLength(message);
    hide Sealed, StartsWith;
    WholePacket(s, Exchange, packet);
    assert s.(acc := [], prefix := None) == s;
    assert VerifiedKey(c, s, packet) == Some(message[4..68]);
  }

  lemma ExchangeLength(message: seq<Byte>)
    requires |message| == 134
    ensures PacketComplete(Exchange, 2 + |ZeroPad(message)|)
  {
  }

  function Reply(c: Crypto, key: seq<Byte>, hash: seq<Byte>, own: seq<Byte>, signature: seq<Byte>): seq<Byte>
    requires c.Lawful() && |hash| == SIZE
  {
    Sealed(c, key, hash, [0x00, 0x86], WithChecksum([0x05, 0x80] + own + signature))
  }

  lemma ReplyOpens(c: Crypto, key: seq<Byte>, hash: seq<Byte>, own: seq<Byte>, signature: seq<Byte>)
    requires c.Lawful() && |hash| == SIZE
    ensures var air, n := Reply(c, key, hash, own, signature), 6 + |own| + |signature|;
            && |air| >= 2 + n && (|air| - 2) % SIZE == 0 && air[..2] == [0x00, 0x86]
            && Framed(Decrypt(c.p, key, hash, air[2..])[..n], [0x05, 0x80] + own + signature)
  {
    hide Encrypt, Decrypt, WithChecksum, Framed;
    var frame := [0x05, 0x80] + own + signature;
    var message := WithChecksum(frame);
    ChecksumFrames(frame);
    FramedLength(message, frame);
    DecryptUndoes(c.p, key, hash, ZeroPad(message));
    var air := Reply(c, key, hash, own, signature);
    assert air[2..] == Encrypt(c.p, key, hash, ZeroPad(message));
    assert ZeroPad(message)[..|message|] == message;
  }

  lemma FramedLength(answer: seq<Byte>, frame: seq<Byte>)
    requires Framed(answer, frame)
    ensures |answer| == |frame| + 4
  {
  }

  /** Its outcome packet completes the agreement. */
  lemma OutcomeTaken(c: Crypto, s: Session, key: seq<Byte>, hash: seq<Byte>, message: seq<Byte>, shared: seq<Byte>)
    requires c.Lawful() && Sized(s) && s.prefix.None? && s.acc == [] && !s.keyExchangeDone
    requires Shares(s, key, hash) && GoodOutcome(message)
    requires s.ephemeral.Some? && s.iotPublicKey.Some?
    requires c.agree(s.ephemeral.value, s.iotPublicKey.value) == Some(shared)
    ensures Notify(c, s, Sealed(c, key, hash, [0x00, 0x07], message)).0
         == s.(ephemeral := None, sharedKey := Some(shared), keyExchangeDone := true, encryptionReady := true,
               phase := Encrypted)
  {
    hide Encrypt, ZeroPad, Opened;
    var packet := Sealed(c, key, hash, Magic(Outcome), message);
    SealedOpens(c, s, key, hash, Outcome, message);
    OutcomeLength(message);
    hide Sealed, StartsWith;
    WholePacket(s, Outcome, packet);
    assert s.(acc := [], prefix := None) == s;
    assert AgreedKey(c, s, packet) == Some(shared);
  }

  lemma OutcomeLength(message: seq<Byte>)
    ensures PacketComplete(Outcome, 2 + |ZeroPad(message)|)
  {
  }

  /** Request, result and exchange of an honest device. */
  function Exchanging(c: Crypto, random: seq<Byte>, key: seq<Byte>, hash: seq<Byte>, message: seq<Byte>): Run
    requires c.Lawful() && |hash| == SIZE
  {
    Got(Got(Got(Connected, RequestWith(random)), ResultWith(0)), Sealed(c, key, hash, [0x00, 0x86], message))
  }

  lemma ExchangeDone(c: Crypto, random: seq<Byte>, key: seq<Byte>, hash: seq<Byte>, message: seq<Byte>)
    requires c.Lawful() && |random| == 4 && Derives(c, random, key, hash) && GoodExchange(c, hash, message)
    ensures var s := After(c, Exchanging(c, random, key, hash, message));
            && Shares(s, key, hash) && s.authSucceeded && s.prefix.None? && s.acc == [] && !s.keyExchangeDone
            && s.iotPublicKey == Some(message[4..68]) && s.ephemeral == Some(0)
  {
    hide AuthRequest, Notify, Sealed, GoodExchange;
    var r1 := Got(Connected, RequestWith(random));
    assert After(c, Connected) == FRESH && After(c, r1) == Notify(c, FRESH, RequestWith(random)).0;
    RequestTaken(c, FRESH, random);
    RequestShares(c, FRESH, random, key, hash);
    var r2 := Got(r1, ResultWith(0));
    StatusTaken(c, After(c, r1), 0);
    assert After(c, r2) == Notify(c, After(c, r1), ResultWith(0)).0;
    ExchangeTaken(c, After(c, r2), key, hash, message);
  }

  /** A device that seals its packets under the keys it has derived itself is accepted: the link
      is encrypted under the key that the two agree on. */
  lemma HonestDevice(c: Crypto, random: seq<Byte>, key: seq<Byte>, hash: seq<Byte>, message: seq<Byte>,
                     outcome: seq<Byte>, shared: seq<Byte>)
    requires c.Lawful() && |random| == 4 && Derives(c, random, key, hash)
    requires GoodExchange(c, hash, message) && GoodOutcome(outcome) && c.agree(0, message[4..68]) == Some(shared)
    ensures var s := After(c, Got(Exchanging(c, random, key, hash, message),
                                  Sealed(c, key, hash, [0x00, 0x07], outcome)));
            s.encryptionReady && s.authSucceeded && s.sharedKey == Some(shared)
  {
    hide Notify, Sealed, Exchanging, GoodOutcome;
    ExchangeDone(c, random, key, hash, message);
    OutcomeTaken(c, After(c, Exchanging(c, random, key, hash, message)), key, hash, outcome, shared);
  }

  /** With any such device an encrypted link without a standing authentication can be reached: the
      run is `request, ok, exchange, failure, request, outcome`. */
  lemma FailedAuthHappens(c: Crypto, random: seq<Byte>, key: seq<Byte>, hash: seq<Byte>, message: seq<Byte>,
                          outcome: seq<Byte>, shared: seq<Byte>)
    requires c.Lawful() && |random| == 4 && Derives(c, random, key, hash)
    requires GoodExchange(c, hash, message) && GoodOutcome(outcome) && c.agree(0, message[4..68]) == Some(shared)
    ensures var r3 := Exchanging(c, random, key, hash, message);
            var r := Got(Got(Got(r3, ResultWith(1)), RequestWith(random)), Sealed(c, key, hash, [0x00, 0x07], outcome));
            && After(c, r).encryptionReady && !After(c, r).authSucceeded && LastStatus(c, r) == Some(1)
            && After(c, r).sharedKey == Some(shared)
  {
    hide AuthRequest, Notify, Sealed, GoodOutcome, Exchanging;
    var r3 := Exchanging(c, random, key, hash, message);
    ExchangeDone(c, random, key, hash, message);
    var r4 := Got(r3, ResultWith(1));
    StatusTaken(c, After(c, r3), 1);
    var r5 := Got(r4, RequestWith(random));
    RequestTaken(c, After(c, r4), random);
    RequestShares(c, After(c, r4), random, key, hash);
    OutcomeTaken(c, After(c, r5), key, hash, outcome, shared);
    var r := Got(r5, Sealed(c, key, hash, [0x00, 0x07], outcome));
    OutcomeStarts(c, key, hash, outcome);
    FailureLasts(c, r3, r4, r5, r, random);
  }

  lemma OutcomeStarts(c: Crypto, key: seq<Byte>, hash: seq<Byte>, message: seq<Byte>)
    requires c.Lawful() && |hash| == SIZE
    ensures StartsWith(Sealed(c, key, hash, [0x00, 0x07], message), Magic(Outcome))
  {
    hide Encrypt;
  }

  lemma FailureLasts(c: Crypto, r3: Run, r4: Run, r5: Run, r: Run, random: seq<Byte>)
    requires c.Lawful() && After(c, r3).prefix.None?
    requires r4 == Got(r3, ResultWith(1)) && r5 == Got(r4, RequestWith(random))
    requires r.Got? && r.before == r5 && StartsWith(r.data, Magic(Outcome))
    ensures LastStatus(c, r) == Some(1)
  {
    hide Notify;
    assert LastStatus(c, r4) == Some(1);
    Distinct(RequestWith(random));
    Distinct(r.data);
    hide StartsWith, Magic;
  }
}
