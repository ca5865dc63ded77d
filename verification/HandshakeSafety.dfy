/** What holds for every sequence of notifications, however the device (or anyone who
    can write to the link) orders, repeats, splits or forges them. */
module HandshakeSafety {
  import opened Cbc
  import opened HandshakeSpec

  /** A run, latest event outermost. */
  datatype Run = Connected | Got(before: Run, data: seq<Byte>) | WentPlain(before: Run)

  function After(c: Crypto, r: Run): (s: Session)
    requires c.Lawful()
    ensures Sized(s)
  {
    match r
    case Connected => FRESH
    case Got(before, data) => Notify(c, After(c, before), data).0
    case WentPlain(before) => MarkPlaintext(After(c, before))
  }

  /** A well-formed authentication request was answered. */
  ghost predicate Requested(c: Crypto, r: Run)
    requires c.Lawful()
  {
    && !r.Connected?
    && (Requested(c, r.before) ||
        (r.Got? && After(c, r.before).prefix.None? && StartsWith(r.data, [0x2A, 0x2A, 0x01]) && |r.data| >= 8))
  }

  /** An authentication result with status 0 was received. */
  ghost predicate Authenticated(c: Crypto, r: Run)
    requires c.Lawful()
  {
    && !r.Connected?
    && (Authenticated(c, r.before) ||
        (r.Got? && After(c, r.before).prefix.None? && StartsWith(r.data, [0x2A, 0x2A, 0x03])
          && |r.data| >= 5 && r.data[4] == 0))
  }

  /** The handshake packet that the last notification completed, with the session that
      handles it. */
  function Last(c: Crypto, r: Run): (l: Option<(Session, Prefix, seq<Byte>)>)
    requires c.Lawful()
    ensures l.Some? ==> Sized(l.value.0) && PacketComplete(l.value.1, |l.value.2|) && Aligned(l.value.2)
  {
    if !r.Got? then None
    else
      var s := After(c, r.before);
      match Completed(s, r.data)
      case None => None
      case Some((pre, packet)) => Some((s.(acc := [], prefix := None), pre, packet))
  }

  /** A 0086 packet carrying `key` passed the signature check, and the secret `id` was
      generated in answer. */
  ghost predicate Exchanged(c: Crypto, r: Run, key: seq<Byte>, id: nat)
    requires c.Lawful()
  {
    && !r.Connected?
    && (Exchanged(c, r.before, key, id) ||
        (Last(c, r).Some? && var (s, pre, packet) := Last(c, r).value;
         pre == Exchange && VerifiedKey(c, s, packet) == Some(key) && s.generated == id))
  }

  /** A 0007 packet was accepted and `shared` agreed on. */
  ghost predicate Agreed(c: Crypto, r: Run, shared: seq<Byte>)
    requires c.Lawful()
  {
    && !r.Connected?
    && (Agreed(c, r.before, shared) ||
        (Last(c, r).Some? && var (s, pre, packet) := Last(c, r).value;
         pre == Outcome && AgreedKey(c, s, packet) == Some(shared)))
  }

  /** Everything the safety results need, kept by every event. */
  ghost predicate Invariant(c: Crypto, r: Run)
    requires c.Lawful()
  {
    var s := After(c, r);
    && (s.prefix.None? <==> s.acc == [])
    && (s.prefix.Some? ==> !s.keyExchangeDone)
    && (s.newAesKey.Some? ==> Requested(c, r))
    && (s.authSucceeded ==> Authenticated(c, r))
    && (s.iotPublicKey.Some? ==> Requested(c, r) && Authenticated(c, r))
    && (s.iotPublicKey.Some? ==> s.generated > 0 && Exchanged(c, r, s.iotPublicKey.value, s.generated - 1))
    && (s.ephemeral.Some? ==> s.iotPublicKey.Some? && s.ephemeral.value + 1 == s.generated)
    && (s.keyExchangeDone <==> s.sharedKey.Some?)
    && (s.keyExchangeDone ==> s.iotPublicKey.Some? && Agreed(c, r, s.sharedKey.value))
    && (s.keyExchangeDone ==> s.sharedKey == c.agree(s.generated - 1, s.iotPublicKey.value))
    && (s.encryptionReady ==> s.keyExchangeDone && s.phase != Plaintext)
  }

  /** What happened stays happened. */
  lemma Monotone(c: Crypto, r: Run)
    requires c.Lawful() && !r.Connected?
    ensures Requested(c, r.before) ==> Requested(c, r)
    ensures Authenticated(c, r.before) ==> Authenticated(c, r)
    ensures forall key, id :: Exchanged(c, r.before, key, id) ==> Exchanged(c, r, key, id)
    ensures forall shared :: Agreed(c, r.before, shared) ==> Agreed(c, r, shared)
  {
    hide After, Last;
  }

  lemma ExchangeKeeps(c: Crypto, r: Run)
    requires c.Lawful() && r.Got? && Invariant(c, r.before)
    requires Last(c, r).Some? && Last(c, r).value.1 == Exchange
    ensures Invariant(c, r)
  {
    hide Encrypt, VerifiedKey, WithChecksum, PacketComplete, Aligned, Magic, Sized, ZeroPad;
    hide Requested, Authenticated, Agreed;
    var (s, pre, packet) := Last(c, r).value;
    Monotone(c, r);
    assert After(c, r) == KeyExchange(c, s, packet).0;
    VerifiedMeansAuthenticated(c, s, packet);
    hide Completed, Exchanged;
    var k := VerifiedKey(c, s, packet);
    if k.Some? {
      JustExchanged(c, r);
    }
    hide Last;
  }

  lemma VerifiedMeansAuthenticated(c: Crypto, s: Session, packet: seq<Byte>)
    requires c.Lawful() && Sized(s) && Aligned(packet)
    ensures VerifiedKey(c, s, packet).Some? ==> s.authSucceeded && s.newAesKey.Some?
  {
    hide Opened;
  }

  lemma JustExchanged(c: Crypto, r: Run)
    requires c.Lawful() && r.Got? && Last(c, r).Some?
    requires var (s, pre, packet) := Last(c, r).value; pre == Exchange && VerifiedKey(c, s, packet).Some?
    ensures var (s, pre, packet) := Last(c, r).value; Exchanged(c, r, VerifiedKey(c, s, packet).value, s.generated)
  {
    hide After, VerifiedKey, Last;
  }

  lemma OutcomeKeeps(c: Crypto, r: Run)
    requires c.Lawful() && r.Got? && Invariant(c, r.before)
    requires Last(c, r).Some? && Last(c, r).value.1 == Outcome
    ensures Invariant(c, r)
  {
    hide AgreedKey, PacketComplete, Aligned, Magic, Sized, Requested, Authenticated, Exchanged;
    var (s, pre, packet) := Last(c, r).value;
    Monotone(c, r);
    assert After(c, r) == KeyOutcome(c, s, packet).0;
    AgreedMeansExchanged(c, s, packet);
    hide Completed, Agreed;
    if AgreedKey(c, s, packet).Some? {
      JustAgreed(c, r);
    }
    hide Last;
  }

  lemma AgreedMeansExchanged(c: Crypto, s: Session, packet: seq<Byte>)
    requires c.Lawful() && Sized(s) && Aligned(packet)
    ensures AgreedKey(c, s, packet).Some? ==> s.ephemeral.Some? && s.iotPublicKey.Some?
    ensures AgreedKey(c, s, packet).Some? ==>
      AgreedKey(c, s, packet) == c.agree(s.ephemeral.value, s.iotPublicKey.value)
  {
    hide Opened;
  }

  lemma JustAgreed(c: Crypto, r: Run)
    requires c.Lawful() && r.Got? && Last(c, r).Some?
    requires var (s, pre, packet) := Last(c, r).value; pre == Outcome && AgreedKey(c, s, packet).Some?
    ensures var (s, pre, packet) := Last(c, r).value; Agreed(c, r, AgreedKey(c, s, packet).value)
  {
    hide After, AgreedKey, Last;
  }

  lemma AuthRequestKeeps(c: Crypto, r: Run)
    requires c.Lawful() && r.Got? && Invariant(c, r.before)
    requires After(c, r.before).prefix.None? && StartsWith(r.data, [0x2A, 0x2A, 0x01])
    requires After(c, r) == AuthRequest(c, After(c, r.before), r.data).0
    ensures Invariant(c, r)
  {
    hide After, XorBlock, WithChecksum, Exchanged, Agreed, Authenticated, Sized;
    Monotone(c, r);
  }

  lemma AuthResultKeeps(c: Crypto, r: Run)
    requires c.Lawful() && r.Got? && Invariant(c, r.before)
    requires After(c, r.before).prefix.None? && StartsWith(r.data, [0x2A, 0x2A, 0x03])
    requires After(c, r) == AuthResult(After(c, r.before), r.data).0
    ensures Invariant(c, r)
  {
    hide After, Exchanged, Agreed, Requested, Sized;
    Monotone(c, r);
  }

  lemma OtherKeeps(c: Crypto, r: Run)
    requires c.Lawful() && r.Got? && Invariant(c, r.before)
    requires Last(c, r).None?
    ensures Invariant(c, r)
  {
    hide Dispatch, AuthRequest, AuthResult, Requested, Authenticated, Exchanged, Agreed;
    hide Magic, ModbusReady, Sized, StartsWith;
    var s := After(c, r.before);
    assert Completed(s, r.data).None?;
    hide Completed, Last;
    assert After(c, r) == Uncompleted(c, s, r.data).0;
    Monotone(c, r);
    hide After;
    if r.data != [] && s.prefix.None? && StartsWith(r.data, [0x2A, 0x2A, 0x01]) {
      AuthRequestKeeps(c, r);
    } else if r.data != [] && s.prefix.None? && StartsWith(r.data, [0x2A, 0x2A, 0x03]) {
      AuthResultKeeps(c, r);
    }
  }

  lemma {:induction false} InvariantHolds(c: Crypto, r: Run)
    requires c.Lawful()
    ensures Invariant(c, r)
  {
    match r
    case Connected =>
    case WentPlain(before) =>
      InvariantHolds(c, before);
    case Got(before, data) =>
      InvariantHolds(c, before);
      if Last(c, r).None? {
        OtherKeeps(c, r);
      } else if Last(c, r).value.1 == Exchange {
        ExchangeKeeps(c, r);
      } else {
        OutcomeKeeps(c, r);
      }
      hide *;
  }

  // ---------------------------------------------------------------------------
  // Safety over whole runs
  // ---------------------------------------------------------------------------

  /** A device key that was taken came with a signature over it and over the session's hash. */
  lemma {:induction false} ExchangedIsSigned(c: Crypto, r: Run, key: seq<Byte>, id: nat)
    returns (signature: seq<Byte>, hash: seq<Byte>)
    requires c.Lawful() && Exchanged(c, r, key, id)
    ensures |key| == 64 && |hash| == SIZE && c.verify(signature, key + hash)
  {
    hide After, Opened, PacketComplete, Aligned;
    if Exchanged(c, r.before, key, id) {
      signature, hash := ExchangedIsSigned(c, r.before, key, id);
    } else {
      var (s, pre, packet) := Last(c, r).value;
      signature, hash := Opened(c, s, packet)[68..132], s.md5Hash.value;
    }
  }

  /** An encrypted link means that every step of the handshake took place, and that its
      key is the agreement between a signature-verified device key and the secret whose
      public key was sent in answer to it. */
  lemma ReadyMeansHandshake(c: Crypto, r: Run)
    returns (deviceKey: seq<Byte>, secret: nat, signature: seq<Byte>, hash: seq<Byte>)
    requires c.Lawful() && After(c, r).encryptionReady
    ensures var s := After(c, r);
            && Requested(c, r) && Authenticated(c, r)
            && s.keyExchangeDone && s.sharedKey.Some?
            && Exchanged(c, r, deviceKey, secret) && c.verify(signature, deviceKey + hash)
            && Agreed(c, r, s.sharedKey.value)
            && s.sharedKey == c.agree(secret, deviceKey)
  {
    InvariantHolds(c, r);
    hide After, Exchanged, Agreed, Requested, Authenticated;
    var s := After(c, r);
    deviceKey, secret := s.iotPublicKey.value, s.generated - 1;
    signature, hash := ExchangedIsSigned(c, r, deviceKey, secret);
  }

  predicate Continues(r0: Run, r: Run) {
    r == r0 || (!r.Connected? && Continues(r0, r.before))
  }

  /** Once the key exchange is done, nothing the other side sends changes the key or
      makes the session collect handshake pieces again. */
  lemma {:induction false} KeyIsFinal(c: Crypto, r0: Run, r: Run)
    requires c.Lawful() && Continues(r0, r) && After(c, r0).keyExchangeDone
    ensures var s := After(c, r);
            s.keyExchangeDone && s.sharedKey == After(c, r0).sharedKey && s.prefix.None? && s.acc == []
  {
    InvariantHolds(c, r);
    hide Requested, Authenticated, Exchanged, Agreed, Dispatch;
    if r != r0 {
      KeyIsFinal(c, r0, r.before);
      if r.Got? {
        DoneStays(c, After(c, r.before), r.data);
      }
      hide Notify;
    }
  }

  lemma DoneStays(c: Crypto, s: Session, data: seq<Byte>)
    requires c.Lawful() && Sized(s) && s.keyExchangeDone && s.prefix.None?
    ensures var s' := Notify(c, s, data).0; s'.keyExchangeDone && s'.sharedKey == s.sharedKey
  {
    hide Dispatch, StartsWith, Magic, XorBlock, WithChecksum;
  }

  /** How often a secret went into a key agreement attempt. */
  function Uses(c: Crypto, r: Run, id: nat): nat
    requires c.Lawful()
  {
    if r.Connected? then 0
    else Uses(c, r.before, id) + if Attempts(c, r, id) then 1 else 0
  }

  predicate Attempts(c: Crypto, r: Run, id: nat)
    requires c.Lawful()
  {
    && Last(c, r).Some?
    && var (s, pre, packet) := Last(c, r).value;
       pre == Outcome && s.newAesKey.Some? && s.ephemeral == Some(id)
  }

  /** Each secret is used at most once, whether or not the agreement succeeds. */
  lemma {:induction false} SecretUsedOnce(c: Crypto, r: Run, id: nat)
    requires c.Lawful()
    ensures Uses(c, r, id) <= 1
    ensures After(c, r).ephemeral == Some(id) || id >= After(c, r).generated ==> Uses(c, r, id) == 0
  {
    InvariantHolds(c, r);
    hide Requested, Authenticated, Exchanged, Agreed, Dispatch;
    if !r.Connected? {
      SecretUsedOnce(c, r.before, id);
      InvariantHolds(c, r.before);
      SecretStep(c, r, id);
      hide After, Attempts;
    }
  }

  /** An attempt gives the secret up; a secret that is held was held before or is new. */
  lemma SecretStep(c: Crypto, r: Run, id: nat)
    requires c.Lawful() && !r.Connected? && Invariant(c, r.before)
    ensures var s, s' := After(c, r.before), After(c, r);
            && s.generated <= s'.generated
            && (Attempts(c, r, id) ==> s.ephemeral == Some(id) && s'.ephemeral == None && id < s'.generated)
            && (s'.ephemeral == Some(id) ==> s.ephemeral == Some(id) || id == s.generated)
  {
    hide Requested, Authenticated, Exchanged, Agreed, StartsWith, Magic;
    hide Uncompleted, Dispatch, PacketComplete, Aligned, Sized;
    if r.Got? {
      var s := After(c, r.before);
      assert After(c, r) == Notify(c, s, r.data).0;
      hide After;
      if Last(c, r).None? {
        assert Completed(s, r.data).None?;
        UncompletedSecret(c, s, r.data);
      } else {
        DispatchSecret(c, Last(c, r).value.0, Last(c, r).value.1, Last(c, r).value.2);
      }
      hide Completed;
    }
  }

  lemma UncompletedSecret(c: Crypto, s: Session, data: seq<Byte>)
    requires c.Lawful() && Sized(s)
    ensures var s' := Uncompleted(c, s, data).0; s'.generated == s.generated && s'.ephemeral == s.ephemeral
  {
    hide StartsWith, Magic, XorBlock, WithChecksum, ModbusReady;
  }

  lemma DispatchSecret(c: Crypto, s: Session, pre: Prefix, packet: seq<Byte>)
    requires c.Lawful() && Sized(s) && PacketComplete(pre, |packet|) && Aligned(packet)
    ensures var s' := Dispatch(c, s, pre, packet).0;
            && s.generated <= s'.generated
            && (pre == Outcome && s.newAesKey.Some? ==> s'.ephemeral == None)
            && (s'.ephemeral.Some? ==> s'.ephemeral == s.ephemeral || s'.ephemeral.value == s.generated)
  {
    hide VerifiedKey, AgreedKey, Magic, WithChecksum, Encrypt, ZeroPad;
  }

  // ---------------------------------------------------------------------------
  // Requests
  // ---------------------------------------------------------------------------

  /** What was sent is laid out as it should be, and decodes to the message. */
  predicate Readable(p: Primitives, key: seq<Byte>, plain: seq<Byte>, nonce: seq<Byte>, sent: seq<Byte>)
    requires p.Lawful() && |nonce| == 4
  {
    var n := HEADER + CeilBlocks(|plain|);
    && n <= |sent| && DecryptBusinessPacket(p, key, sent[..n]) == Plain(plain)
    && LaidOut(p, key, plain, nonce, OwnFill(plain), sent)
  }

  /** A request passes exactly when the link is ready; on an encrypted link it goes out
      as a packet that decodes to it under the agreed key, never as it is. */
  lemma WrapWhenReady(c: Crypto, r: Run, plain: seq<Byte>, nonce: seq<Byte>)
    requires c.Lawful() && |nonce| == 4
    ensures var s := After(c, r); var w := Wrap(c, s, plain, nonce);
            && (w.Some? <==> s.encryptionReady || s.phase == Plaintext)
            && (s.phase == Plaintext ==> w == Some(plain))
            && (s.encryptionReady ==>
                  && s.sharedKey.Some?
                  && w == Some(EncryptBusinessPacket(c.p, s.sharedKey.value, plain, nonce))
                  && (0 < |plain| <= MAXIMUM ==> Readable(c.p, s.sharedKey.value, plain, nonce, w.value)))
  {
    InvariantHolds(c, r);
    hide After, Requested, Authenticated, Exchanged, Agreed, EncryptBusinessPacket, Readable;
    var s := After(c, r);
    if s.encryptionReady && 0 < |plain| <= MAXIMUM {
      OwnPacketReads(c.p, s.sharedKey.value, plain, nonce);
    }
  }

  lemma OwnPacketReads(p: Primitives, key: seq<Byte>, plain: seq<Byte>, nonce: seq<Byte>)
    requires p.Lawful() && |nonce| == 4 && 0 < |plain| <= MAXIMUM
    ensures Readable(p, key, plain, nonce, EncryptBusinessPacket(p, key, plain, nonce))
  {
    hide Packet, DecryptBusinessPacket, LaidOut;
    assert EncryptBusinessPacket(p, key, plain, nonce) == Packet(p, key, plain, nonce, OwnFill(plain));
    hide OwnFill;
    PacketDecodes(p, key, plain, nonce, OwnFill(plain));
    PacketLayout(p, key, plain, nonce, OwnFill(plain));
  }

  /** On an encrypted link a notification is handed on untouched exactly if it does not
      begin like an authentication message. */
  lemma PassedOnIff(c: Crypto, r: Run, data: seq<Byte>)
    requires c.Lawful() && After(c, r).encryptionReady
    ensures Notify(c, After(c, r), data) == (After(c, r), Business(data)) <==>
      data != [] && !StartsWith(data, [0x2A, 0x2A, 0x01]) && !StartsWith(data, [0x2A, 0x2A, 0x03])
  {
    InvariantHolds(c, r);
    hide After, Requested, Authenticated, Exchanged, Agreed, Dispatch, StartsWith, Magic;
  }

  /** The start of a legal business packet never does, since no legal length field reads
      2A2A; a later piece of one may. */
  lemma PacketStartPassedOn(c: Crypto, r: Run, data: seq<Byte>)
    requires c.Lawful() && After(c, r).encryptionReady
    requires |data| >= 2 && 0 < Length(data[0], data[1]) <= MAXIMUM
    ensures Notify(c, After(c, r), data) == (After(c, r), Business(data))
  {
    PassedOnIff(c, r, data);
    hide Notify, After;
    forall m | m == [0x2A, 0x2A, 0x01] || m == [0x2A, 0x2A, 0x03]
      ensures !StartsWith(data, m)
    {
      if StartsWith(data, m) {
        Heads(data, m);
        assert false;
      }
    }
  }

  /** The status of the latest well-formed authentication result that was taken as one. */
  function LastStatus(c: Crypto, r: Run): Option<Byte>
    requires c.Lawful()
  {
    if r.Connected? then None
    else if r.Got? && After(c, r.before).prefix.None? && StartsWith(r.data, [0x2A, 0x2A, 0x03]) && |r.data| >= 5
    then Some(r.data[4])
    else LastStatus(c, r.before)
  }

  lemma StatusStep(c: Crypto, s: Session, data: seq<Byte>)
    requires c.Lawful() && Sized(s)
    ensures Notify(c, s, data).0.authSucceeded
         == if s.prefix.None? && StartsWith(data, [0x2A, 0x2A, 0x03]) && |data| >= 5 then data[4] == 0
            else s.authSucceeded
  {
    hide Encrypt, VerifiedKey, AgreedKey, WithChecksum, XorBlock, PacketComplete, Aligned, Sized, ZeroPad;
    Distinct(data);
    if s.prefix.None? && StartsWith(data, [0x2A, 0x2A, 0x03]) {
      NotAPacket(s, data);
    }
    hide StartsWith, Magic;
  }

  /** The session counts as authenticated exactly while the latest result said so. */
  lemma {:induction false} AuthenticatedIffLastStatus(c: Crypto, r: Run)
    requires c.Lawful()
    ensures After(c, r).authSucceeded <==> LastStatus(c, r) == Some(0)
  {
    hide Notify, StartsWith;
    match r
    case Connected =>
    case WentPlain(before) => AuthenticatedIffLastStatus(c, before);
    case Got(before, data) =>
      AuthenticatedIffLastStatus(c, before);
      StatusStep(c, After(c, before), data);
  }

  /** So an encrypted link stands on an authentication if and only if the latest result had
      status 0; that some earlier one had (`ReadyMeansHandshake`) is not enough. */
  lemma StandingAuthentication(c: Crypto, r: Run)
    requires c.Lawful() && After(c, r).encryptionReady
    ensures Authenticated(c, r)
    ensures After(c, r).authSucceeded <==> LastStatus(c, r) == Some(0)
  {
    hide After, LastStatus, Authenticated;
    var deviceKey, secret, signature, hash := ReadyMeansHandshake(c, r);
    AuthenticatedIffLastStatus(c, r);
  }

  /** A failed authentication does not stop a key exchange under way: with a new request
      the session keys come back and the outcome packet is accepted all the same. */
  lemma FailedAuthDoesNotStop(c: Crypto, s: Session, fail: seq<Byte>, request: seq<Byte>, packet: seq<Byte>)
    requires c.Lawful() && Sized(s) && s.prefix.None? && !s.keyExchangeDone
    requires StartsWith(fail, [0x2A, 0x2A, 0x03]) && |fail| >= 5 && fail[4] != 0
    requires StartsWith(request, [0x2A, 0x2A, 0x01]) && |request| >= 8
    requires StartsWith(packet, Magic(Outcome)) && PacketComplete(Outcome, |packet|)
    requires AgreedKey(c, AuthRequest(c, AuthResult(s, fail).0, request).0, packet).Some?
    ensures var s' := Notify(c, Notify(c, Notify(c, s, fail).0, request).0, packet).0;
            s'.encryptionReady && !s'.authSucceeded
  {
    hide AgreedKey, XorBlock, WithChecksum, PacketComplete, Aligned, StartsWith, Completed;
    var s1 := Notify(c, s, fail).0;
    Distinct(fail);
    Distinct(request);
    NonEmpty(fail);
    NotAPacket(s, fail);
    assert s1 == AuthResult(s, fail).0;
    NotAPacket(s1, request);
    var s2 := Notify(c, s1, request).0;
    assert s2 == AuthRequest(c, s1, request).0;
    WholePacket(s2, Outcome, packet);
    assert Notify(c, s2, packet) == KeyOutcome(c, s2.(acc := [], prefix := None), packet);
    SamePacket(c, s2, packet);
  }

  lemma NotAPacket(s: Session, data: seq<Byte>)
    requires s.prefix.None?
    requires StartsWith(data, [0x2A, 0x2A, 0x01]) || StartsWith(data, [0x2A, 0x2A, 0x03])
    ensures Completed(s, data) == None
  {
    Distinct(data);
    hide StartsWith, PacketComplete, Aligned;
  }

  lemma NonEmpty(data: seq<Byte>)
    requires |data| >= 1
    ensures data != []
  {
  }

  lemma SamePacket(c: Crypto, s: Session, packet: seq<Byte>)
    requires c.Lawful() && Sized(s) && Aligned(packet)
    ensures AgreedKey(c, s.(acc := [], prefix := None), packet) == AgreedKey(c, s, packet)
  {
  }

  /** The device's 134-byte exchange message is accepted, in an authenticated session and
      with a good signature, exactly if its last byte is not zero: a checksum ending in
      00 is trimmed away together with the padding. */
  lemma ExchangeAcceptedIff(c: Crypto, s: Session, message: seq<Byte>)
    requires c.Lawful() && Sized(s) && s.authSucceeded && s.newAesKey.Some?
    requires |message| == 134 && c.verify(message[68..132], message[4..68] + s.md5Hash.value)
    ensures var packet := Magic(Exchange) + Encrypt(c.p, s.newAesKey.value, s.md5Hash.value, ZeroPad(message));
            && PacketComplete(Exchange, |packet|)
            && (VerifiedKey(c, s, packet) == Some(message[4..68]) <==> message[133] != 0)
            && (VerifiedKey(c, s, packet) == None <==> message[133] == 0)
  {
    hide Encrypt, Decrypt, TrimZero, ZeroPad;
    var cipher := Encrypt(c.p, s.newAesKey.value, s.md5Hash.value, ZeroPad(message));
    var packet := Magic(Exchange) + cipher;
    assert packet[2..] == cipher;
    DecryptUndoes(c.p, s.newAesKey.value, s.md5Hash.value, ZeroPad(message));
    assert Opened(c, s, packet) == TrimZero(ZeroPad(message));
    TrimUndoesPad(message);
    TrimOfPad(message);
  }

  lemma TrimOfPad(m: seq<Byte>)
    requires m != []
    ensures m[|m| - 1] == 0 ==> |TrimZero(ZeroPad(m))| < |m|
  {
    TrimZerosOff(m, SIZE - |m| % SIZE);
    TrimShortens(m);
  }

  lemma WholePacket(s: Session, pre: Prefix, packet: seq<Byte>)
    requires s.prefix.None? && !s.keyExchangeDone
    requires StartsWith(packet, Magic(pre)) && PacketComplete(pre, |packet|)
    ensures Completed(s, packet) == Some((pre, packet))
  {
    Distinct(packet);
    hide StartsWith, Magic;
  }
}
