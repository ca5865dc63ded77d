/** The application handshake (2A2A authentication, then key exchange) as a function on
    session values. Hashing, signatures and key agreement are arbitrary functions. */
module HandshakeSpec {
  import opened Cbc

  datatype Option<T> = None | Some(value: T)

  datatype Phase = WaitingAuth | AuthDone | Encrypted | Plaintext

  /** The two packets that may arrive in pieces: 0086 and 0007. */
  datatype Prefix = Exchange | Outcome

  /** Secrets are numbered in the order in which they are generated. */
  datatype Crypto = Crypto(
    p: Primitives,
    rootKey: seq<Byte>,
    publicOf: nat -> seq<Byte>,
    sign: seq<Byte> -> Option<seq<Byte>>,
    verify: (seq<Byte>, seq<Byte>) -> bool,
    agree: (nat, seq<Byte>) -> Option<seq<Byte>>)
  {
    ghost predicate Lawful() {
      p.Lawful() && |rootKey| == SIZE
    }
  }

  datatype Session = Session(
    phase: Phase,
    authStarted: bool,
    authSucceeded: bool,
    keyExchangeDone: bool,
    encryptionReady: bool,
    md5Hash: Option<seq<Byte>>,
    newAesKey: Option<seq<Byte>>,
    iotPublicKey: Option<seq<Byte>>,
    sharedKey: Option<seq<Byte>>,
    ephemeral: Option<nat>,
    acc: seq<Byte>,
    prefix: Option<Prefix>,
    generated: nat)

  const FRESH := Session(WaitingAuth, false, false, false, false, None, None, None, None, None, [], None, 0)

  /** What a notification leads to besides a new state: nothing, an answer, an error, or
      bytes handed on to the business reassembly. */
  datatype Effect = Quiet | Respond(bytes: seq<Byte>) | Fail | Business(data: seq<Byte>)

  function Magic(pre: Prefix): seq<Byte> {
    if pre == Exchange then [0x00, 0x86] else [0x00, 0x07]
  }

  function MinLength(pre: Prefix): nat {
    if pre == Exchange then 146 else 18
  }

  predicate PacketComplete(pre: Prefix, count: nat) {
    count >= MinLength(pre) && (count - 2) % 16 == 0
  }

  /** A two-byte magic followed by whole cipher blocks. */
  predicate Aligned(packet: seq<Byte>) {
    |packet| >= 2 && (|packet| - 2) % SIZE == 0
  }

  predicate ModbusReady(s: Session) {
    s.encryptionReady || s.phase == Plaintext
  }

  function Checksum(data: seq<Byte>): nat {
    if data == [] then 0 else (Checksum(data[..|data| - 1]) + data[|data| - 1] as nat) % 0x1_0000
  }

  function WithChecksum(frame: seq<Byte>): seq<Byte> {
    [0x2A, 0x2A] + frame + LengthBytes(Checksum(frame))
  }

  // ---------------------------------------------------------------------------
  // The four handlers
  // ---------------------------------------------------------------------------

  function AuthRequest(c: Crypto, s: Session, data: seq<Byte>): (r: (Session, Effect))
    requires c.Lawful()
    ensures Sized(s) ==> Sized(r.0)
  {
    var s := s.(authStarted := true, phase := WaitingAuth);
    if |data| < 8 then (s, Fail)
    else
      var hash := c.p.md5([data[7], data[6], data[5], data[4]]);
      (s.(md5Hash := Some(hash), newAesKey := Some(XorBlock(c.p, hash, c.rootKey))),
       Respond(WithChecksum([0x02, 0x04] + hash[8..12])))
  }

  function AuthResult(s: Session, data: seq<Byte>): (r: (Session, Effect))
    ensures Sized(s) ==> Sized(r.0)
  {
    if |data| < 5 then (s, Fail)
    else if data[4] == 0 then (s.(authSucceeded := true, phase := AuthDone), Quiet)
    else (s.(authSucceeded := false, newAesKey := None), Quiet)
  }

  /** The keys of a session are whole blocks. */
  predicate Sized(s: Session) {
    && (s.md5Hash.Some? ==> |s.md5Hash.value| == SIZE)
    && (s.newAesKey.Some? ==> |s.newAesKey.value| == SIZE && s.md5Hash.Some?)
  }

  function Opened(c: Crypto, s: Session, packet: seq<Byte>): seq<Byte>
    requires c.Lawful() && Sized(s) && s.newAesKey.Some?
    requires Aligned(packet)
  {
    TrimZero(Decrypt(c.p, s.newAesKey.value, s.md5Hash.value, packet[2..]))
  }

  /** The device's public key, if the 0086 packet opens and its signature holds. */
  function VerifiedKey(c: Crypto, s: Session, packet: seq<Byte>): Option<seq<Byte>>
    requires c.Lawful() && Sized(s)
    requires Aligned(packet)
  {
    if !s.authSucceeded || s.newAesKey.None? then None
    else
      var plain := Opened(c, s, packet);
      if |plain| < 134 then None
      else
        var key, signature := plain[4..68], plain[68..132];
        if c.verify(signature, key + s.md5Hash.value) then Some(key) else None
  }

  /** The fresh secret is kept even if signing its public key then fails. */
  function KeyExchange(c: Crypto, s: Session, packet: seq<Byte>): (r: (Session, Effect))
    requires c.Lawful() && Sized(s)
    requires Aligned(packet)
    ensures Sized(r.0)
  {
    match VerifiedKey(c, s, packet)
    case None => (s, Fail)
    case Some(key) =>
      var own := c.publicOf(s.generated);
      var s' := s.(iotPublicKey := Some(key), phase := AuthDone,
                   ephemeral := Some(s.generated), generated := s.generated + 1);
      match c.sign(own + s.md5Hash.value)
      case None => (s', Fail)
      case Some(signature) =>
        var message := WithChecksum([0x05, 0x80] + own + signature);
        (s', Respond(Magic(Exchange) + Encrypt(c.p, s.newAesKey.value, s.md5Hash.value, ZeroPad(message))))
  }

  /** The shared key, if the 0007 packet reports success and the agreement works out. */
  function AgreedKey(c: Crypto, s: Session, packet: seq<Byte>): Option<seq<Byte>>
    requires c.Lawful() && Sized(s)
    requires Aligned(packet)
  {
    if s.newAesKey.None? || s.ephemeral.None? || s.iotPublicKey.None? then None
    else
      var plain := Opened(c, s, packet);
      if |plain| < 5 || plain[4] != 0 then None
      else c.agree(s.ephemeral.value, s.iotPublicKey.value)
  }

  /** The secret is taken as soon as the session keys are there, whatever follows. */
  function KeyOutcome(c: Crypto, s: Session, packet: seq<Byte>): (r: (Session, Effect))
    requires c.Lawful() && Sized(s)
    requires Aligned(packet)
    ensures Sized(r.0)
  {
    if s.newAesKey.None? then (s, Fail)
    else
      match AgreedKey(c, s, packet)
      case None => (s.(ephemeral := None), Fail)
      case Some(key) =>
        (s.(ephemeral := None, sharedKey := Some(key), keyExchangeDone := true, encryptionReady := true,
            phase := Encrypted),
         Quiet)
  }

  function Dispatch(c: Crypto, s: Session, pre: Prefix, packet: seq<Byte>): (r: (Session, Effect))
    requires c.Lawful() && Sized(s) && PacketComplete(pre, |packet|)
    ensures Sized(r.0) && !r.1.Business?
  {
    if pre == Exchange then KeyExchange(c, s, packet) else KeyOutcome(c, s, packet)
  }

  // ---------------------------------------------------------------------------
  // Notifications
  // ---------------------------------------------------------------------------

  predicate StartsWith(data: seq<Byte>, magic: seq<Byte>) { magic <= data }

  lemma Heads(data: seq<Byte>, magic: seq<Byte>)
    requires StartsWith(data, magic) && |magic| >= 2
    ensures data[0] == magic[0] && data[1] == magic[1]
    ensures |magic| > 2 ==> data[2] == magic[2]
  {
    assert data[..|magic|] == magic;
  }

  /** The four kinds of handshake notification exclude one another. */
  lemma Distinct(data: seq<Byte>)
    ensures StartsWith(data, Magic(Exchange)) ==> !StartsWith(data, Magic(Outcome))
    ensures StartsWith(data, Magic(Exchange)) || StartsWith(data, Magic(Outcome)) ==>
      !StartsWith(data, [0x2A, 0x2A, 0x01]) && !StartsWith(data, [0x2A, 0x2A, 0x03])
    ensures !(StartsWith(data, [0x2A, 0x2A, 0x01]) && StartsWith(data, [0x2A, 0x2A, 0x03]))
  {
    if StartsWith(data, Magic(Exchange)) {
      Heads(data, Magic(Exchange));
    }
    if StartsWith(data, Magic(Outcome)) {
      Heads(data, Magic(Outcome));
    }
    if StartsWith(data, [0x2A, 0x2A, 0x01]) {
      Heads(data, [0x2A, 0x2A, 0x01]);
    }
    if StartsWith(data, [0x2A, 0x2A, 0x03]) {
      Heads(data, [0x2A, 0x2A, 0x03]);
    }
  }

  /** Which handshake packet a notification completes, if any. */
  function Completed(s: Session, data: seq<Byte>): (r: Option<(Prefix, seq<Byte>)>)
    ensures r.Some? ==> PacketComplete(r.value.0, |r.value.1|) && Aligned(r.value.1)
  {
    if data == [] then None
    else if s.prefix.Some? then
      if PacketComplete(s.prefix.value, |s.acc + data|) then Some((s.prefix.value, s.acc + data)) else None
    else if !s.keyExchangeDone && StartsWith(data, Magic(Exchange)) && PacketComplete(Exchange, |data|) then
      Some((Exchange, data))
    else if !s.keyExchangeDone && StartsWith(data, Magic(Outcome)) && PacketComplete(Outcome, |data|) then
      Some((Outcome, data))
    else None
  }

  function Notify(c: Crypto, s: Session, data: seq<Byte>): (r: (Session, Effect))
    requires c.Lawful() && Sized(s)
    ensures Sized(r.0)
  {
    if Completed(s, data).Some? then
      var (pre, packet) := Completed(s, data).value;
      Dispatch(c, s.(acc := [], prefix := None), pre, packet)
    else Uncompleted(c, s, data)
  }

  /** A notification that completes no handshake packet. */
  function Uncompleted(c: Crypto, s: Session, data: seq<Byte>): (r: (Session, Effect))
    requires c.Lawful() && Sized(s)
    ensures Sized(r.0)
  {
    if data == [] then (s, Quiet)
    else if s.prefix.Some? then (s.(acc := s.acc + data), Quiet)
    else if StartsWith(data, [0x2A, 0x2A, 0x01]) then AuthRequest(c, s, data)
    else if StartsWith(data, [0x2A, 0x2A, 0x03]) then AuthResult(s, data)
    else if !s.keyExchangeDone && StartsWith(data, Magic(Exchange)) then
      (s.(acc := s.acc + data, prefix := Some(Exchange)), Quiet)
    else if !s.keyExchangeDone && StartsWith(data, Magic(Outcome)) then
      (s.(acc := s.acc + data, prefix := Some(Outcome)), Quiet)
    else if ModbusReady(s) then (s, Business(data))
    else (s, Quiet)
  }

  function MarkPlaintext(s: Session): Session {
    s.(phase := Plaintext, encryptionReady := false)
  }

  /** A request as it goes on the air; None when the link is not ready. */
  function Wrap(c: Crypto, s: Session, plain: seq<Byte>, nonce: seq<Byte>): Option<seq<Byte>>
    requires c.Lawful() && |nonce| == 4
  {
    if s.encryptionReady then
      if s.sharedKey.None? then None else Some(EncryptBusinessPacket(c.p, s.sharedKey.value, plain, nonce))
    else if s.phase == Plaintext then Some(plain)
    else None
  }
}
