/** Business bytes on an encrypted link: the session sorts out what begins like an
    authentication message, and the reassembly gets the rest. */
module BusinessLink {
  import opened Cbc
  import opened HandshakeSpec
  import opened HandshakeSafety
  import Reassembly

  /** The session has agreed on a key and collects no handshake packet. */
  predicate Keyed(s: Session) {
    s.encryptionReady && s.keyExchangeDone && s.sharedKey.Some? && s.prefix.None?
  }

  /** One notification, for the session and for the reassembly behind it. */
  function Deliver(c: Crypto, s: Session, rx: Reassembly.State, data: seq<Byte>): (r: (Session, Reassembly.State))
    requires c.Lawful() && Sized(s) && Keyed(s)
    ensures Sized(r.0) && Keyed(r.0)
  {
    var (s', e) := Notify(c, s, data);
    KeyedStays(c, s, data);
    (s', if e.Business? then Reassembly.Push(c.p, s.sharedKey.value, rx, data) else rx)
  }

  lemma KeyedStays(c: Crypto, s: Session, data: seq<Byte>)
    requires c.Lawful() && Sized(s) && Keyed(s)
    ensures Keyed(Notify(c, s, data).0) && Notify(c, s, data).0.sharedKey == s.sharedKey
  {
    hide Dispatch, WithChecksum, XorBlock;
  }

  function Received(c: Crypto, s: Session, q: Reassembly.Chunks): (r: (Session, Reassembly.State))
    requires c.Lawful() && Sized(s) && Keyed(s)
    ensures Sized(r.0) && Keyed(r.0)
  {
    if q.Nothing? then (s, Reassembly.State([], []))
    else var (s', rx) := Received(c, s, q.before); Deliver(c, s', rx, q.data)
  }

  /** Begins like an authentication request or result. */
  predicate Mistakable(data: seq<Byte>) {
    StartsWith(data, [0x2A, 0x2A, 0x01]) || StartsWith(data, [0x2A, 0x2A, 0x03])
  }

  predicate SomeMistakable(q: Reassembly.Chunks) {
    q.Then? && (Mistakable(q.data) || SomeMistakable(q.before))
  }

  /** What the reassembly owes once the bytes `b` of the stream are there: the complete messages
      in order, and the unfinished tail. */
  function Due(m: seq<Reassembly.Sending>, b: seq<Byte>): Reassembly.State {
    Reassembly.CompleteFits(m, |b|);
    var j := Reassembly.Complete(m, |b|);
    Reassembly.State(Reassembly.Plains(m, j), b[Reassembly.EndOf(m, j)..])
  }

  /** The reassembly has kept up after every notification. */
  ghost predicate KeptUp(c: Crypto, s: Session, m: seq<Reassembly.Sending>, q: Reassembly.Chunks)
    requires c.Lawful() && Sized(s) && Keyed(s)
  {
    Received(c, s, q).1 == Due(m, Reassembly.Bytes(q)) && (q.Then? ==> KeptUp(c, s, m, q.before))
  }

  /** The session of a run that has reached an encrypted link. */
  lemma EncryptedIsKeyed(c: Crypto, r: Run)
    requires c.Lawful() && After(c, r).encryptionReady
    ensures Keyed(After(c, r))
  {
    hide After, Requested, Authenticated, Exchanged, Agreed;
    InvariantHolds(c, r);
  }

  lemma DeliverIs(c: Crypto, s: Session, rx: Reassembly.State, data: seq<Byte>)
    requires c.Lawful() && Sized(s) && Keyed(s)
    ensures !Mistakable(data) ==> Deliver(c, s, rx, data) == (s, Reassembly.Push(c.p, s.sharedKey.value, rx, data))
    ensures Mistakable(data) ==> Deliver(c, s, rx, data).1 == rx
  {
    hide Reassembly.Drain, Dispatch, StartsWith, Magic;
    if Mistakable(data) {
      MistakableLength(data);
    }
  }

  lemma MistakableLength(data: seq<Byte>)
    requires Mistakable(data)
    ensures |data| >= 3
  {
  }

  /** Unmistakable notifications all get through, and the session stays as it is. */
  lemma {:induction false} AllGetThrough(c: Crypto, s: Session, q: Reassembly.Chunks)
    requires c.Lawful() && Sized(s) && Keyed(s) && !SomeMistakable(q)
    ensures Received(c, s, q) == (s, Reassembly.After(c.p, s.sharedKey.value, q))
  {
    hide Mistakable, Deliver, Reassembly.Push;
    if q.Then? {
      AllGetThrough(c, s, q.before);
      DeliverIs(c, s, Received(c, s, q.before).1, q.data);
    }
  }

  lemma {:induction false} PlainsCount(m: seq<Reassembly.Sending>, j: nat)
    requires j <= |m|
    ensures |Reassembly.Plains(m, j)| == j
  {
    if j != 0 {
      PlainsCount(m[1..], j - 1);
    }
  }

  /** Bytes that have arrived show: in a message, or in the tail. */
  lemma DueDiffers(m: seq<Reassembly.Sending>, b: seq<Byte>, data: seq<Byte>)
    requires data != []
    ensures Due(m, b + data) != Due(m, b)
  {
    Reassembly.CompleteFits(m, |b|);
    Reassembly.CompleteFits(m, |b + data|);
    var j, j' := Reassembly.Complete(m, |b|), Reassembly.Complete(m, |b + data|);
    PlainsCount(m, j);
    PlainsCount(m, j');
    if j == j' {
      assert |(b + data)[Reassembly.EndOf(m, j)..]| == |b[Reassembly.EndOf(m, j)..]| + |data|;
    }
  }

  lemma {:induction false} MistakenFallsBehind(c: Crypto, s: Session, m: seq<Reassembly.Sending>, q: Reassembly.Chunks)
    requires c.Lawful() && Sized(s) && Keyed(s) && SomeMistakable(q)
    ensures !KeptUp(c, s, m, q)
  {
    hide Mistakable, Deliver, Due;
    if KeptUp(c, s, m, q) {
      if SomeMistakable(q.before) {
        MistakenFallsBehind(c, s, m, q.before);
      } else {
        AllGetThrough(c, s, q.before);
        DeliverIs(c, s, Received(c, s, q.before).1, q.data);
        MistakableLength(q.data);
        DueDiffers(m, Reassembly.Bytes(q.before), q.data);
      }
    }
  }

  lemma {:induction false} GetThroughKeepsUp(
      c: Crypto, s: Session, m: seq<Reassembly.Sending>, q: Reassembly.Chunks)
    requires c.Lawful() && Sized(s) && Keyed(s) && !SomeMistakable(q)
    requires Reassembly.AllLegal(m) && Reassembly.Bytes(q) <= Reassembly.Stream(c.p, s.sharedKey.value, m)
    ensures KeptUp(c, s, m, q)
  {
    hide Mistakable, Reassembly.Stream, Received;
    AllGetThrough(c, s, q);
    Reassembly.AnyChunking(c.p, s.sharedKey.value, m, q);
    if q.Then? {
      assert Reassembly.Bytes(q.before) <= Reassembly.Bytes(q);
      GetThroughKeepsUp(c, s, m, q.before);
    }
  }

  /** From the encrypted link on, however the device's messages are cut into notifications: the
      client keeps up with them after every one of these if and only if none begins like an
      authentication message. */
  lemma KeepsUpIff(c: Crypto, r: Run, m: seq<Reassembly.Sending>, q: Reassembly.Chunks)
    requires c.Lawful() && After(c, r).encryptionReady && Keyed(After(c, r))
    requires Reassembly.AllLegal(m)
    requires Reassembly.Bytes(q) <= Reassembly.Stream(c.p, After(c, r).sharedKey.value, m)
    ensures KeptUp(c, After(c, r), m, q) <==> !SomeMistakable(q)
    ensures !SomeMistakable(q) ==> Received(c, After(c, r), q).0 == After(c, r)
  {
    hide After, KeptUp, Received, SomeMistakable, Reassembly.Stream;
    if SomeMistakable(q) {
      MistakenFallsBehind(c, After(c, r), m, q);
    } else {
      GetThroughKeepsUp(c, After(c, r), m, q);
      AllGetThrough(c, After(c, r), q);
    }
  }

  const UNLUCKY_NONCE: seq<Byte> := [0x2A, 0x2A, 0x01, 0x00]

  function Cut(air: seq<Byte>, n: nat): Reassembly.Chunks
    requires n <= |air|
  {
    Reassembly.Then(Reassembly.Then(Reassembly.Nothing, air[..n]), air[n..])
  }

  /** Every message can be cut so that it is mistaken: sent with this nonce, what follows its
      length field begins like an authentication request, and never gets to the reassembly. */
  lemma UnluckyCut(c: Crypto, r: Run, m: Reassembly.Sending)
    requires c.Lawful() && After(c, r).encryptionReady && Keyed(After(c, r))
    requires m.Legal() && m.nonce == UNLUCKY_NONCE
    ensures var air := Reassembly.Air(c.p, After(c, r).sharedKey.value, m);
            && Reassembly.Bytes(Cut(air, 2)) == air
            && Notify(c, After(c, r), air[2..]) != (After(c, r), Business(air[2..]))
            && Received(c, After(c, r), Cut(air, 2)).1 == Reassembly.State([], air[..2])
  {
    hide After, Notify, Deliver, Reassembly.Air, Received;
    var s := After(c, r);
    var air := Reassembly.Air(c.p, s.sharedKey.value, m);
    NonceShows(c.p, s.sharedKey.value, m);
    PassedOnIff(c, r, air[2..]);
    CutBytes(air, 2);
    CutReceived(c, s, air, 2);
  }

  lemma CutBytes(air: seq<Byte>, n: nat)
    requires n <= |air|
    ensures Reassembly.Bytes(Cut(air, n)) == air
  {
    assert Reassembly.Bytes(Reassembly.Nothing) == [];
    assert Reassembly.Bytes(Cut(air, n).before) == [] + air[..n];
    assert [] + air[..n] + air[n..] == air;
  }

  lemma NonceShows(p: Primitives, key: seq<Byte>, m: Reassembly.Sending)
    requires p.Lawful() && m.Legal() && m.nonce == UNLUCKY_NONCE
    ensures var air := Reassembly.Air(p, key, m); |air| > 5 && StartsWith(air[2..], [0x2A, 0x2A, 0x01])
  {
    hide Encrypt;
    var air := Reassembly.Air(p, key, m);
    assert air[2..][..3] == [0x2A, 0x2A, 0x01];
  }

  lemma CutReceived(c: Crypto, s: Session, air: seq<Byte>, n: nat)
    requires c.Lawful() && Sized(s) && Keyed(s) && n < 3 && n <= |air| && Mistakable(air[n..])
    ensures Received(c, s, Cut(air, n)).1 == Reassembly.State([], air[..n])
  {
    hide Mistakable, Deliver;
    NotMistakable(air[..n]);
    ShortWaits(c.p, s.sharedKey.value, air[..n]);
    DeliverIs(c, s, Reassembly.State([], []), air[..n]);
    DeliverIs(c, s, Reassembly.State([], air[..n]), air[n..]);
    assert Received(c, s, Reassembly.Nothing) == (s, Reassembly.State([], []));
  }

  lemma NotMistakable(data: seq<Byte>)
    requires |data| < 3
    ensures !Mistakable(data)
  {
  }

  lemma ShortWaits(p: Primitives, key: seq<Byte>, b: seq<Byte>)
    requires p.Lawful() && |b| < HEADER
    ensures Reassembly.Push(p, key, Reassembly.State([], []), b) == Reassembly.State([], b)
  {
    assert [] + b == b;
  }
}
