/** The session object of one BLE connection: the fields the handlers update in place,
    and the reassembly of business packets they switch to encrypted. */
module HandshakeSession {
  import opened Cbc
  import opened HandshakeSpec
  import BusinessLink
  import HandshakeDevice
  import Reassembly

  class ProtocolSession {
    const c: Crypto
    const rx: Reassembly.ModbusRxAssembler
    var phase: Phase
    var authStarted: bool
    var authSucceeded: bool
    var keyExchangeDone: bool
    var encryptionReady: bool
    var md5Hash: Option<seq<Byte>>
    var newAesKey: Option<seq<Byte>>
    var iotPublicKey: Option<seq<Byte>>
    var sharedKey: Option<seq<Byte>>
    var ephemeralSecret: Option<nat>
    var handshakeAcc: seq<Byte>
    var handshakePrefix: Option<Prefix>
    var generated: nat

    ghost function View(): Session
      reads this
    {
      Session(phase, authStarted, authSucceeded, keyExchangeDone, encryptionReady, md5Hash, newAesKey,
              iotPublicKey, sharedKey, ephemeralSecret, handshakeAcc, handshakePrefix, generated)
    }

    /** On an encrypted link the reassembly works under the agreed key. */
    ghost predicate Valid()
      reads this, rx
    {
      && c.Lawful() && rx.Valid() && rx.primitives == c.p && Sized(View())
      && (handshakePrefix.None? <==> handshakeAcc == [])
      && (encryptionReady ==> keyExchangeDone && sharedKey.Some? && rx.encrypted && rx.sharedKey == sharedKey.value)
      && (handshakePrefix.Some? ==> !keyExchangeDone)
    }

    /** What the reassembly has decoded, and what it keeps. */
    ghost function Assembled(): Reassembly.State
      reads this, rx
    {
      Reassembly.State(rx.responses, rx.buffer)
    }

    constructor (c: Crypto)
      requires c.Lawful()
      ensures Valid() && fresh(rx) && this.c == c && View() == FRESH && rx.responses == []
    {
      this.c := c;
      rx := new Reassembly.ModbusRxAssembler(c.p);
      phase, authStarted, authSucceeded := WaitingAuth, false, false;
      keyExchangeDone, encryptionReady := false, false;
      md5Hash, newAesKey, iotPublicKey, sharedKey, ephemeralSecret := None, None, None, None, None;
      handshakeAcc, handshakePrefix, generated := [], None, 0;
    }

    method HandleAuthRequest(data: seq<Byte>) returns (e: Effect)
      requires Valid()
      modifies this
      ensures Valid() && (View(), e) == AuthRequest(c, old(View()), data) && !e.Business?
      ensures |data| >= 8 ==>
        && newAesKey.Some? && md5Hash.Some?
        && HandshakeDevice.Derives(c, data[4..8], newAesKey.value, md5Hash.value)
        && e.Respond? && HandshakeDevice.Framed(e.bytes, [0x02, 0x04] + md5Hash.value[8..12])
    {
      if |data| >= 8 {
        HandshakeDevice.RequestDerives(c, View(), data);
      }
      hide WithChecksum, XorBlock, HandshakeDevice.Derives, HandshakeDevice.Framed;
      authStarted := true;
      phase := WaitingAuth;
      if |data| < 8 {
        return Fail;
      }
      var hash := c.p.md5([data[7], data[6], data[5], data[4]]);
      md5Hash := Some(hash);
      newAesKey := Some(XorBlock(c.p, hash, c.rootKey));
      e := Respond(WithChecksum([0x02, 0x04] + hash[8..12]));
    }

    method HandleAuthResult(data: seq<Byte>) returns (e: Effect)
      requires Valid()
      modifies this
      ensures Valid() && (View(), e) == AuthResult(old(View()), data) && !e.Business?
      ensures |data| >= 5 ==>
        e != Fail && authSucceeded == (data[4] == 0) && newAesKey == if authSucceeded then old(newAesKey) else None
    {
      if |data| < 5 {
        return Fail;
      }
      authSucceeded := data[4] == 0;
      if authSucceeded {
        phase := AuthDone;
      } else {
        newAesKey := None;
      }
      e := Quiet;
    }

    method HandleKeyExchange(packet: seq<Byte>) returns (e: Effect)
      requires Valid() && Aligned(packet)
      modifies this
      ensures Valid() && (View(), e) == KeyExchange(c, old(View()), packet)
    {
      hide WithChecksum, Encrypt, Decrypt, TrimZero, ZeroPad, XorBlock;
      if !authSucceeded || newAesKey.None? {
        return Fail;
      }
      var plain := TrimZero(Decrypt(c.p, newAesKey.value, md5Hash.value, packet[2..]));
      if |plain| < 134 {
        return Fail;
      }
      var iotPublic, signature := plain[4..68], plain[68..132];
      if !c.verify(signature, iotPublic + md5Hash.value) {
        return Fail;
      }
      iotPublicKey := Some(iotPublic);
      phase := AuthDone;
      var own := c.publicOf(generated);
      ephemeralSecret := Some(generated);
      generated := generated + 1;
      var signed := c.sign(own + md5Hash.value);
      if signed.None? {
        return Fail;
      }
      var message := WithChecksum([0x05, 0x80] + own + signed.value);
      e := Respond([0x00, 0x86] + Encrypt(c.p, newAesKey.value, md5Hash.value, ZeroPad(message)));
    }

    method HandleKeyExchangeResult(packet: seq<Byte>) returns (e: Effect)
      requires Valid() && Aligned(packet) && handshakePrefix.None?
      modifies this, rx
      ensures Valid() && (View(), e) == KeyOutcome(c, old(View()), packet)
      ensures sharedKey != old(sharedKey) ==> rx.buffer == []
      ensures rx.responses == old(rx.responses)
    {
      hide Decrypt, TrimZero, XorBlock, Reassembly.Waiting;
      if newAesKey.None? {
        return Fail;
      }
      var ephemeral := ephemeralSecret;
      ephemeralSecret := None;
      if ephemeral.None? || iotPublicKey.None? {
        return Fail;
      }
      var plain := TrimZero(Decrypt(c.p, newAesKey.value, md5Hash.value, packet[2..]));
      if |plain| < 5 || plain[4] != 0 {
        return Fail;
      }
      var shared := c.agree(ephemeral.value, iotPublicKey.value);
      if shared.None? {
        return Fail;
      }
      sharedKey := shared;
      keyExchangeDone := true;
      encryptionReady := true;
      phase := Encrypted;
      rx.SetEncrypted(shared.value);
      e := Quiet;
    }

    method DispatchHandshake(pre: Prefix, packet: seq<Byte>) returns (e: Effect)
      requires Valid() && PacketComplete(pre, |packet|) && Aligned(packet) && handshakePrefix.None?
      modifies this, rx
      ensures Valid() && (View(), e) == Dispatch(c, old(View()), pre, packet)
      ensures rx.responses == old(rx.responses)
    {
      if pre == Exchange {
        e := HandleKeyExchange(packet);
      } else {
        e := HandleKeyExchangeResult(packet);
      }
    }

    /** A further piece of the handshake packet being collected. */
    method Collect(data: seq<Byte>) returns (e: Effect)
      requires Valid() && handshakePrefix.Some? && data != []
      modifies this, rx
      ensures Valid() && (View(), e) == Notify(c, old(View()), data)
      ensures !e.Business? && rx.responses == old(rx.responses)
    {
      hide Dispatch, AuthRequest, AuthResult, StartsWith, Magic, Aligned, PacketComplete;
      handshakeAcc := handshakeAcc + data;
      var pre := handshakePrefix.value;
      if !PacketComplete(pre, |handshakeAcc|) {
        return Quiet;
      }
      var full := handshakeAcc;
      handshakeAcc := [];
      handshakePrefix := None;
      CompleteIsAligned(pre, full);
      e := DispatchHandshake(pre, full);
    }

    /** The start of a handshake packet, or all of it. */
    method Begin(pre: Prefix, data: seq<Byte>) returns (e: Effect)
      requires Valid() && handshakePrefix.None? && !keyExchangeDone && data != [] && StartsWith(data, Magic(pre))
      modifies this, rx
      ensures Valid() && (View(), e) == Notify(c, old(View()), data)
      ensures !e.Business? && rx.responses == old(rx.responses)
    {
      hide Dispatch, AuthRequest, AuthResult, StartsWith, Magic, Aligned, PacketComplete;
      Distinct(data);
      if !PacketComplete(pre, |data|) {
        handshakePrefix := Some(pre);
        handshakeAcc := handshakeAcc + data;
        return Quiet;
      }
      CompleteIsAligned(pre, data);
      assert old(View()).(acc := [], prefix := None) == old(View());
      e := DispatchHandshake(pre, data);
    }

    /** One GATT notification. Business bytes go to the reassembly on an encrypted link, whose
        complaint about them is passed on; on a plain link they are only reported. */
    method OnNotification(data: seq<Byte>) returns (e: Effect, ok: bool)
      requires Valid()
      modifies this, rx
      ensures Valid() && (View(), e) == Notify(c, old(View()), data)
      ensures e.Business? && encryptionReady ==>
        var d := Reassembly.Drain(c.p, sharedKey.value, old(rx.buffer) + data);
        rx.buffer == d.rest && rx.responses == old(rx.responses) + d.responses && ok == d.ok
      ensures !(e.Business? && encryptionReady) ==> (ok <==> e != Fail)
      ensures !(e.Business? && encryptionReady) ==> rx.responses == old(rx.responses)
      ensures old(encryptionReady) ==>
        (View(), Assembled()) == BusinessLink.Deliver(c, old(View()), old(Assembled()), data)
    {
      hide Dispatch, AuthRequest, AuthResult, StartsWith, Magic, Aligned, PacketComplete, Reassembly.Drain;
      if data == [] {
        return Quiet, true;
      }
      if handshakePrefix.Some? {
        e := Collect(data);
        return e, e != Fail;
      }
      Distinct(data);
      if StartsWith(data, [0x2A, 0x2A, 0x01]) {
        e := HandleAuthRequest(data);
        return e, e != Fail;
      }
      if StartsWith(data, [0x2A, 0x2A, 0x03]) {
        e := HandleAuthResult(data);
        return e, e != Fail;
      }
      if !keyExchangeDone && StartsWith(data, Magic(Exchange)) {
        e := Begin(Exchange, data);
        return e, e != Fail;
      }
      if !keyExchangeDone && StartsWith(data, Magic(Outcome)) {
        e := Begin(Outcome, data);
        return e, e != Fail;
      }
      if encryptionReady {
        ok := rx.PushNotification(data);
        return Business(data), ok;
      }
      e, ok := if phase == Plaintext then Business(data) else Quiet, true;
    }

    method MarkPlaintextMode()
      requires Valid()
      modifies this, rx
      ensures Valid() && View() == MarkPlaintext(old(View()))
      ensures !rx.encrypted && rx.buffer == [] && rx.responses == []
    {
      phase := Plaintext;
      encryptionReady := false;
      rx.SetPlaintext();
    }

    method WrapModbusRequest(plain: seq<Byte>, nonce: seq<Byte>) returns (r: Option<seq<Byte>>)
      requires Valid() && |nonce| == 4
      ensures r == Wrap(c, View(), plain, nonce)
    {
      if encryptionReady {
        if sharedKey.None? {
          return None;
        }
        r := Some(EncryptBusinessPacket(c.p, sharedKey.value, plain, nonce));
      } else if phase == Plaintext {
        r := Some(plain);
      } else {
        r := None;
      }
    }
  }

  lemma CompleteIsAligned(pre: Prefix, packet: seq<Byte>)
    requires PacketComplete(pre, |packet|)
    ensures Aligned(packet)
  {
  }
}
