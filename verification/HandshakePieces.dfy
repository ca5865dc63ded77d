/** Handshake packets that arrive in pieces: what is collected, and when a packet is handled. */
module HandshakePieces {
  import opened Cbc
  import opened HandshakeSpec
  import opened HandshakeSafety

  /** Notifications that carry one packet, latest outermost. */
  datatype Pieces = First(data: seq<Byte>) | Next(before: Pieces, data: seq<Byte>)

  function Joined(q: Pieces): seq<Byte> {
    match q
    case First(data) => data
    case Next(before, data) => Joined(before) + data
  }

  /** The first piece has at least the two magic bytes, and no piece is empty. */
  predicate Recognisable(q: Pieces) {
    match q
    case First(data) => |data| >= 2
    case Next(before, data) => data != [] && Recognisable(before)
  }

  function AfterPieces(c: Crypto, s: Session, q: Pieces): (r: (Session, Effect))
    requires c.Lawful() && Sized(s)
    ensures Sized(r.0)
  {
    match q
    case First(data) => Notify(c, s, data)
    case Next(before, data) => Notify(c, AfterPieces(c, s, before).0, data)
  }

  /** Up to some piece the bytes made up a whole packet. */
  predicate SomeComplete(pre: Prefix, q: Pieces) {
    PacketComplete(pre, |Joined(q)|) || (q.Next? && SomeComplete(pre, q.before))
  }

  lemma {:induction false} RecognisableLength(q: Pieces)
    requires Recognisable(q)
    ensures |Joined(q)| >= 2
  {
    if q.Next? {
      RecognisableLength(q.before);
    }
  }

  lemma MagicBefore(pre: Prefix, q: Pieces)
    requires q.Next? && Recognisable(q) && StartsWith(Joined(q), Magic(pre))
    ensures StartsWith(Joined(q.before), Magic(pre))
  {
    RecognisableLength(q.before);
  }

  /** As long as the pieces have not made up a packet they are only collected. */
  lemma {:induction false} PiecesCollect(c: Crypto, s: Session, pre: Prefix, q: Pieces)
    requires c.Lawful() && Sized(s) && s.prefix.None? && s.acc == [] && !s.keyExchangeDone
    requires Recognisable(q) && StartsWith(Joined(q), Magic(pre)) && !SomeComplete(pre, q)
    ensures AfterPieces(c, s, q) == (s.(acc := Joined(q), prefix := Some(pre)), Quiet)
  {
    hide Dispatch, AuthRequest, AuthResult, Sized;
    match q
    case First(data) =>
      Distinct(data);
      assert [] + data == data;
      hide StartsWith, Magic;
    case Next(before, data) =>
      MagicBefore(pre, q);
      PiecesCollect(c, s, pre, before);
  }

  /** The piece that first makes up a whole packet has it handled, exactly as if it had come in
      one notification. */
  lemma PiecesReassemble(c: Crypto, s: Session, pre: Prefix, q: Pieces)
    requires c.Lawful() && Sized(s) && s.prefix.None? && s.acc == [] && !s.keyExchangeDone
    requires Recognisable(q) && StartsWith(Joined(q), Magic(pre))
    requires PacketComplete(pre, |Joined(q)|) && (q.Next? ==> !SomeComplete(pre, q.before))
    ensures AfterPieces(c, s, q) == Notify(c, s, Joined(q)) == Dispatch(c, s, pre, Joined(q))
    ensures q.Next? ==> AfterPieces(c, s, q.before).1 == Quiet
  {
    hide Dispatch, AuthRequest, AuthResult, Sized;
    assert s.(acc := [], prefix := None) == s;
    WholePacket(s, pre, Joined(q));
    if q.Next? {
      MagicBefore(pre, q);
      PiecesCollect(c, s, pre, q.before);
      assert s.(acc := Joined(q.before), prefix := Some(pre)).(acc := [], prefix := None) == s;
    }
  }

  lemma {:induction false} TooShort(pre: Prefix, q: Pieces)
    requires |Joined(q)| < MinLength(pre)
    ensures !SomeComplete(pre, q)
  {
    if q.Next? {
      TooShort(pre, q.before);
    }
  }

  /** A packet of the shortest length, 146 or 18 bytes, is always handled so. */
  lemma ShortestReassembles(c: Crypto, s: Session, pre: Prefix, q: Pieces)
    requires c.Lawful() && Sized(s) && s.prefix.None? && s.acc == [] && !s.keyExchangeDone
    requires Recognisable(q) && StartsWith(Joined(q), Magic(pre))
    requires |Joined(q)| == if pre == Exchange then 146 else 18
    ensures AfterPieces(c, s, q) == Notify(c, s, Joined(q)) == Dispatch(c, s, pre, Joined(q))
    ensures q.Next? ==> AfterPieces(c, s, q.before).1 == Quiet
  {
    hide Dispatch, Notify, AfterPieces, Sized;
    if q.Next? {
      TooShort(pre, q.before);
    }
    PiecesReassemble(c, s, pre, q);
  }

  /** No notification leaves more collected than there was and came in. */
  lemma CollectsNoMore(c: Crypto, s: Session, data: seq<Byte>)
    requires c.Lawful() && Sized(s)
    ensures |Notify(c, s, data).0.acc| <= |s.acc| + |data|
    ensures Completed(s, data).Some? ==> Notify(c, s, data).0.acc == []
  {
    hide Encrypt, VerifiedKey, AgreedKey, WithChecksum, XorBlock, PacketComplete, Aligned, Sized, ZeroPad, StartsWith;
  }

  lemma {:induction false} CollectedSinceComplete(c: Crypto, s: Session, pre: Prefix, q: Pieces)
    requires c.Lawful() && Sized(s) && s.prefix.None? && s.acc == [] && !s.keyExchangeDone
    requires Recognisable(q) && StartsWith(Joined(q), Magic(pre)) && SomeComplete(pre, q)
    ensures |AfterPieces(c, s, q).0.acc| < |Joined(q)|
  {
    hide Notify, Completed, Sized, PacketComplete;
    RecognisableLength(q);
    if q.Next? && SomeComplete(pre, q.before) {
      MagicBefore(pre, q);
      CollectedSinceComplete(c, s, pre, q.before);
      CollectsNoMore(c, AfterPieces(c, s, q.before).0, q.data);
    } else {
      PiecesReassemble(c, s, pre, q);
      WholePacket(s, pre, Joined(q));
      CollectsNoMore(c, s, Joined(q));
    }
  }

  /** When a packet in pieces is handled at all: the session is still collecting everything that
      came if and only if at no piece the bytes so far made up a whole packet. */
  lemma CollectingIff(c: Crypto, s: Session, pre: Prefix, q: Pieces)
    requires c.Lawful() && Sized(s) && s.prefix.None? && s.acc == [] && !s.keyExchangeDone
    requires Recognisable(q) && StartsWith(Joined(q), Magic(pre))
    ensures AfterPieces(c, s, q).0.acc == Joined(q) <==> !SomeComplete(pre, q)
  {
    hide AfterPieces, SomeComplete, StartsWith, Magic;
    if SomeComplete(pre, q) {
      CollectedSinceComplete(c, s, pre, q);
    } else {
      PiecesCollect(c, s, pre, q);
    }
  }

  /** Once pieces have overshot a whole number of blocks, further notifications of whole blocks
      never complete the packet, whatever they hold; one that makes up for the excess does. */
  lemma Overshoot(pre: Prefix, q: Pieces, data: seq<Byte>)
    requires !SomeComplete(pre, q) && |Joined(q)| >= MinLength(pre)
    ensures SomeComplete(pre, Next(q, data)) <==> (|Joined(q)| + |data| - 2) % 16 == 0
    ensures |data| % 16 == 0 ==> !SomeComplete(pre, Next(q, data))
  {
    if |data| % 16 == 0 {
      assert (|Joined(q)| + |data| - 2) % 16 == (|Joined(q)| - 2) % 16;
    }
  }
}
