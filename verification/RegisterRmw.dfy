/** Writing single bits and bit fields of 16-bit registers by reading, patching and writing
    back, and why doing so under one gate never loses a write. */
module RegisterRmw {
  import Crc16
  import Rtu

  type Word = bv16

  /** What one write asks of one register. A mask merge takes the masked bits of `value`. */
  datatype Patch =
    | Whole(value: Word)
    | Field(start: Word, width: Word, value: Word)
    | Bit(index: Word, on: bool)
    | Masked(mask: Word, value: Word)

  /** Shift amounts that stay inside the register. */
  predicate Legal(p: Patch) {
    match p
    case Field(start, width, _) => 0 < width < 16 && start < 16 && start + width <= 16
    case Bit(index, _) => index < 16
    case _ => true
  }

  // The word operations, named so that each can be reasoned about alone.

  function And(a: Word, b: Word): Word { a & b }

  function Or(a: Word, b: Word): Word { a | b }

  function Not(a: Word): Word { !a }

  function Up(a: Word, j: Word): Word
    requires j < 16
  {
    a << j
  }

  /** The lowest `width` bits. */
  function Low(width: Word): Word
    requires width < 16
  {
    (1 << width) - 1
  }

  function Patched(word: Word, p: Patch): Word
    requires Legal(p)
  {
    match p
    case Whole(value) => value
    case Field(start, width, value) =>
      Or(And(word, Not(Up(Low(width), start))), Up(And(value, Low(width)), start))
    case Bit(index, on) => if on then Or(word, Up(1, index)) else And(word, Not(Up(1, index)))
    case Masked(mask, value) => Or(And(word, Not(mask)), And(value, mask))
  }

  /** Bit `i` of a word, 0 being the lowest. */
  predicate Test(word: Word, i: Word)
    requires i < 16
  {
    (word >> i) & 1 == 1
  }

  /** The patch is about bit `i`. */
  predicate Touches(p: Patch, i: Word)
    requires Legal(p) && i < 16
  {
    match p
    case Whole(_) => true
    case Field(start, width, _) => start <= i < start + width
    case Bit(index, _) => i == index
    case Masked(mask, _) => Test(mask, i)
  }

  /** What the patch wants bit `i` to be. */
  predicate Wants(p: Patch, i: Word)
    requires Legal(p) && i < 16 && Touches(p, i)
  {
    match p
    case Whole(value) => Test(value, i)
    case Field(start, _, value) => Test(value, i - start)
    case Bit(_, on) => on
    case Masked(_, value) => Test(value, i)
  }

  // Bit `i` of the results of the word operations, one operation at a time.

  lemma XorShift(a: Word, b: Word, i: Word)
    requires i < 16
    ensures (a ^ b) >> i == (a >> i) ^ (b >> i)
  {
  }

  lemma OrShift(a: Word, b: Word, i: Word)
    requires i < 16
    ensures (a | b) >> i == (a >> i) | (b >> i)
  {
  }

  lemma LowBits(a: Word, b: Word)
    ensures (a | b) & 1 == 1 <==> a & 1 == 1 || b & 1 == 1
    ensures (a ^ b) & 1 == 1 <==> (a & 1 == 1) != (b & 1 == 1)
  {
  }

  lemma Ones(a: Word, i: Word)
    requires i < 16
    ensures !a == a ^ 0xFFFF
    ensures ((0xFFFF as Word) >> i) & 1 == 1
  {
  }

  lemma DeMorgan(a: Word, b: Word)
    ensures And(a, b) == Not(Or(Not(a), Not(b)))
  {
  }

  lemma TestOr(a: Word, b: Word, i: Word)
    requires i < 16
    ensures Test(Or(a, b), i) <==> Test(a, i) || Test(b, i)
  {
    OrShift(a, b, i);
    LowBits(a >> i, b >> i);
  }

  lemma TestNot(a: Word, i: Word)
    requires i < 16
    ensures Test(Not(a), i) <==> !Test(a, i)
  {
    XorShift(a, 0xFFFF, i);
    Ones(a, i);
    LowBits(a >> i, (0xFFFF as Word) >> i);
  }

  lemma TestAnd(a: Word, b: Word, i: Word)
    requires i < 16
    ensures Test(And(a, b), i) <==> Test(a, i) && Test(b, i)
  {
    hide Test, And, Or, Not;
    DeMorgan(a, b);
    TestNot(Or(Not(a), Not(b)), i);
    TestOr(Not(a), Not(b), i);
    TestNot(a, i);
    TestNot(b, i);
  }

  /** The bits of `mask` come from `value`, the others from `word`. */
  lemma TestMerge(word: Word, mask: Word, value: Word, i: Word)
    requires i < 16
    ensures Test(Or(And(word, Not(mask)), value), i) <==> (Test(word, i) && !Test(mask, i)) || Test(value, i)
  {
    hide Test, And, Or, Not;
    TestOr(And(word, Not(mask)), value, i);
    TestAnd(word, Not(mask), i);
    TestNot(mask, i);
  }

  lemma TestUnit(j: Word, i: Word)
    requires i < 16 && j < 16
    ensures Test(Up(1, j), i) <==> i == j
  {
  }

  lemma UpThenDown(a: Word, j: Word, i: Word)
    requires j <= i < 16
    ensures ((a << j) >> i) & 1 == (a >> (i - j)) & 1
  {
  }

  lemma ShiftedUp(a: Word, j: Word, i: Word)
    requires j <= i < 16
    ensures Test(Up(a, j), i) <==> Test(a, i - j)
  {
    UpThenDown(a, j, i);
  }

  lemma ShiftedPast(a: Word, j: Word, i: Word)
    requires i < j < 16
    ensures !Test(Up(a, j), i)
  {
  }

  lemma TestLow(width: Word, i: Word)
    requires i < 16 && 0 < width < 16
    ensures Test(Low(width), i) <==> i < width
  {
  }

  lemma InField(start: Word, width: Word, i: Word)
    requires start < 16 && width < 16 && start + width <= 16 && start <= i < 16
    ensures i - start < width <==> i < start + width
  {
  }

  /** The low `width` bits of `value`, moved up to `start`. */
  lemma TestField(start: Word, width: Word, value: Word, i: Word)
    requires Legal(Field(start, width, value)) && i < 16
    ensures Test(Up(Low(width), start), i) <==> start <= i < start + width
    ensures Test(Up(And(value, Low(width)), start), i) <==> start <= i < start + width && Test(value, i - start)
  {
    hide Test, And, Low, Up;
    if start <= i {
      ShiftedUp(Low(width), start, i);
      ShiftedUp(And(value, Low(width)), start, i);
      TestAnd(value, Low(width), i - start);
      TestLow(width, i - start);
      InField(start, width, i);
    } else {
      ShiftedPast(Low(width), start, i);
      ShiftedPast(And(value, Low(width)), start, i);
    }
  }

  /** A patch puts what it wants into the bits it is about and leaves the others alone. */
  lemma PatchBits(word: Word, p: Patch, i: Word)
    requires Legal(p) && i < 16
    ensures Test(Patched(word, p), i) == if Touches(p, i) then Wants(p, i) else Test(word, i)
  {
    hide Test, And, Or, Not, Up, Low;
    match p
    case Whole(_) =>
    case Field(start, width, value) =>
      TestMerge(word, Up(Low(width), start), Up(And(value, Low(width)), start), i);
      TestField(start, width, value, i);
    case Bit(index, on) =>
      TestOr(word, Up(1, index), i);
      TestAnd(word, Not(Up(1, index)), i);
      TestNot(Up(1, index), i);
      TestUnit(index, i);
    case Masked(mask, value) =>
      TestMerge(word, mask, And(value, mask), i);
      TestAnd(value, mask, i);
  }

  function BitOf(a: Word, i: Word): Word
    requires i < 16
  {
    (a >> i) & 1
  }

  lemma SameBitsSameWord(a: Word, b: Word)
    requires BitOf(a, 0) == BitOf(b, 0) && BitOf(a, 1) == BitOf(b, 1)
    requires BitOf(a, 2) == BitOf(b, 2) && BitOf(a, 3) == BitOf(b, 3)
    requires BitOf(a, 4) == BitOf(b, 4) && BitOf(a, 5) == BitOf(b, 5)
    requires BitOf(a, 6) == BitOf(b, 6) && BitOf(a, 7) == BitOf(b, 7)
    requires BitOf(a, 8) == BitOf(b, 8) && BitOf(a, 9) == BitOf(b, 9)
    requires BitOf(a, 10) == BitOf(b, 10) && BitOf(a, 11) == BitOf(b, 11)
    requires BitOf(a, 12) == BitOf(b, 12) && BitOf(a, 13) == BitOf(b, 13)
    requires BitOf(a, 14) == BitOf(b, 14) && BitOf(a, 15) == BitOf(b, 15)
    ensures a == b
  {
  }

  lemma OneBit(a: Word, b: Word, i: Word)
    requires i < 16 && Test(a, i) == Test(b, i)
    ensures BitOf(a, i) == BitOf(b, i)
  {
    BitIsOneOrZero(a >> i);
    BitIsOneOrZero(b >> i);
  }

  lemma BitIsOneOrZero(a: Word)
    ensures a & 1 == 0 || a & 1 == 1
  {
  }

  /** A word is its sixteen bits. */
  lemma WordIsBits(a: Word, b: Word)
    requires forall i: Word :: i < 16 ==> Test(a, i) == Test(b, i)
    ensures a == b
  {
    hide Test, BitOf;
    OneBit(a, b, 0);
    OneBit(a, b, 1);
    OneBit(a, b, 2);
    OneBit(a, b, 3);
    OneBit(a, b, 4);
    OneBit(a, b, 5);
    OneBit(a, b, 6);
    OneBit(a, b, 7);
    OneBit(a, b, 8);
    OneBit(a, b, 9);
    OneBit(a, b, 10);
    OneBit(a, b, 11);
    OneBit(a, b, 12);
    OneBit(a, b, 13);
    OneBit(a, b, 14);
    OneBit(a, b, 15);
    SameBitsSameWord(a, b);
  }

  /** The two words agree wherever the patch is not about them. */
  ghost predicate AgreeOutside(a: Word, b: Word, p: Patch)
    requires Legal(p)
  {
    forall i: Word :: i < 16 && !Touches(p, i) ==> Test(a, i) == Test(b, i)
  }

  /** Patching either of two words gives the same exactly if they agree outside the patch. */
  lemma PatchedAlike(a: Word, b: Word, p: Patch)
    requires Legal(p)
    ensures Patched(a, p) == Patched(b, p) <==> AgreeOutside(a, b, p)
  {
    hide Patched, Test, Touches, Wants;
    forall i: Word | i < 16
      ensures Test(Patched(a, p), i) == if Touches(p, i) then Wants(p, i) else Test(a, i)
      ensures Test(Patched(b, p), i) == if Touches(p, i) then Wants(p, i) else Test(b, i)
    {
      PatchBits(a, p, i);
      PatchBits(b, p, i);
    }
    if AgreeOutside(a, b, p) {
      WordIsBits(Patched(a, p), Patched(b, p));
    }
  }

  // ---------------------------------------------------------------------------
  // One write, from the request to the registers
  // ---------------------------------------------------------------------------

  type LegalPatch = p: Patch | Legal(p) witness Whole(0)

  datatype Option<T> = None | Some(value: T)

  datatype Request = Nothing | One(patch: LegalPatch) | Words(values: seq<Word>)

  /** A field patch takes precedence over a bit, and a given value over the field's own. */
  function Asked(values: seq<Word>, bit: Option<Word>, field: Option<LegalPatch>): Request
    requires bit.Some? ==> bit.value < 16
    requires field.Some? ==> field.value.Field?
  {
    if field.Some? then
      One(Field(field.value.start, field.value.width, if values != [] then values[0] else field.value.value))
    else if bit.Some? then One(Bit(bit.value, values != [] && values[0] != 0))
    else if values != [] then Words(values)
    else Nothing
  }

  /** What the link does to the two transactions of a write: the word in the reply taken for the
      answer to the read, if there is one; whether the write reaches the device; and the frame
      taken for its acknowledgement. Replies carry no address, so neither need be the answer. */
  datatype Link = Link(reply: Option<Word>, delivered: bool, response: Option<seq<Crc16.Byte>>)

  /** Function 06 of at least 8 bytes for one word, a checked frame of function 16 for several. */
  predicate Acknowledges(response: Option<seq<Crc16.Byte>>, words: nat) {
    && response.Some?
    && if words == 1 then |response.value| >= 8 && response.value[1] == 0x06
       else |response.value| == 8 && response.value[1] == 0x10 && Rtu.VerifyCrc(response.value)
  }

  function Written(registers: map<nat, Word>, address: nat, words: seq<Word>): map<nat, Word> {
    map a | a in registers :: if address <= a < address + |words| then words[a - address] else registers[a]
  }

  /** The words to be written, if the read was answered where one is needed. */
  function NewWords(request: Request, link: Link): Option<seq<Word>> {
    match request
    case Nothing => None
    case One(p) => if link.reply.Some? then Some([Patched(link.reply.value, p)]) else None
    case Words(values) => Some(values)
  }

  /** The field holds the value, the other bits are those of the word told. */
  ghost predicate FieldSet(after: Word, told: Word, start: Word, width: Word, value: Word)
    requires 0 < width < 16 && start < 16 && start + width <= 16
  {
    forall i: Word :: i < 16 ==>
      Test(after, i) == if start <= i < start + width then Test(value, i - start) else Test(told, i)
  }

  /** The bit is on or off, the other bits are those of the word told. */
  ghost predicate BitSet(after: Word, told: Word, index: Word, on: bool) {
    forall i: Word :: i < 16 ==> Test(after, i) == if i == index then on else Test(told, i)
  }

  /** There is something to write, and the read it takes was answered. */
  predicate CanWrite(values: seq<Word>, bit: Option<Word>, field: Option<LegalPatch>, link: Link) {
    if field.Some? || bit.Some? then link.reply.Some? else values != []
  }

  /** How many words the write takes. */
  function WordCount(values: seq<Word>, bit: Option<Word>, field: Option<LegalPatch>): nat {
    if field.Some? || bit.Some? then 1 else |values|
  }

  /** What a write that gets through makes of the registers: a field goes before a bit, and the
      first given value is the field's, or says whether the bit is to be on. */
  ghost predicate Took(before: map<nat, Word>, after: map<nat, Word>, address: nat, values: seq<Word>,
                       bit: Option<Word>, field: Option<LegalPatch>, reply: Option<Word>)
    requires field.Some? ==> field.value.Field?
    requires field.Some? || bit.Some? ==> reply.Some?
  {
    && after.Keys == before.Keys
    && (forall a :: a in before && !(address <= a < address + WordCount(values, bit, field)) ==> after[a] == before[a])
    && if field.Some? then
         address in after ==>
           FieldSet(after[address], reply.value, field.value.start, field.value.width,
                    if values != [] then values[0] else field.value.value)
       else if bit.Some? then
         address in after ==> BitSet(after[address], reply.value, bit.value, values != [] && values[0] != 0)
       else
         forall k :: 0 <= k < |values| && address + k in after ==> after[address + k] == values[k]
  }

  lemma FieldIsSet(told: Word, start: Word, width: Word, value: Word)
    requires Legal(Field(start, width, value))
    ensures FieldSet(Patched(told, Field(start, width, value)), told, start, width, value)
  {
    hide Patched, Test;
    forall i: Word | i < 16
      ensures Test(Patched(told, Field(start, width, value)), i)
           == if start <= i < start + width then Test(value, i - start) else Test(told, i)
    {
      PatchBits(told, Field(start, width, value), i);
    }
  }

  lemma BitIsSet(told: Word, index: Word, on: bool)
    requires index < 16
    ensures BitSet(Patched(told, Bit(index, on)), told, index, on)
  {
    hide Patched, Test;
    forall i: Word | i < 16
      ensures Test(Patched(told, Bit(index, on)), i) == if i == index then on else Test(told, i)
    {
      PatchBits(told, Bit(index, on), i);
    }
  }

  /** The device's own acknowledgements pass, and an exception does not. */
  lemma AcknowledgesOwn(slaveId: Crc16.Byte, address: Word, value: Word, count: Word, words: nat, code: Crc16.Byte)
    ensures Acknowledges(Some(Rtu.AppendCrc([slaveId, 6] + Rtu.Bytes16(address) + Rtu.Bytes16(value))), 1)
    ensures words != 1 ==>
      Acknowledges(Some(Rtu.AppendCrc([slaveId, 0x10] + Rtu.Bytes16(address) + Rtu.Bytes16(count))), words)
    ensures !Acknowledges(Some(Rtu.AppendCrc([slaveId, 0x86, code])), 1)
    ensures words != 1 ==> !Acknowledges(Some(Rtu.AppendCrc([slaveId, 0x90, code])), words)
    ensures !Acknowledges(None, words)
  {
    hide Rtu.VerifyCrc, Crc16.Crc, Crc16.High, Crc16.Low;
    Rtu.BuiltPasses([slaveId, 0x10] + Rtu.Bytes16(address) + Rtu.Bytes16(count));
  }

  class Device {
    var registers: map<nat, Word>

    constructor (registers: map<nat, Word>)
      ensures this.registers == registers
    {
      this.registers := registers;
    }

    method WriteHoldingRegisters(address: nat, values: seq<Word>, bit: Option<Word>, field: Option<LegalPatch>,
                                 link: Link)
      returns (ok: bool)
      requires bit.Some? ==> bit.value < 16
      requires field.Some? ==> field.value.Field?
      modifies this
      ensures var words := NewWords(Asked(values, bit, field), link);
              && (ok <==> words.Some? && Acknowledges(link.response, |words.value|))
              && registers == if words.Some? && link.delivered
                              then Written(old(registers), address, words.value) else old(registers)
      ensures ok <==>
        CanWrite(values, bit, field, link) && Acknowledges(link.response, WordCount(values, bit, field))
      ensures if CanWrite(values, bit, field, link) && link.delivered
              then Took(old(registers), registers, address, values, bit, field, link.reply)
              else registers == old(registers)
    {
      hide Patched, Rtu.VerifyCrc, FieldSet, BitSet;
      if values == [] && bit.None? && field.None? {
        return false;
      }
      var toWrite: seq<Word>;
      if field.Some? {
        var current := link.reply;
        if current.None? {
          return false;
        }
        var value := if values != [] then values[0] else field.value.value;
        toWrite := [Patched(current.value, Field(field.value.start, field.value.width, value))];
        FieldIsSet(current.value, field.value.start, field.value.width, value);
      } else if bit.Some? {
        var current := link.reply;
        if current.None? {
          return false;
        }
        var on := values != [] && values[0] != 0;
        toWrite := [Patched(current.value, Bit(bit.value, on))];
        BitIsSet(current.value, bit.value, on);
      } else {
        toWrite := values;
      }
      if link.delivered {
        registers := Written(registers, address, toWrite);
      }
      ok := Acknowledges(link.response, |toWrite|);
    }
  }

  /** A delivered patch gives the bits it is about the wanted values and the others those of
      the word it was told, in the register it is for and no other. */
  lemma OneWrite(registers: map<nat, Word>, address: nat, p: LegalPatch, link: Link, a: nat, i: Word)
    requires link.reply.Some? && address in registers && a in registers && i < 16
    ensures var words := NewWords(One(p), link);
            && words.Some?
            && a in Written(registers, address, words.value)
            && Test(Written(registers, address, words.value)[a], i)
               == if a != address then Test(registers[a], i)
                  else if Touches(p, i) then Wants(p, i) else Test(link.reply.value, i)
  {
    PatchBits(link.reply.value, p, i);
    hide Patched, Test, Touches, Wants;
  }

  // ---------------------------------------------------------------------------
  // Many writers, one register, one gate
  // ---------------------------------------------------------------------------

  /** Where a writer is: asking for the gate, past it, or past its read with the word to write. */
  datatype Phase = Idle | Waiting(patch: LegalPatch) | Locked(patch: LegalPatch) | Ready(patch: LegalPatch, word: Word)

  datatype State = State(register: Word, gate: Option<nat>, phases: map<nat, Phase>)

  datatype Event =
    | Ask(writer: nat, patch: LegalPatch)
    | Lock(writer: nat)
    | Read(writer: nat, reply: Option<Word>)
    | Write(writer: nat, delivered: bool)

  function PhaseOf(s: State, writer: nat): Phase {
    if writer in s.phases then s.phases[writer] else Idle
  }

  /** Without a gate, locking never waits. */
  predicate Enabled(s: State, e: Event, gated: bool) {
    var phase := PhaseOf(s, e.writer);
    match e
    case Ask(_, _) => phase.Idle?
    case Lock(_) => phase.Waiting? && (gated ==> s.gate.None?)
    case Read(_, _) => phase.Locked?
    case Write(_, _) => phase.Ready?
  }

  function Step(s: State, e: Event, gated: bool): State
    requires Enabled(s, e, gated)
  {
    var phase := PhaseOf(s, e.writer);
    match e
    case Ask(w, p) => s.(phases := s.phases[w := Waiting(p)])
    case Lock(w) =>
      var p := phase.patch;
      s.(gate := if gated then Some(w) else None,
         phases := s.phases[w := if p.Whole? then Ready(p, p.value) else Locked(p)])
    case Read(w, reply) =>
      if reply.Some? then s.(phases := s.phases[w := Ready(phase.patch, Patched(reply.value, phase.patch))])
      else s.(gate := None, phases := s.phases[w := Idle])
    case Write(w, delivered) =>
      State(if delivered then phase.word else s.register, None, s.phases[w := Idle])
  }

  /** Any interleaving of any writers, latest event outermost. */
  datatype Run = Start(register: Word) | Then(before: Run, e: Event)

  predicate Valid(r: Run, gated: bool)
    decreases r, 0
  {
    r.Then? ==> Valid(r.before, gated) && Enabled(After(r.before, gated), r.e, gated)
  }

  function After(r: Run, gated: bool): State
    requires Valid(r, gated)
    decreases r, 1
  {
    if r.Start? then State(r.register, None, map[]) else Step(After(r.before, gated), r.e, gated)
  }

  function Initial(r: Run): Word { if r.Start? then r.register else Initial(r.before) }

  /** The patches in the order their writers got through the gate. */
  function Granted(r: Run, gated: bool): seq<LegalPatch>
    requires Valid(r, gated)
  {
    if r.Start? then []
    else
      var rest := Granted(r.before, gated);
      if r.e.Lock? then rest + [PhaseOf(After(r.before, gated), r.e.writer).patch] else rest
  }

  /** One finished pass through the gate, and whether its write reached the device. */
  datatype Turn = Turn(patch: LegalPatch, delivered: bool)

  function Turns(r: Run, gated: bool): seq<Turn>
    requires Valid(r, gated)
  {
    if r.Start? then []
    else
      var rest := Turns(r.before, gated);
      var phase := PhaseOf(After(r.before, gated), r.e.writer);
      match r.e
      case Read(_, reply) => if reply.Some? then rest else rest + [Turn(phase.patch, false)]
      case Write(_, delivered) => rest + [Turn(phase.patch, delivered)]
      case _ => rest
  }

  /** The delivered patches applied one after the other. */
  function Replay(register: Word, turns: seq<Turn>): Word {
    if turns == [] then register
    else
      var word, last := Replay(register, turns[..|turns| - 1]), turns[|turns| - 1];
      if last.delivered then Patched(word, last.patch) else word
  }

  lemma ReplayNext(register: Word, turns: seq<Turn>, t: Turn)
    ensures Replay(register, turns + [t])
         == if t.delivered then Patched(Replay(register, turns), t.patch) else Replay(register, turns)
  {
    hide Patched;
    assert (turns + [t])[..|turns|] == turns;
  }

  function Patches(turns: seq<Turn>): seq<LegalPatch> {
    seq(|turns|, i requires 0 <= i < |turns| => turns[i].patch)
  }

  /** The patch of the writer past the gate. */
  function Inside(s: State): seq<LegalPatch> {
    if s.gate.None? then []
    else
      match PhaseOf(s, s.gate.value)
      case Locked(p) => [p]
      case Ready(p, _) => [p]
      case _ => []
  }

  /** Past the gate means holding it. */
  predicate AloneFor(s: State, w: nat) {
    (PhaseOf(s, w).Locked? || PhaseOf(s, w).Ready?) <==> s.gate == Some(w)
  }

  /** One writer at a time is past the gate. */
  ghost predicate Alone(s: State) {
    forall w: nat :: AloneFor(s, w)
  }

  lemma StaysAlone(s: State, e: Event, w: nat)
    requires AloneFor(s, e.writer) && AloneFor(s, w) && Enabled(s, e, true)
    ensures AloneFor(Step(s, e, true), w)
  {
    hide Patched;
    if w != e.writer {
      assert PhaseOf(Step(s, e, true), w) == PhaseOf(s, w);
    }
  }

  lemma {:induction false} AlwaysAlone(r: Run)
    requires Valid(r, true)
    ensures Alone(After(r, true))
  {
    hide AloneFor, Step;
    if r.Then? {
      AlwaysAlone(r.before);
      var s := After(r.before, true);
      forall w: nat
        ensures AloneFor(After(r, true), w)
      {
        StaysAlone(s, r.e, w);
      }
    } else {
      NobodyInside(r);
    }
  }

  lemma NobodyInside(r: Run)
    requires r.Start?
    ensures Alone(After(r, true))
  {
  }

  /** Every reply taken for the answer to a read carries the register's present word. */
  ghost predicate Truthful(r: Run)
    requires Valid(r, true)
  {
    r.Then? ==>
      && Truthful(r.before)
      && (r.e.Read? && r.e.reply.Some? ==> r.e.reply.value == After(r.before, true).register)
  }

  /** Every delivered write was made from a word that agreed with the register outside its
      patch: the word it carries is the one the patch would make of the register. */
  ghost predicate Faithful(r: Run)
    requires Valid(r, true)
  {
    r.Then? ==>
      && Faithful(r.before)
      && (r.e == Write(r.e.writer, true) ==>
            var s := After(r.before, true);
            PhaseOf(s, r.e.writer).word == Patched(s.register, PhaseOf(s, r.e.writer).patch))
  }

  /** At every moment the register holds the delivered patches, one after the other. */
  ghost predicate SerialThroughout(r: Run)
    requires Valid(r, true)
  {
    && After(r, true).register == Replay(Initial(r), Turns(r, true))
    && (r.Then? ==> SerialThroughout(r.before))
  }

  /** Under the gate, after every interleaving of any number of writers: the register has
      throughout been the delivered patches in the order of the turns, if and only if every
      delivered write was faithful. */
  lemma {:induction false} SerialIffFaithful(r: Run)
    requires Valid(r, true)
    ensures SerialThroughout(r) <==> Faithful(r)
  {
    hide Patched, Replay;
    if r.Then? {
      SerialIffFaithful(r.before);
      var s, turns := After(r.before, true), Turns(r.before, true);
      match r.e
      case Write(w, delivered) => ReplayNext(Initial(r), turns, Turn(PhaseOf(s, w).patch, delivered));
      case Read(w, reply) => ReplayNext(Initial(r), turns, Turn(PhaseOf(s, w).patch, false));
      case _ =>
    } else {
      ReplayNone(r.register);
    }
  }

  lemma ReplayNone(register: Word)
    ensures Replay(register, []) == register
  {
  }

  /** A word ready to be written is still the right one. */
  predicate RightFor(s: State, w: nat) {
    PhaseOf(s, w).Ready? ==> PhaseOf(s, w).word == Patched(s.register, PhaseOf(s, w).patch)
  }

  lemma StaysRight(s: State, e: Event, w: nat)
    requires AloneFor(s, e.writer) && AloneFor(s, w) && RightFor(s, w) && Enabled(s, e, true)
    requires e.Read? && e.reply.Some? ==> e.reply.value == s.register
    ensures RightFor(Step(s, e, true), w)
  {
    hide Or, And, Not, Up, Low;
    if w != e.writer {
      hide Patched;
      assert PhaseOf(Step(s, e, true), w) == PhaseOf(s, w);
    }
  }

  lemma {:induction false} AlwaysRight(r: Run, w: nat)
    requires Valid(r, true) && Truthful(r)
    ensures RightFor(After(r, true), w)
  {
    hide RightFor, Step, AloneFor;
    if r.Then? {
      AlwaysAlone(r.before);
      AlwaysRight(r.before, w);
      StaysRight(After(r.before, true), r.e, w);
    } else {
      NothingReady(r, w);
    }
  }

  lemma NothingReady(r: Run, w: nat)
    requires r.Start?
    ensures RightFor(After(r, true), w)
  {
  }

  /** With truthful replies every write is faithful, so the gate makes every run serial. */
  lemma {:induction false} Serialised(r: Run)
    requires Valid(r, true) && Truthful(r)
    ensures Faithful(r)
    ensures After(r, true).register == Replay(Initial(r), Turns(r, true))
  {
    hide Patched;
    SerialIffFaithful(r);
    if r.Then? {
      Serialised(r.before);
      AlwaysRight(r.before, r.e.writer);
      SerialIffFaithful(r);
    }
    hide Replay;
  }

  /** What a writer makes of a reply is right for the register exactly if the reply agrees with
      it outside the patch. */
  lemma RightIffAgreeing(s: State, w: nat, reply: Word)
    requires PhaseOf(s, w).Locked?
    ensures RightFor(Step(s, Read(w, Some(reply)), true), w) <==> AgreeOutside(reply, s.register, PhaseOf(s, w).patch)
  {
    PatchedAlike(reply, s.register, PhaseOf(s, w).patch);
    hide Patched, AgreeOutside;
  }

  /** A turn that goes through, started from the word in `reply`. */
  function OneTurn(r: Run, w: nat, p: LegalPatch, reply: Word): Run {
    Then(Then(Then(Then(r, Ask(w, p)), Lock(w)), Read(w, Some(reply))), Write(w, true))
  }

  lemma OneTurnIs(r: Run, w: nat, p: LegalPatch, reply: Word)
    requires Valid(r, true) && After(r, true).gate.None? && PhaseOf(After(r, true), w).Idle? && !p.Whole?
    ensures var r' := OneTurn(r, w, p, reply);
            && Valid(r', true)
            && Turns(r', true) == Turns(r, true) + [Turn(p, true)]
            && After(r', true).register == Patched(reply, p) && After(r', true).gate.None?
            && (forall v :: v != w ==> PhaseOf(After(r', true), v) == PhaseOf(After(r, true), v))
            && (Truthful(r) && reply == After(r, true).register ==> Truthful(r'))
  {
    hide Patched, After, Turns, Truthful, Valid;
    Extend(r, Ask(w, p));
    var r1 := Then(r, Ask(w, p));
    Extend(r1, Lock(w));
    var r2 := Then(r1, Lock(w));
    Extend(r2, Read(w, Some(reply)));
    var r3 := Then(r2, Read(w, Some(reply)));
    Extend(r3, Write(w, true));
  }

  lemma Extend(r: Run, e: Event)
    requires Valid(r, true) && Enabled(After(r, true), e, true)
    ensures var r' := Then(r, e);
            && Valid(r', true) && After(r', true) == Step(After(r, true), e, true)
            && Turns(r', true) == Turns(r, true) + TurnOf(After(r, true), e)
            && (Truthful(r) && (e.Read? && e.reply.Some? ==> e.reply.value == After(r, true).register) ==> Truthful(r'))
  {
    hide Patched;
  }

  /** The turn an event ends. */
  function TurnOf(s: State, e: Event): seq<Turn>
    requires Enabled(s, e, true)
  {
    match e
    case Read(w, reply) => if reply.Some? then [] else [Turn(PhaseOf(s, w).patch, false)]
    case Write(w, delivered) => [Turn(PhaseOf(s, w).patch, delivered)]
    case _ => []
  }

  lemma LastWishNext(turns: seq<Turn>, t: Turn, i: Word)
    requires i < 16
    ensures LastWish(turns + [t], i)
         == if t.delivered && Touches(t.patch, i) then Some(Wants(t.patch, i)) else LastWish(turns, i)
  {
    hide Touches, Wants;
    assert (turns + [t])[..|turns|] == turns;
  }

  /** With the gate free, a late reply to some earlier read, taken for the answer, is enough to
      put its bits back: every bit the patch is not about becomes that of the late reply, and so
      undoes whatever write has been delivered in between. */
  lemma LateReplyUndoes(r: Run, w: nat, p: LegalPatch, reply: Word, i: Word)
    requires Valid(r, true) && After(r, true).gate.None? && PhaseOf(After(r, true), w).Idle?
    requires !p.Whole? && i < 16 && !Touches(p, i)
    ensures var r' := OneTurn(r, w, p, reply);
            && Valid(r', true)
            && Turns(r', true) == Turns(r, true) + [Turn(p, true)]
            && Test(After(r', true).register, i) == Test(reply, i)
            && LastWish(Turns(r', true), i) == LastWish(Turns(r, true), i)
  {
    hide Patched, Test, Touches, Wants, OneTurn, After, Turns;
    OneTurnIs(r, w, p, reply);
    PatchBits(reply, p, i);
    LastWishNext(Turns(r, true), Turn(p, true), i);
  }

  /** Such runs exist for any register: what one writer changes truthfully is lost to the next,
      if its read is answered with the word from before. */
  lemma LateReplyHappens(register: Word, v: nat, w: nat, p: LegalPatch, q: LegalPatch, i: Word)
    requires v != w && !p.Whole? && !q.Whole? && i < 16
    requires Touches(p, i) && Wants(p, i) != Test(register, i) && !Touches(q, i)
    ensures var first := OneTurn(Start(register), v, p, register);
            var r := OneTurn(first, w, q, register);
            && Valid(first, true) && Truthful(first) && Valid(r, true)
            && LastWish(Turns(r, true), i) == Some(Wants(p, i))
            && Test(After(r, true).register, i) != Wants(p, i)
  {
    hide Patched, Test, Touches, Wants, OneTurn;
    OneTurnIs(Start(register), v, p, register);
    LastWishNext([], Turn(p, true), i);
    var first := OneTurn(Start(register), v, p, register);
    assert Turns(first, true) == [] + [Turn(p, true)];
    LateReplyUndoes(first, w, q, register, i);
    hide Turns, After;
  }

  /** The turns come in the order in which the writers got through the gate; at most the
      last one let through has not finished its turn. */
  lemma {:induction false} TurnsInGateOrder(r: Run)
    requires Valid(r, true)
    ensures Granted(r, true) == Patches(Turns(r, true)) + Inside(After(r, true))
  {
    hide Patched;
    if r.Then? {
      TurnsInGateOrder(r.before);
      AlwaysAlone(r.before);
      assert AloneFor(After(r.before, true), r.e.writer);
    }
  }

  /** What the latest delivered patch about bit `i` wanted of it. */
  function LastWish(turns: seq<Turn>, i: Word): Option<bool>
    requires i < 16
  {
    if turns == [] then None
    else
      var last := turns[|turns| - 1];
      if last.delivered && Touches(last.patch, i) then Some(Wants(last.patch, i)) else LastWish(turns[..|turns| - 1], i)
  }

  lemma {:induction false} ReplayedBits(register: Word, turns: seq<Turn>, i: Word)
    requires i < 16
    ensures var wish := LastWish(turns, i);
            Test(Replay(register, turns), i) == if wish.Some? then wish.value else Test(register, i)
  {
    if turns != [] {
      var init, last := turns[..|turns| - 1], turns[|turns| - 1];
      ReplayedBits(register, init, i);
      PatchBits(Replay(register, init), last.patch, i);
      hide Patched, Test, Touches, Wants;
    }
  }

  /** So no write is lost: each bit is as the last delivered patch about it wanted, and a
      bit no delivered patch was about is as it was. */
  lemma NoWriteLost(r: Run, i: Word)
    requires Valid(r, true) && Faithful(r) && i < 16
    ensures var wish := LastWish(Turns(r, true), i);
            Test(After(r, true).register, i) == if wish.Some? then wish.value else Test(Initial(r), i)
  {
    SerialIffFaithful(r);
    ReplayedBits(Initial(r), Turns(r, true), i);
  }

  /** Two writers both read, truthfully, before either writes. */
  function Overlapped(r: Run, v: nat, w: nat): Run
    requires Valid(r, false)
  {
    var word := Some(After(r, false).register);
    Then(Then(Then(Then(r, Read(v, word)), Read(w, word)), Write(v, true)), Write(w, true))
  }

  /** Nothing but the gate forbids that, and then the first write is lost: both reach the
      device, yet a bit only the first was about is left as it was before. */
  lemma LostWithoutGate(r: Run, v: nat, w: nat, i: Word)
    requires Valid(r, false) && v != w && i < 16
    requires PhaseOf(After(r, false), v).Locked? && PhaseOf(After(r, false), w).Locked?
    requires !Touches(PhaseOf(After(r, false), w).patch, i)
    ensures Valid(Overlapped(r, v, w), false)
    ensures Turns(Overlapped(r, v, w), false) == Turns(r, false)
              + [Turn(PhaseOf(After(r, false), v).patch, true), Turn(PhaseOf(After(r, false), w).patch, true)]
    ensures Test(After(Overlapped(r, v, w), false).register, i) == Test(After(r, false).register, i)
  {
    var s := After(r, false);
    var p, q := PhaseOf(s, v).patch, PhaseOf(s, w).patch;
    PatchBits(s.register, q, i);
    hide Patched, Test, Touches, Wants;
    var r1 := Then(r, Read(v, Some(s.register)));
    assert Valid(r1, false) && PhaseOf(After(r1, false), w) == Locked(q);
    var r2 := Then(r1, Read(w, Some(s.register)));
    assert Valid(r2, false) && PhaseOf(After(r2, false), w) == Ready(q, Patched(s.register, q));
    assert PhaseOf(After(r2, false), v).Ready? && Turns(r2, false) == Turns(r, false);
    var r3 := Then(r2, Write(v, true));
    assert Valid(r3, false) && PhaseOf(After(r3, false), w) == Ready(q, Patched(s.register, q));
    assert Turns(r3, false) == Turns(r, false) + [Turn(p, true)];
  }
}
