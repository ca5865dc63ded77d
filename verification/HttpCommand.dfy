/** The HTTP upgrade command: its JSON, whatever the texts put into it, reads back as the
    same texts, and its frame carries exactly that JSON. */
module HttpCommand {
  import ScanList

  datatype Option<T> = None | Some(value: T)

  // ---------------------------------------------------------------------------
  // Escaping
  // ---------------------------------------------------------------------------

  /** Unicode category Cc. */
  predicate IsControl(c: char) {
    c < ' ' || '\U{7f}' <= c <= '\U{9f}'
  }

  function HexDigit(d: int): char
    requires 0 <= d < 16
  {
    if d < 10 then ('0' as int + d) as char else ('a' as int + d - 10) as char
  }

  function EscapeChar(c: char): (e: string) {
    if c == '"' then "\\\""
    else if c == '\\' then "\\\\"
    else if c == '\n' then "\\n"
    else if c == '\r' then "\\r"
    else if c == '\t' then "\\t"
    else if IsControl(c) then
      var n := c as int;
      ['\\', 'u', HexDigit(n / 4096), HexDigit(n / 256 % 16), HexDigit(n / 16 % 16), HexDigit(n % 16)]
    else [c]
  }

  function Escaped(s: string): string {
    if s == "" then "" else Escaped(s[..|s| - 1]) + EscapeChar(s[|s| - 1])
  }

  method JsonEscape(s: string) returns (out: string)
    ensures out == Escaped(s)
  {
    out := "";
    for i := 0 to |s|
      invariant out == Escaped(s[..i])
    {
      assert s[..i + 1][..i] == s[..i];
      out := out + EscapeChar(s[i]);
    }
    assert s[..|s|] == s;
  }

  // ---------------------------------------------------------------------------
  // Reading strings: section 7 of RFC 8259
  // ---------------------------------------------------------------------------

  function HexValue(c: char): (d: Option<int>)
    ensures d.Some? ==> 0 <= d.value < 16
  {
    if '0' <= c <= '9' then Some(c as int - '0' as int)
    else if 'a' <= c <= 'f' then Some(c as int - 'a' as int + 10)
    else if 'A' <= c <= 'F' then Some(c as int - 'A' as int + 10)
    else None
  }

  function HexPair(high: char, low: char): (n: Option<int>)
    ensures n.Some? ==> 0 <= n.value < 256
  {
    var h, l := HexValue(high), HexValue(low);
    if h.Some? && l.Some? then Some(16 * h.value + l.value) else None
  }

  function HexQuad(t: string, at: nat): (q: Option<int>)
    ensures q.Some? ==> at + 4 <= |t| && 0 <= q.value < 0x10000
  {
    if at + 4 > |t| then None
    else
      var high, low := HexPair(t[at], t[at + 1]), HexPair(t[at + 2], t[at + 3]);
      if high.Some? && low.Some? then Some(256 * high.value + low.value) else None
  }

  /** The character spelled by a `\u` escape, or by a pair of them, and its length. */
  function ReadCode(t: string): (r: Option<(char, nat)>)
    ensures r.Some? ==> 0 < r.value.1 <= |t|
  {
    var high := HexQuad(t, 2);
    if high.None? then None
    else if !(0xD800 <= high.value < 0xE000) then Some((high.value as char, 6))
    else if high.value < 0xDC00 && |t| >= 12 && t[6] == '\\' && t[7] == 'u' then
      var low := HexQuad(t, 8);
      if low.Some? && 0xDC00 <= low.value < 0xE000
      then Some(((0x10000 + (high.value - 0xD800) * 0x400 + (low.value - 0xDC00)) as char, 12))
      else None
    else None
  }

  /** The first character of a string's contents and how many characters spell it. */
  function ReadChar(t: string): (r: Option<(char, nat)>)
    requires t != ""
    ensures r.Some? ==> 0 < r.value.1 <= |t|
  {
    if t[0] < ' ' then None
    else if t[0] != '\\' then Some((t[0], 1))
    else if |t| < 2 then None
    else
      match t[1]
      case '"' => Some(('"', 2))
      case '\\' => Some(('\\', 2))
      case '/' => Some(('/', 2))
      case 'b' => Some(('\U{8}', 2))
      case 'f' => Some(('\U{c}', 2))
      case 'n' => Some(('\n', 2))
      case 'r' => Some(('\r', 2))
      case 't' => Some(('\t', 2))
      case 'u' => ReadCode(t)
      case _ => None
  }

  /** The contents of a string up to its closing quote, and what follows the quote. */
  function ReadString(t: string): Option<(string, string)>
    decreases |t|
  {
    if t == "" then None
    else if t[0] == '"' then Some(("", t[1..]))
    else
      var c := ReadChar(t);
      if c.None? then None
      else
        var rest := ReadString(t[c.value.1..]);
        if rest.None? then None else Some(([c.value.0] + rest.value.0, rest.value.1))
  }

  // ---------------------------------------------------------------------------
  // The round trip
  // ---------------------------------------------------------------------------

  lemma HexBack(d: int)
    requires 0 <= d < 16
    ensures HexValue(HexDigit(d)) == Some(d)
  {
  }

  lemma PairBack(n: int)
    requires 0 <= n < 256
    ensures HexPair(HexDigit(n / 16), HexDigit(n % 16)) == Some(n)
  {
    HexBack(n / 16);
    HexBack(n % 16);
    hide HexDigit, HexValue;
  }

  lemma ControlBack(c: char, t: string)
    requires IsControl(c) && EscapeChar(c) <= t && |EscapeChar(c)| == 6
    ensures ReadChar(t) == Some((c, 6))
  {
    var n := c as int;
    PairBack(0);
    PairBack(n);
    hide HexPair, HexValue, HexDigit;
    assert t[0] == '\\' && t[1] == 'u';
    assert t[2] == HexDigit(0) && t[3] == HexDigit(0);
    assert t[4] == HexDigit(n / 16) && t[5] == HexDigit(n % 16);
    assert HexQuad(t, 2) == Some(n);
  }

  lemma CharBack(c: char, t: string)
    requires EscapeChar(c) <= t
    ensures t != "" && t[0] != '"'
    ensures ReadChar(t) == Some((c, |EscapeChar(c)|))
  {
    hide HexDigit, ReadCode;
    if IsControl(c) && |EscapeChar(c)| == 6 {
      ControlBack(c, t);
    } else {
      assert EscapeChar(c)[0] == t[0];
      if |EscapeChar(c)| == 2 {
        assert EscapeChar(c)[1] == t[1];
      }
    }
  }

  lemma {:induction false} EscapedFirst(s: string)
    requires s != ""
    ensures Escaped(s) == EscapeChar(s[0]) + Escaped(s[1..])
  {
    hide EscapeChar;
    if |s| == 1 {
      assert s[..0] == "" && s[1..] == "";
    } else {
      EscapedFirst(s[..|s| - 1]);
      assert s[..|s| - 1][1..] == s[1..][..|s| - 2];
    }
  }

  /** Whatever text is escaped and whatever follows the closing quote, a JSON reader stops
      at that quote and gets the text back. */
  lemma {:induction false} ReadsBack(s: string, rest: string)
    ensures ReadString(Escaped(s) + "\"" + rest) == Some((s, rest))
  {
    hide EscapeChar, ReadChar;
    var t := Escaped(s) + "\"" + rest;
    if s == "" {
      assert t[1..] == rest;
    } else {
      EscapedFirst(s);
      ReadsBack(s[1..], rest);
      var e := EscapeChar(s[0]);
      assert t == e + (Escaped(s[1..]) + "\"" + rest);
      CharBack(s[0], t);
      assert t[|e|..] == Escaped(s[1..]) + "\"" + rest;
      assert [s[0]] + s[1..] == s;
    }
  }

  /** The escaped text has no control character in it. */
  lemma {:induction false} NoControls(s: string, i: nat)
    requires i < |Escaped(s)|
    ensures !IsControl(Escaped(s)[i])
  {
    var init, e := Escaped(s[..|s| - 1]), EscapeChar(s[|s| - 1]);
    if i < |init| {
      NoControls(s[..|s| - 1], i);
    } else {
      assert Escaped(s)[i] == e[i - |init|];
    }
  }

  predicate Plain(c: char) { c != '"' && c != '\\' && !IsControl(c) }

  lemma PlainIsShort(c: char)
    ensures 1 <= |EscapeChar(c)|
    ensures |EscapeChar(c)| == 1 <==> Plain(c)
    ensures Plain(c) ==> EscapeChar(c) == [c]
  {
  }

  lemma {:induction false} Grows(s: string)
    ensures |Escaped(s)| >= |s|
    ensures |Escaped(s)| == |s| <==> forall c <- s :: Plain(c)
  {
    hide EscapeChar, Plain;
    if s != "" {
      Grows(s[..|s| - 1]);
      PlainIsShort(s[|s| - 1]);
      assert s == s[..|s| - 1] + [s[|s| - 1]];
    }
  }

  /** Exactly the texts without quote, backslash or control character go out as they are. */
  lemma {:induction false} Unchanged(s: string)
    ensures Escaped(s) == s <==> forall c <- s :: Plain(c)
  {
    hide EscapeChar, Plain;
    Grows(s);
    if s != "" && forall c <- s :: Plain(c) {
      Unchanged(s[..|s| - 1]);
      PlainIsShort(s[|s| - 1]);
      assert s == s[..|s| - 1] + [s[|s| - 1]];
    }
  }

  // ---------------------------------------------------------------------------
  // Reading values: sections 2 to 6 of RFC 8259, without blanks and with whole numbers only
  // ---------------------------------------------------------------------------

  datatype Json = Str(text: string) | Num(digits: string) | Bool(on: bool) | Arr(items: Items) | Obj(members: Members)

  datatype Items = NoItem | Item(value: Json, others: Items)

  datatype Members = NoMember | Member(key: string, value: Json, others: Members)

  predicate Digit(c: char) { '0' <= c <= '9' }

  /** How many digits a text starts with. */
  function DigitCount(t: string): (n: nat)
    ensures n <= |t|
  {
    if t != "" && Digit(t[0]) then 1 + DigitCount(t[1..]) else 0
  }

  /** The value a text starts with, and the rest of the text. */
  function ParseValue(t: string): (r: Option<(Json, string)>)
    ensures r.Some? ==> |r.value.1| < |t|
    decreases |t|, 0
  {
    if t == "" then None
    else if t[0] == '"' then
      var s := ReadString(t[1..]);
      StringShortens(t[1..]);
      if s.None? then None else Some((Str(s.value.0), s.value.1))
    else if t[0] == '[' then
      if |t| > 1 && t[1] == ']' then Some((Arr(NoItem), t[2..]))
      else
        var i := ParseItems(t[1..]);
        if i.None? then None else Some((Arr(i.value.0), i.value.1))
    else if t[0] == '{' then
      if |t| > 1 && t[1] == '}' then Some((Obj(NoMember), t[2..]))
      else
        var m := ParseMembers(t[1..]);
        if m.None? then None else Some((Obj(m.value.0), m.value.1))
    else if Word(true) <= t then Some((Bool(true), t[|Word(true)|..]))
    else if Word(false) <= t then Some((Bool(false), t[|Word(false)|..]))
    else
      var n := DigitCount(t);
      if n == 0 then None else Some((Num(t[..n]), t[n..]))
  }

  /** At least one value, up to the closing bracket. */
  function ParseItems(t: string): (r: Option<(Items, string)>)
    ensures r.Some? ==> |r.value.1| < |t|
    decreases |t|, 1
  {
    var v := ParseValue(t);
    if v.None? || v.value.1 == "" then None
    else if v.value.1[0] == ']' then Some((Item(v.value.0, NoItem), v.value.1[1..]))
    else if v.value.1[0] == ',' then
      var i := ParseItems(v.value.1[1..]);
      if i.None? then None else Some((Item(v.value.0, i.value.0), i.value.1))
    else None
  }

  /** At least one member, up to the closing brace. */
  function ParseMembers(t: string): (r: Option<(Members, string)>)
    ensures r.Some? ==> |r.value.1| < |t|
    decreases |t|, 1
  {
    if t == "" || t[0] != '"' then None
    else
      var k := ReadString(t[1..]);
      StringShortens(t[1..]);
      if k.None? || k.value.1 == "" || k.value.1[0] != ':' then None
      else
        var v := ParseValue(k.value.1[1..]);
        if v.None? || v.value.1 == "" then None
        else if v.value.1[0] == '}' then Some((Member(k.value.0, v.value.0, NoMember), v.value.1[1..]))
        else if v.value.1[0] == ',' then
          var m := ParseMembers(v.value.1[1..]);
          if m.None? then None else Some((Member(k.value.0, v.value.0, m.value.0), m.value.1))
        else None
  }

  lemma {:induction false} StringShortens(t: string)
    ensures ReadString(t).Some? ==> |ReadString(t).value.1| < |t|
    decreases |t|
  {
    hide ReadChar;
    if t != "" && t[0] != '"' && ReadChar(t).Some? {
      StringShortens(t[ReadChar(t).value.1..]);
    }
  }

  function Find(m: Members, key: string): Option<Json> {
    match m
    case NoMember => None
    case Member(k, v, others) => if k == key then Some(v) else Find(others, key)
  }

  // ---------------------------------------------------------------------------
  // Writing values
  // ---------------------------------------------------------------------------

  function Word(on: bool): string { if on then "true" else "false" }

  function Quoted(s: string): string { "\"" + (Escaped(s) + "\"") }

  /** The text of a value with `after` behind it. */
  function PrintTo(v: Json, after: string): string
    decreases v, 0
  {
    match v
    case Str(text) => Quoted(text) + after
    case Num(digits) => digits + after
    case Bool(on) => Word(on) + after
    case Arr(items) => "[" + ItemsTo(items, "]" + after)
    case Obj(members) => "{" + MembersTo(members, "}" + after)
  }

  function ItemsTo(i: Items, after: string): string
    decreases i, 1
  {
    match i
    case NoItem => after
    case Item(v, others) => PrintTo(v, if others.NoItem? then after else "," + ItemsTo(others, after))
  }

  function MembersTo(m: Members, after: string): string
    decreases m, 1
  {
    match m
    case NoMember => after
    case Member(key, v, others) =>
      Quoted(key) + (":" + PrintTo(v, if others.NoMember? then after else "," + MembersTo(others, after)))
  }

  /** Numbers consist of digits. */
  predicate Proper(v: Json)
    decreases v, 0
  {
    match v
    case Num(digits) => digits != "" && forall c <- digits :: Digit(c)
    case Arr(items) => ProperItems(items)
    case Obj(members) => ProperMembers(members)
    case _ => true
  }

  predicate ProperItems(i: Items)
    decreases i, 1
  {
    i.Item? ==> Proper(i.value) && ProperItems(i.others)
  }

  predicate ProperMembers(m: Members)
    decreases m, 1
  {
    m.Member? ==> Proper(m.value) && ProperMembers(m.others)
  }

  /** No number is continued. */
  predicate Ends(after: string) { after == "" || !Digit(after[0]) }

  lemma {:induction false} CountsDigits(digits: string, rest: string)
    requires forall c <- digits :: Digit(c)
    requires Ends(rest)
    ensures DigitCount(digits + rest) == |digits|
  {
    hide Digit;
    if digits == "" {
      assert digits + rest == rest;
    } else {
      assert (digits + rest)[1..] == digits[1..] + rest;
      CountsDigits(digits[1..], rest);
    }
  }

  lemma Split(a: string, b: string)
    ensures a <= a + b && (a + b)[|a|..] == b && (a + b)[..|a|] == a
  {
  }

  lemma Associative(a: string, b: string, c: string)
    ensures (a + b) + c == a + (b + c)
  {
  }

  lemma QuotedReads(s: string, after: string)
    ensures var t := Quoted(s) + after; t != "" && t[0] == '"' && ReadString(t[1..]) == Some((s, after))
  {
    hide ReadString, Escaped;
    ReadsBack(s, after);
    Associative("\"", Escaped(s) + "\"", after);
    Split("\"", Escaped(s) + "\"" + after);
  }

  lemma ParseString(s: string, after: string)
    ensures ParseValue(Quoted(s) + after) == Some((Str(s), after))
  {
    hide ReadString, Quoted;
    QuotedReads(s, after);
  }

  lemma ParseNumber(digits: string, after: string)
    requires digits != "" && (forall c <- digits :: Digit(c)) && Ends(after)
    ensures ParseValue(digits + after) == Some((Num(digits), after))
  {
    hide ReadString, DigitCount;
    CountsDigits(digits, after);
    Split(digits, after);
    assert Digit((digits + after)[0]);
    assert Word(true)[0] == 't' && Word(false)[0] == 'f';
  }

  lemma ParseFlag(on: bool, after: string)
    ensures ParseValue(Word(on) + after) == Some((Bool(on), after))
  {
    hide ReadString, DigitCount;
    Split(Word(on), after);
    assert (Word(false) + after)[0] == 'f' && (Word(true) + after)[0] == 't';
    assert Word(true)[0] == 't' && Word(false)[0] == 'f';
  }

  lemma PrintStarts(v: Json, after: string)
    requires Proper(v)
    ensures var t := PrintTo(v, after); t != "" && t[0] != ']' && t[0] != '}'
  {
    hide Escaped;
    match v
    case Num(digits) => assert PrintTo(v, after)[0] == digits[0] && Digit(digits[0]);
    case _ =>
  }

  lemma ItemsStart(i: Items, after: string)
    requires i.Item? && ProperItems(i)
    ensures var t := ItemsTo(i, after); t != "" && t[0] != ']'
  {
    hide PrintTo;
    PrintStarts(i.value, if i.others.NoItem? then after else "," + ItemsTo(i.others, after));
  }

  lemma MembersStart(m: Members, after: string)
    requires m.Member?
    ensures var t := MembersTo(m, after); t != "" && t[0] == '"'
  {
    hide PrintTo, Escaped;
  }

  /** A reader gets every value back, whatever texts are in it and whatever follows. */
  lemma {:induction false} JsonReadsBack(v: Json, after: string)
    requires Proper(v) && Ends(after)
    ensures ParseValue(PrintTo(v, after)) == Some((v, after))
    decreases v, 0
  {
    hide ReadString, Quoted, Escaped, DigitCount, ParseItems, ParseMembers;
    match v
    case Str(text) => ParseString(text, after);
    case Num(digits) => ParseNumber(digits, after);
    case Bool(on) => ParseFlag(on, after);
    case Arr(items) =>
      Split("[", ItemsTo(items, "]" + after));
      if items.Item? {
        ItemsStart(items, "]" + after);
        ItemsReadBack(items, after);
      } else {
        Split("[]", after);
        assert "[" + ("]" + after) == "[]" + after;
      }
    case Obj(members) =>
      Split("{", MembersTo(members, "}" + after));
      if members.Member? {
        MembersStart(members, "}" + after);
        MembersReadBack(members, after);
      } else {
        Split("{}", after);
        assert "{" + ("}" + after) == "{}" + after;
      }
  }

  lemma {:induction false} ItemsReadBack(i: Items, after: string)
    requires i.Item? && ProperItems(i)
    ensures ParseItems(ItemsTo(i, "]" + after)) == Some((i, after))
    decreases i, 1
  {
    hide ReadString, ParseValue, PrintTo;
    var next := if i.others.NoItem? then "]" + after else "," + ItemsTo(i.others, "]" + after);
    JsonReadsBack(i.value, next);
    if i.others.Item? {
      ItemsReadBack(i.others, after);
      Split(",", ItemsTo(i.others, "]" + after));
    } else {
      Split("]", after);
    }
  }

  lemma {:induction false} MembersReadBack(m: Members, after: string)
    requires m.Member? && ProperMembers(m)
    ensures ParseMembers(MembersTo(m, "}" + after)) == Some((m, after))
    decreases m, 1
  {
    hide ReadString, ParseValue, PrintTo, Quoted;
    var next := if m.others.NoMember? then "}" + after else "," + MembersTo(m.others, "}" + after);
    QuotedReads(m.key, ":" + PrintTo(m.value, next));
    Split(":", PrintTo(m.value, next));
    JsonReadsBack(m.value, next);
    if m.others.Member? {
      MembersReadBack(m.others, after);
      Split(",", MembersTo(m.others, "}" + after));
    } else {
      Split("}", after);
    }
  }

  // ---------------------------------------------------------------------------
  // The command
  // ---------------------------------------------------------------------------

  /** The fields of the command; numbers as their decimal digits. */
  datatype Command = Command(
    model: string, sn: string, force: bool, firmwareType: string, fileSize: string, version: string,
    downloadUrl: string, fileMd5: string, recordId: string)

  predicate WellFormed(c: Command) {
    && c.firmwareType != "" && (forall d <- c.firmwareType :: Digit(d))
    && c.fileSize != "" && (forall d <- c.fileSize :: Digit(d))
    && (forall d <- c.version :: Digit(d))
  }

  /** The serial number as the device knows it, prefixed with the model. */
  function OtaSnField(model: string, sn: string): string { ScanList.Trim(model) + ScanList.Trim(sn) }

  /** The template filled in, texts escaped and trimmed where the source does so. */
  function BuildHttpOtaCmdJson(c: Command): string {
    "[{\"sn\":" + (Quoted(OtaSnField(c.model, c.sn))
    + (",\"model\":" + (Quoted(ScanList.Trim(c.model))
    + (",\"force\":" + (Word(c.force)
    + (",\"details\":[{\"firmwareType\":" + (c.firmwareType
    + Details(c))))))))
  }

  function Details(c: Command): string {
    ",\"fileSize\":" + (c.fileSize
    + (",\"version\":" + (Quoted(c.version)
    + (",\"downloadUrl\":" + (Quoted(c.downloadUrl)
    + Identity(c))))))
  }

  function Identity(c: Command): string {
    ",\"fileMd5\":" + (Quoted(ScanList.Trim(c.fileMd5))
    + (",\"encrypted\":false,\"recordId\":" + (Quoted(ScanList.Trim(c.recordId))
    + "}]}]")))
  }

  /** The fields of the command as a JSON reader finds them. */
  ghost predicate Carries(v: Json, c: Command) {
    && v.Arr? && v.items.Item? && v.items.others.NoItem? && v.items.value.Obj?
    && var o := v.items.value.members;
       && Find(o, "sn") == Some(Str(ScanList.Trim(c.model) + ScanList.Trim(c.sn)))
       && Find(o, "model") == Some(Str(ScanList.Trim(c.model)))
       && Find(o, "force") == Some(Bool(c.force))
       && Find(o, "details").Some? && CarriesDetails(Find(o, "details").value, c)
  }

  ghost predicate CarriesDetails(v: Json, c: Command) {
    && v.Arr? && v.items.Item? && v.items.others.NoItem? && v.items.value.Obj?
    && var o := v.items.value.members;
       && Find(o, "firmwareType") == Some(Num(c.firmwareType))
       && Find(o, "fileSize") == Some(Num(c.fileSize))
       && Find(o, "version") == Some(Str(c.version))
       && Find(o, "downloadUrl") == Some(Str(c.downloadUrl))
       && Find(o, "fileMd5") == Some(Str(ScanList.Trim(c.fileMd5)))
       && Find(o, "encrypted") == Some(Bool(false))
       && Find(o, "recordId") == Some(Str(ScanList.Trim(c.recordId)))
  }

  function IdentityTree(c: Command): Members {
    Member("fileMd5", Str(ScanList.Trim(c.fileMd5)),
    Member("encrypted", Bool(false), Member("recordId", Str(ScanList.Trim(c.recordId)), NoMember)))
  }

  function DetailsTree(c: Command): Members {
    Member("fileSize", Num(c.fileSize),
    Member("version", Str(c.version), Member("downloadUrl", Str(c.downloadUrl), IdentityTree(c))))
  }

  function DetailsList(c: Command): Json {
    Arr(Item(Obj(Member("firmwareType", Num(c.firmwareType), DetailsTree(c))), NoItem))
  }

  function Tree(c: Command): Json {
    Arr(Item(Obj(
      Member("sn", Str(OtaSnField(c.model, c.sn)),
      Member("model", Str(ScanList.Trim(c.model)),
      Member("force", Bool(c.force),
      Member("details", DetailsList(c), NoMember))))), NoItem))
  }

  predicate PlainText(s: string) { forall c <- s :: Plain(c) }

  /** The fixed text in front of a member's value. */
  function KeyText(key: string): string { ",\"" + key + "\":" }

  /** What follows a member. */
  function Behind(others: Members, after: string): string {
    if others.NoMember? then after else "," + MembersTo(others, after)
  }

  lemma KeyGoesFirst(key: string, x: string)
    requires PlainText(key)
    ensures Quoted(key) + (":" + x) == ("\"" + key + "\":") + x
    ensures "," + (Quoted(key) + (":" + x)) == KeyText(key) + x
  {
    hide Escaped, Plain;
    Unchanged(key);
  }

  lemma MemberText(key: string, v: Json, others: Members, after: string)
    requires PlainText(key)
    ensures MembersTo(Member(key, v, others), after) == ("\"" + key + "\":") + PrintTo(v, Behind(others, after))
    ensures Behind(Member(key, v, others), after) == KeyText(key) + PrintTo(v, Behind(others, after))
  {
    KeyGoesFirst(key, PrintTo(v, Behind(others, after)));
    hide PrintTo, KeyText, PlainText, Quoted;
  }

  lemma ModelKey()
    ensures KeyText("model") == ",\"model\":" && PlainText("model")
  {
  }

  lemma ForceKey()
    ensures KeyText("force") == ",\"force\":" && PlainText("force")
  {
  }

  lemma DetailsKey()
    ensures KeyText("details") == ",\"details\":" && PlainText("details")
  {
  }

  lemma FileSizeKey()
    ensures KeyText("fileSize") == ",\"fileSize\":" && PlainText("fileSize")
  {
  }

  lemma VersionKey()
    ensures KeyText("version") == ",\"version\":" && PlainText("version")
  {
  }

  lemma DownloadUrlKey()
    ensures KeyText("downloadUrl") == ",\"downloadUrl\":" && PlainText("downloadUrl")
  {
  }

  lemma FileMd5Key()
    ensures KeyText("fileMd5") == ",\"fileMd5\":" && PlainText("fileMd5")
  {
  }

  lemma EncryptedKey()
    ensures KeyText("encrypted") == ",\"encrypted\":" && PlainText("encrypted")
  {
  }

  lemma RecordIdKey()
    ensures KeyText("recordId") == ",\"recordId\":" && PlainText("recordId")
  {
  }

  lemma FirstKeys()
    ensures "\"" + "sn" + "\":" == "\"sn\":" && PlainText("sn")
    ensures "\"" + "firmwareType" + "\":" == "\"firmwareType\":" && PlainText("firmwareType")
  {
  }

  lemma EncryptedText(x: string)
    ensures ",\"encrypted\":" + (Word(false) + (",\"recordId\":" + x)) == ",\"encrypted\":false,\"recordId\":" + x
  {
    Associative(",\"encrypted\":", "false", ",\"recordId\":" + x);
    Associative(",\"encrypted\":" + "false", ",\"recordId\":", x);
  }

  lemma DetailsText(x: string)
    ensures ",\"details\":" + ("[" + ("{" + ("\"firmwareType\":" + x))) == ",\"details\":[{\"firmwareType\":" + x
  {
    Associative("{", "\"firmwareType\":", x);
    Associative("[", "{" + "\"firmwareType\":", x);
    Associative(",\"details\":", "[" + ("{" + "\"firmwareType\":"), x);
  }

  lemma OpeningText(x: string)
    ensures "[" + ("{" + ("\"sn\":" + x)) == "[{\"sn\":" + x
  {
    Associative("{", "\"sn\":", x);
    Associative("[", "{" + "\"sn\":", x);
  }

  /** The brackets the text ends with. */
  function Closing(): string { "}" + ("]" + ("}" + ("]" + ""))) }

  lemma ClosingText()
    ensures Closing() == "}]}]"
  {
  }

  lemma IdentityIs(c: Command)
    ensures Identity(c) == Behind(IdentityTree(c), Closing())
  {
    hide Quoted, Behind, MembersTo, KeyText, PlainText, ScanList.Trim, Closing, Word;
    var m3 := Member("recordId", Str(ScanList.Trim(c.recordId)), NoMember);
    var m2 := Member("encrypted", Bool(false), m3);
    RecordIdKey();
    EncryptedKey();
    FileMd5Key();
    MemberText("recordId", m3.value, NoMember, Closing());
    MemberText("encrypted", m2.value, m3, Closing());
    MemberText("fileMd5", Str(ScanList.Trim(c.fileMd5)), m2, Closing());
    BehindNothing(Closing());
    ClosingText();
    EncryptedText(Quoted(ScanList.Trim(c.recordId)) + "}]}]");
  }

  lemma BehindNothing(after: string)
    ensures Behind(NoMember, after) == after
  {
  }

  lemma DetailsIs(c: Command)
    ensures Details(c) == Behind(DetailsTree(c), Closing())
  {
    hide Quoted, Behind, MembersTo, KeyText, PlainText, Identity, IdentityTree, Closing;
    var m3 := Member("downloadUrl", Str(c.downloadUrl), IdentityTree(c));
    var m2 := Member("version", Str(c.version), m3);
    DownloadUrlKey();
    VersionKey();
    FileSizeKey();
    IdentityIs(c);
    MemberText("downloadUrl", m3.value, IdentityTree(c), Closing());
    MemberText("version", m2.value, m3, Closing());
    MemberText("fileSize", Num(c.fileSize), m2, Closing());
  }

  /** The list of details, and everything behind it. */
  lemma DetailsListIs(c: Command)
    ensures PrintTo(DetailsList(c), "}" + ("]" + ""))
         == "[" + ("{" + ("\"firmwareType\":" + (c.firmwareType + Details(c))))
  {
    FirstKeys();
    DetailsIs(c);
    MemberText("firmwareType", Num(c.firmwareType), DetailsTree(c), Closing());
    var m := Member("firmwareType", Num(c.firmwareType), DetailsTree(c));
    ObjectInList(m);
    var after := "}" + ("]" + "");
    assert PrintTo(DetailsList(c), after) == "[" + ("{" + MembersTo(m, "}" + ("]" + after)));
    hide Quoted, Behind, MembersTo, KeyText, PlainText, Details, DetailsTree;
  }

  lemma CommandIs(c: Command)
    ensures BuildHttpOtaCmdJson(c) == PrintTo(Tree(c), "")
  {
    hide Quoted, Behind, MembersTo, KeyText, PlainText, Details, DetailsList, OtaSnField, ScanList.Trim, Word;
    var m4 := Member("details", DetailsList(c), NoMember);
    var m3 := Member("force", Bool(c.force), m4);
    var m2 := Member("model", Str(ScanList.Trim(c.model)), m3);
    var after := "}" + ("]" + "");
    FirstKeys();
    ModelKey();
    ForceKey();
    DetailsKey();
    DetailsListIs(c);
    BehindNothing(after);
    MemberText("details", m4.value, NoMember, after);
    MemberText("force", m3.value, m4, after);
    MemberText("model", m2.value, m3, after);
    MemberText("sn", Str(OtaSnField(c.model, c.sn)), m2, after);
    DetailsText(c.firmwareType + Details(c));
    var x := Quoted(OtaSnField(c.model, c.sn)) + Behind(m2, after);
    OpeningText(x);
    ObjectInList(Member("sn", Str(OtaSnField(c.model, c.sn)), m2));
  }

  lemma ObjectInList(m: Members)
    ensures forall after :: PrintTo(Arr(Item(Obj(m), NoItem)), after) == "[" + ("{" + MembersTo(m, "}" + ("]" + after)))
  {
    hide MembersTo;
    forall after
      ensures PrintTo(Arr(Item(Obj(m), NoItem)), after) == "[" + ("{" + MembersTo(m, "}" + ("]" + after)))
    {
      assert ItemsTo(Item(Obj(m), NoItem), "]" + after) == PrintTo(Obj(m), "]" + after);
      assert PrintTo(Obj(m), "]" + after) == "{" + MembersTo(m, "}" + ("]" + after));
    }
  }

  lemma IdentityProper(c: Command)
    ensures ProperMembers(IdentityTree(c))
  {
    assert ProperMembers(IdentityTree(c).others.others);
    assert ProperMembers(IdentityTree(c).others);
  }

  lemma DetailsProper(c: Command)
    requires WellFormed(c)
    ensures ProperMembers(DetailsTree(c)) && Proper(DetailsList(c))
  {
    IdentityProper(c);
    hide Digit, IdentityTree;
    assert ProperMembers(DetailsTree(c).others.others);
    assert ProperMembers(DetailsTree(c).others);
    assert ProperMembers(DetailsTree(c));
    hide DetailsTree;
    var m := Member("firmwareType", Num(c.firmwareType), DetailsTree(c));
    assert ProperMembers(m);
    assert ProperItems(Item(Obj(m), NoItem));
  }

  lemma TreeProper(c: Command)
    requires WellFormed(c)
    ensures Proper(Tree(c))
  {
    DetailsProper(c);
    hide Digit, DetailsList;
    var m := Member("sn", Str(OtaSnField(c.model, c.sn)), Member("model", Str(ScanList.Trim(c.model)),
                    Member("force", Bool(c.force), Member("details", DetailsList(c), NoMember))));
    assert ProperMembers(m.others.others.others);
    assert ProperMembers(m.others.others);
    assert ProperMembers(m.others);
    assert ProperMembers(m);
    assert Proper(Obj(m));
    assert ProperItems(Item(Obj(m), NoItem));
  }

  lemma Found(key: string, v: Json, others: Members, other: string)
    ensures Find(Member(key, v, others), key) == Some(v)
    ensures other != key ==> Find(Member(key, v, others), other) == Find(others, other)
  {
  }

  /** A JSON reader, which knows nothing of the template, finds every field under its name in the
      text of every command: no value can break out of its place. */
  lemma CommandReadsBack(c: Command)
    requires WellFormed(c)
    ensures var r := ParseValue(BuildHttpOtaCmdJson(c));
            r.Some? && r.value.1 == "" && Carries(r.value.0, c)
  {
    hide *;
    CommandIs(c);
    TreeProper(c);
    TreeCarries(c);
    NothingFollows();
    JsonReadsBack(Tree(c), "");
  }

  /** What the device is meant to receive: trimmed texts, the serial number prefixed with the model. */
  function Intended(c: Command): Command {
    c.(model := ScanList.Trim(c.model), sn := OtaSnField(c.model, c.sn), fileMd5 := ScanList.Trim(c.fileMd5),
       recordId := ScanList.Trim(c.recordId))
  }

  /** So commands with the same text have the same fields. */
  lemma SameText(c: Command, d: Command)
    requires WellFormed(c) && WellFormed(d) && BuildHttpOtaCmdJson(c) == BuildHttpOtaCmdJson(d)
    ensures Intended(c) == Intended(d)
  {
    hide BuildHttpOtaCmdJson, ParseValue, ScanList.Trim, Find;
    CommandReadsBack(c);
    CommandReadsBack(d);
  }

  lemma TreeCarries(c: Command)
    ensures Carries(Tree(c), c)
  {
    DetailsCarry(c);
    hide DetailsList, CarriesDetails, ScanList.Trim, Find;
    var m4 := Member("details", DetailsList(c), NoMember);
    var m3 := Member("force", Bool(c.force), m4);
    var m2 := Member("model", Str(ScanList.Trim(c.model)), m3);
    var sn := Str(OtaSnField(c.model, c.sn));
    assert "force"[0] == 'f' && "model"[0] == 'm';
    Found("details", m4.value, NoMember, "details");
    Found("force", m3.value, m4, "details");
    Found("model", m2.value, m3, "force");
    Found("model", m2.value, m3, "details");
    Found("sn", sn, m2, "model");
    Found("sn", sn, m2, "force");
    Found("sn", sn, m2, "details");
  }

  lemma DetailsCarry(c: Command)
    ensures CarriesDetails(DetailsList(c), c)
  {
    hide ScanList.Trim, Find;
    var m7 := Member("recordId", Str(ScanList.Trim(c.recordId)), NoMember);
    var m6 := Member("encrypted", Bool(false), m7);
    var m5 := Member("fileMd5", Str(ScanList.Trim(c.fileMd5)), m6);
    var m4 := Member("downloadUrl", Str(c.downloadUrl), m5);
    var m3 := Member("version", Str(c.version), m4);
    var m2 := Member("fileSize", Num(c.fileSize), m3);
    assert "fileSize"[0] == 'f' && "recordId"[0] == 'r' && "version"[0] == 'v' && "fileMd5"[0] == 'f';
    Found("recordId", m7.value, NoMember, "recordId");
    Found("encrypted", m6.value, m7, "recordId");
    FoundLater(m5, "encrypted");
    FoundLater(m5, "recordId");
    FoundLater(m4, "fileMd5");
    FoundLater(m4, "encrypted");
    FoundLater(m4, "recordId");
    FoundLater(m3, "downloadUrl");
    FoundLater(m3, "fileMd5");
    FoundLater(m3, "encrypted");
    FoundLater(m3, "recordId");
    FoundLater(m2, "version");
    FoundLater(m2, "downloadUrl");
    FoundLater(m2, "fileMd5");
    FoundLater(m2, "encrypted");
    FoundLater(m2, "recordId");
    var m1 := Member("firmwareType", Num(c.firmwareType), m2);
    FoundLater(m1, "fileSize");
    FoundLater(m1, "version");
    FoundLater(m1, "downloadUrl");
    FoundLater(m1, "fileMd5");
    FoundLater(m1, "encrypted");
    FoundLater(m1, "recordId");
    assert DetailsTree(c) == m2;
  }

  lemma FoundLater(m: Members, other: string)
    requires m.Member? && m.key != other
    ensures Find(m, m.key) == Some(m.value) && Find(m, other) == Find(m.others, other)
  {
  }

  lemma NothingFollows()
    ensures Ends("")
  {
  }

  // ---------------------------------------------------------------------------
  // The frame
  // ---------------------------------------------------------------------------

  newtype Byte = b: int | 0 <= b < 256

  datatype Result<T> = Ok(value: T) | Err(error: string)

  method BuildHttpOtaFrame(json: seq<Byte>) returns (r: Result<seq<Byte>>)
    ensures r.Ok? <==> 1 <= |json| <= 0xFFFF
    ensures r.Ok? ==> |r.value| == 4 + |json| && r.value[..2] == [0x00, 0x09] && r.value[4..] == json
    ensures r.Ok? ==> forall rest :: ReadFrame(r.value + rest) == Some((json, rest))
  {
    if json == [] {
      return Err("empty");
    }
    if |json| > 0xFFFF {
      return Err("too long");
    }
    var out: seq<Byte> := [];
    out := out + [0x00];
    out := out + [0x09];
    out := out + [(|json| / 256) as Byte, (|json| % 256) as Byte];
    out := out + json;
    forall rest
      ensures ReadFrame(out + rest) == Some((json, rest))
    {
      FrameReadsBack(json, out, rest);
    }
    return Ok(out);
  }

  /** The JSON of the command frame a stream starts with, and the rest of the stream. */
  function ReadFrame(t: seq<Byte>): Option<(seq<Byte>, seq<Byte>)> {
    if |t| < 4 || t[0] != 0 || t[1] != 9 then None
    else
      var n := t[2] as int * 256 + t[3] as int;
      if |t| < 4 + n then None else Some((t[4..4 + n], t[4 + n..]))
  }

  lemma FrameReadsBack(json: seq<Byte>, frame: seq<Byte>, rest: seq<Byte>)
    requires |json| <= 0xFFFF
    requires frame == [0, 9, (|json| / 256) as Byte, (|json| % 256) as Byte] + json
    ensures ReadFrame(frame + rest) == Some((json, rest))
  {
    var t := frame + rest;
    assert t[..4] == frame[..4];
    assert t[2] as int * 256 + t[3] as int == |json|;
    assert t[4..4 + |json|] == json;
    assert t[4 + |json|..] == rest;
  }
}
