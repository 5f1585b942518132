/** The information text: byte for byte what it is, and what a reader of JSON makes of it. */
module InfoText {
  import opened Bytes
  import opened BootloaderMachine

  // ---- hexadecimal digits ---------------------------------------------------------------

  /** Hexadecimal digits, most significant first, as a number. */
  function HexValue(digits: seq<u8>): int {
    if digits == [] then 0
    else
      16 * HexValue(digits[..|digits| - 1]) + DigitValue(digits[|digits| - 1])
  }

  function DigitValue(c: u8): int {
    if c < 0x3A then (c as int) - 0x30 else (c as int) - 0x61 + 10
  }

  lemma HexDigitValue(n: nat)
    requires n < 16
    ensures DigitValue(HexDigit(n)) == n
  {
  }

  lemma TwoDigits(rest: seq<u8>, b: u8)
    ensures HexValue(rest + [HexDigit(b / 16), HexDigit(b % 16)]) == 256 * HexValue(rest) + b
  {
    var one := rest + [HexDigit(b / 16)];
    var two := rest + [HexDigit(b / 16), HexDigit(b % 16)];
    assert two[..|two| - 1] == one && one[..|one| - 1] == rest;
    HexDigitValue(b / 16);
    HexDigitValue(b % 16);
  }

  /** The digits of a word parse back to its value. */
  lemma DigitsParse(word: seq<u8>)
    requires |word| == 4
    ensures HexValue(HexDigits(word)) == ReadU32(word)
  {
    var a := [HexDigit(word[3] / 16), HexDigit(word[3] % 16)];
    var b := a + [HexDigit(word[2] / 16), HexDigit(word[2] % 16)];
    var c := b + [HexDigit(word[1] / 16), HexDigit(word[1] % 16)];
    TwoDigits([], word[3]);
    assert [] + a == a;
    TwoDigits(a, word[2]);
    TwoDigits(b, word[1]);
    TwoDigits(c, word[0]);
    assert HexDigits(word) == c + [HexDigit(word[0] / 16), HexDigit(word[0] % 16)];
  }

  // ---- the text, in full ---------------------------------------------------------------

  predicate LowerHex(digits: seq<u8>) {
    forall i :: 0 <= i < |digits| ==> 0x30 <= digits[i] <= 0x39 || 0x61 <= digits[i] <= 0x66
  }

  /** The text for a version and a start address: its eight digits are lower-case hexadecimal and have the value of the
      address. */
  predicate Shows(text: seq<u8>, version: seq<u8>, address: u32) {
    |text| == 70 + |version|
    && var digits := text[34 + |version|..42 + |version|];
    && LowerHex(digits) && HexValue(digits) == address
    && text == Ascii("{\"version\":\"") + version + Ascii("\", \"start_address\":\"0x") + digits
         + Ascii("\", \"name\":\"Tock Bootloader\"}")
  }

  lemma AsciiConcat(a: string, b: string)
    ensures Ascii(a + b) == Ascii(a) + Ascii(b)
  {
  }

  lemma Tail()
    ensures JsonComma() + JsonName() == Ascii("\", \"name\":\"Tock Bootloader\"}")
  {
    AsciiConcat("\", ", "\"name\":\"Tock Bootloader\"}");
    assert "\", " + "\"name\":\"Tock Bootloader\"}" == "\", \"name\":\"Tock Bootloader\"}";
  }

  lemma DigitsAreLower(word: seq<u8>)
    requires |word| == 4
    ensures LowerHex(HexDigits(word))
  {
  }

  /** What the bootloader sends is that text, for the version and the address in the flags. */
  lemma TextShows(flags: seq<u8>)
    requires |flags| == 36
    ensures Shows(InfoJson(flags), Version(flags[14..22]), ReadU32(flags[32..36]))
  {
    var v, h := Version(flags[14..22]), HexDigits(flags[32..36]);
    DigitsAreLower(flags[32..36]);
    DigitsParse(flags[32..36]);
    Tail();
    var (a, b, c) := (JsonVersion(), JsonStart(), Ascii("\", \"name\":\"Tock Bootloader\"}"));
    hide HexDigits, Version, HexValue, Ascii, LowerHex;
    assert |c| == 28;
    assert InfoJson(flags) == a + v + b + h + c;
    MiddleOf(a + v + b, h, c);
  }

  /** No byte of it is left open: the digits are determined by their value. */
  lemma ShowsOneText(t1: seq<u8>, t2: seq<u8>, version: seq<u8>, address: u32)
    requires Shows(t1, version, address) && Shows(t2, version, address)
    ensures t1 == t2
  {
    hide HexValue, Ascii, LowerHex;
    ValueDetermines(t1[34 + |version|..42 + |version|], t2[34 + |version|..42 + |version|]);
  }

  lemma {:induction false} ValueDetermines(a: seq<u8>, b: seq<u8>)
    requires |a| == |b| && LowerHex(a) && LowerHex(b) && HexValue(a) == HexValue(b)
    ensures a == b
    decreases |a|
  {
    hide *;
    if a != [] {
      var n := |a| - 1;
      LastSplits(a);
      LastSplits(b);
      LastDigit(a[n], b[n], HexValue(a[..n]), HexValue(b[..n]));
      ValueDetermines(a[..n], b[..n]);
    }
  }

  lemma LastSplits(a: seq<u8>)
    requires a != [] && LowerHex(a)
    ensures var (init, last) := (a[..|a| - 1], a[|a| - 1]);
      && a == init + [last] && LowerHex(init) && LowerHex([last])
      && HexValue(a) == 16 * HexValue(init) + DigitValue(last)
  {
    hide *;
    LowerSplits(a);
    ValueSplits(a);
    InitAndLast(a);
  }

  lemma InitAndLast(a: seq<u8>)
    requires a != []
    ensures a == a[..|a| - 1] + [a[|a| - 1]]
  {
  }

  lemma LowerSplits(a: seq<u8>)
    requires a != [] && LowerHex(a)
    ensures LowerHex(a[..|a| - 1]) && LowerHex([a[|a| - 1]])
  {
  }

  lemma ValueSplits(a: seq<u8>)
    requires a != []
    ensures HexValue(a) == 16 * HexValue(a[..|a| - 1]) + DigitValue(a[|a| - 1])
  {
  }

  lemma LastDigit(a: u8, b: u8, x: int, y: int)
    requires LowerHex([a]) && LowerHex([b]) && 16 * x + DigitValue(a) == 16 * y + DigitValue(b)
    ensures x == y && a == b
  {
    assert LowerHex([a]) ==> 0x30 <= [a][0] <= 0x39 || 0x61 <= [a][0] <= 0x66;
    assert LowerHex([b]) ==> 0x30 <= [b][0] <= 0x39 || 0x61 <= [b][0] <= 0x66;
  }

  // ---- read as JSON ------------------------------------------------------------------------

  /** A member of an object whose values are strings. */
  datatype Member = Member(key: seq<u8>, value: seq<u8>)

  datatype ReadString = ReadString(text: seq<u8>, rest: seq<u8>)
  datatype ReadMember = ReadMember(member: Member, rest: seq<u8>)

  /** A character that stands for itself in a JSON string (section 7 of RFC 8259). */
  predicate ForItself(b: u8) {
    b >= 0x20 && b != 0x22 && b != 0x5C
  }

  predicate AllForThemselves(s: seq<u8>) {
    forall i :: 0 <= i < |s| ==> ForItself(s[i])
  }

  /** The rest of a string without escapes, up to the closing quote. */
  function StringEnd(t: seq<u8>): (r: Option<ReadString>)
    ensures r.Some? ==> |r.value.rest| < |t|
    ensures r.Some? ==> AllForThemselves(r.value.text)
  {
    if t == [] then None
    else if t[0] == 0x22 then Some(ReadString([], t[1..]))
    else if !ForItself(t[0]) then None
    else
      match StringEnd(t[1..])
      case None => None
      case Some(s) => Some(ReadString([t[0]] + s.text, s.rest))
  }

  function String(t: seq<u8>): (r: Option<ReadString>)
    ensures r.Some? ==> |r.value.rest| < |t|
    ensures r.Some? ==> AllForThemselves(r.value.text)
  {
    if t == [] || t[0] != 0x22 then None else StringEnd(t[1..])
  }

  function SkipSpace(t: seq<u8>): (r: seq<u8>)
    ensures |r| <= |t|
  {
    if t != [] && (t[0] == 0x20 || t[0] == 0x09 || t[0] == 0x0A || t[0] == 0x0D) then SkipSpace(t[1..]) else t
  }

  function MemberAt(t: seq<u8>): (r: Option<ReadMember>)
    ensures r.Some? ==> |r.value.rest| < |t|
    ensures r.Some? ==> AllForThemselves(r.value.member.value)
  {
    match String(SkipSpace(t))
    case None => None
    case Some(key) =>
      var colon := SkipSpace(key.rest);
      if colon == [] || colon[0] != 0x3A then None
      else
        match String(SkipSpace(colon[1..]))
        case None => None
        case Some(value) => Some(ReadMember(Member(key.text, value.text), SkipSpace(value.rest)))
  }

  function Members(t: seq<u8>): (r: Option<seq<Member>>)
    ensures r.Some? ==> forall i :: 0 <= i < |r.value| ==> AllForThemselves(r.value[i].value)
    decreases |t|
  {
    match MemberAt(t)
    case None => None
    case Some(first) =>
      if first.rest == [] then None
      else if first.rest[0] == 0x2C then
        match Members(first.rest[1..])
        case None => None
        case Some(others) => Some([first.member] + others)
      else if first.rest[0] == 0x7D && SkipSpace(first.rest[1..]) == [] then Some([first.member])
      else None
  }

  /** A JSON text that is one object of one or more string members. */
  function Object(t: seq<u8>): (r: Option<seq<Member>>)
    ensures r.Some? ==> forall i :: 0 <= i < |r.value| ==> AllForThemselves(r.value[i].value)
  {
    var open := SkipSpace(t);
    if open == [] || open[0] != 0x7B then None else Members(open[1..])
  }

  lemma {:induction false} StringReads(s: seq<u8>, rest: seq<u8>)
    requires AllForThemselves(s)
    ensures StringEnd(s + ([0x22] + rest)) == Some(ReadString(s, rest))
  {
    var t := s + ([0x22] + rest);
    if s == [] {
      assert t == [0x22] + rest && t[1..] == rest;
    } else {
      assert t[0] == s[0] && t[1..] == s[1..] + ([0x22] + rest) && AllForThemselves(s[1..]);
      StringReads(s[1..], rest);
      assert [s[0]] + s[1..] == s;
    }
  }

  function Quoted(key: seq<u8>, value: seq<u8>): seq<u8> {
    [0x22] + key + [0x22, 0x3A, 0x22] + value + [0x22]
  }

  lemma QuotedParts(key: seq<u8>, value: seq<u8>, rest: seq<u8>)
    ensures Quoted(key, value) + rest == [0x22] + (key + ([0x22] + ([0x3A, 0x22] + (value + ([0x22] + rest)))))
  {
  }

  lemma ValueReads(value: seq<u8>, rest: seq<u8>)
    requires AllForThemselves(value)
    ensures var colon := [0x3A, 0x22] + (value + ([0x22] + rest));
      && SkipSpace(colon) == colon && colon[0] == 0x3A
      && String(SkipSpace(colon[1..])) == Some(ReadString(value, rest))
  {
    var t := value + ([0x22] + rest);
    var colon := [0x3A, 0x22] + t;
    assert colon[1..] == [0x22] + t && ([0x22] + t)[1..] == t;
    StringReads(value, rest);
  }

  lemma MemberIs(t: seq<u8>, key: ReadString, value: ReadString)
    requires String(SkipSpace(t)) == Some(key) && SkipSpace(key.rest) == key.rest != [] && key.rest[0] == 0x3A
    requires String(SkipSpace(key.rest[1..])) == Some(value) && SkipSpace(value.rest) == value.rest
    ensures MemberAt(t) == Some(ReadMember(Member(key.text, value.text), value.rest))
  {
  }

  lemma KeyReads(key: seq<u8>, colon: seq<u8>)
    requires AllForThemselves(key)
    ensures var t := [0x22] + (key + ([0x22] + colon));
      && SkipSpace(t) == SkipSpace([0x20] + t) == t && String(t) == Some(ReadString(key, colon))
  {
    var inner := key + ([0x22] + colon);
    var t := [0x22] + inner;
    StringReads(key, colon);
    assert t[1..] == inner && ([0x20] + t)[1..] == t;
  }

  lemma MemberReads(key: seq<u8>, value: seq<u8>, rest: seq<u8>)
    requires AllForThemselves(key) && AllForThemselves(value) && SkipSpace(rest) == rest
    ensures MemberAt(Quoted(key, value) + rest) == Some(ReadMember(Member(key, value), rest))
    ensures MemberAt([0x20] + Quoted(key, value) + rest) == Some(ReadMember(Member(key, value), rest))
  {
    hide *;
    var t, colon := Quoted(key, value) + rest, [0x3A, 0x22] + (value + ([0x22] + rest));
    QuotedParts(key, value, rest);
    KeyReads(key, colon);
    ValueReads(value, rest);
    MemberIs(t, ReadString(key, colon), ReadString(value, rest));
    MemberIs([0x20] + t, ReadString(key, colon), ReadString(value, rest));
    assert [0x20] + Quoted(key, value) + rest == [0x20] + t;
  }

  lemma MoreReads(key: seq<u8>, value: seq<u8>, rest: seq<u8>)
    requires AllForThemselves(key) && AllForThemselves(value) && Members(rest).Some?
    ensures Members(Quoted(key, value) + ([0x2C] + rest)) == Some([Member(key, value)] + Members(rest).value)
    ensures Members([0x20] + Quoted(key, value) + ([0x2C] + rest)) == Some([Member(key, value)] + Members(rest).value)
  {
    hide MemberAt, AllForThemselves, Quoted;
    var more := [0x2C] + rest;
    assert SkipSpace(more) == more && more[1..] == rest;
    MemberReads(key, value, more);
  }

  lemma LastReads(key: seq<u8>, value: seq<u8>)
    requires AllForThemselves(key) && AllForThemselves(value)
    ensures Members([0x20] + Quoted(key, value) + [0x7D]) == Some([Member(key, value)])
  {
    hide MemberAt, AllForThemselves, Quoted;
    assert [0x7D][1..] == [] && SkipSpace([0x7D]) == [0x7D];
    MemberReads(key, value, [0x7D]);
  }

  function Third(): seq<u8> {
    [0x20] + Quoted(Ascii("name"), Ascii("Tock Bootloader")) + [0x7D]
  }

  function Second(digits: seq<u8>): seq<u8> {
    [0x20] + Quoted(Ascii("start_address"), Ascii("0x") + digits) + ([0x2C] + Third())
  }

  function First(version: seq<u8>, digits: seq<u8>): seq<u8> {
    Quoted(Ascii("version"), version) + ([0x2C] + Second(digits))
  }

  lemma BeginsWith()
    ensures Ascii("{\"version\":\"") == [0x7B] + ([0x22] + Ascii("version") + [0x22, 0x3A, 0x22])
  {
  }

  lemma StartString()
    ensures "\", \"" + "start_address" + "\":\"" + "0x" == "\", \"start_address\":\"0x"
  {
  }

  lemma NameString()
    ensures "\", \"" + "name" + "\":\"" + "Tock Bootloader" + "\"}" == "\", \"name\":\"Tock Bootloader\"}"
  {
  }

  lemma Marks()
    ensures Ascii("\", \"") == [0x22, 0x2C, 0x20, 0x22] && Ascii("\":\"") == [0x22, 0x3A, 0x22]
    ensures Ascii("\"}") == [0x22, 0x7D]
  {
  }

  lemma ThenStart()
    ensures Ascii("\", \"start_address\":\"0x")
      == [0x22, 0x2C, 0x20] + ([0x22] + Ascii("start_address") + [0x22, 0x3A, 0x22] + Ascii("0x"))
  {
    hide Ascii;
    Four("\", \"", "start_address", "\":\"", "0x");
    StartString();
    Marks();
  }

  lemma Four(a: string, b: string, c: string, d: string)
    ensures Ascii(a + b + c + d) == Ascii(a) + Ascii(b) + Ascii(c) + Ascii(d)
  {
    hide Ascii;
    AsciiConcat(a, b);
    AsciiConcat(a + b, c);
    AsciiConcat(a + b + c, d);
  }

  lemma EndsWith()
    ensures Ascii("\", \"name\":\"Tock Bootloader\"}") == [0x22, 0x2C] + Third()
  {
    hide Ascii;
    Four("\", \"", "name", "\":\"", "Tock Bootloader");
    AsciiConcat("\", \"" + "name" + "\":\"" + "Tock Bootloader", "\"}");
    NameString();
    Marks();
  }

  lemma SecondIs(digits: seq<u8>)
    ensures [0x22, 0x2C] + Second(digits)
      == Ascii("\", \"start_address\":\"0x") + (digits + Ascii("\", \"name\":\"Tock Bootloader\"}"))
  {
    var key, x, third := Ascii("start_address"), Ascii("0x"), Third();
    ThenStart();
    EndsWith();
    hide Ascii, Third;
  }

  lemma FirstIs(version: seq<u8>, digits: seq<u8>)
    ensures [0x7B] + First(version, digits)
      == Ascii("{\"version\":\"") + (version + ([0x22, 0x2C] + Second(digits)))
  {
    BeginsWith();
    hide Ascii, Second;
  }

  /** The text is an object of three members. */
  lemma TextIsObject(text: seq<u8>, version: seq<u8>, address: u32)
    requires Shows(text, version, address)
    ensures text == [0x7B] + First(version, text[34 + |version|..42 + |version|])
  {
    var digits := text[34 + |version|..42 + |version|];
    FirstIs(version, digits);
    SecondIs(digits);
    hide Ascii, First, Second, LowerHex, HexValue;
  }

  /** What a reader is meant to find. */
  function Meant(version: seq<u8>, digits: seq<u8>): seq<Member> {
    [Member(Ascii("version"), version),
     Member(Ascii("start_address"), Ascii("0x") + digits),
     Member(Ascii("name"), Ascii("Tock Bootloader"))]
  }

  lemma DigitsForThemselves(digits: seq<u8>)
    requires LowerHex(digits)
    ensures AllForThemselves(Ascii("0x") + digits)
  {
  }

  /** A JSON reader finds version, start address and name with exactly their values if and only if every byte of the
      version stands for itself in a JSON string: the bootloader escapes none. */
  lemma ReadsAsMeantIff(text: seq<u8>, version: seq<u8>, address: u32)
    requires Shows(text, version, address)
    ensures Object(text) == Some(Meant(version, text[34 + |version|..42 + |version|])) <==> AllForThemselves(version)
  {
    var digits := text[34 + |version|..42 + |version|];
    if AllForThemselves(version) {
      TextIsObject(text, version, address);
      DigitsForThemselves(digits);
      KeysForThemselves();
      FirstReads(version, digits);
      hide *;
      ObjectReads(First(version, digits));
    } else {
      assert Meant(version, digits)[0].value == version;
    }
  }

  lemma PlainString(s: string)
    requires forall i :: 0 <= i < |s| ==> ' ' <= s[i] <= 'z' && s[i] != '"' && s[i] != '\\'
    ensures AllForThemselves(Ascii(s))
  {
  }

  lemma ObjectReads(inner: seq<u8>)
    ensures Object([0x7B] + inner) == Members(inner)
  {
    var t := [0x7B] + inner;
    assert SkipSpace(t) == t && t[1..] == inner;
  }

  lemma KeysForThemselves()
    ensures AllForThemselves(Ascii("version")) && AllForThemselves(Ascii("start_address"))
    ensures AllForThemselves(Ascii("name")) && AllForThemselves(Ascii("Tock Bootloader"))
  {
    hide Ascii, AllForThemselves;
    PlainString("version");
    PlainString("start_address");
    PlainString("name");
    PlainString("Tock Bootloader");
  }

  lemma FirstReads(version: seq<u8>, digits: seq<u8>)
    requires AllForThemselves(version) && AllForThemselves(Ascii("0x") + digits)
    ensures Members(First(version, digits)) == Some(Meant(version, digits))
  {
    KeysForThemselves();
    hide Ascii, AllForThemselves, Members, Quoted;
    LastReads(Ascii("name"), Ascii("Tock Bootloader"));
    MoreReads(Ascii("start_address"), Ascii("0x") + digits, Third());
    MoreReads(Ascii("version"), version, Second(digits));
    var (a, b, c) := (Meant(version, digits)[0], Meant(version, digits)[1], Meant(version, digits)[2]);
    assert [a] + ([b] + [c]) == [a, b, c];
  }
}
