/** Canonical JSON for operation digests: canonicalJson of
    src/claim-publication.js over the values a parsed request can hold.

    Text is UTF-16 code units, as in the source language, and is quoted as its
    JSON serializer quotes it (strings as in section 7 of RFC 8259): the short
    escapes, \u00xx for other controls and \udxxx for lone surrogates. Numbers
    are any finite ones, as JsonNumbers.dfy spells them. */
module CanonicalJson {
  import opened JsonNumbers
  import opened Options
  import opened Seqs

  datatype Json =
    | Null
    | Bool(value: bool)
    | Number(number: JsNumber)
    | String(text: Text)
    | Array(items: Items)
    | Object(members: Members)

  datatype Items = Nil | Cons(head: Json, tail: Items)

  /** An object's members in the order they were written. */
  datatype Members = Empty | Member(key: Text, value: Json, rest: Members)

  // ----- quoting -----

  const QUOTE: CodeUnit := 34
  const BACKSLASH: CodeUnit := 92
  const LETTER_U: CodeUnit := 117
  const COMMA: CodeUnit := 44
  const COLON: CodeUnit := 58
  const OPEN_ARRAY: CodeUnit := 91
  const CLOSE_ARRAY: CodeUnit := 93
  const OPEN_OBJECT: CodeUnit := 123
  const CLOSE_OBJECT: CodeUnit := 125

  predicate IsHigh(u: CodeUnit) {
    0xD800 <= u < 0xDC00
  }

  predicate IsLow(u: CodeUnit) {
    0xDC00 <= u < 0xE000
  }

  predicate StartsWithPair(s: Text) {
    |s| >= 2 && IsHigh(s[0]) && IsLow(s[1])
  }

  /** The letter of a two-unit escape. */
  function ShortEscape(u: CodeUnit): Option<CodeUnit> {
    if u == QUOTE then Some(QUOTE)
    else if u == BACKSLASH then Some(BACKSLASH)
    else if u == 8 then Some(98)
    else if u == 9 then Some(116)
    else if u == 10 then Some(110)
    else if u == 12 then Some(102)
    else if u == 13 then Some(114)
    else None
  }

  function HexDigit(d: nat): CodeUnit
    requires d < 16
  {
    if d < 10 then 48 + d else 87 + d
  }

  function Hex(u: CodeUnit): Text {
    [HexDigit(u / 16 / 16 / 16), HexDigit(u / 16 / 16 % 16), HexDigit(u / 16 % 16), HexDigit(u % 16)]
  }

  predicate NeedsHex(u: CodeUnit) {
    u < 32 || IsHigh(u) || IsLow(u)
  }

  /** What the first code point, or lone code unit, of a text is written as. */
  function FirstToken(s: Text): Text
    requires s != []
  {
    if StartsWithPair(s) then s[..2]
    else if ShortEscape(s[0]).Some? then [BACKSLASH, ShortEscape(s[0]).value]
    else if NeedsHex(s[0]) then [BACKSLASH, LETTER_U] + Hex(s[0])
    else [s[0]]
  }

  function FirstWidth(s: Text): nat
    requires s != []
  {
    if StartsWithPair(s) then 2 else 1
  }

  /** The escaped text and its closing quote. */
  function Body(s: Text): Text {
    if s == [] then [QUOTE] else FirstToken(s) + Body(s[FirstWidth(s)..])
  }

  function Quoted(s: Text): Text {
    [QUOTE] + Body(s)
  }

  // ----- reading quoted text -----

  /** The unit a two-unit escape stands for. */
  ghost function Unescaped(letter: CodeUnit): Option<CodeUnit> {
    if letter == 34 || letter == 92 || letter == 47 then Some(letter)
    else if letter == 98 then Some(8)
    else if letter == 102 then Some(12)
    else if letter == 110 then Some(10)
    else if letter == 114 then Some(13)
    else if letter == 116 then Some(9)
    else None
  }

  ghost function HexValue(u: CodeUnit): (r: Option<nat>)
    ensures r.Some? ==> r.value < 16
  {
    if 48 <= u <= 57 then Some(u - 48)
    else if 65 <= u <= 70 then Some(u - 55)
    else if 97 <= u <= 102 then Some(u - 87)
    else None
  }

  datatype UnitRead = UnitRead(unit: CodeUnit, width: nat)

  /** The unit a quoted text goes on with, by the grammar of section 7 of RFC 8259:
      escapes stand for their unit, controls may not stand for themselves. */
  ghost function ReadUnit(t: Text): (r: Option<UnitRead>)
    requires t != []
    ensures r.Some? ==> 0 < r.value.width <= |t|
  {
    if t[0] == 92 then
      if |t| < 2 then None
      else if t[1] == 117 then
        if |t| >= 6 && HexValue(t[2]).Some? && HexValue(t[3]).Some? && HexValue(t[4]).Some? && HexValue(t[5]).Some?
        then Some(UnitRead(((HexValue(t[2]).value * 16 + HexValue(t[3]).value) * 16 + HexValue(t[4]).value) * 16
                           + HexValue(t[5]).value, 6))
        else None
      else if Unescaped(t[1]).Some? then Some(UnitRead(Unescaped(t[1]).value, 2))
      else None
    else if t[0] < 32 then None
    else Some(UnitRead(t[0], 1))
  }

  datatype TextRead = TextRead(text: Text, rest: Text)

  /** The text up to its closing quote, and what follows. */
  ghost function ReadText(t: Text): Option<TextRead>
    decreases |t|
  {
    if t == [] then None
    else if t[0] == 34 then Some(TextRead([], t[1..]))
    else
      match ReadUnit(t)
      case None => None
      case Some(u) =>
        match ReadText(t[u.width..])
        case None => None
        case Some(more) => Some(TextRead([u.unit] + more.text, more.rest))
  }

  lemma HexReads(u: CodeUnit)
    ensures var h := Hex(u);
            && HexValue(h[0]) == Some(u / 16 / 16 / 16) && HexValue(h[1]) == Some(u / 16 / 16 % 16)
            && HexValue(h[2]) == Some(u / 16 % 16) && HexValue(h[3]) == Some(u % 16)
  {
    DigitReads(u / 16 / 16 / 16);
    DigitReads(u / 16 / 16 % 16);
    DigitReads(u / 16 % 16);
    DigitReads(u % 16);
  }

  lemma DigitReads(d: nat)
    requires d < 16
    ensures HexValue(HexDigit(d)) == Some(d)
  {
  }

  /** The first token reads as the unit it stands for, or a pair's first. */
  lemma TokenReads(s: Text, x: Text)
    requires s != []
    ensures var t := FirstToken(s) + x;
            && t[0] != 34
            && ReadUnit(t) == Some(UnitRead(s[0], if StartsWithPair(s) then 1 else |FirstToken(s)|))
  {
    var t := FirstToken(s) + x;
    if !StartsWithPair(s) && ShortEscape(s[0]).None? && NeedsHex(s[0]) {
      HexReads(s[0]);
      assert t[2..6] == Hex(s[0]);
      assert t[2] == Hex(s[0])[0] && t[3] == Hex(s[0])[1] && t[4] == Hex(s[0])[2] && t[5] == Hex(s[0])[3];
    }
  }

  lemma ReadNext(t: Text, unit: CodeUnit, width: nat, more: TextRead)
    requires t != [] && t[0] != 34 && ReadUnit(t) == Some(UnitRead(unit, width)) && ReadText(t[width..]) == Some(more)
    ensures ReadText(t) == Some(TextRead([unit] + more.text, more.rest))
  {
  }

  lemma PairReads(s: Text, rest: Text, more: TextRead)
    requires StartsWithPair(s) && ReadText(rest) == Some(more)
    ensures ReadText(s[..2] + rest) == Some(TextRead(s[..2] + more.text, more.rest))
  {
    var second, t := [s[1]] + rest, s[..2] + rest;
    assert second[1..] == rest && t[1..] == second;
    ReadNext(second, s[1], 1, more);
    ReadNext(t, s[0], 1, TextRead([s[1]] + more.text, more.rest));
    assert s[..2] + more.text == [s[0]] + ([s[1]] + more.text);
  }

  /** Reading a quoted text gives the text back, and ends where its closing quote
      is. */
  lemma {:induction false} BodyReads(s: Text, x: Text)
    ensures ReadText(Body(s) + x) == Some(TextRead(s, x))
    decreases |s|
  {
    if s == [] {
    } else {
      var n := FirstWidth(s);
      var rest := Body(s[n..]) + x;
      Assoc(FirstToken(s), Body(s[n..]), x);
      BodyReads(s[n..], x);
      SplitAt(s, n);
      if StartsWithPair(s) {
        PairReads(s, rest, TextRead(s[n..], x));
      } else {
        TokenReads(s, rest);
        DropPrefix(FirstToken(s), rest);
        assert s[..1] == [s[0]];
        ReadNext(FirstToken(s) + rest, s[0], |FirstToken(s)|, TextRead(s[n..], x));
      }
    }
  }

  /** Which units are escaped, and how: the seven with a letter of their own by it,
      other controls and lone surrogates by four lower-case hexadecimal digits,
      and nothing else. */
  lemma TokenExactly(s: Text)
    requires s != []
    ensures var paired := |s| >= 2 && 0xD800 <= s[0] <= 0xDBFF && 0xDC00 <= s[1] <= 0xDFFF;
            var short := s[0] in [8, 9, 10, 12, 13, 34, 92];
            var long := !paired && !short && (s[0] < 32 || 0xD800 <= s[0] <= 0xDFFF);
            && FirstWidth(s) == (if paired then 2 else 1)
            && (paired ==> FirstToken(s) == s[..2])
            && (short ==> |FirstToken(s)| == 2 && FirstToken(s)[0] == 92)
            && (long ==> |FirstToken(s)| == 6 && FirstToken(s)[..2] == [92, 117]
                         && forall i :: 2 <= i < 6 ==> 48 <= FirstToken(s)[i] <= 57 || 97 <= FirstToken(s)[i] <= 102)
            && (!paired && !short && !long ==> FirstToken(s) == [s[0]])
  {
    var h := Hex(s[0]);
    assert forall i :: 0 <= i < 4 ==> 48 <= h[i] <= 57 || 97 <= h[i] <= 102;
  }

  // ----- printing -----

  const NULL: Text := [110, 117, 108, 108]
  const TRUE: Text := [116, 114, 117, 101]
  const FALSE: Text := [102, 97, 108, 115, 101]

  /** A value written in the member order it has. */
  function Print(v: Json): Text
    decreases v, 0
  {
    match v
    case Null => NULL
    case Bool(value) => if value then TRUE else FALSE
    case Number(n) => Spelled(n)
    case String(s) => Quoted(s)
    case Array(items) => [OPEN_ARRAY] + (if items.Nil? then [CLOSE_ARRAY] else Print(items.head) + PrintItems(items.tail))
    case Object(m) => [OPEN_OBJECT] + (if m.Empty? then [CLOSE_OBJECT] else PrintMember(m.key, m.value) + PrintMembers(m.rest))
  }

  /** The items after the first, each behind a comma, and the bracket. */
  function PrintItems(items: Items): Text
    decreases items, 0
  {
    match items
    case Nil => [CLOSE_ARRAY]
    case Cons(head, tail) => [COMMA] + Print(head) + PrintItems(tail)
  }

  function PrintMember(key: Text, value: Json): Text
    decreases value, 1
  {
    Quoted(key) + [COLON] + Print(value)
  }

  function PrintMembers(m: Members): Text
    decreases m, 0
  {
    match m
    case Empty => [CLOSE_OBJECT]
    case Member(key, value, rest) => [COMMA] + PrintMember(key, value) + PrintMembers(rest)
  }

  // ----- reading a value back -----

  datatype ValueRead = ValueRead(value: Json, rest: Text)

  datatype ItemsRead = ItemsRead(items: Items, rest: Text)

  datatype MembersRead = MembersRead(members: Members, rest: Text)

  /** How many units of a number the text starts with. */
  ghost function NumberLength(t: Text): (n: nat)
    ensures n <= |t| && AllUnits(t[..n]) && (n < |t| ==> !IsNumberUnit(t[n]))
  {
    if t == [] || !IsNumberUnit(t[0]) then 0
    else
      var n := NumberLength(t[1..]);
      assert t[..n + 1] == [t[0]] + t[1..][..n];
      n + 1
  }

  /** The number a numeral stands for: its sign, digits and point. */
  ghost function ReadNumber(t: Text): Option<JsNumber> {
    if t == [48] then Some(Zero)
    else
      var negative := t != [] && t[0] == 45;
      var reading := Read(if negative then t[1..] else t);
      if Shortest(reading.digits) then Some(Nonzero(negative, reading.digits, reading.point)) else None
  }

  ghost function ReadNumeral(t: Text): (r: Option<ValueRead>)
    ensures r.Some? ==> |r.value.rest| < |t|
  {
    var n := NumberLength(t);
    if n == 0 || ReadNumber(t[..n]).None? then None else Some(ValueRead(Number(ReadNumber(t[..n]).value), t[n..]))
  }

  ghost function ReadWord(t: Text, word: Text, value: Json): (r: Option<ValueRead>)
    requires word != []
    ensures r.Some? ==> |r.value.rest| < |t|
  {
    if |t| >= |word| && t[..|word|] == word then Some(ValueRead(value, t[|word|..])) else None
  }

  lemma {:induction false} TextShrinks(t: Text)
    ensures ReadText(t).Some? ==> |ReadText(t).value.rest| < |t|
    decreases |t|
  {
    if t != [] && t[0] != 34 && ReadUnit(t).Some? {
      TextShrinks(t[ReadUnit(t).value.width..]);
    }
  }

  ghost function ReadString(t: Text): (r: Option<ValueRead>)
    requires t != []
    ensures r.Some? ==> |r.value.rest| < |t|
  {
    TextShrinks(t[1..]);
    match ReadText(t[1..])
    case None => None
    case Some(read) => Some(ValueRead(String(read.text), read.rest))
  }

  ghost function ReadScalar(t: Text): (r: Option<ValueRead>)
    requires t != []
    ensures r.Some? ==> |r.value.rest| < |t|
  {
    if t[0] == 34 then ReadString(t)
    else if t[0] == 45 || 48 <= t[0] <= 57 then ReadNumeral(t)
    else if t[0] == 110 then ReadWord(t, [110, 117, 108, 108], Null)
    else if t[0] == 116 then ReadWord(t, [116, 114, 117, 101], Bool(true))
    else ReadWord(t, [102, 97, 108, 115, 101], Bool(false))
  }

  /** The value a text starts with, by the grammar of RFC 8259 without white space,
      and what follows it. */
  ghost function ReadValue(t: Text): (r: Option<ValueRead>)
    ensures r.Some? ==> |r.value.rest| < |t|
    decreases |t|, 0
  {
    if t == [] then None
    else if t[0] == 91 then
      if |t| > 1 && t[1] == 93 then Some(ValueRead(Array(Nil), t[2..]))
      else
        match ReadItems(t[1..])
        case None => None
        case Some(read) => Some(ValueRead(Array(read.items), read.rest))
    else if t[0] == 123 then
      if |t| > 1 && t[1] == 125 then Some(ValueRead(Object(Empty), t[2..]))
      else
        match ReadMembers(t[1..])
        case None => None
        case Some(read) => Some(ValueRead(Object(read.members), read.rest))
    else ReadScalar(t)
  }

  /** One value or more, separated by commas, up to a closing bracket. */
  ghost function ReadItems(t: Text): (r: Option<ItemsRead>)
    ensures r.Some? ==> |r.value.rest| < |t|
    decreases |t|, 1
  {
    match ReadValue(t)
    case None => None
    case Some(first) =>
      if first.rest == [] then None
      else if first.rest[0] == 93 then Some(ItemsRead(Cons(first.value, Nil), first.rest[1..]))
      else if first.rest[0] != 44 then None
      else
        match ReadItems(first.rest[1..])
        case None => None
        case Some(more) => Some(ItemsRead(Cons(first.value, more.items), more.rest))
  }

  /** One member or more: a quoted key, a colon and a value each. */
  ghost function ReadMembers(t: Text): (r: Option<MembersRead>)
    ensures r.Some? ==> |r.value.rest| < |t|
    decreases |t|, 1
  {
    if t == [] || t[0] != 34 then None
    else
      TextShrinks(t[1..]);
      match ReadText(t[1..])
      case None => None
      case Some(key) =>
        if key.rest == [] || key.rest[0] != 58 then None
        else
          match ReadValue(key.rest[1..])
          case None => None
          case Some(first) =>
            if first.rest == [] then None
            else if first.rest[0] == 125 then Some(MembersRead(Member(key.text, first.value, Empty), first.rest[1..]))
            else if first.rest[0] != 44 then None
            else
              match ReadMembers(first.rest[1..])
              case None => None
              case Some(more) => Some(MembersRead(Member(key.text, first.value, more.members), more.rest))
  }

  // ----- what is printed reads back -----

  /** What may follow a value: nothing, a separator or a closing bracket. */
  ghost predicate Delimited(x: Text) {
    x == [] || x[0] in [44, 93, 125]
  }

  lemma UnitsAt(a: Text, x: Text)
    ensures forall i :: 0 <= i < |a| ==> (a + x)[i] == a[i]
    ensures x != [] ==> (a + x)[|a|] == x[0]
  {
  }

  /** A numeral ends where the delimiter is. */
  lemma NumberEnds(a: Text, x: Text)
    requires AllUnits(a) && Delimited(x)
    ensures NumberLength(a + x) == |a|
  {
    UnitsAt(a, x);
    var n := NumberLength(a + x);
    UnitsAt((a + x)[..n], (a + x)[n..]);
  }

  lemma NumberReads(n: JsNumber)
    ensures ReadNumber(Spelled(n)) == Some(n)
    ensures AllUnits(Spelled(n)) && Spelled(n) != []
    ensures Spelled(n)[0] == 45 || 48 <= Spelled(n)[0] <= 57
  {
    SpelledUnits(n);
    if n.Nonzero? {
      MagnitudeReads(n.digits, n.point);
      DropPrefix(if n.negative then [MINUS] else [], Magnitude(n.digits, n.point));
    }
  }

  lemma NumberValueReads(n: JsNumber, x: Text)
    requires Delimited(x)
    ensures ReadScalar(Spelled(n) + x) == Some(ValueRead(Number(n), x))
  {
    NumberReads(n);
    NumberEnds(Spelled(n), x);
    UnitsAt(Spelled(n), x);
    DropPrefix(Spelled(n), x);
    TakePrefix(Spelled(n), x);
  }

  lemma WordReads(word: Text, x: Text, value: Json)
    requires word != []
    ensures ReadWord(word + x, word, value) == Some(ValueRead(value, x))
  {
    DropPrefix(word, x);
    TakePrefix(word, x);
  }

  lemma QuotedReads(s: Text, x: Text)
    ensures ReadScalar(Quoted(s) + x) == Some(ValueRead(String(s), x))
  {
    BodyReads(s, x);
    Assoc([QUOTE], Body(s), x);
    DropPrefix([QUOTE], Body(s) + x);
  }

  lemma ConstantReads(v: Json, x: Text)
    requires v.Null? || v.Bool?
    ensures ReadScalar(Print(v) + x) == Some(ValueRead(v, x))
  {
    var word := Print(v);
    WordReads(word, x, v);
    assert (word + x)[0] == word[0];
  }

  lemma ScalarReads(v: Json, x: Text)
    requires Delimited(x) && !v.Array? && !v.Object?
    ensures ReadScalar(Print(v) + x) == Some(ValueRead(v, x))
  {
    match v
    case Number(n) => NumberValueReads(n, x);
    case String(s) => QuotedReads(s, x);
    case _ => ConstantReads(v, x);
  }

  lemma ScalarStart(v: Json, x: Text)
    requires !v.Array? && !v.Object?
    ensures Print(v) != [] && (Print(v) + x)[0] == Print(v)[0]
    ensures Print(v)[0] != 91 && Print(v)[0] != 93 && Print(v)[0] != 123
  {
    if v.Number? {
      NumberReads(v.number);
    }
  }

  lemma ScalarValue(t: Text)
    requires t != [] && t[0] != 91 && t[0] != 123
    ensures ReadValue(t) == ReadScalar(t)
  {
  }

  /** Reading what was printed gives the value back and stops where it ended. */
  lemma {:induction false} PrintReads(v: Json, x: Text)
    requires Delimited(x)
    ensures ReadValue(Print(v) + x) == Some(ValueRead(v, x))
    decreases v, 0
  {
    match v
    case Array(items) => ArrayReads(items, x);
    case Object(m) => ObjectReads(m, x);
    case _ =>
      ScalarReads(v, x);
      ScalarStart(v, x);
      ScalarValue(Print(v) + x);
  }

  lemma {:induction false} ArrayReads(items: Items, x: Text)
    ensures ReadValue(Print(Array(items)) + x) == Some(ValueRead(Array(items), x))
    decreases items, 2
  {
    var t := Print(Array(items)) + x;
    if items.Nil? {
      assert t == [91, 93] + x;
    } else {
      Assoc([OPEN_ARRAY], Print(items.head) + PrintItems(items.tail), x);
      assert t[1..] == Print(items.head) + PrintItems(items.tail) + x;
      ListReads(items, x);
      assert t[1] != 93 by {
        NotClosed(items.head);
        assert t[1] == Print(items.head)[0];
      }
    }
  }

  /** No value starts with a closing bracket. */
  lemma NotClosed(v: Json)
    ensures Print(v) != [] && Print(v)[0] != 93
  {
    if !v.Array? && !v.Object? {
      ScalarStart(v, []);
    }
  }

  lemma FirstItem(t: Text, first: ValueRead)
    requires ReadValue(t) == Some(first) && first.rest != []
    ensures first.rest[0] == 93 ==> ReadItems(t) == Some(ItemsRead(Cons(first.value, Nil), first.rest[1..]))
    ensures var more := ReadItems(first.rest[1..]);
            first.rest[0] == 44 && more.Some? ==>
              ReadItems(t) == Some(ItemsRead(Cons(first.value, more.value.items), more.value.rest))
  {
  }

  lemma {:induction false} ListReads(items: Items, x: Text)
    requires items.Cons?
    ensures ReadItems(Print(items.head) + PrintItems(items.tail) + x) == Some(ItemsRead(items, x))
    decreases items, 1
  {
    var rest := PrintItems(items.tail) + x;
    Assoc(Print(items.head), PrintItems(items.tail), x);
    PrintReads(items.head, rest);
    FirstItem(Print(items.head) + rest, ValueRead(items.head, rest));
    if items.tail.Nil? {
      DropPrefix([CLOSE_ARRAY], x);
    } else {
      var more := Print(items.tail.head) + PrintItems(items.tail.tail);
      Assoc([COMMA], Print(items.tail.head), PrintItems(items.tail.tail));
      Assoc([COMMA], more, x);
      DropPrefix([COMMA], more + x);
      ListReads(items.tail, x);
    }
  }

  lemma ObjectValue(t: Text, read: MembersRead)
    requires |t| > 1 && t[0] == 123 && t[1] == 34 && ReadMembers(t[1..]) == Some(read)
    ensures ReadValue(t) == Some(ValueRead(Object(read.members), read.rest))
  {
  }

  lemma {:induction false} ObjectReads(m: Members, x: Text)
    ensures ReadValue(Print(Object(m)) + x) == Some(ValueRead(Object(m), x))
    decreases m, 2
  {
    if m.Empty? {
      assert Print(Object(m)) + x == [123, 125] + x;
      DropPrefix([123, 125], x);
    } else {
      var list := PrintMember(m.key, m.value) + PrintMembers(m.rest);
      MemberListReads(m, x);
      MemberSplits(m.key, m.value, PrintMembers(m.rest), x);
      Assoc([OPEN_OBJECT], list, x);
      DropPrefix([OPEN_OBJECT], list + x);
      ObjectValue(Print(Object(m)) + x, MembersRead(m, x));
    }
  }

  lemma FirstMember(t: Text, key: TextRead, first: ValueRead)
    requires t != [] && t[0] == 34 && ReadText(t[1..]) == Some(key)
    requires key.rest != [] && key.rest[0] == 58 && ReadValue(key.rest[1..]) == Some(first) && first.rest != []
    ensures first.rest[0] == 125 ==>
              ReadMembers(t) == Some(MembersRead(Member(key.text, first.value, Empty), first.rest[1..]))
    ensures var more := ReadMembers(first.rest[1..]);
            first.rest[0] == 44 && more.Some? ==>
              ReadMembers(t) == Some(MembersRead(Member(key.text, first.value, more.value.members), more.value.rest))
  {
  }

  lemma {:induction false} MemberListReads(m: Members, x: Text)
    requires m.Member?
    ensures ReadMembers(PrintMember(m.key, m.value) + PrintMembers(m.rest) + x) == Some(MembersRead(m, x))
    decreases m, 1
  {
    var rest := PrintMembers(m.rest) + x;
    var value := [COLON] + Print(m.value) + rest;
    MemberSplits(m.key, m.value, PrintMembers(m.rest), x);
    BodyReads(m.key, value);
    Assoc([COLON], Print(m.value), rest);
    DropPrefix([COLON], Print(m.value) + rest);
    PrintReads(m.value, rest);
    FirstMember(PrintMember(m.key, m.value) + PrintMembers(m.rest) + x, TextRead(m.key, value), ValueRead(m.value, rest));
    if m.rest.Empty? {
      DropPrefix([CLOSE_OBJECT], x);
    } else {
      var first := PrintMember(m.rest.key, m.rest.value);
      Assoc([COMMA], first, PrintMembers(m.rest.rest));
      Assoc([COMMA], first + PrintMembers(m.rest.rest), x);
      DropPrefix([COMMA], first + PrintMembers(m.rest.rest) + x);
      MemberListReads(m.rest, x);
    }
  }

  lemma MemberSplits(k: Text, v: Json, more: Text, x: Text)
    ensures var t := PrintMember(k, v) + more + x;
            t != [] && t[0] == 34 && t[1..] == Body(k) + ([58] + Print(v) + (more + x))
  {
    var value := [COLON] + Print(v);
    Assoc(Quoted(k), [COLON], Print(v));
    Assoc(Quoted(k) + value, more, x);
    Assoc(Quoted(k), value, more + x);
    Assoc([QUOTE], Body(k), value + (more + x));
    DropPrefix([QUOTE], Body(k) + (value + (more + x)));
  }

  /** A printed value, followed by a delimiter, names one value. */
  lemma PrintIsInjective(v: Json, w: Json, x: Text, y: Text)
    requires Delimited(x) && Delimited(y) && Print(v) + x == Print(w) + y
    ensures v == w && x == y
  {
    PrintReads(v, x);
    PrintReads(w, y);
  }

  // ----- the canonical form -----

  /** Lexicographic order of code units: the source's default sort. */
  predicate Less(a: Text, b: Text) {
    if b == [] then false
    else if a == [] then true
    else if a[0] != b[0] then a[0] < b[0]
    else Less(a[1..], b[1..])
  }

  /** At the first unit where they differ the lesser text has the lesser unit, or
      has ended. */
  lemma {:induction false} LessExactly(a: Text, b: Text)
    ensures Less(a, b) <==> exists i :: 0 <= i <= |a| && i < |b| && a[..i] == b[..i] && (i == |a| || a[i] < b[i])
    decreases |a|
  {
    if a == [] || b == [] || a[0] != b[0] {
      if Less(a, b) {
        assert a[..0] == b[..0];
      }
      if i :| 0 <= i <= |a| && i < |b| && a[..i] == b[..i] && (i == |a| || a[i] < b[i]) {
        assert forall k :: 0 <= k < i ==> a[k] == a[..i][k] == b[..i][k] == b[k];
      }
    } else {
      LessExactly(a[1..], b[1..]);
      if Less(a, b) {
        var i :| 0 <= i <= |a[1..]| && i < |b[1..]| && a[1..][..i] == b[1..][..i] && (i == |a[1..]| || a[1..][i] < b[1..][i]);
        assert a[..i + 1] == [a[0]] + a[1..][..i] && b[..i + 1] == [b[0]] + b[1..][..i];
      }
      if i :| 0 <= i <= |a| && i < |b| && a[..i] == b[..i] && (i == |a| || a[i] < b[i]) {
        assert i > 0;
        assert a[1..][..i - 1] == a[..i][1..] && b[1..][..i - 1] == b[..i][1..];
      }
    }
  }

  function Find(m: Members, key: Text): (r: Option<Json>)
    ensures r.Some? ==> r.value < m
  {
    match m
    case Empty => None
    case Member(k, v, rest) => if k == key then Some(v) else Find(rest, key)
  }

  function Insert(m: Members, key: Text, value: Json): Members {
    match m
    case Empty => Member(key, value, Empty)
    case Member(k, v, rest) => if Less(k, key) then Member(k, v, Insert(rest, key, value)) else Member(key, value, m)
  }

  function SortKeys(m: Members): Members {
    match m
    case Empty => Empty
    case Member(k, v, rest) => Insert(SortKeys(rest), k, v)
  }

  /** The same value with every object's keys sorted. */
  function Normal(v: Json): Json {
    match v
    case Array(items) => Array(NormalItems(items))
    case Object(m) => Object(SortKeys(NormalMembers(m)))
    case _ => v
  }

  function NormalItems(items: Items): Items {
    match items
    case Nil => Nil
    case Cons(head, tail) => Cons(Normal(head), NormalItems(tail))
  }

  function NormalMembers(m: Members): Members {
    match m
    case Empty => Empty
    case Member(k, v, rest) => Member(k, Normal(v), NormalMembers(rest))
  }

  function Canonical(v: Json): Text {
    Print(Normal(v))
  }

  // ----- equality up to key order -----

  /** Keys are distinct throughout, as in any parsed value. */
  ghost predicate WellFormed(v: Json) {
    match v
    case Array(items) => WellFormedItems(items)
    case Object(m) => WellFormedMembers(m)
    case _ => true
  }

  ghost predicate WellFormedItems(items: Items) {
    match items
    case Nil => true
    case Cons(head, tail) => WellFormed(head) && WellFormedItems(tail)
  }

  ghost predicate WellFormedMembers(m: Members) {
    match m
    case Empty => true
    case Member(k, v, rest) => Find(rest, k).None? && WellFormed(v) && WellFormedMembers(rest)
  }

  /** The same JSON value: object members are compared by key, in any order. */
  ghost predicate Same(v: Json, w: Json)
    decreases v, 0
  {
    match (v, w)
    case (Array(a), Array(b)) => SameItems(a, b)
    case (Object(m), Object(n)) => SameMembers(m, n)
    case _ => v == w && !v.Array? && !v.Object?
  }

  ghost predicate SameItems(a: Items, b: Items)
    decreases a, 0
  {
    match (a, b)
    case (Nil, Nil) => true
    case (Cons(x, s), Cons(y, t)) => Same(x, y) && SameItems(s, t)
    case _ => false
  }

  ghost predicate SameMembers(m: Members, n: Members)
    decreases m, 0
  {
    forall k: Text ::
      && (Find(m, k).Some? <==> Find(n, k).Some?)
      && (Find(m, k).Some? ==> Same(Find(m, k).value, Find(n, k).value))
  }

  // ----- sorted keys -----

  lemma {:induction false} LessIsTotal(a: Text, b: Text)
    ensures a == b || Less(a, b) || Less(b, a)
    ensures !(Less(a, b) && Less(b, a)) && !Less(a, a)
    decreases |a|
  {
    if a == [] {
    } else {
      if b != [] {
        LessIsTotal(a[1..], b[1..]);
        assert a == [a[0]] + a[1..] && b == [b[0]] + b[1..];
      }
      LessIsTotal(a[1..], a[1..]);
    }
  }

  lemma {:induction false} LessIsTransitive(a: Text, b: Text, c: Text)
    requires Less(a, b) && Less(b, c)
    ensures Less(a, c)
    decreases |a|
  {
    if a != [] && a[0] == b[0] == c[0] {
      LessIsTransitive(a[1..], b[1..], c[1..]);
    }
  }

  ghost predicate DistinctKeys(m: Members) {
    match m
    case Empty => true
    case Member(k, _, rest) => Find(rest, k).None? && DistinctKeys(rest)
  }

  ghost predicate Ascending(m: Members) {
    match m
    case Empty => true
    case Member(k, _, rest) => (rest.Empty? || Less(k, rest.key)) && Ascending(rest)
  }

  lemma {:induction false} FindInserted(m: Members, key: Text, value: Json, k: Text)
    requires Find(m, key).None?
    ensures Find(Insert(m, key, value), k) == if k == key then Some(value) else Find(m, k)
  {
    if m.Member? {
      FindInserted(m.rest, key, value, k);
    }
  }

  lemma {:induction false} InsertAscends(m: Members, key: Text, value: Json)
    requires Ascending(m) && Find(m, key).None?
    ensures Ascending(Insert(m, key, value))
  {
    if m.Member? {
      LessIsTotal(m.key, key);
      if Less(m.key, key) {
        InsertAscends(m.rest, key, value);
      }
    }
  }

  lemma {:induction false} SortingKeepsFinds(m: Members, k: Text)
    requires DistinctKeys(m)
    ensures Find(SortKeys(m), k) == Find(m, k)
  {
    if m.Member? {
      SortingKeepsFinds(m.rest, k);
      SortingKeepsFinds(m.rest, m.key);
      FindInserted(SortKeys(m.rest), m.key, m.value, k);
    }
  }

  lemma {:induction false} SortingAscends(m: Members)
    requires DistinctKeys(m)
    ensures Ascending(SortKeys(m))
  {
    if m.Member? {
      SortingAscends(m.rest);
      SortingKeepsFinds(m.rest, m.key);
      InsertAscends(SortKeys(m.rest), m.key, m.value);
    }
  }

  lemma {:induction false} RestIsAbove(m: Members, k: Text)
    requires Ascending(m) && m.Member? && Find(m.rest, k).Some?
    ensures Less(m.key, k)
  {
    if m.rest.key != k {
      RestIsAbove(m.rest, k);
      LessIsTransitive(m.key, m.rest.key, k);
    }
  }

  /** Ascending members are determined by what is found under each key. */
  lemma {:induction false} AscendingIsUnique(a: Members, b: Members)
    requires Ascending(a) && Ascending(b) && forall k: Text :: Find(a, k) == Find(b, k)
    ensures a == b
  {
    if a.Member? && b.Member? {
      SameLeastKey(a, b);
      forall k: Text ensures Find(a.rest, k) == Find(b.rest, k) {
        assert Find(a, k) == Find(b, k);
        if k == a.key {
          NotInRest(a);
          NotInRest(b);
        }
      }
      assert Find(a, a.key) == Find(b, a.key);
      AscendingIsUnique(a.rest, b.rest);
    } else {
      FirstIsFound(a);
      FirstIsFound(b);
    }
  }

  lemma FirstIsFound(m: Members)
    ensures m.Member? ==> Find(m, m.key) == Some(m.value)
  {
  }

  lemma NotInRest(m: Members)
    requires Ascending(m) && m.Member?
    ensures Find(m.rest, m.key).None?
  {
    LessIsTotal(m.key, m.key);
    if Find(m.rest, m.key).Some? {
      RestIsAbove(m, m.key);
    }
  }

  lemma SameLeastKey(a: Members, b: Members)
    requires Ascending(a) && Ascending(b) && a.Member? && b.Member?
    requires forall k: Text :: Find(a, k) == Find(b, k)
    ensures a.key == b.key
  {
    assert Find(b, a.key) == Find(a, a.key) && Find(a, b.key) == Find(b, b.key);
    LessIsTotal(a.key, b.key);
    if a.key != b.key {
      RestIsAbove(b, a.key);
      RestIsAbove(a, b.key);
    }
  }

  lemma {:induction false} NormalFind(m: Members, k: Text)
    ensures Find(NormalMembers(m), k) == match Find(m, k) case None => None case Some(v) => Some(Normal(v))
  {
    if m.Member? {
      NormalFind(m.rest, k);
    }
  }

  lemma {:induction false} NormalKeepsKeys(m: Members)
    requires WellFormedMembers(m)
    ensures DistinctKeys(NormalMembers(m))
  {
    if m.Member? {
      NormalKeepsKeys(m.rest);
      NormalFind(m.rest, m.key);
    }
  }

  lemma {:induction false} FoundIsWellFormed(m: Members, k: Text)
    requires WellFormedMembers(m) && Find(m, k).Some?
    ensures WellFormed(Find(m, k).value)
  {
    if m.key != k {
      FoundIsWellFormed(m.rest, k);
    }
  }

  lemma SortedFind(m: Members, k: Text)
    requires WellFormedMembers(m)
    ensures Find(SortKeys(NormalMembers(m)), k) == match Find(m, k) case None => None case Some(v) => Some(Normal(v))
  {
    NormalKeepsKeys(m);
    SortingKeepsFinds(NormalMembers(m), k);
    NormalFind(m, k);
  }

  /** Two values have one normal form exactly when they are the same value up to
      the order of object keys. */
  lemma {:induction false} NormalMeansSame(v: Json, w: Json)
    requires WellFormed(v) && WellFormed(w)
    ensures Normal(v) == Normal(w) <==> Same(v, w)
    decreases v, 0
  {
    match (v, w)
    case (Array(a), Array(b)) => NormalItemsMeanSame(a, b);
    case (Object(m), Object(n)) => NormalMembersMeanSame(m, n);
    case _ =>
  }

  lemma {:induction false} NormalItemsMeanSame(a: Items, b: Items)
    requires WellFormedItems(a) && WellFormedItems(b)
    ensures NormalItems(a) == NormalItems(b) <==> SameItems(a, b)
    decreases a, 0
  {
    if a.Cons? && b.Cons? {
      NormalMeansSame(a.head, b.head);
      NormalItemsMeanSame(a.tail, b.tail);
    }
  }

  lemma {:induction false} NormalMembersMeanSame(m: Members, n: Members)
    requires WellFormedMembers(m) && WellFormedMembers(n)
    ensures SortKeys(NormalMembers(m)) == SortKeys(NormalMembers(n)) <==> SameMembers(m, n)
    decreases m, 0
  {
    var a, b := SortKeys(NormalMembers(m)), SortKeys(NormalMembers(n));
    forall k: Text
      ensures Find(a, k) == Find(b, k) <==>
                ((Find(m, k).Some? <==> Find(n, k).Some?)
                 && (Find(m, k).Some? ==> Same(Find(m, k).value, Find(n, k).value)))
    {
      SortedFind(m, k);
      SortedFind(n, k);
      if Find(m, k).Some? && Find(n, k).Some? {
        FoundIsWellFormed(m, k);
        FoundIsWellFormed(n, k);
        NormalMeansSame(Find(m, k).value, Find(n, k).value);
      }
    }
    if SameMembers(m, n) {
      NormalKeepsKeys(m);
      NormalKeepsKeys(n);
      SortingAscends(NormalMembers(m));
      SortingAscends(NormalMembers(n));
      AscendingIsUnique(a, b);
    }
  }

  /** In every object, at every depth, each key is less than the next. */
  ghost predicate InKeyOrder(v: Json)
    decreases v, 0
  {
    match v
    case Array(items) => ItemsInKeyOrder(items)
    case Object(m) => Ascending(m) && MembersInKeyOrder(m)
    case _ => true
  }

  ghost predicate ItemsInKeyOrder(items: Items)
    decreases items, 0
  {
    items.Cons? ==> InKeyOrder(items.head) && ItemsInKeyOrder(items.tail)
  }

  ghost predicate MembersInKeyOrder(m: Members)
    decreases m, 0
  {
    m.Member? ==> InKeyOrder(m.value) && MembersInKeyOrder(m.rest)
  }

  lemma {:induction false} InsertKeepsOrder(m: Members, key: Text, value: Json)
    requires MembersInKeyOrder(m) && InKeyOrder(value)
    ensures MembersInKeyOrder(Insert(m, key, value))
  {
    if m.Member? && Less(m.key, key) {
      InsertKeepsOrder(m.rest, key, value);
    }
  }

  lemma {:induction false} SortingKeepsOrder(m: Members)
    requires MembersInKeyOrder(m)
    ensures MembersInKeyOrder(SortKeys(m))
  {
    if m.Member? {
      SortingKeepsOrder(m.rest);
      InsertKeepsOrder(SortKeys(m.rest), m.key, m.value);
    }
  }

  lemma {:induction false} NormalInOrder(v: Json)
    requires WellFormed(v)
    ensures InKeyOrder(Normal(v))
    decreases v, 0
  {
    match v
    case Array(items) => NormalItemsInOrder(items);
    case Object(m) =>
      NormalMembersInOrder(m);
      SortingKeepsOrder(NormalMembers(m));
      NormalKeepsKeys(m);
      SortingAscends(NormalMembers(m));
    case _ =>
  }

  lemma {:induction false} NormalItemsInOrder(items: Items)
    requires WellFormedItems(items)
    ensures ItemsInKeyOrder(NormalItems(items))
    decreases items, 0
  {
    if items.Cons? {
      NormalInOrder(items.head);
      NormalItemsInOrder(items.tail);
    }
  }

  lemma {:induction false} NormalMembersInOrder(m: Members)
    requires WellFormedMembers(m)
    ensures MembersInKeyOrder(NormalMembers(m))
    decreases m, 0
  {
    if m.Member? {
      NormalInOrder(m.value);
      NormalMembersInOrder(m.rest);
    }
  }

  /** A canonical text is JSON: read by the grammar it gives, with nothing left
      over, a value whose keys are in order everywhere and which is the value it
      was made of up to that order. */
  lemma CanonicalReads(v: Json)
    requires WellFormed(v)
    ensures var read := ReadValue(Canonical(v));
            && read.Some? && read.value.rest == []
            && InKeyOrder(read.value.value) && Same(read.value.value, v)
  {
    PrintReads(Normal(v), []);
    AddNothing(Canonical(v));
    NormalInOrder(v);
    NormalIsSame(v);
  }

  lemma {:induction false} NormalIsSame(v: Json)
    requires WellFormed(v)
    ensures Same(Normal(v), v)
    decreases v, 0
  {
    match v
    case Array(items) => NormalItemsAreSame(items);
    case Object(m) =>
      forall k: Text
        ensures Find(SortKeys(NormalMembers(m)), k).Some? <==> Find(m, k).Some?
        ensures Find(m, k).Some? ==> Same(Find(SortKeys(NormalMembers(m)), k).value, Find(m, k).value)
      {
        SortedFind(m, k);
        if Find(m, k).Some? {
          FoundIsWellFormed(m, k);
          NormalIsSame(Find(m, k).value);
        }
      }
    case _ =>
  }

  lemma {:induction false} NormalItemsAreSame(items: Items)
    requires WellFormedItems(items)
    ensures SameItems(NormalItems(items), items)
    decreases items, 0
  {
    if items.Cons? {
      NormalIsSame(items.head);
      NormalItemsAreSame(items.tail);
    }
  }

  /** Canonical JSON is injective up to object key order, and blind to it. */
  lemma CanonicalMeansSame(v: Json, w: Json)
    requires WellFormed(v) && WellFormed(w)
    ensures Canonical(v) == Canonical(w) <==> Same(v, w)
  {
    NormalMeansSame(v, w);
    if Canonical(v) == Canonical(w) {
      PrintIsInjective(Normal(v), Normal(w), [], []);
      assert Canonical(v) + [] == Canonical(v) && Canonical(w) + [] == Canonical(w);
    }
  }

  /** With a hash that never collides, two requests share an operation digest
      exactly when they are the same JSON value. */
  lemma DigestMeansSame(hash: Text -> nat, v: Json, w: Json)
    requires WellFormed(v) && WellFormed(w)
    requires forall a: Text, b: Text :: hash(a) == hash(b) ==> a == b
    ensures hash(Canonical(v)) == hash(Canonical(w)) <==> Same(v, w)
  {
    CanonicalMeansSame(v, w);
  }
}
