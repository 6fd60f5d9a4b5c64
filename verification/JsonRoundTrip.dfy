/** Reading undoes writing, and what has been read does not depend on the text that follows. */
module JsonRoundTrip {
  import opened Wrappers
  import opened Json
  import opened JsonText
  import Text

  // ----- Strings and numbers ------------------------------------------------------------------

  lemma ReadWrittenHex4(unit: int, tail: string)
    requires 0 <= unit < 0x10000
    ensures ReadHex4(WriteHex4(unit, tail)[2..]) == Some(unit)
  {
    var q := unit / 0x10;
    var s := WriteHex4(unit, tail)[2..];
    assert HexValue(s[0]) == Some(q / 0x10 / 0x10);
    assert HexValue(s[1]) == Some(q / 0x10 % 0x10);
    assert HexValue(s[2]) == Some(q % 0x10);
    assert HexValue(s[3]) == Some(unit % 0x10);
  }

  /** `text` is one character as the reader takes it: not the closing quote, and an escape or itself. */
  predicate ReadsBack(text: string, c: char, tail: string) {
    && text != []
    && text[0] != '"'
    && if text[0] == '\\' then ReadEscape(text[1..]) == Some((c, tail)) else text == [c] + tail && c as int >= 0x20
  }

  lemma ReadWrittenShort(c: char, tail: string)
    requires ShortEscape(c).Some?
    ensures ReadsBack(['\\', ShortEscape(c).value] + tail, c, tail)
  {
    var text := ['\\', ShortEscape(c).value] + tail;
    assert text[1..] == [ShortEscape(c).value] + tail;
    assert text[1..][1..] == tail;
  }

  lemma ReadWrittenUnit(unit: int, tail: string)
    requires 0 <= unit < 0x10000 && !IsHighSurrogate(unit) && !IsLowSurrogate(unit)
    ensures ReadsBack(WriteHex4(unit, tail), unit as char, tail)
  {
    var s := WriteHex4(unit, tail)[1..];
    ReadWrittenHex4(unit, tail);
    assert s[1..] == WriteHex4(unit, tail)[2..];
    assert s[5..] == tail;
  }

  lemma ReadWrittenPair(high: int, low: int, tail: string)
    requires IsHighSurrogate(high) && IsLowSurrogate(low)
    ensures ReadsBack(WriteHex4(high, WriteHex4(low, tail)), Supplementary(high, low), tail)
  {
    var after := WriteHex4(low, tail);
    var s := WriteHex4(high, after)[1..];
    ReadWrittenHex4(high, after);
    ReadWrittenHex4(low, tail);
    assert s[1..] == WriteHex4(high, after)[2..];
    assert s[5..] == after;
    assert s[7..] == after[2..];
    assert s[11..] == tail;
  }

  lemma PairOf(code: int)
    requires 0x10000 <= code < 0x110000
    ensures IsHighSurrogate(HighUnit(code)) && IsLowSurrogate(LowUnit(code))
    ensures Supplementary(HighUnit(code), LowUnit(code)) == code as char
  {
  }

  lemma ReadWrittenLong(c: char, tail: string)
    ensures ReadsBack(WriteLong(c, tail), c, tail)
  {
    if c as int < 0x10000 {
      ReadWrittenUnit(c as int, tail);
    } else {
      PairOf(c as int);
      ReadWrittenPair(HighUnit(c as int), LowUnit(c as int), tail);
    }
  }

  /** A written character reads back, and it never looks like the end of the literal. */
  lemma ReadWrittenChar(c: char, style: Style, tail: string)
    ensures ReadsBack(WriteChar(c, style, tail), c, tail)
  {
    if ShortEscape(c).Some? {
      ReadWrittenShort(c, tail);
    } else if c as int < 0x20 || (style.ascii && 0x7F <= c as int) {
      ReadWrittenLong(c, tail);
    }
  }

  lemma {:induction false} ReadWrittenChars(s: string, style: Style, tail: string)
    ensures ReadChars(WriteChars(s, style, tail)) == Some((s, tail))
  {
    if s == [] {
      assert (['"'] + tail)[1..] == tail;
    } else {
      var rest := WriteChars(s[1..], style, tail);
      ReadWrittenChars(s[1..], style, tail);
      ReadWrittenChar(s[0], style, rest);
      assert ([s[0]] + rest)[1..] == rest;
      assert [s[0]] + s[1..] == s;
    }
  }

  /** A character that is written as itself in every style. */
  predicate Verbatim(c: char) {
    ' ' <= c <= '~' && c != '"' && c != '\\'
  }

  lemma {:induction false} WriteVerbatim(s: string, style: Style, tail: string)
    requires forall i | 0 <= i < |s| :: Verbatim(s[i])
    ensures WriteChars(s, style, tail) == s + (['"'] + tail)
  {
    if s != [] {
      WriteVerbatim(s[1..], style, tail);
      assert [s[0]] + (s[1..] + (['"'] + tail)) == s + (['"'] + tail);
    }
  }

  lemma {:induction false} TakeAllDigits(d: string, tail: string)
    requires forall i | 0 <= i < |d| :: IsDigit(d[i])
    requires tail == [] || !IsDigit(tail[0])
    ensures TakeDigits(d + tail) == d
  {
    if d == [] {
      assert d + tail == tail;
    } else {
      TakeAllDigits(d[1..], tail);
      assert (d + tail)[1..] == d[1..] + tail;
      assert d == [d[0]] + d[1..];
    }
  }

  /** The digits of a natural number: no leading zero, and the value they were written for. */
  lemma {:induction false} WrittenDigits(n: nat, tail: string) returns (d: string)
    ensures WriteNat(n, tail) == d + tail
    ensures d != [] && forall i | 0 <= i < |d| :: IsDigit(d[i])
    ensures DigitsValue(d) == n
    ensures d[0] == '0' <==> n == 0
    ensures n == 0 ==> |d| == 1
  {
    var last := '0' + (n % 10) as char;
    if n < 10 {
      d := [last];
      assert d[..0] == [];
    } else {
      var high := WrittenDigits(n / 10, [last] + tail);
      d := high + [last];
      assert d[..|d| - 1] == high;
      assert high + ([last] + tail) == d + tail;
    }
  }

  /** A character that could carry on a number. */
  predicate Continues(c: char) {
    IsDigit(c) || c == '.' || c == 'e' || c == 'E'
  }

  lemma TakeWrittenWhole(d: string, tail: string)
    requires d != [] && forall i | 0 <= i < |d| :: IsDigit(d[i])
    requires d[0] == '0' ==> |d| == 1
    requires tail == [] || !IsDigit(tail[0])
    ensures TakeWhole(d + tail) == d
  {
    if d[0] == '0' {
      assert (d + tail)[..1] == d;
    } else {
      TakeAllDigits(d, tail);
    }
  }

  lemma ReadWrittenInt(n: int, tail: string)
    requires tail == [] || !Continues(tail[0])
    ensures var text := WriteInt(n, tail);
            && text != [] && (IsDigit(text[0]) || text[0] == '-')
            && ReadWord(text) == None
            && ReadNumber(text) == Some((Int(n), tail))
  {
    var text := WriteInt(n, tail);
    var d := WrittenDigits(if n < 0 then -n else n, tail);
    TakeWrittenWhole(d, tail);
    assert Unsigned(text) == d + tail;
    assert n < 0 ==> text[1] == d[0];
    assert (d + tail)[|d|..] == tail;
    NoWordStartsWith(text);
  }

  lemma NoWordStartsWith(s: string)
    requires s != []
    requires s[0] !in "ntfNI"
    requires s[0] == '-' ==> |s| >= 2 && s[1] != 'I'
    ensures ReadWord(s) == None
  {
  }

  // ----- Floats -------------------------------------------------------------------------------

  predicate NumberChar(c: char) {
    IsDigit(c) || c in "-+.eE"
  }

  /** A fraction that goes on to the end of the text ends where other text begins. */
  lemma SkipFractionEnd(s: string, tail: string)
    requires s != [] && SkipFraction(s) == [] && (tail == [] || !Continues(tail[0]))
    ensures SkipFraction(s + tail) == tail
  {
    var t, d := s + tail, TakeDigits(s[1..]);
    assert t[1..] == s[1..] + tail && t[0] == s[0] && t[1] == s[1];
    assert |d| == |s[1..]| && d == s[1..];
    TakeAllDigits(d, tail);
    assert t[|s|..] == tail;
  }

  lemma SkipExponentEnd(s: string, tail: string)
    requires s != [] && SkipExponent(s) == [] && (tail == [] || !Continues(tail[0]))
    ensures SkipExponent(s + tail) == tail
  {
    hide SkipExponent, TakeDigits, ExponentMark;
    var mark, d := ExponentDigits(s);
    assert (s + tail)[0] == s[0];
    ExponentMarkMore(s, tail);
    Text.DropAppend(s, tail, mark);
    assert |d| == |s[mark..]| && d == s[mark..] by {
      DigitsPrefix(s[mark..]);
    }
    TakeAllDigits(d, tail);
    ExponentIs(s + tail, mark, d);
    Text.DropAppend(s, tail, mark + |d|);
    assert [] + tail == tail;
  }

  lemma DigitsPrefix(s: string)
    ensures |TakeDigits(s)| == |s| ==> TakeDigits(s) == s
    ensures forall i | 0 <= i < |TakeDigits(s)| :: IsDigit(TakeDigits(s)[i])
  {
  }

  lemma SkipInexactEnd(s: string, tail: string)
    requires s != [] && SkipInexact(s) == [] && (tail == [] || !Continues(tail[0]))
    ensures SkipInexact(s + tail) == tail
  {
    var r := SkipFraction(s);
    if r == [] {
      SkipFractionEnd(s, tail);
      hide SkipFraction;
    } else {
      FractionStops(s);
      SkipFractionMore(s, tail);
      SkipExponentEnd(r, tail);
    }
  }

  lemma FractionStops(s: string)
    requires s != [] && SkipFraction(s) != [] && SkipInexact(s) == []
    ensures SkipFraction(s) == s ==> s[0] != '.'
  {
  }

  /** The text of a float is read back whatever structural text follows it. */
  lemma ReadNumberEnd(s: string, tail: string)
    requires FloatText(s) && (tail == [] || !Continues(tail[0]))
    ensures ReadNumber(s + tail) == Some((Real(s), tail))
  {
    FloatIs(s);
    hide *;
    var body := Unsigned(s);
    var whole := TakeWhole(body);
    var rest := body[|whole|..];
    UnsignedMore(s, tail);
    TakeWholeMore(body, tail);
    Text.DropAppend(body, tail, |whole|);
    SkipInexactEnd(rest, tail);
    NumberIs(s + tail, body + tail, whole, tail);
    ReadPartMore(s, [], tail);
    WholePart(s);
    assert [] + tail == tail;
  }

  lemma FloatIs(s: string)
    requires FloatText(s)
    ensures s != []
    ensures var body := Unsigned(s);
            var whole := TakeWhole(body);
            && whole != [] && |whole| < |body| && SkipInexact(body[|whole|..]) == []
  {
    hide SkipInexact, TakeWhole, DigitsValue;
  }

  lemma WholePart(s: string)
    ensures ReadPart(s, []) == s
  {
  }

  /** A number by its parts. */
  lemma NumberIs(s: string, body: string, whole: string, rest: string)
    requires body == Unsigned(s) && whole == TakeWhole(body) && whole != [] && rest == SkipInexact(body[|whole|..])
    ensures ReadNumber(s) ==
            if |rest| == |body| - |whole| then Some((Int(Signed(|body| < |s|, DigitsValue(whole))), rest))
            else Some((Real(ReadPart(s, rest)), rest))
  {
    hide Unsigned, TakeWhole, SkipInexact, DigitsValue, Signed, ReadPart;
  }

  lemma FloatStart(s: string)
    requires FloatText(s)
    ensures s != [] && (IsDigit(s[0]) || (s[0] == '-' && |s| >= 2 && IsDigit(s[1])))
  {
    var whole := TakeWhole(Unsigned(s));
    assert whole != [] && Unsigned(s)[..|whole|][0] == Unsigned(s)[0];
    hide SkipInexact;
  }

  lemma ReadWrittenFloat(s: string, tail: string)
    requires FloatText(s) && (tail == [] || !Continues(tail[0]))
    ensures Read(s + tail) == Some((Real(s), tail))
  {
    FloatStart(s);
    ReadNumberEnd(s, tail);
    hide *;
    var text := s + tail;
    assert text[0] == s[0] && (|s| >= 2 ==> text[1] == s[1]);
    ReadIsNumber(text);
  }

  lemma ReadIsNumber(s: string)
    requires s != [] && (IsDigit(s[0]) || (s[0] == '-' && |s| >= 2 && IsDigit(s[1])))
    ensures Read(s) == ReadNumber(s)
  {
    hide ReadNumber, ReadWord, ReadFields, ReadItems, ReadChars, SkipSpace;
    NoWordStartsWith(s);
  }

  lemma SkippedChars(s: string)
    ensures |SkipInexact(s)| <= |s| && forall i | 0 <= i < |s| - |SkipInexact(s)| :: NumberChar(s[i])
  {
    var r := SkipFraction(s);
    FractionChars(s);
    ExponentChars(r);
    assert r == s[|s| - |r|..];
    forall i | 0 <= i < |s| - |SkipInexact(s)|
      ensures NumberChar(s[i])
    {
      if i >= |s| - |r| {
        assert s[i] == r[i - (|s| - |r|)];
      }
    }
  }

  lemma FractionChars(s: string)
    ensures SkipFraction(s) == s[|s| - |SkipFraction(s)|..]
    ensures forall i | 0 <= i < |s| - |SkipFraction(s)| :: NumberChar(s[i])
  {
    if |s| >= 2 && s[0] == '.' && IsDigit(s[1]) {
      var d := TakeDigits(s[1..]);
      assert forall i | 1 <= i < |d| + 1 :: s[i] == d[i - 1];
    }
  }

  lemma MarkChar(s: string)
    requires s != [] && ExponentMark(s) == 2
    ensures NumberChar(s[1])
  {
  }

  lemma ExponentChars(s: string)
    ensures forall i | 0 <= i < |s| - |SkipExponent(s)| :: NumberChar(s[i])
  {
    if s != [] && SkipExponent(s) != s {
      var mark, d := ExponentDigits(s);
      DigitsPrefix(s[mark..]);
      hide SkipExponent, TakeDigits, ExponentMark;
      var digits := s[mark..];
      forall i | 0 <= i < mark + |d|
        ensures NumberChar(s[i])
      {
        if i >= mark {
          assert s[i] == digits[i - mark] == d[i - mark];
        } else if i == 1 {
          MarkChar(s);
        }
      }
    }
  }

  lemma FloatParts(s: string)
    requires FloatText(s)
    ensures var body := Unsigned(s);
            var whole := TakeWhole(body);
            && SkipInexact(body[|whole|..]) == [] && (forall i | 0 <= i < |whole| :: NumberChar(whole[i]))
            && body == s[|s| - |body|..] && |s| - |body| <= 1 && (|body| < |s| ==> NumberChar(s[0]))
            && body[..|whole|] == whole
  {
    hide SkipInexact, TakeWhole, DigitsValue;
  }

  /** A float is written with digits, signs, a point and an exponent letter. */
  lemma FloatChars(s: string)
    requires FloatText(s)
    ensures forall i | 0 <= i < |s| :: NumberChar(s[i])
  {
    var body := Unsigned(s);
    var whole := TakeWhole(body);
    var rest := body[|whole|..];
    SkippedChars(rest);
    FloatParts(s);
    hide *;
    var signed := |s| - |body|;
    forall i | 0 <= i < |s|
      ensures NumberChar(s[i])
    {
      if i >= signed + |whole| {
        assert s[i] == rest[i - signed - |whole|];
      } else if i >= signed {
        assert s[i] == whole[i - signed];
      }
    }
  }

  // ----- Values -------------------------------------------------------------------------------

  /** Values the writer is used on: dictionaries without a repeated key, numbers that are finite. */
  predicate Writable(v: Json) {
    WellFormed(v) && Finite(v)
  }

  predicate IsNumber(v: Json) {
    v.Int? || v.Real?
  }

  /** The text after a value cannot be taken for more of it. */
  predicate Settled(v: Json, rest: string) {
    IsNumber(v) ==> rest != [] && !Continues(rest[0])
  }

  lemma SkipGap(style: Style, text: string)
    ensures SkipSpace(Gap(style, text)) == SkipSpace(text)
  {
    if style.spaced {
      assert ([' '] + text)[1..] == text;
    }
  }

  lemma WriteStart(v: Json, style: Style, tail: string)
    requires Finite(v)
    ensures var text := Write(v, style, tail);
            text != [] && !IsSpace(text[0]) && text[0] != ']' && text[0] != '}'
  {
    match v
    case Int(n) =>
      var d := WrittenDigits(if n < 0 then -n else n, tail);
    case Real(lexeme) => FloatStart(lexeme);
    case Null => assert ("null" + tail)[0] == 'n';
    case Bool(b) => assert ("true" + tail)[0] == 't' && ("false" + tail)[0] == 'f';
    case _ =>
  }

  lemma WriteItemsStart(items: seq<Json>, style: Style, tail: string)
    requires items != [] && Finite(items[0])
    ensures var text := WriteItems(items, style, tail);
            text != [] && text[0] != ']' && SkipSpace(text) == text
  {
    WriteStart(items[0], style,
               if |items| == 1 then [']'] + tail else [','] + Gap(style, WriteItems(items[1..], style, tail)));
  }

  lemma WriteFieldsStart(fields: seq<Field>, style: Style, tail: string)
    requires fields != []
    ensures var text := WriteFields(fields, style, tail);
            text != [] && text[0] != '}' && SkipSpace(text) == text
  {
    var after := if |fields| == 1 then ['}'] + tail else [','] + Gap(style, WriteFields(fields[1..], style, tail));
    assert WriteFields(fields, style, tail) == WriteField(fields[0], style, after);
  }

  lemma ReadWrittenWord(v: Json, style: Style, tail: string)
    requires v.Null? || v.Bool?
    ensures Read(Write(v, style, tail)) == Some((v, tail))
  {
    var word := if v.Null? then "null" else if v.b then "true" else "false";
    var text := Write(v, style, tail);
    assert text == word + tail;
    assert text[0] == word[0] && text[1] == word[1];
    assert text[..|word|] == word && text[|word|..] == tail;
  }

  lemma WrittenNumber(v: Json, style: Style, tail: string)
    requires IsNumber(v)
    ensures Write(v, style, tail) ==
            match v case Int(n) => WriteInt(n, tail) case Real(lexeme) => lexeme + tail case _ => tail
  {
  }

  lemma ReadWrittenString(s: string, style: Style, tail: string)
    ensures Read(Write(Str(s), style, tail)) == Some((Str(s), tail))
  {
    ReadWrittenChars(s, style, tail);
    hide ReadChars, WriteChars;
    var text := Write(Str(s), style, tail);
    assert text[1..] == WriteChars(s, style, tail);
  }

  lemma ReadWrittenEmpty(style: Style, tail: string)
    ensures Read(Write(Arr([]), style, tail)) == Some((Arr([]), tail))
    ensures Read(Write(Obj([]), style, tail)) == Some((Obj([]), tail))
  {
    var list, dict := Write(Arr([]), style, tail), Write(Obj([]), style, tail);
    assert list[1..] == [']'] + tail && dict[1..] == ['}'] + tail;
    assert list[1..][1..] == tail && dict[1..][1..] == tail;
  }

  /** Reading goes on behind an opening bracket or brace. */
  lemma ReadOpened(body: string)
    requires body != [] && SkipSpace(body) == body
    ensures body[0] != ']' && ReadItems(body).Some? ==>
              Read(['['] + body) == Some((Arr(ReadItems(body).value.0), ReadItems(body).value.1))
    ensures body[0] != '}' && ReadFields(body, []).Some? ==>
              Read(['{'] + body) == Some((Obj(ReadFields(body, []).value.0), ReadFields(body, []).value.1))
  {
    hide ReadItems, ReadFields, SkipSpace, ReadNumber, ReadWord, ReadChars;
    assert (['['] + body)[1..] == body && (['{'] + body)[1..] == body;
  }

  lemma BracketsRead(items: seq<Json>, style: Style, tail: string)
    requires items != [] && Finite(items[0]) && ReadItems(WriteItems(items, style, tail)) == Some((items, tail))
    ensures Read(Write(Arr(items), style, tail)) == Some((Arr(items), tail))
  {
    WriteItemsStart(items, style, tail);
    var body := WriteItems(items, style, tail);
    assert Write(Arr(items), style, tail) == ['['] + body;
    hide *;
    ReadOpened(body);
  }

  lemma BracesRead(fields: seq<Field>, style: Style, tail: string)
    requires fields != [] && ReadFields(WriteFields(fields, style, tail), []) == Some((fields, tail))
    ensures Read(Write(Obj(fields), style, tail)) == Some((Obj(fields), tail))
  {
    WriteFieldsStart(fields, style, tail);
    var body := WriteFields(fields, style, tail);
    assert Write(Obj(fields), style, tail) == ['{'] + body;
    hide *;
    ReadOpened(body);
  }

  /** Reading the text of a value gives the value back and leaves exactly what follows. */
  lemma {:induction false} ReadWritten(v: Json, style: Style, tail: string)
    requires Writable(v) && (IsNumber(v) ==> tail == [] || !Continues(tail[0]))
    ensures Read(Write(v, style, tail)) == Some((v, tail))
    decreases v, 0
  {
    hide Read, Write, ReadItems, WriteItems, ReadFields, WriteFields, FloatText;
    match v
    case Null => ReadWrittenWord(v, style, tail);
    case Bool(_) => ReadWrittenWord(v, style, tail);
    case Int(n) =>
      ReadWrittenInt(n, tail);
      ReadIsNumber(WriteInt(n, tail));
      WrittenNumber(v, style, tail);
    case Real(lexeme) =>
      ReadWrittenFloat(lexeme, tail);
      WrittenNumber(v, style, tail);
    case Str(s) => ReadWrittenString(s, style, tail);
    case Arr(items) =>
      if items == [] {
        ReadWrittenEmpty(style, tail);
      } else {
        ReadWrittenItems(items, style, tail);
        BracketsRead(items, style, tail);
      }
    case Obj(fields) =>
      if fields == [] {
        ReadWrittenEmpty(style, tail);
      } else {
        assert [] + fields == fields;
        ReadWrittenFields(fields, [], style, tail);
        BracesRead(fields, style, tail);
      }
  }

  lemma {:induction false} ReadWrittenItems(items: seq<Json>, style: Style, tail: string)
    requires items != [] && forall i | 0 <= i < |items| :: Writable(items[i])
    ensures ReadItems(WriteItems(items, style, tail)) == Some((items, tail))
    decreases items, 1
  {
    if |items| == 1 {
      var after := [']'] + tail;
      ReadWritten(items[0], style, after);
      assert after[1..] == tail;
      assert [items[0]] == items;
    } else {
      var more := WriteItems(items[1..], style, tail);
      var after := [','] + Gap(style, more);
      ReadWritten(items[0], style, after);
      ReadWrittenItems(items[1..], style, tail);
      assert after[1..] == Gap(style, more);
      SkipGap(style, more);
      WriteItemsStart(items[1..], style, tail);
      assert [items[0]] + items[1..] == items;
    }
  }

  lemma {:induction false} ReadWrittenField(f: Field, style: Style, tail: string)
    requires Writable(f.value) && tail != [] && !Continues(tail[0])
    ensures ReadField(WriteField(f, style, tail)) == Some((f, tail))
    decreases f, 1
  {
    var valueText := Write(f.value, style, tail);
    var after := [':'] + Gap(style, valueText);
    assert WriteField(f, style, tail)[1..] == WriteChars(f.key, style, after);
    ReadWrittenChars(f.key, style, after);
    assert after[1..] == Gap(style, valueText);
    SkipGap(style, valueText);
    WriteStart(f.value, style, tail);
    ReadWritten(f.value, style, tail);
  }

  lemma NewKey(acc: seq<Field>, fields: seq<Field>)
    requires fields != [] && DistinctKeys(acc + fields)
    ensures !HasKey(acc, fields[0].key)
  {
    assert forall i | 0 <= i < |acc| :: (acc + fields)[i] == acc[i];
    assert (acc + fields)[|acc|] == fields[0];
  }

  lemma {:induction false} ReadWrittenFields(fields: seq<Field>, acc: seq<Field>, style: Style, tail: string)
    requires fields != [] && DistinctKeys(acc + fields)
    requires forall i | 0 <= i < |fields| :: Writable(fields[i].value)
    ensures ReadFields(WriteFields(fields, style, tail), acc) == Some((acc + fields, tail))
    decreases fields, 2
  {
    var f := fields[0];
    if |fields| == 1 {
      ReadWrittenField(f, style, ['}'] + tail);
      FieldsEnd(fields, acc, style, tail);
    } else {
      var more := WriteFields(fields[1..], style, tail);
      ReadWrittenField(f, style, [','] + Gap(style, more));
      hide *;
      var next := FieldsStep(fields, acc, style, tail);
      ReadWrittenFields(fields[1..], next, style, tail);
    }
  }

  lemma FieldsEnd(fields: seq<Field>, acc: seq<Field>, style: Style, tail: string)
    requires |fields| == 1 && DistinctKeys(acc + fields)
    requires ReadField(WriteField(fields[0], style, ['}'] + tail)) == Some((fields[0], ['}'] + tail))
    ensures ReadFields(WriteFields(fields, style, tail), acc) == Some((acc + fields, tail))
  {
    var f := fields[0];
    NewKey(acc, fields);
    PutNew(acc, f.key, f.value);
    LastField(WriteField(f, style, ['}'] + tail), acc, f, tail);
    WriteLastField(fields, style, tail);
    hide *;
    assert fields == [f];
  }

  lemma FieldsStep(fields: seq<Field>, acc: seq<Field>, style: Style, tail: string) returns (next: seq<Field>)
    requires |fields| > 1 && DistinctKeys(acc + fields)
    requires var more := WriteFields(fields[1..], style, tail);
             ReadField(WriteField(fields[0], style, [','] + Gap(style, more))) ==
             Some((fields[0], [','] + Gap(style, more)))
    ensures ReadFields(WriteFields(fields, style, tail), acc) ==
            ReadFields(WriteFields(fields[1..], style, tail), next)
    ensures next + fields[1..] == acc + fields
  {
    hide *;
    NewKey(acc, fields);
    next := PutNext(acc, fields);
    FieldsGoOn(fields, acc, style, tail);
  }

  lemma PutNext(acc: seq<Field>, fields: seq<Field>) returns (next: seq<Field>)
    requires fields != [] && !HasKey(acc, fields[0].key)
    ensures next == Put(acc, fields[0].key, fields[0].value) && next + fields[1..] == acc + fields
  {
    var f := fields[0];
    PutNew(acc, f.key, f.value);
    hide *;
    next := acc + [f];
  }

  lemma FieldsGoOn(fields: seq<Field>, acc: seq<Field>, style: Style, tail: string)
    requires |fields| > 1
    requires var more := WriteFields(fields[1..], style, tail);
             ReadField(WriteField(fields[0], style, [','] + Gap(style, more))) ==
             Some((fields[0], [','] + Gap(style, more)))
    ensures ReadFields(WriteFields(fields, style, tail), acc) ==
            ReadFields(WriteFields(fields[1..], style, tail), Put(acc, fields[0].key, fields[0].value))
  {
    hide *;
    var f, more := fields[0], WriteFields(fields[1..], style, tail);
    WriteFieldsStart(fields[1..], style, tail);
    NextField(WriteField(f, style, [','] + Gap(style, more)), acc, f, more, style);
    WriteMoreFields(fields, style, tail);
  }

  lemma WriteLastField(fields: seq<Field>, style: Style, tail: string)
    requires |fields| == 1
    ensures WriteFields(fields, style, tail) == WriteField(fields[0], style, ['}'] + tail)
  {
    hide WriteField;
  }

  lemma WriteMoreFields(fields: seq<Field>, style: Style, tail: string)
    requires |fields| > 1
    ensures WriteFields(fields, style, tail) ==
            WriteField(fields[0], style, [','] + Gap(style, WriteFields(fields[1..], style, tail)))
  {
    hide WriteField;
  }

  lemma LastField(s: string, acc: seq<Field>, f: Field, tail: string)
    requires ReadField(s) == Some((f, ['}'] + tail))
    ensures ReadFields(s, acc) == Some((Put(acc, f.key, f.value), tail))
  {
    hide ReadField, Put;
    assert (['}'] + tail)[1..] == tail;
  }

  lemma NextField(s: string, acc: seq<Field>, f: Field, more: string, style: Style)
    requires ReadField(s) == Some((f, [','] + Gap(style, more))) && SkipSpace(more) == more
    ensures ReadFields(s, acc) == ReadFields(more, Put(acc, f.key, f.value))
  {
    SkipGap(style, more);
    hide ReadField, Put, Gap;
    assert ([','] + Gap(style, more))[1..] == Gap(style, more);
  }

  // ----- What follows does not matter ---------------------------------------------------------

  lemma {:induction false} SkipSpaceMore(s: string, more: string)
    requires SkipSpace(s) != []
    ensures SkipSpace(s + more) == SkipSpace(s) + more
  {
    if IsSpace(s[0]) {
      assert (s + more)[1..] == s[1..] + more;
      SkipSpaceMore(s[1..], more);
    }
  }

  lemma ReadEscapeMore(s: string, more: string)
    requires ReadEscape(s).Some?
    ensures ReadEscape(s + more) == Some((ReadEscape(s).value.0, ReadEscape(s).value.1 + more))
  {
    var t := s + more;
    assert t[1..] == s[1..] + more;
    if s[0] == 'u' {
      assert t[5..] == s[5..] + more;
      if |s| >= 11 {
        assert t[7..] == s[7..] + more;
        assert t[11..] == s[11..] + more;
      }
    }
  }

  lemma {:induction false} ReadCharsMore(s: string, more: string)
    requires ReadChars(s).Some?
    ensures ReadChars(s + more) == Some((ReadChars(s).value.0, ReadChars(s).value.1 + more))
    decreases |s|
  {
    assert (s + more)[1..] == s[1..] + more;
    if s[0] == '\\' {
      ReadEscapeMore(s[1..], more);
      ReadCharsMore(ReadEscape(s[1..]).value.1, more);
    } else if s[0] != '"' {
      ReadCharsMore(s[1..], more);
    }
  }

  lemma {:induction false} TakeDigitsMore(s: string, more: string)
    requires |TakeDigits(s)| < |s|
    ensures TakeDigits(s + more) == TakeDigits(s)
  {
    if IsDigit(s[0]) {
      assert (s + more)[1..] == s[1..] + more;
      TakeDigitsMore(s[1..], more);
    }
  }

  lemma SkipFractionMore(s: string, more: string)
    requires SkipFraction(s) != [] && (SkipFraction(s) == s ==> s[0] != '.')
    ensures SkipFraction(s + more) == SkipFraction(s) + more
  {
    if s[0] == '.' {
      var t := s + more;
      assert t[1..] == s[1..] + more;
      TakeDigitsMore(s[1..], more);
      assert t[1 + |TakeDigits(s[1..])|..] == s[1 + |TakeDigits(s[1..])|..] + more;
    }
  }

  lemma ExponentIs(s: string, mark: nat, d: string)
    requires s != [] && (s[0] == 'e' || s[0] == 'E') && mark == ExponentMark(s) && d == TakeDigits(s[mark..])
    ensures SkipExponent(s) == if d == [] then s else s[mark + |d|..]
  {
    hide TakeDigits, ExponentMark;
  }

  lemma ExponentMarkMore(s: string, more: string)
    requires |s| >= 2
    ensures ExponentMark(s + more) == ExponentMark(s)
  {
  }

  /** The digits of an exponent that counts. */
  lemma ExponentDigits(s: string) returns (mark: nat, d: string)
    requires SkipExponent(s) != s && s != []
    ensures (s[0] == 'e' || s[0] == 'E') && |s| >= 2 && mark == ExponentMark(s) && d == TakeDigits(s[mark..]) != []
    ensures mark + |d| <= |s| && SkipExponent(s) == s[mark + |d|..]
  {
    hide TakeDigits, ExponentMark;
    mark := ExponentMark(s);
    d := TakeDigits(s[mark..]);
  }

  lemma NoExponent(s: string)
    requires s != [] && s[0] != 'e' && s[0] != 'E'
    ensures SkipExponent(s) == s
  {
  }

  lemma SkipExponentMore(s: string, more: string)
    requires SkipExponent(s) != [] && (SkipExponent(s) == s ==> s[0] != 'e' && s[0] != 'E')
    ensures SkipExponent(s + more) == SkipExponent(s) + more
  {
    hide *;
    assert (s + more)[0] == s[0];
    if s[0] != 'e' && s[0] != 'E' {
      NoExponent(s);
      NoExponent(s + more);
    } else {
      var mark, d := ExponentDigits(s);
      ExponentMarkMore(s, more);
      Text.DropAppend(s, more, mark);
      TakeDigitsMore(s[mark..], more);
      ExponentIs(s + more, mark, d);
      Text.DropAppend(s, more, mark + |d|);
    }
  }

  lemma TakeWholeMore(s: string, more: string)
    requires TakeWhole(s) != [] && |TakeWhole(s)| < |s|
    ensures TakeWhole(s + more) == TakeWhole(s)
  {
    if s[0] == '0' {
      assert (s + more)[..1] == s[..1];
    } else {
      TakeDigitsMore(s, more);
    }
  }

  lemma SkipInexactMore(s: string, more: string)
    requires SkipInexact(s) != [] && !Continues(SkipInexact(s)[0])
    ensures SkipInexact(s + more) == SkipInexact(s) + more
  {
    SkipFractionMore(s, more);
    SkipExponentMore(SkipFraction(s), more);
  }

  lemma UnsignedMore(s: string, more: string)
    requires s != []
    ensures Unsigned(s + more) == Unsigned(s) + more
  {
    assert (s + more)[1..] == s[1..] + more;
  }

  lemma ReadPartMore(s: string, rest: string, more: string)
    requires |rest| <= |s|
    ensures ReadPart(s + more, rest + more) == ReadPart(s, rest)
  {
    assert |s + more| - |rest + more| == |s| - |rest|;
    assert (s + more)[..|s| - |rest|] == s[..|s| - |rest|];
  }

  lemma ReadNumberMore(s: string, more: string)
    requires ReadNumber(s).Some? && ReadNumber(s).value.1 != [] && !Continues(ReadNumber(s).value.1[0])
    ensures ReadNumber(s + more) == Some((ReadNumber(s).value.0, ReadNumber(s).value.1 + more))
  {
    NumberWhole(s);
    hide *;
    var body := Unsigned(s);
    var whole := TakeWhole(body);
    var rest := SkipInexact(body[|whole|..]);
    NumberIs(s, body, whole, rest);
    UnsignedMore(s, more);
    TakeWholeMore(body, more);
    Text.DropAppend(body, more, |whole|);
    SkipInexactMore(body[|whole|..], more);
    NumberIs(s + more, body + more, whole, rest + more);
    ReadPartMore(s, rest, more);
  }

  lemma NumberWhole(s: string)
    requires ReadNumber(s).Some? && ReadNumber(s).value.1 != []
    ensures s != []
    ensures var body := Unsigned(s);
            var whole := TakeWhole(body);
            && whole != [] && |whole| < |body| && ReadNumber(s).value.1 == SkipInexact(body[|whole|..])
  {
    hide SkipInexact, TakeWhole, DigitsValue;
  }

  lemma ReadWordMore(s: string, more: string)
    requires ReadWord(s).Some?
    ensures ReadWord(s + more) == Some((ReadWord(s).value.0, ReadWord(s).value.1 + more))
  {
    var t := s + more;
    forall k | 0 <= k <= |s|
      ensures t[..k] == s[..k] && t[k..] == s[k..] + more
    {
    }
    assert t[0] == s[0];
  }

  /** A complete value is read the same way whatever text comes after it. */
  lemma {:induction false} ReadMore(s: string, more: string)
    requires Read(s).Some? && Settled(Read(s).value.0, Read(s).value.1)
    ensures Read(s + more) == Some((Read(s).value.0, Read(s).value.1 + more))
    decreases |s|, 0
  {
    var t := s + more;
    assert t[1..] == s[1..] + more && t[0] == s[0];
    if s[0] == '"' {
      ReadCharsMore(s[1..], more);
    } else if s[0] == '{' || s[0] == '[' {
      var body := SkipSpace(s[1..]);
      SkipSpaceMore(s[1..], more);
      assert (body + more)[1..] == body[1..] + more;
      if s[0] == '{' && body[0] != '}' {
        ReadFieldsMore(body, [], more);
      } else if s[0] == '[' && body[0] != ']' {
        ReadItemsMore(body, more);
      }
    } else if ReadWord(s).Some? {
      ReadWordMore(s, more);
    } else {
      ReadNumberMore(s, more);
      NoWordInNumber(s, more);
    }
  }

  lemma NoWordInNumber(s: string, more: string)
    requires ReadWord(s) == None && ReadNumber(s).Some?
    ensures ReadWord(s + more) == None
  {
    if s[0] == '-' {
      assert TakeWhole(s[1..]) != [];
      assert (s + more)[1] == s[1..][0];
    }
    NoWordStartsWith(s + more);
  }

  /** A value followed by a structural character is settled. */
  lemma SettledBefore(v: Json, rest: string)
    requires SkipSpace(rest) != [] && SkipSpace(rest)[0] in ",]}"
    ensures Settled(v, rest)
  {
  }

  lemma {:induction false} ReadItemsMore(s: string, more: string)
    requires ReadItems(s).Some?
    ensures ReadItems(s + more) == Some((ReadItems(s).value.0, ReadItems(s).value.1 + more))
    decreases |s|, 1
  {
    hide Read, Settled;
    var (v, afterValue) := Read(s).value;
    var rest := SkipSpace(afterValue);
    SettledBefore(v, afterValue);
    ReadMore(s, more);
    SkipSpaceMore(afterValue, more);
    assert (rest + more)[1..] == rest[1..] + more;
    if rest[0] == ',' {
      SkipSpaceMore(rest[1..], more);
      ReadItemsMore(SkipSpace(rest[1..]), more);
    }
  }

  lemma {:induction false} ReadFieldMore(s: string, more: string)
    requires ReadField(s).Some? && Settled(ReadField(s).value.0.value, ReadField(s).value.1)
    ensures ReadField(s + more) == Some((ReadField(s).value.0, ReadField(s).value.1 + more))
    decreases |s|, 1
  {
    hide Read, ReadChars, SkipSpace;
    assert (s + more)[1..] == s[1..] + more;
    ReadCharsMore(s[1..], more);
    var (key, afterKey) := ReadChars(s[1..]).value;
    var colon := SkipSpace(afterKey);
    SkipSpaceMore(afterKey, more);
    assert (colon + more)[1..] == colon[1..] + more;
    SkipSpaceMore(colon[1..], more);
    ReadMore(SkipSpace(colon[1..]), more);
  }

  lemma {:induction false} ReadFieldsMore(s: string, acc: seq<Field>, more: string)
    requires ReadFields(s, acc).Some?
    ensures ReadFields(s + more, acc) == Some((ReadFields(s, acc).value.0, ReadFields(s, acc).value.1 + more))
    decreases |s|, 2
  {
    hide ReadField, Settled, Put;
    var (f, afterField) := ReadField(s).value;
    var rest := SkipSpace(afterField);
    SettledBefore(f.value, afterField);
    ReadFieldMore(s, more);
    SkipSpaceMore(afterField, more);
    assert (rest + more)[1..] == rest[1..] + more;
    if rest[0] == ',' {
      SkipSpaceMore(rest[1..], more);
      ReadFieldsMore(SkipSpace(rest[1..]), Put(acc, f.key, f.value), more);
    }
  }

  // ----- What is read is a dictionary at every level ------------------------------------------

  lemma {:induction false} PutMembers(fields: seq<Field>, key: string, value: Json)
    ensures forall f :: f in Put(fields, key, value) ==> f == Field(key, value) || f in fields
  {
    if fields != [] && fields[0].key != key {
      PutMembers(fields[1..], key, value);
    }
  }

  lemma {:induction false} PutKeepsDistinct(fields: seq<Field>, key: string, value: Json)
    requires DistinctKeys(fields)
    ensures DistinctKeys(Put(fields, key, value))
  {
    if fields != [] && fields[0].key != key {
      var head, rest := fields[0], fields[1..];
      assert forall i | 0 <= i < |rest| :: rest[i] == fields[i + 1];
      PutKeepsDistinct(rest, key, value);
      PutMembers(rest, key, value);
      var put := Put(rest, key, value);
      forall i | 0 <= i < |put|
        ensures put[i].key != head.key
      {
        assert put[i] in put;
      }
    }
  }

  lemma {:induction false} ReadWellFormed(s: string)
    requires Read(s).Some?
    ensures WellFormed(Read(s).value.0)
    decreases |s|, 0
  {
    hide ReadNumber, ReadWord, ReadChars, ReadItems, ReadFields;
    if s[0] == '{' {
      var body := SkipSpace(s[1..]);
      if body[0] != '}' {
        ReadFieldsWellFormed(body, []);
      }
    } else if s[0] == '[' {
      var body := SkipSpace(s[1..]);
      if body[0] != ']' {
        ReadItemsWellFormed(body);
      }
    } else if s[0] != '"' {
      ReadScalars(s);
    }
  }

  lemma ReadScalars(s: string)
    ensures ReadWord(s).Some? ==> WellFormed(ReadWord(s).value.0)
    ensures ReadNumber(s).Some? ==> WellFormed(ReadNumber(s).value.0)
  {
    hide Text.StartsWith, Unsigned, TakeWhole, SkipInexact, DigitsValue;
  }

  lemma {:induction false} ReadItemsWellFormed(s: string)
    requires ReadItems(s).Some?
    ensures forall i | 0 <= i < |ReadItems(s).value.0| :: WellFormed(ReadItems(s).value.0[i])
    decreases |s|, 1
  {
    hide Read, SkipSpace, WellFormed;
    ReadWellFormed(s);
    var rest := SkipSpace(Read(s).value.1);
    if rest[0] == ',' {
      ReadItemsWellFormed(SkipSpace(rest[1..]));
    }
  }

  lemma {:induction false} ReadFieldsWellFormed(s: string, acc: seq<Field>)
    requires ReadFields(s, acc).Some? && WellFormed(Obj(acc))
    ensures WellFormed(Obj(ReadFields(s, acc).value.0))
    decreases |s|, 2
  {
    hide SkipSpace, Put, ReadField;
    var (f, afterField) := ReadField(s).value;
    ReadFieldWellFormed(s);
    PutKeepsDistinct(acc, f.key, f.value);
    PutMembers(acc, f.key, f.value);
    var put := Put(acc, f.key, f.value);
    forall i | 0 <= i < |put|
      ensures WellFormed(put[i].value)
    {
      assert put[i] in put;
    }
    var rest := SkipSpace(afterField);
    if rest[0] == ',' {
      ReadFieldsWellFormed(SkipSpace(rest[1..]), put);
    }
  }

  lemma {:induction false} ReadFieldWellFormed(s: string)
    requires ReadField(s).Some?
    ensures WellFormed(ReadField(s).value.0.value)
    decreases |s|, 1
  {
    hide Read, SkipSpace, WellFormed, ReadChars;
    var colon := SkipSpace(ReadChars(s[1..]).value.1);
    ReadWellFormed(SkipSpace(colon[1..]));
  }

  /** No proper prefix of the text of an object or array is the text of anything. */
  lemma ProperPrefixUnreadable(v: Json, style: Style, k: nat)
    requires Writable(v) && (v.Obj? || v.Arr?) && k < |Print(v, style)|
    ensures Loads(Print(v, style)[..k]) == None
  {
    var text := Print(v, style);
    var part := text[..k];
    ReadWritten(v, style, []);
    WriteStart(v, style, []);
    if k > 0 {
      assert part[0] == text[0] && SkipSpace(part) == part;
      match Read(part)
      case None =>
      case Some((w, rest)) =>
        assert !IsNumber(w);
        assert part + text[k..] == text;
        ReadMore(part, text[k..]);
    }
  }
}
