/**
 * The JSON grammar (RFC 8259) with every choice a writer has: white space, escapes, digits in either case, repeated
 * keys. The reader takes exactly the texts of the grammar and gives each its meaning.
 */
module JsonGrammar {
  import opened Wrappers
  import opened Json
  import opened JsonText
  import opened JsonRoundTrip
  import JsonScan
  import T = Text

  // ----- White space --------------------------------------------------------------------------

  /** Blanks, tabs, newlines and carriage returns, and nothing else. */
  predicate White(s: string) {
    forall i | 0 <= i < |s| :: s[i] == ' ' || s[i] == '\t' || s[i] == '\n' || s[i] == '\r'
  }

  lemma {:induction false} SkipWhite(w: string, s: string)
    requires White(w) && (s == [] || !IsSpace(s[0]))
    ensures SkipSpace(w + s) == s
  {
    if w == [] {
      assert w + s == s;
    } else {
      assert (w + s)[1..] == w[1..] + s;
      SkipWhite(w[1..], s);
    }
  }

  lemma {:induction false} SkippedWhite(s: string) returns (w: string)
    ensures White(w) && s == w + SkipSpace(s)
  {
    if s != [] && IsSpace(s[0]) {
      var rest := SkippedWhite(s[1..]);
      w := [s[0]] + rest;
      assert s == [s[0]] + s[1..];
    } else {
      w := [];
    }
  }

  // ----- Letters of a string literal ----------------------------------------------------------

  type HexNumber = n: int | 0 <= n < 16

  /** A hexadecimal digit in either case. */
  datatype Nibble = Nibble(n: HexNumber, upper: bool)

  datatype Unit = Unit(a: Nibble, b: Nibble, c: Nibble, d: Nibble)

  datatype Letter =
    | Itself(c: char)
    | Short(letter: char)
    | Long(unit: Unit)
    | Pair(high: Unit, low: Unit)

  function NibbleText(x: Nibble): char {
    (if x.upper then "0123456789ABCDEF" else "0123456789abcdef")[x.n]
  }

  function Number16(u: Unit): int {
    0x1000 * u.a.n + 0x100 * u.b.n + 0x10 * u.c.n + u.d.n
  }

  /** A character below the blank, a quote or a backslash is not a letter by itself; surrogates come in pairs. */
  predicate ValidLetter(l: Letter) {
    match l
    case Itself(c) => ' ' <= c && c != '"' && c != '\\'
    case Short(letter) => letter in "\"\\/bfnrt"
    case Long(unit) => !(0xD800 <= Number16(unit) < 0xE000)
    case Pair(high, low) => 0xD800 <= Number16(high) < 0xDC00 <= Number16(low) < 0xE000
  }

  /** The character a letter stands for. */
  function LetterMeaning(l: Letter): char
    requires ValidLetter(l)
  {
    match l
    case Itself(c) => c
    case Short(letter) =>
      if letter == 'b' then '\U{08}'
      else if letter == 'f' then '\U{0C}'
      else if letter == 'n' then '\n'
      else if letter == 'r' then '\r'
      else if letter == 't' then '\t'
      else letter
    case Long(unit) => Number16(unit) as char
    case Pair(high, low) => (0x10000 + 0x400 * (Number16(high) - 0xD800) + (Number16(low) - 0xDC00)) as char
  }

  function SpellUnit(u: Unit, tail: string): string {
    ['\\', 'u', NibbleText(u.a), NibbleText(u.b), NibbleText(u.c), NibbleText(u.d)] + tail
  }

  function SpellLetter(l: Letter, tail: string): string {
    match l
    case Itself(c) => [c] + tail
    case Short(letter) => ['\\', letter] + tail
    case Long(unit) => SpellUnit(unit, tail)
    case Pair(high, low) => SpellUnit(high, SpellUnit(low, tail))
  }

  /** The letters and the closing quote. */
  function SpellLetters(ls: seq<Letter>, tail: string): string {
    if ls == [] then ['"'] + tail else SpellLetter(ls[0], SpellLetters(ls[1..], tail))
  }

  predicate ValidLetters(ls: seq<Letter>) {
    forall i | 0 <= i < |ls| :: ValidLetter(ls[i])
  }

  function Chars(ls: seq<Letter>): string
    requires ValidLetters(ls)
  {
    if ls == [] then [] else [LetterMeaning(ls[0])] + Chars(ls[1..])
  }

  lemma NibbleRead(x: Nibble)
    ensures HexValue(NibbleText(x)) == Some(x.n)
  {
  }

  lemma UnitRead(u: Unit, tail: string)
    ensures ReadHex4(SpellUnit(u, tail)[2..]) == Some(Number16(u))
    ensures SpellUnit(u, tail)[6..] == tail
  {
    var s := SpellUnit(u, tail)[2..];
    NibbleRead(u.a);
    NibbleRead(u.b);
    NibbleRead(u.c);
    NibbleRead(u.d);
    hide NibbleText, HexValue;
    assert s[0] == NibbleText(u.a) && s[1] == NibbleText(u.b) && s[2] == NibbleText(u.c) && s[3] == NibbleText(u.d);
  }

  lemma LongRead(u: Unit, tail: string)
    requires ValidLetter(Long(u))
    ensures ReadsBack(SpellUnit(u, tail), Number16(u) as char, tail)
  {
    var text := SpellUnit(u, tail);
    UnitRead(u, tail);
    assert text[1..][1..] == text[2..] && text[1..][5..] == text[6..];
    hide ReadHex4, NibbleText;
  }

  lemma PairRead(high: Unit, low: Unit, tail: string)
    requires ValidLetter(Pair(high, low))
    ensures ReadsBack(SpellUnit(high, SpellUnit(low, tail)), LetterMeaning(Pair(high, low)), tail)
  {
    var after := SpellUnit(low, tail);
    var text := SpellUnit(high, after);
    UnitRead(high, after);
    UnitRead(low, tail);
    hide ReadHex4, NibbleText, Number16;
    assert text[1..][1..] == text[2..] && text[1..][5..] == after;
    assert text[1..][7..] == after[2..] && text[1..][11..] == after[6..];
    assert text[1..][5] == after[0] && text[1..][6] == after[1];
  }

  lemma LetterRead(l: Letter, tail: string)
    requires ValidLetter(l)
    ensures ReadsBack(SpellLetter(l, tail), LetterMeaning(l), tail)
  {
    match l
    case Itself(_) =>
    case Short(letter) => ShortRead(letter, tail);
    case Long(unit) => LongRead(unit, tail);
    case Pair(high, low) => PairRead(high, low, tail);
  }

  lemma ShortRead(letter: char, tail: string)
    requires ValidLetter(Short(letter))
    ensures ReadsBack(['\\', letter] + tail, LetterMeaning(Short(letter)), tail)
  {
    var text := ['\\', letter] + tail;
    assert text[1..] == [letter] + tail;
    assert text[1..][1..] == tail;
  }

  /** A string literal read, whatever escapes it is written with. */
  lemma {:induction false} LettersRead(ls: seq<Letter>, tail: string)
    requires ValidLetters(ls)
    ensures ReadChars(SpellLetters(ls, tail)) == Some((Chars(ls), tail))
  {
    if ls == [] {
      assert (['"'] + tail)[1..] == tail;
    } else {
      var rest := SpellLetters(ls[1..], tail);
      LettersRead(ls[1..], tail);
      LetterRead(ls[0], rest);
      hide ReadEscape, SpellLetter, LetterMeaning, ValidLetter;
      OneCharRead(SpellLetter(ls[0], rest), LetterMeaning(ls[0]), rest);
    }
  }

  lemma OneCharRead(text: string, c: char, rest: string)
    requires ReadsBack(text, c, rest) && ReadChars(rest).Some?
    ensures ReadChars(text) == Some(([c] + ReadChars(rest).value.0, ReadChars(rest).value.1))
  {
    hide ReadEscape;
    if text[0] != '\\' {
      assert text[1..] == rest;
    }
  }

  // ----- Numbers ------------------------------------------------------------------------------

  /** At least one decimal digit and nothing else. */
  predicate Digits(s: string) {
    s != [] && forall i | 0 <= i < |s| :: '0' <= s[i] <= '9'
  }

  /** A zero alone, or digits that do not begin with zero. */
  predicate Whole(s: string) {
    Digits(s) && (s[0] == '0' ==> |s| == 1)
  }

  predicate Fraction(s: string) {
    s == [] || (s[0] == '.' && Digits(s[1..]))
  }

  predicate Sign(s: string) {
    s == [] || s == "+" || s == "-"
  }

  datatype Exponent = NoExponent | Exponent(letter: char, sign: string, digits: string)

  predicate ValidExponent(e: Exponent) {
    e.Exponent? ==> (e.letter == 'e' || e.letter == 'E') && Sign(e.sign) && Digits(e.digits)
  }

  function ExponentText(e: Exponent, tail: string): string {
    match e
    case NoExponent => tail
    case Exponent(letter, sign, digits) => [letter] + (sign + (digits + tail))
  }

  /** The text does not go on with a character that could belong to a number. */
  predicate Ends(tail: string) {
    tail == [] || !('0' <= tail[0] <= '9' || tail[0] == '.' || tail[0] == 'e' || tail[0] == 'E')
  }

  lemma EndsIs(tail: string)
    ensures Ends(tail) <==> tail == [] || !Continues(tail[0])
  {
  }

  lemma DigitsRead(d: string, tail: string)
    requires Digits(d) && (tail == [] || !IsDigit(tail[0]))
    ensures TakeDigits(d + tail) == d && (d + tail)[|d|..] == tail
  {
    TakeAllDigits(d, tail);
  }

  lemma ExponentRead(e: Exponent, tail: string)
    requires ValidExponent(e) && Ends(tail)
    ensures SkipExponent(ExponentText(e, tail)) == tail
    ensures e.Exponent? ==> |ExponentText(e, tail)| > |tail|
  {
    EndsIs(tail);
    if e.Exponent? {
      var s := ExponentText(e, tail);
      var mark := 1 + |e.sign|;
      MarkIs(e, tail);
      DigitsRead(e.digits, tail);
      hide SkipExponent, TakeDigits, ExponentMark, Digits, Ends;
      ExponentIs(s, mark, e.digits);
      assert s[mark + |e.digits|..] == s[mark..][|e.digits|..];
    } else {
      hide TakeDigits, ExponentMark;
    }
  }

  lemma MarkIs(e: Exponent, tail: string)
    requires ValidExponent(e) && e.Exponent?
    ensures var s := ExponentText(e, tail);
            && ExponentMark(s) == 1 + |e.sign| && s[1 + |e.sign|..] == e.digits + tail
            && (s[0] == 'e' || s[0] == 'E') && |s| == 1 + |e.sign| + |e.digits| + |tail| && e.digits != []
  {
    var s := ExponentText(e, tail);
    assert s[0] == e.letter;
    if e.sign == [] {
      assert s[1] == e.digits[0];
    } else {
      assert s[1] == e.sign[0];
    }
  }

  lemma FractionRead(f: string, rest: string)
    requires Fraction(f) && (rest == [] || (rest[0] != '.' && !IsDigit(rest[0])))
    ensures SkipFraction(f + rest) == rest
  {
    if f == [] {
      assert f + rest == rest;
    } else {
      var s := f + rest;
      assert s[1..] == f[1..] + rest && s[0] == f[0] && s[1] == f[1];
      DigitsRead(f[1..], rest);
      assert s[1 + |f[1..]|..] == rest;
    }
  }

  datatype Decimal = Decimal(negative: bool, whole: string, fraction: string, exponent: Exponent)

  predicate ValidDecimal(d: Decimal) {
    Whole(d.whole) && Fraction(d.fraction) && ValidExponent(d.exponent)
  }

  /** What follows the whole part. */
  function Inexact(d: Decimal, tail: string): string {
    d.fraction + ExponentText(d.exponent, tail)
  }

  function SpellDecimal(d: Decimal, tail: string): string {
    var text := d.whole + Inexact(d, tail);
    if d.negative then ['-'] + text else text
  }

  /** Digits in base ten, the last one lowest. */
  function Value(digits: string): int
    requires forall i | 0 <= i < |digits| :: '0' <= digits[i] <= '9'
  {
    if digits == [] then 0 else 10 * Value(digits[..|digits| - 1]) + (digits[|digits| - 1] - '0') as int
  }

  /** An integer, or the text of a number that has a fraction or an exponent. */
  function DecimalMeaning(d: Decimal): Json
    requires ValidDecimal(d)
  {
    if d.fraction == [] && d.exponent.NoExponent? then Int(if d.negative then -Value(d.whole) else Value(d.whole))
    else Real(SpellDecimal(d, []))
  }

  lemma {:induction false} ValueIs(digits: string)
    requires forall i | 0 <= i < |digits| :: '0' <= digits[i] <= '9'
    ensures Value(digits) == DigitsValue(digits)
  {
    if digits != [] {
      ValueIs(digits[..|digits| - 1]);
    }
  }

  lemma ExponentStart(e: Exponent, tail: string)
    requires ValidExponent(e) && Ends(tail)
    ensures var s := ExponentText(e, tail); s == [] || (s[0] != '.' && !IsDigit(s[0]))
  {
  }

  lemma InexactRead(d: Decimal, tail: string)
    requires ValidDecimal(d) && Ends(tail)
    ensures SkipInexact(Inexact(d, tail)) == tail
    ensures |Inexact(d, tail)| == |tail| <==> d.fraction == [] && d.exponent.NoExponent?
    ensures Inexact(d, tail) == [] || !IsDigit(Inexact(d, tail)[0])
  {
    var e := ExponentText(d.exponent, tail);
    ExponentStart(d.exponent, tail);
    FractionRead(d.fraction, e);
    ExponentRead(d.exponent, tail);
    hide SkipFraction, SkipExponent, ExponentText, Digits;
    assert d.exponent.NoExponent? ==> e == tail by {
      hide *;
      NoExponentText(d.exponent, tail);
    }
  }

  lemma NoExponentText(e: Exponent, tail: string)
    ensures e.NoExponent? ==> ExponentText(e, tail) == tail
  {
  }

  lemma SpellDecimalTail(d: Decimal, tail: string)
    ensures SpellDecimal(d, tail) == SpellDecimal(d, []) + tail
  {
    assert d.exponent.Exponent? ==> ExponentText(d.exponent, tail) == ExponentText(d.exponent, []) + tail;
  }

  lemma WholeRead(w: string, rest: string)
    requires Whole(w) && (rest == [] || !IsDigit(rest[0]))
    ensures TakeWhole(w + rest) == w && (w + rest)[|w|..] == rest
    ensures w != [] && w[0] != '-' && IsDigit(w[0])
  {
    TakeWrittenWhole(w, rest);
  }

  lemma UnsignedRead(d: Decimal, tail: string)
    requires d.whole != [] && d.whole[0] != '-'
    ensures var s := SpellDecimal(d, tail);
            Unsigned(s) == d.whole + Inexact(d, tail) && (d.negative <==> |Unsigned(s)| < |s|)
    ensures SpellDecimal(d, tail)[0] == if d.negative then '-' else d.whole[0]
    ensures d.negative ==> |SpellDecimal(d, tail)| >= 2 && SpellDecimal(d, tail)[1] == d.whole[0]
  {
    var s := SpellDecimal(d, tail);
    hide Inexact;
    if d.negative {
      assert s[1..] == d.whole + Inexact(d, tail);
    }
  }

  /** A number read, whatever its parts are. */
  lemma DecimalRead(d: Decimal, tail: string)
    requires ValidDecimal(d) && Ends(tail)
    ensures Read(SpellDecimal(d, tail)) == Some((DecimalMeaning(d), tail))
  {
    hide *;
    var s := SpellDecimal(d, tail);
    DecimalParts(d);
    InexactRead(d, tail);
    WholeRead(d.whole, Inexact(d, tail));
    UnsignedRead(d, tail);
    NumberIs(s, d.whole + Inexact(d, tail), d.whole, tail);
    ReadIsNumber(s);
    SpellDecimalTail(d, tail);
    PartBefore(s, SpellDecimal(d, []), tail);
    DecimalMeaningIs(d);
  }

  lemma DecimalParts(d: Decimal)
    requires ValidDecimal(d)
    ensures Whole(d.whole)
  {
  }

  lemma DecimalMeaningIs(d: Decimal)
    requires ValidDecimal(d)
    ensures DecimalMeaning(d) ==
            if d.fraction == [] && d.exponent.NoExponent? then Int(Signed(d.negative, DigitsValue(d.whole)))
            else Real(SpellDecimal(d, []))
  {
    ValueIs(d.whole);
    hide DigitsValue, Value, SpellDecimal;
  }

  lemma PartBefore(s: string, front: string, tail: string)
    requires s == front + tail
    ensures |tail| <= |s| && ReadPart(s, tail) == front
  {
  }

  lemma TakenDigits(s: string)
    ensures s == TakeDigits(s) + s[|TakeDigits(s)|..]
    ensures TakeDigits(s) != [] ==> Digits(TakeDigits(s))
  {
  }

  lemma FractionParsed(s: string) returns (f: string)
    ensures Fraction(f) && s == f + SkipFraction(s)
  {
    if |s| >= 2 && s[0] == '.' && IsDigit(s[1]) {
      TakenDigits(s[1..]);
      TakesFirst(s[1..]);
      hide TakeDigits;
      var d := TakeDigits(s[1..]);
      f := ['.'] + d;
      assert f[1..] == d;
      assert s == ['.'] + s[1..];
    } else {
      f := [];
    }
  }

  lemma TakesFirst(s: string)
    requires s != [] && IsDigit(s[0])
    ensures TakeDigits(s) != []
  {
  }

  lemma ExponentParsed(s: string) returns (e: Exponent)
    ensures ValidExponent(e) && s == ExponentText(e, SkipExponent(s))
  {
    if SkipExponent(s) == s {
      e := NoExponent;
    } else {
      SkipNothing();
      hide SkipExponent, ExponentMark;
      var mark, d := ExponentDigits(s);
      MarkChars(s);
      TakenDigits(s[mark..]);
      hide TakeDigits, Digits;
      e := Exponent(s[0], s[1..mark], d);
      assert s == [s[0]] + (s[1..mark] + s[mark..]);
      assert s[mark + |d|..] == s[mark..][|d|..];
    }
  }

  lemma SkipNothing()
    ensures SkipExponent([]) == []
  {
  }

  lemma MarkChars(s: string)
    requires |s| >= 2
    ensures Sign(s[1..ExponentMark(s)])
  {
    if ExponentMark(s) == 2 {
      assert s[1..2] == [s[1]];
    } else {
      assert s[1..1] == [];
    }
  }

  lemma WholeParsed(s: string)
    requires TakeWhole(s) != []
    ensures Whole(TakeWhole(s)) && s == TakeWhole(s) + s[|TakeWhole(s)|..]
  {
    if s[0] == '0' {
      assert s == s[..1] + s[1..];
    } else {
      TakenDigits(s);
      assert TakeDigits(s)[0] == s[0];
    }
  }

  /** Whatever is read as a number is spelled by a number. */
  lemma DecimalParsed(s: string) returns (d: Decimal)
    requires ReadNumber(s).Some?
    ensures ValidDecimal(d)
    ensures s == SpellDecimal(d, ReadNumber(s).value.1) && ReadNumber(s).value.0 == DecimalMeaning(d)
  {
    NumberHasWhole(s);
    hide *;
    var body := Unsigned(s);
    var whole := TakeWhole(body);
    var after := body[|whole|..];
    var rest := SkipInexact(after);
    NumberIs(s, body, whole, rest);
    WholeParsed(body);
    var f := FractionParsed(after);
    var e := ExponentParsed(SkipFraction(after));
    SkipInexactIs(after);
    d := Decimal(|body| < |s|, whole, f, e);
    ValidParts(d);
    ParsedText(s, d, rest);
    SpellDecimalTail(d, rest);
    PartBefore(s, SpellDecimal(d, []), rest);
    DecimalMeaningIs(d);
    ParsedLength(d, rest);
  }

  lemma NumberHasWhole(s: string)
    requires ReadNumber(s).Some?
    ensures TakeWhole(Unsigned(s)) != []
  {
    hide TakeWhole, Unsigned, SkipInexact, DigitsValue;
  }

  lemma SkipInexactIs(s: string)
    ensures SkipInexact(s) == SkipExponent(SkipFraction(s))
  {
  }

  lemma ValidParts(d: Decimal)
    requires Whole(d.whole) && Fraction(d.fraction) && ValidExponent(d.exponent)
    ensures ValidDecimal(d)
  {
  }

  lemma ParsedText(s: string, d: Decimal, rest: string)
    requires Unsigned(s) == d.whole + (d.fraction + ExponentText(d.exponent, rest))
    requires d.negative == (|Unsigned(s)| < |s|)
    ensures SpellDecimal(d, rest) == s
  {
    hide ExponentText;
  }

  lemma ParsedLength(d: Decimal, rest: string)
    requires ValidExponent(d.exponent)
    ensures |Inexact(d, rest)| == |rest| <==> d.fraction == [] && d.exponent.NoExponent?
    ensures Inexact(d, rest) == d.fraction + ExponentText(d.exponent, rest)
  {
  }

  // ----- Letters that were read ---------------------------------------------------------------

  lemma NibbleParsed(c: char) returns (x: Nibble)
    requires HexValue(c).Some?
    ensures NibbleText(x) == c && HexValue(c) == Some(x.n)
  {
    x := Nibble(HexValue(c).value, 'A' <= c <= 'F');
  }

  lemma UnitParsed(s: string) returns (u: Unit)
    requires ReadHex4(s).Some?
    ensures ReadHex4(s) == Some(Number16(u)) && ['\\', 'u'] + s == SpellUnit(u, s[4..])
  {
    var a := NibbleParsed(s[0]);
    var b := NibbleParsed(s[1]);
    var c := NibbleParsed(s[2]);
    var d := NibbleParsed(s[3]);
    hide HexValue, NibbleText;
    u := Unit(a, b, c, d);
    assert s == [s[0], s[1], s[2], s[3]] + s[4..];
  }

  lemma EscapeParsed(s: string) returns (l: Letter)
    requires ReadEscape(s).Some?
    ensures ValidLetter(l)
    ensures LetterMeaning(l) == ReadEscape(s).value.0 && ['\\'] + s == SpellLetter(l, ReadEscape(s).value.1)
  {
    if s[0] == 'u' {
      l := LongParsed(s);
    } else {
      hide ReadHex4;
      l := Short(s[0]);
      assert s == [s[0]] + s[1..];
    }
  }

  lemma LongParsed(s: string) returns (l: Letter)
    requires ReadEscape(s).Some? && s[0] == 'u'
    ensures ValidLetter(l)
    ensures LetterMeaning(l) == ReadEscape(s).value.0 && ['\\'] + s == SpellLetter(l, ReadEscape(s).value.1)
  {
    hide ReadHex4, Number16, NibbleText, SpellUnit;
    var unit := UnitParsed(s[1..]);
    assert ['\\', 'u'] + s[1..] == ['\\'] + s && s[1..][4..] == s[5..];
    if IsHighSurrogate(Number16(unit)) {
      var low := UnitParsed(s[7..]);
      assert ['\\', 'u'] + s[7..] == s[5..] && s[7..][4..] == s[11..];
      l := Pair(unit, low);
    } else {
      l := Long(unit);
    }
  }

  /** Whatever is read as a string literal is spelled by letters. */
  lemma {:induction false} LettersParsed(s: string) returns (ls: seq<Letter>)
    requires ReadChars(s).Some?
    ensures ValidLetters(ls)
    ensures Chars(ls) == ReadChars(s).value.0 && s == SpellLetters(ls, ReadChars(s).value.1)
    decreases |s|
  {
    hide ReadEscape, LetterMeaning, ValidLetter, SpellLetter;
    if s[0] == '"' {
      ls := [];
      assert s == ['"'] + s[1..];
    } else if s[0] == '\\' {
      var l := EscapeParsed(s[1..]);
      var more := LettersParsed(ReadEscape(s[1..]).value.1);
      assert s == ['\\'] + s[1..];
      ls := [l] + more;
      assert ls[1..] == more;
    } else {
      var more := LettersParsed(s[1..]);
      assert s == [s[0]] + s[1..];
      RawLetter(s[0], s[1..]);
      ls := [Itself(s[0])] + more;
      assert ls[1..] == more;
    }
  }

  lemma RawLetter(c: char, rest: string)
    requires c != '"' && c != '\\' && c as int >= 0x20
    ensures ValidLetter(Itself(c)) && LetterMeaning(Itself(c)) == c && SpellLetter(Itself(c), rest) == [c] + rest
  {
  }

  // ----- Values -------------------------------------------------------------------------------

  /** A value as it is written down: white space stands before and after everything a bracket or brace holds. */
  datatype Syntax =
    | Word(value: Json)
    | Number(decimal: Decimal)
    | Literal(letters: seq<Letter>)
    | EmptyArray(gap: string)
    | Array(items: seq<Item>)
    | EmptyObject(gap: string)
    | Object(entries: seq<Entry>)

  datatype Item = Item(before: string, value: Syntax, after: string)

  datatype Entry =
    Entry(before: string, key: seq<Letter>, afterKey: string, beforeValue: string, value: Syntax, after: string)

  /** null, true and false, and the three words Python adds. */
  function WordText(value: Json): Option<string> {
    match value
    case Null => Some("null")
    case Bool(b) => Some(if b then "true" else "false")
    case Real(lexeme) => if lexeme in {"NaN", "Infinity", "-Infinity"} then Some(lexeme) else None
    case _ => None
  }

  predicate Valid(c: Syntax)
    decreases c, 0
  {
    match c
    case Word(value) => WordText(value).Some?
    case Number(decimal) => ValidDecimal(decimal)
    case Literal(letters) => ValidLetters(letters)
    case EmptyArray(gap) => White(gap)
    case EmptyObject(gap) => White(gap)
    case Array(items) => items != [] && forall i | 0 <= i < |items| :: ValidItem(items[i])
    case Object(entries) => entries != [] && forall i | 0 <= i < |entries| :: ValidEntry(entries[i])
  }

  predicate ValidItem(i: Item)
    decreases i, 1
  {
    White(i.before) && Valid(i.value) && White(i.after)
  }

  predicate ValidEntry(e: Entry)
    decreases e, 1
  {
    && White(e.before) && ValidLetters(e.key) && White(e.afterKey)
    && White(e.beforeValue) && Valid(e.value) && White(e.after)
  }

  /** The text of a value, followed by `tail`. */
  function Spell(c: Syntax, tail: string): string
    decreases c, 0
  {
    match c
    case Word(value) => (match WordText(value) case Some(text) => text case None => []) + tail
    case Number(decimal) => SpellDecimal(decimal, tail)
    case Literal(letters) => ['"'] + SpellLetters(letters, tail)
    case EmptyArray(gap) => ['['] + (gap + ([']'] + tail))
    case EmptyObject(gap) => ['{'] + (gap + (['}'] + tail))
    case Array(items) => ['['] + SpellItems(items, tail)
    case Object(entries) => ['{'] + SpellEntries(entries, tail)
  }

  /** The items, with commas between them, and the closing bracket. */
  function SpellItems(items: seq<Item>, tail: string): string
    decreases items, 1
  {
    if items == [] then [']'] + tail
    else
      items[0].before + Spell(items[0].value, items[0].after +
        (if |items| == 1 then [']'] + tail else [','] + SpellItems(items[1..], tail)))
  }

  function SpellEntry(e: Entry, tail: string): string
    decreases e, 1
  {
    ['"'] + SpellLetters(e.key, e.afterKey + ([':'] + (e.beforeValue + Spell(e.value, e.after + tail))))
  }

  /** The members, with commas between them, and the closing brace. */
  function SpellEntries(entries: seq<Entry>, tail: string): string
    decreases entries, 1
  {
    if entries == [] then ['}'] + tail
    else
      entries[0].before + SpellEntry(entries[0],
        (if |entries| == 1 then ['}'] + tail else [','] + SpellEntries(entries[1..], tail)))
  }

  /** The value a text stands for: of several members with one key the last one counts. */
  function Meaning(c: Syntax): Json
    requires Valid(c)
    decreases c, 0
  {
    match c
    case Word(value) => value
    case Number(decimal) => DecimalMeaning(decimal)
    case Literal(letters) => Str(Chars(letters))
    case EmptyArray(_) => Arr([])
    case EmptyObject(_) => Obj([])
    case Array(items) => Arr(Meanings(items))
    case Object(entries) => Obj(Members([], entries))
  }

  function Meanings(items: seq<Item>): seq<Json>
    requires forall i | 0 <= i < |items| :: ValidItem(items[i])
    decreases items, 1
  {
    if items == [] then []
    else
      assert ValidItem(items[0]);
      [Meaning(items[0].value)] + Meanings(items[1..])
  }

  function Members(before: seq<Field>, entries: seq<Entry>): seq<Field>
    requires forall i | 0 <= i < |entries| :: ValidEntry(entries[i])
    decreases entries, 1
  {
    if entries == [] then before
    else
      assert ValidEntry(entries[0]);
      Members(Put(before, Chars(entries[0].key), Meaning(entries[0].value)), entries[1..])
  }

  // ----- Every text of the grammar is read ----------------------------------------------------

  lemma WordStarts(word: string, tail: string)
    requires word != []
    ensures T.StartsWith(word + tail, word) && (word + tail)[|word|..] == tail && (word + tail)[0] == word[0]
  {
  }

  lemma OtherWord(s: string, other: string)
    requires s != [] && other != [] && s[0] != other[0]
    ensures !T.StartsWith(s, other)
  {
  }

  lemma WordTaken(value: Json, word: string, tail: string)
    requires WordText(value) == Some(word)
    ensures ReadWord(word + tail) == Some((value, tail))
    ensures (word + tail)[0] == word[0] && word[0] in "ntfNI-"
  {
    hide T.StartsWith;
    var text := word + tail;
    WordStarts(word, tail);
    if word != "null" {
      OtherWord(text, "null");
    }
    if word != "true" {
      OtherWord(text, "true");
    }
    if word != "false" {
      OtherWord(text, "false");
    }
    if word != "NaN" {
      OtherWord(text, "NaN");
    }
    if word != "Infinity" {
      OtherWord(text, "Infinity");
    }
  }

  lemma ReadIsWord(s: string)
    requires ReadWord(s).Some? && s[0] in "ntfNI-"
    ensures Read(s) == ReadWord(s)
  {
    hide ReadNumber, ReadItems, ReadFields, ReadChars, SkipSpace, ReadWord;
  }

  lemma WordRead(value: Json, tail: string)
    requires WordText(value).Some?
    ensures Read(Spell(Word(value), tail)) == Some((value, tail))
  {
    hide Read, ReadWord;
    WordTaken(value, WordText(value).value, tail);
    ReadIsWord(WordText(value).value + tail);
  }

  lemma LiteralRead(ls: seq<Letter>, tail: string)
    requires ValidLetters(ls)
    ensures Read(['"'] + SpellLetters(ls, tail)) == Some((Str(Chars(ls)), tail))
  {
    LettersRead(ls, tail);
    hide ReadChars, SpellLetters, Chars, ValidLetters, ReadNumber, ReadItems, ReadFields, SkipSpace, ReadWord;
    assert (['"'] + SpellLetters(ls, tail))[1..] == SpellLetters(ls, tail);
  }

  lemma EmptyRead(gap: string, tail: string)
    requires White(gap)
    ensures Read(['['] + (gap + ([']'] + tail))) == Some((Arr([]), tail))
    ensures Read(['{'] + (gap + (['}'] + tail))) == Some((Obj([]), tail))
  {
    SkipWhite(gap, [']'] + tail);
    SkipWhite(gap, ['}'] + tail);
    hide SkipSpace, ReadChars, ReadNumber, ReadItems, ReadFields, ReadWord, White;
    assert (['['] + (gap + ([']'] + tail)))[1..] == gap + ([']'] + tail);
    assert (['{'] + (gap + (['}'] + tail)))[1..] == gap + (['}'] + tail);
    assert ([']'] + tail)[1..] == tail && (['}'] + tail)[1..] == tail;
  }

  /** Reading goes on behind an opening bracket or brace and white space. */
  lemma Opened(text: string)
    requires SkipSpace(text) != []
    ensures SkipSpace(text)[0] != ']' && ReadItems(SkipSpace(text)).Some? ==>
              Read(['['] + text) == Some((Arr(ReadItems(SkipSpace(text)).value.0), ReadItems(SkipSpace(text)).value.1))
    ensures SkipSpace(text)[0] != '}' && ReadFields(SkipSpace(text), []).Some? ==>
              Read(['{'] + text) ==
              Some((Obj(ReadFields(SkipSpace(text), []).value.0), ReadFields(SkipSpace(text), []).value.1))
  {
    hide ReadItems, ReadFields, SkipSpace, ReadNumber, ReadWord, ReadChars;
    assert (['['] + text)[1..] == text && (['{'] + text)[1..] == text;
  }

  lemma DecimalStart(d: Decimal, tail: string)
    requires ValidDecimal(d)
    ensures var text := SpellDecimal(d, tail); text != [] && (text[0] == '-' || IsDigit(text[0]))
  {
    hide Inexact;
  }

  /** A value starts with neither white space nor a closing bracket or brace. */
  lemma SpellStart(c: Syntax, tail: string)
    requires Valid(c)
    ensures var text := Spell(c, tail);
            text != [] && !IsSpace(text[0]) && text[0] != ']' && text[0] != '}'
  {
    match c
    case Word(value) =>
      var word := WordText(value).value;
      assert (word + tail)[0] == word[0];
    case Number(decimal) =>
      DecimalStart(decimal, tail);
      hide SpellDecimal, ValidDecimal;
    case _ =>
  }

  lemma WhiteEnds(w: string, c: char, rest: string)
    requires White(w) && (c == ',' || c == ']' || c == '}')
    ensures Ends(w + ([c] + rest)) && SkipSpace(w + ([c] + rest)) == [c] + rest
  {
    SkipWhite(w, [c] + rest);
    if w != [] {
      assert (w + ([c] + rest))[0] == w[0];
    }
    hide SkipSpace;
  }

  lemma ItemsEnd(s: string, v: Json, w: string, tail: string)
    requires White(w) && Read(s) == Some((v, w + ([']'] + tail)))
    ensures ReadItems(s) == Some(([v], tail))
  {
    WhiteEnds(w, ']', tail);
    hide Read, SkipSpace, White, Ends;
    assert ([']'] + tail)[1..] == tail;
  }

  lemma ItemsNext(s: string, v: Json, w: string, more: string)
    requires White(w) && Read(s) == Some((v, w + ([','] + more))) && ReadItems(SkipSpace(more)).Some?
    ensures ReadItems(s) ==
            Some(([v] + ReadItems(SkipSpace(more)).value.0, ReadItems(SkipSpace(more)).value.1))
  {
    WhiteEnds(w, ',', more);
    hide Read, SkipSpace, White, Ends;
    assert ([','] + more)[1..] == more;
  }

  lemma FieldsEndAt(s: string, acc: seq<Field>, f: Field, w: string, tail: string)
    requires White(w) && ReadField(s) == Some((f, w + (['}'] + tail)))
    ensures ReadFields(s, acc) == Some((Put(acc, f.key, f.value), tail))
  {
    WhiteEnds(w, '}', tail);
    hide ReadField, SkipSpace, White, Ends, Put;
    assert (['}'] + tail)[1..] == tail;
  }

  lemma FieldsNext(s: string, acc: seq<Field>, f: Field, w: string, more: string)
    requires White(w) && ReadField(s) == Some((f, w + ([','] + more)))
    ensures ReadFields(s, acc) == ReadFields(SkipSpace(more), Put(acc, f.key, f.value))
  {
    WhiteEnds(w, ',', more);
    hide ReadField, SkipSpace, White, Ends, Put;
    assert ([','] + more)[1..] == more;
  }

  /** What follows an item, an entry. */
  function AfterItem(items: seq<Item>, tail: string): string
    requires items != []
  {
    if |items| == 1 then [']'] + tail else [','] + SpellItems(items[1..], tail)
  }

  function AfterEntry(entries: seq<Entry>, tail: string): string
    requires entries != []
  {
    if |entries| == 1 then ['}'] + tail else [','] + SpellEntries(entries[1..], tail)
  }

  lemma ItemsSpelled(items: seq<Item>, tail: string)
    requires items != [] && ValidItem(items[0])
    ensures White(items[0].before) && Valid(items[0].value) && White(items[0].after)
    ensures var text := Spell(items[0].value, items[0].after + AfterItem(items, tail));
            && SpellItems(items, tail) == items[0].before + text
            && SkipSpace(SpellItems(items, tail)) == text && text != [] && text[0] != ']'
  {
    var text := Spell(items[0].value, items[0].after + AfterItem(items, tail));
    SpellStart(items[0].value, items[0].after + AfterItem(items, tail));
    SkipWhite(items[0].before, text);
    hide Spell, SkipSpace, White, IsSpace, Valid;
  }

  lemma EntriesSpelled(entries: seq<Entry>, tail: string)
    requires entries != [] && ValidEntry(entries[0])
    ensures White(entries[0].before) && White(entries[0].after)
    ensures var text := SpellEntry(entries[0], AfterEntry(entries, tail));
            && SpellEntries(entries, tail) == entries[0].before + text
            && SkipSpace(SpellEntries(entries, tail)) == text && text != [] && text[0] != '}'
  {
    var text := SpellEntry(entries[0], AfterEntry(entries, tail));
    assert text[0] == '"';
    SkipWhite(entries[0].before, text);
    hide SpellEntry, SkipSpace, White, Valid, ValidLetters;
  }

  lemma AfterItemEnds(items: seq<Item>, tail: string)
    requires items != [] && White(items[0].after)
    ensures Ends(items[0].after + AfterItem(items, tail))
  {
    hide Ends, White, SpellItems;
    if |items| == 1 {
      WhiteEnds(items[0].after, ']', tail);
    } else {
      WhiteEnds(items[0].after, ',', SpellItems(items[1..], tail));
    }
  }

  lemma AfterEntryEnds(entries: seq<Entry>, tail: string)
    requires entries != [] && White(entries[0].after)
    ensures Ends(entries[0].after + AfterEntry(entries, tail))
  {
    hide Ends, White, SpellEntries;
    if |entries| == 1 {
      WhiteEnds(entries[0].after, '}', tail);
    } else {
      WhiteEnds(entries[0].after, ',', SpellEntries(entries[1..], tail));
    }
  }

  /**
   * Every text of the grammar is read as what it stands for, and exactly what follows is left; a number must not go
   * on in that.
   */
  lemma {:induction false} SyntaxRead(c: Syntax, tail: string)
    requires Valid(c) && (c.Number? ==> Ends(tail))
    ensures Read(Spell(c, tail)) == Some((Meaning(c), tail))
    decreases c, 0
  {
    hide Read, ReadItems, ReadFields, SkipSpace, SpellItems, SpellEntries, SpellLetters, SpellDecimal, ValidDecimal,
         ValidLetters, White, WordText, Meanings, Members, Chars, DecimalMeaning, Ends, ValidItem, ValidEntry;
    match c
    case Word(value) => WordRead(value, tail);
    case Number(decimal) => DecimalRead(decimal, tail);
    case Literal(letters) => LiteralRead(letters, tail);
    case EmptyArray(gap) => EmptyRead(gap, tail);
    case EmptyObject(gap) => EmptyRead(gap, tail);
    case Array(items) =>
      assert ValidItem(items[0]);
      ItemsSpelled(items, tail);
      ItemsRead(items, tail);
      Opened(SpellItems(items, tail));
    case Object(entries) =>
      assert ValidEntry(entries[0]);
      EntriesSpelled(entries, tail);
      EntriesRead(entries, [], tail);
      Opened(SpellEntries(entries, tail));
  }

  lemma {:induction false} ItemsRead(items: seq<Item>, tail: string)
    requires items != [] && forall i | 0 <= i < |items| :: ValidItem(items[i])
    ensures ReadItems(SkipSpace(SpellItems(items, tail))) == Some((Meanings(items), tail))
    decreases items, 1
  {
    hide *;
    assert ValidItem(items[0]);
    var item, after := items[0], AfterItem(items, tail);
    ItemsSpelled(items, tail);
    AfterItemEnds(items, tail);
    SyntaxRead(item.value, item.after + after);
    var text := Spell(item.value, item.after + after);
    MeaningsAre(items);
    AfterItemIs(items, tail);
    if |items| == 1 {
      ItemsEnd(text, Meaning(item.value), item.after, tail);
    } else {
      ItemsRead(items[1..], tail);
      ItemsNext(text, Meaning(item.value), item.after, SpellItems(items[1..], tail));
    }
  }

  lemma AfterItemIs(items: seq<Item>, tail: string)
    requires items != []
    ensures AfterItem(items, tail) == if |items| == 1 then [']'] + tail else [','] + SpellItems(items[1..], tail)
  {
    hide SpellItems;
  }

  lemma AfterEntryIs(entries: seq<Entry>, tail: string)
    requires entries != []
    ensures AfterEntry(entries, tail) ==
            if |entries| == 1 then ['}'] + tail else [','] + SpellEntries(entries[1..], tail)
  {
    hide SpellEntries;
  }

  lemma MeaningsAre(items: seq<Item>)
    requires items != [] && forall i | 0 <= i < |items| :: ValidItem(items[i])
    ensures Valid(items[0].value)
    ensures Meanings(items) == [Meaning(items[0].value)] + Meanings(items[1..])
    ensures |items| == 1 ==> Meanings(items) == [Meaning(items[0].value)]
  {
    hide Meaning, Valid, White;
    assert ValidItem(items[0]);
  }

  lemma EntryRead(e: Entry, tail: string)
    requires ValidEntry(e) && Ends(e.after + tail)
    ensures ReadField(SpellEntry(e, tail)) == Some((Field(Chars(e.key), Meaning(e.value)), e.after + tail))
    decreases e, 1
  {
    var value := Spell(e.value, e.after + tail);
    var colon := [':'] + (e.beforeValue + value);
    SyntaxRead(e.value, e.after + tail);
    LettersRead(e.key, e.afterKey + colon);
    SpellStart(e.value, e.after + tail);
    SkipWhite(e.beforeValue, value);
    SkipWhite(e.afterKey, colon);
    hide Read, ReadChars, SkipSpace, Spell, Meaning, Valid, White, Ends, SpellLetters, Chars, ValidLetters;
    assert SpellEntry(e, tail)[1..] == SpellLetters(e.key, e.afterKey + colon);
    assert colon[1..] == e.beforeValue + value;
  }

  lemma {:induction false} EntriesRead(entries: seq<Entry>, acc: seq<Field>, tail: string)
    requires entries != [] && forall i | 0 <= i < |entries| :: ValidEntry(entries[i])
    ensures ReadFields(SkipSpace(SpellEntries(entries, tail)), acc) == Some((Members(acc, entries), tail))
    decreases entries, 2
  {
    hide *;
    assert ValidEntry(entries[0]);
    var entry, after := entries[0], AfterEntry(entries, tail);
    EntriesSpelled(entries, tail);
    AfterEntryEnds(entries, tail);
    MembersAre(entries, acc);
    EntryRead(entry, after);
    var f := Field(Chars(entry.key), Meaning(entry.value));
    AfterEntryIs(entries, tail);
    if |entries| == 1 {
      FieldsEndAt(SpellEntry(entry, after), acc, f, entry.after, tail);
    } else {
      EntriesRead(entries[1..], Put(acc, f.key, f.value), tail);
      FieldsNext(SpellEntry(entry, after), acc, f, entry.after, SpellEntries(entries[1..], tail));
    }
  }

  lemma MembersAre(entries: seq<Entry>, acc: seq<Field>)
    requires entries != [] && forall i | 0 <= i < |entries| :: ValidEntry(entries[i])
    ensures ValidLetters(entries[0].key) && Valid(entries[0].value)
    ensures var next := Put(acc, Chars(entries[0].key), Meaning(entries[0].value));
            && Members(acc, entries) == Members(next, entries[1..])
            && (|entries| == 1 ==> Members(acc, entries) == next)
  {
    hide Meaning, Valid, White, ValidLetters, Chars, Put;
    assert ValidEntry(entries[0]);
  }

  // ----- Every text that is read is in the grammar --------------------------------------------

  lemma WordParsed(s: string)
    requires ReadWord(s).Some?
    ensures WordText(ReadWord(s).value.0).Some?
    ensures Spell(Word(ReadWord(s).value.0), ReadWord(s).value.1) == s
  {
    var rest := ReadWord(s).value.1;
    assert s == s[..|s| - |rest|] + s[|s| - |rest|..];
  }

  /** What a bracket or brace opens, when it is closed at once. */
  lemma ClosedAtOnce(s: string, gap: string)
    requires s != [] && SkipSpace(s[1..]) != [] && s[1..] == gap + SkipSpace(s[1..]) && White(gap)
    ensures s[0] == '[' && SkipSpace(s[1..])[0] == ']' ==> Spell(EmptyArray(gap), SkipSpace(s[1..])[1..]) == s
    ensures s[0] == '{' && SkipSpace(s[1..])[0] == '}' ==> Spell(EmptyObject(gap), SkipSpace(s[1..])[1..]) == s
  {
    hide SkipSpace, White;
    var body := SkipSpace(s[1..]);
    assert s == [s[0]] + (gap + ([body[0]] + body[1..]));
  }

  /** Which of its parts a text that reads was read by. */
  lemma ReadCases(s: string)
    requires Read(s).Some?
    ensures s != []
    ensures s[0] == '"' ==> ReadChars(s[1..]).Some?
    ensures s[0] == '"' ==> Read(s).value == (Str(ReadChars(s[1..]).value.0), ReadChars(s[1..]).value.1)
    ensures s[0] == '[' || s[0] == '{' ==> SkipSpace(s[1..]) != []
    ensures s[0] == '[' ==>
              var body := SkipSpace(s[1..]);
              if body[0] == ']' then Read(s).value == (Arr([]), body[1..])
              else ReadItems(body).Some? && Read(s).value == (Arr(ReadItems(body).value.0), ReadItems(body).value.1)
    ensures s[0] == '{' ==>
              var body := SkipSpace(s[1..]);
              if body[0] == '}' then Read(s).value == (Obj([]), body[1..])
              else
                && ReadFields(body, []).Some?
                && Read(s).value == (Obj(ReadFields(body, []).value.0), ReadFields(body, []).value.1)
    ensures s[0] !in "\"[{" ==> Read(s) == if ReadWord(s).Some? then ReadWord(s) else ReadNumber(s)
  {
    hide ReadItems, ReadFields, SkipSpace, ReadNumber, ReadWord, ReadChars;
    ItemsNonEmpty();
  }

  lemma ItemsNonEmpty()
    ensures ReadItems([]) == None && ReadFields([], []) == None
  {
  }

  /** Whatever is read is the text of a value of the grammar with that meaning. */
  lemma {:induction false} SyntaxParsed(s: string) returns (c: Syntax)
    requires Read(s).Some?
    ensures Valid(c) && Meaning(c) == Read(s).value.0 && Spell(c, Read(s).value.1) == s
    decreases |s|, 0
  {
    ReadCases(s);
    hide *;
    var rest := Read(s).value.1;
    if s[0] == '"' {
      var ls := LettersParsed(s[1..]);
      c := Literal(ls);
      LiteralIs(c, s, rest);
    } else if s[0] == '[' {
      var gap := SkippedWhite(s[1..]);
      if SkipSpace(s[1..])[0] == ']' {
        ClosedAtOnce(s, gap);
        c := EmptyArray(gap);
        EmptyIs(gap);
      } else {
        var items := ItemsParsed(SkipSpace(s[1..]));
        items := BeforeItems(gap, items, rest);
        c := Array(items);
        ArrayIs(items, rest, s);
      }
    } else if s[0] == '{' {
      var gap := SkippedWhite(s[1..]);
      if SkipSpace(s[1..])[0] == '}' {
        ClosedAtOnce(s, gap);
        c := EmptyObject(gap);
        EmptyIs(gap);
      } else {
        var entries := EntriesParsed(SkipSpace(s[1..]), []);
        entries := BeforeEntries(gap, entries, rest);
        c := Object(entries);
        ObjectIs(entries, rest, s);
      }
    } else if ReadWord(s).Some? {
      WordParsed(s);
      c := Word(Read(s).value.0);
      WordIs(c);
    } else {
      var d := DecimalParsed(s);
      c := Number(d);
      NumberSyntaxIs(d, rest);
    }
  }

  lemma LiteralIs(c: Syntax, s: string, rest: string)
    requires c.Literal? && s != [] && s[0] == '"' && ValidLetters(c.letters) && s[1..] == SpellLetters(c.letters, rest)
    ensures Valid(c) && Meaning(c) == Str(Chars(c.letters)) && Spell(c, rest) == s
  {
    hide SpellLetters, Chars, ValidLetters;
    assert s == ['"'] + s[1..];
  }

  lemma EmptyIs(gap: string)
    requires White(gap)
    ensures Valid(EmptyArray(gap)) && Meaning(EmptyArray(gap)) == Arr([])
    ensures Valid(EmptyObject(gap)) && Meaning(EmptyObject(gap)) == Obj([])
  {
    hide White;
  }

  lemma WordIs(c: Syntax)
    requires c.Word? && WordText(c.value).Some?
    ensures Valid(c) && Meaning(c) == c.value
  {
    hide WordText;
  }

  lemma NumberSyntaxIs(d: Decimal, rest: string)
    requires ValidDecimal(d)
    ensures Valid(Number(d)) && Meaning(Number(d)) == DecimalMeaning(d)
    ensures Spell(Number(d), rest) == SpellDecimal(d, rest)
  {
    hide ValidDecimal, DecimalMeaning, SpellDecimal;
  }

  lemma ArrayIs(items: seq<Item>, rest: string, s: string)
    requires items != [] && forall i | 0 <= i < |items| :: ValidItem(items[i])
    requires s != [] && s[0] == '[' && s[1..] == SpellItems(items, rest)
    ensures Valid(Array(items)) && Meaning(Array(items)) == Arr(Meanings(items)) && Spell(Array(items), rest) == s
  {
    hide SpellItems, Meanings, ValidItem;
    assert s == ['['] + s[1..];
  }

  lemma ObjectIs(entries: seq<Entry>, rest: string, s: string)
    requires entries != [] && forall i | 0 <= i < |entries| :: ValidEntry(entries[i])
    requires s != [] && s[0] == '{' && s[1..] == SpellEntries(entries, rest)
    ensures Valid(Object(entries)) && Meaning(Object(entries)) == Obj(Members([], entries))
    ensures Spell(Object(entries), rest) == s
  {
    hide SpellEntries, Members, ValidEntry;
    assert s == ['{'] + s[1..];
  }

  /** White space put before the first item. */
  lemma BeforeItems(gap: string, items: seq<Item>, tail: string) returns (moved: seq<Item>)
    requires White(gap) && items != [] && items[0].before == []
    requires forall i | 0 <= i < |items| :: ValidItem(items[i])
    ensures moved != [] && (forall i | 0 <= i < |moved| :: ValidItem(moved[i]))
    ensures Meanings(moved) == Meanings(items) && SpellItems(moved, tail) == gap + SpellItems(items, tail)
  {
    hide *;
    var first := Item(gap, items[0].value, items[0].after);
    moved := [first] + items[1..];
    assert ValidItem(items[0]);
    ItemsSpelled(items, tail);
    ValidItemIs(first);
    assert forall i | 1 <= i < |moved| :: moved[i] == items[i];
    ItemsSpelled(moved, tail);
    MeaningsAre(items);
    MeaningsAre(moved);
    assert moved[1..] == items[1..];
    AfterItemIs(items, tail);
    AfterItemIs(moved, tail);
  }

  lemma ValidItemIs(i: Item)
    ensures ValidItem(i) <==> White(i.before) && Valid(i.value) && White(i.after)
  {
    hide White, Valid;
  }

  lemma ValidEntryIs(e: Entry)
    ensures ValidEntry(e)
       <==> && White(e.before) && ValidLetters(e.key) && White(e.afterKey)
            && White(e.beforeValue) && Valid(e.value) && White(e.after)
  {
    hide White, Valid, ValidLetters;
  }

  lemma BeforeEntries(gap: string, entries: seq<Entry>, tail: string) returns (moved: seq<Entry>)
    requires White(gap) && entries != [] && entries[0].before == []
    requires forall i | 0 <= i < |entries| :: ValidEntry(entries[i])
    ensures moved != [] && (forall i | 0 <= i < |moved| :: ValidEntry(moved[i]))
    ensures forall acc :: Members(acc, moved) == Members(acc, entries)
    ensures SpellEntries(moved, tail) == gap + SpellEntries(entries, tail)
  {
    hide *;
    var first := entries[0].(before := gap);
    moved := [first] + entries[1..];
    assert ValidEntry(entries[0]);
    ValidEntryIs(entries[0]);
    ValidEntryIs(first);
    assert forall i | 1 <= i < |moved| :: moved[i] == entries[i];
    EntriesSpelled(entries, tail);
    EntriesSpelled(moved, tail);
    assert moved[1..] == entries[1..];
    forall acc
      ensures Members(acc, moved) == Members(acc, entries)
    {
      MembersAre(entries, acc);
      MembersAre(moved, acc);
    }
    AfterEntryIs(entries, tail);
    AfterEntryIs(moved, tail);
    SameEntry(entries[0], first, AfterEntry(entries, tail));
  }

  lemma SameEntry(e: Entry, other: Entry, tail: string)
    requires other == e.(before := other.before)
    ensures SpellEntry(e, tail) == SpellEntry(other, tail)
  {
    hide Spell, SpellLetters;
  }

  lemma ReadItemsCases(s: string)
    requires ReadItems(s).Some?
    ensures Read(s).Some?
    ensures var (v, afterValue) := Read(s).value;
            var rest := SkipSpace(afterValue);
            && rest != [] && (rest[0] == ']' || rest[0] == ',')
            && if rest[0] == ']' then ReadItems(s).value == ([v], rest[1..])
               else
                 var more := ReadItems(SkipSpace(rest[1..]));
                 more.Some? && ReadItems(s).value == ([v] + more.value.0, more.value.1)
  {
    hide Read, SkipSpace;
  }

  lemma FirstAndRest(s: string)
    requires s != []
    ensures s == [s[0]] + s[1..]
  {
  }

  /** An item in front of others, or alone. */
  lemma ItemInFront(item: Item, more: seq<Item>, tail: string)
    requires ValidItem(item) && item.before == [] && forall i | 0 <= i < |more| :: ValidItem(more[i])
    ensures var items := [item] + more;
            && items[0].before == [] && (forall i | 0 <= i < |items| :: ValidItem(items[i]))
            && Valid(item.value) && Meanings(items) == [Meaning(item.value)] + Meanings(more)
            && SpellItems(items, tail) ==
               Spell(item.value, item.after + if more == [] then [']'] + tail else [','] + SpellItems(more, tail))
  {
    hide *;
    var items := [item] + more;
    assert forall i | 1 <= i < |items| :: items[i] == more[i - 1];
    assert items[1..] == more;
    AfterItemIs(items, tail);
    ItemsSpelled(items, tail);
    MeaningsAre(items);
  }

  lemma NoMeanings()
    ensures Meanings([]) == []
  {
  }

  lemma {:induction false} ItemsParsed(s: string) returns (items: seq<Item>)
    requires ReadItems(s).Some?
    ensures items != [] && items[0].before == [] && forall i | 0 <= i < |items| :: ValidItem(items[i])
    ensures Meanings(items) == ReadItems(s).value.0 && SpellItems(items, ReadItems(s).value.1) == s
    decreases |s|, 1
  {
    ReadItemsCases(s);
    hide *;
    var (v, afterValue) := Read(s).value;
    var rest, tail := SkipSpace(afterValue), ReadItems(s).value.1;
    var c := SyntaxParsed(s);
    var w := SkippedWhite(afterValue);
    NoWhite();
    var item := Item([], c, w);
    ValidItemIs(item);
    FirstAndRest(rest);
    if rest[0] == ']' {
      NoMeanings();
      ItemInFront(item, [], tail);
      items := [item] + [];
    } else {
      var gap := SkippedWhite(rest[1..]);
      var more := ItemsParsed(SkipSpace(rest[1..]));
      more := BeforeItems(gap, more, tail);
      ItemInFront(item, more, tail);
      items := [item] + more;
    }
  }

  lemma NoWhite()
    ensures White([])
  {
  }

  lemma ReadFieldCases(s: string)
    requires ReadField(s).Some?
    ensures s != [] && s[0] == '"' && ReadChars(s[1..]).Some?
    ensures var (key, afterKey) := ReadChars(s[1..]).value;
            var colon := SkipSpace(afterKey);
            && colon != [] && colon[0] == ':' && Read(SkipSpace(colon[1..])).Some?
            && ReadField(s).value ==
               (Field(key, Read(SkipSpace(colon[1..])).value.0), Read(SkipSpace(colon[1..])).value.1)
  {
    hide Read, SkipSpace, ReadChars;
  }

  /** A member that was read, with the white space `w` behind it. */
  lemma {:induction false} EntryParsed(s: string, w: string, rest: string) returns (e: Entry)
    requires ReadField(s).Some? && White(w) && ReadField(s).value.1 == w + rest
    ensures ValidEntry(e) && e.before == [] && e.after == w && SpellEntry(e, rest) == s
    ensures Field(Chars(e.key), Meaning(e.value)) == ReadField(s).value.0
    decreases |s|, 1
  {
    ReadFieldCases(s);
    hide *;
    var (key, afterKey) := ReadChars(s[1..]).value;
    var colon := SkipSpace(afterKey);
    var ls := LettersParsed(s[1..]);
    var w1 := SkippedWhite(afterKey);
    var w2 := SkippedWhite(colon[1..]);
    var c := SyntaxParsed(SkipSpace(colon[1..]));
    NoWhite();
    e := Entry([], ls, w1, w2, c, w);
    ValidEntryIs(e);
    assert colon == [':'] + colon[1..] && s == ['"'] + s[1..];
    EntryIs(e, rest);
  }

  lemma EntryIs(e: Entry, tail: string)
    ensures SpellEntry(e, tail) ==
            ['"'] + SpellLetters(e.key, e.afterKey + ([':'] + (e.beforeValue + Spell(e.value, e.after + tail))))
  {
    hide Spell, SpellLetters;
  }

  lemma ReadFieldsCases(s: string, acc: seq<Field>)
    requires ReadFields(s, acc).Some?
    ensures ReadField(s).Some?
    ensures var (f, afterField) := ReadField(s).value;
            var rest := SkipSpace(afterField);
            && rest != [] && (rest[0] == '}' || rest[0] == ',')
            && (rest[0] == '}' ==> ReadFields(s, acc).value == (Put(acc, f.key, f.value), rest[1..]))
            && (rest[0] == ',' ==> ReadFields(s, acc) == ReadFields(SkipSpace(rest[1..]), Put(acc, f.key, f.value)))
  {
    hide ReadField, SkipSpace, Put;
  }

  /** An entry in front of others, or alone. */
  lemma EntryInFront(e: Entry, more: seq<Entry>, acc: seq<Field>, tail: string)
    requires ValidEntry(e) && e.before == [] && forall i | 0 <= i < |more| :: ValidEntry(more[i])
    ensures var entries := [e] + more;
            && entries[0].before == [] && (forall i | 0 <= i < |entries| :: ValidEntry(entries[i]))
            && ValidLetters(e.key) && Valid(e.value)
            && Members(acc, entries) == Members(Put(acc, Chars(e.key), Meaning(e.value)), more)
            && SpellEntries(entries, tail) ==
               SpellEntry(e, if more == [] then ['}'] + tail else [','] + SpellEntries(more, tail))
  {
    hide *;
    var entries := [e] + more;
    assert forall i | 1 <= i < |entries| :: entries[i] == more[i - 1];
    assert entries[1..] == more;
    AfterEntryIs(entries, tail);
    EntriesSpelled(entries, tail);
    MembersAre(entries, acc);
  }

  lemma NoMembers(acc: seq<Field>)
    ensures Members(acc, []) == acc
  {
  }

  lemma {:induction false} EntriesParsed(s: string, acc: seq<Field>) returns (entries: seq<Entry>)
    requires ReadFields(s, acc).Some?
    ensures entries != [] && entries[0].before == [] && forall i | 0 <= i < |entries| :: ValidEntry(entries[i])
    ensures Members(acc, entries) == ReadFields(s, acc).value.0
    ensures SpellEntries(entries, ReadFields(s, acc).value.1) == s
    decreases |s|, 2
  {
    ReadFieldsCases(s, acc);
    hide *;
    var (f, afterField) := ReadField(s).value;
    var rest, tail := SkipSpace(afterField), ReadFields(s, acc).value.1;
    var w := SkippedWhite(afterField);
    var e := EntryParsed(s, w, rest);
    FirstAndRest(rest);
    if rest[0] == '}' {
      NoMembers(Put(acc, f.key, f.value));
      EntryInFront(e, [], acc, tail);
      entries := [e] + [];
    } else {
      var gap := SkippedWhite(rest[1..]);
      var more := EntriesParsed(SkipSpace(rest[1..]), Put(acc, f.key, f.value));
      more := BeforeEntries(gap, more, tail);
      EntryInFront(e, more, acc, tail);
      entries := [e] + more;
    }
  }

  // ----- The reader and the grammar -----------------------------------------------------------

  /** `s` is a text of the grammar for `v` and then `rest`. */
  ghost predicate Spells(s: string, v: Json, rest: string) {
    exists c :: Valid(c) && Meaning(c) == v && Spell(c, rest) == s
  }

  /** What decodes at the start of a text is what the grammar has there; a number must have ended. */
  lemma ReadExactly(s: string, v: Json, rest: string)
    requires IsNumber(v) ==> Ends(rest)
    ensures Read(s) == Some((v, rest)) <==> Spells(s, v, rest)
  {
    hide Read, Valid, Meaning, Spell, Ends;
    if Read(s) == Some((v, rest)) {
      var c := SyntaxParsed(s);
    }
    if Spells(s, v, rest) {
      var c :| Valid(c) && Meaning(c) == v && Spell(c, rest) == s;
      NumberMeaning(c);
      SyntaxRead(c, rest);
    }
  }

  lemma NumberMeaning(c: Syntax)
    requires Valid(c)
    ensures c.Number? ==> IsNumber(Meaning(c))
    ensures Meaning(c).Obj? <==> c.Object? || c.EmptyObject?
  {
    hide ValidDecimal, Members, Meanings, Chars, White, SpellDecimal, Value;
  }

  /** One value of the grammar between white space. */
  ghost predicate Document(s: string, v: Json) {
    exists before, c, after ::
      White(before) && White(after) && Valid(c) && Meaning(c) == v && s == before + Spell(c, after)
  }

  /** json.loads accepts exactly the documents of the grammar, each with its meaning. */
  lemma LoadsExactly(s: string, v: Json)
    ensures Loads(s) == Some(v) <==> Document(s, v)
  {
    LoadsIs(s, v);
    hide *;
    if Loads(s) == Some(v) {
      var before := SkippedWhite(s);
      var after := SkippedWhite(Read(SkipSpace(s)).value.1);
      assert after + [] == after;
      var c := SyntaxParsed(SkipSpace(s));
      DocumentIs(s, v, before, c, after);
    }
    if Document(s, v) {
      var before, c, after := DocumentParts(s, v);
      WhiteTail(after);
      SpellStart(c, after);
      SkipWhite(before, Spell(c, after));
      SyntaxRead(c, after);
    }
  }

  lemma LoadsIs(s: string, v: Json)
    ensures Loads(s) == Some(v)
       <==> Read(SkipSpace(s)).Some? && Read(SkipSpace(s)).value.0 == v && SkipSpace(Read(SkipSpace(s)).value.1) == []
  {
    hide Read, SkipSpace;
  }

  lemma DocumentIs(s: string, v: Json, before: string, c: Syntax, after: string)
    requires White(before) && White(after) && Valid(c) && Meaning(c) == v && s == before + Spell(c, after)
    ensures Document(s, v)
  {
    hide White, Valid, Meaning, Spell;
  }

  lemma DocumentParts(s: string, v: Json) returns (before: string, c: Syntax, after: string)
    requires Document(s, v)
    ensures White(before) && White(after) && Valid(c) && Meaning(c) == v && s == before + Spell(c, after)
  {
    hide White, Valid, Meaning, Spell;
    before, c, after :|
      White(before) && White(after) && Valid(c) && Meaning(c) == v && s == before + Spell(c, after);
  }

  lemma WhiteTail(w: string)
    requires White(w)
    ensures Ends(w) && SkipSpace(w) == []
  {
    SkipWhite(w, []);
    assert w + [] == w;
  }

  // ----- Such texts in model output -----------------------------------------------------------

  lemma LetterNoEsc(l: Letter, tail: string)
    requires ValidLetter(l) && JsonScan.ESC !in tail
    ensures JsonScan.ESC !in SpellLetter(l, tail)
  {
    hide SpellUnit, Number16;
    match l
    case Long(unit) => UnitNoEsc(unit, tail);
    case Pair(high, low) =>
      UnitNoEsc(low, tail);
      UnitNoEsc(high, SpellUnit(low, tail));
    case _ =>
  }

  lemma UnitNoEsc(u: Unit, tail: string)
    requires JsonScan.ESC !in tail
    ensures JsonScan.ESC !in SpellUnit(u, tail)
  {
    NibbleNoEsc(u.a);
    NibbleNoEsc(u.b);
    NibbleNoEsc(u.c);
    NibbleNoEsc(u.d);
    hide NibbleText;
  }

  lemma NibbleNoEsc(x: Nibble)
    ensures NibbleText(x) != JsonScan.ESC
  {
  }

  lemma {:induction false} LettersNoEsc(ls: seq<Letter>, tail: string)
    requires ValidLetters(ls) && JsonScan.ESC !in tail
    ensures JsonScan.ESC !in SpellLetters(ls, tail)
  {
    hide SpellLetter, ValidLetter;
    if ls != [] {
      LettersNoEsc(ls[1..], tail);
      LetterNoEsc(ls[0], SpellLetters(ls[1..], tail));
    }
  }

  lemma WhiteNoEsc(w: string)
    requires White(w)
    ensures JsonScan.ESC !in w
  {
  }

  lemma DecimalNoEsc(d: Decimal, tail: string)
    requires ValidDecimal(d) && JsonScan.ESC !in tail
    ensures JsonScan.ESC !in SpellDecimal(d, tail)
  {
    assert JsonScan.ESC !in ExponentText(d.exponent, tail);
    hide ExponentText;
    assert JsonScan.ESC !in d.fraction by {
      if d.fraction != [] {
        assert forall i | 1 <= i < |d.fraction| :: d.fraction[i] == d.fraction[1..][i - 1];
      }
    }
  }

  lemma WordNoEsc(value: Json)
    requires WordText(value).Some?
    ensures JsonScan.ESC !in WordText(value).value
  {
  }

  /** No text of the grammar holds an escape character. */
  lemma {:induction false} SpellNoEsc(c: Syntax, tail: string)
    requires Valid(c) && JsonScan.ESC !in tail
    ensures JsonScan.ESC !in Spell(c, tail)
    decreases c, 0
  {
    hide SpellItems, SpellEntries, SpellLetters, SpellDecimal, ValidDecimal, ValidLetters, White, WordText, ValidItem,
         ValidEntry;
    match c
    case Word(value) => WordNoEsc(value);
    case Number(decimal) => DecimalNoEsc(decimal, tail);
    case Literal(letters) => LettersNoEsc(letters, tail);
    case EmptyArray(gap) => WhiteNoEsc(gap);
    case EmptyObject(gap) => WhiteNoEsc(gap);
    case Array(items) => ItemsNoEsc(items, tail);
    case Object(entries) => EntriesNoEsc(entries, tail);
  }

  lemma {:induction false} ItemsNoEsc(items: seq<Item>, tail: string)
    requires (forall i | 0 <= i < |items| :: ValidItem(items[i])) && JsonScan.ESC !in tail
    ensures JsonScan.ESC !in SpellItems(items, tail)
    decreases items, 1
  {
    hide Spell, Valid, White;
    if items != [] {
      var item, after := items[0], if |items| == 1 then [']'] + tail else [','] + SpellItems(items[1..], tail);
      assert ValidItem(item);
      ItemsNoEsc(items[1..], tail);
      WhiteNoEsc(item.before);
      WhiteNoEsc(item.after);
      SpellNoEsc(item.value, item.after + after);
    }
  }

  lemma {:induction false} EntriesNoEsc(entries: seq<Entry>, tail: string)
    requires (forall i | 0 <= i < |entries| :: ValidEntry(entries[i])) && JsonScan.ESC !in tail
    ensures JsonScan.ESC !in SpellEntries(entries, tail)
    decreases entries, 1
  {
    hide Spell, Valid, White, SpellLetters, ValidLetters;
    if entries != [] {
      var e, after := entries[0], if |entries| == 1 then ['}'] + tail else [','] + SpellEntries(entries[1..], tail);
      assert ValidEntry(e);
      EntriesNoEsc(entries[1..], tail);
      WhiteNoEsc(e.before);
      WhiteNoEsc(e.afterKey);
      WhiteNoEsc(e.beforeValue);
      WhiteNoEsc(e.after);
      var value := Spell(e.value, e.after + after);
      SpellNoEsc(e.value, e.after + after);
      LettersNoEsc(e.key, e.afterKey + ([':'] + (e.beforeValue + value)));
    }
  }

  /** An object as any writer may write it is a piece of model output that the scan takes whole. */
  lemma WrittenPiece(c: Syntax)
    requires Valid(c) && (c.Object? || c.EmptyObject?)
    ensures JsonScan.ValidPiece(JsonScan.Object(Spell(c, []), Meaning(c)))
  {
    SyntaxRead(c, []);
    SpellNoEsc(c, []);
    hide SpellEntries, Meaning, Valid, Read, White, ValidLetters;
    assert Spell(c, [])[0] == '{';
  }

  /** One such object between prose is the one object the scan finds. */
  lemma WrittenObjectFound(before: string, c: Syntax, after: string)
    requires Valid(c) && (c.Object? || c.EmptyObject?)
    requires '{' !in before && '{' !in after && JsonScan.ESC !in before && JsonScan.ESC !in after
    ensures JsonScan.Objects(JsonScan.StripAnsi(before + (Spell(c, []) + after))) == [Meaning(c)]
  {
    WrittenPiece(c);
    hide *;
    ProsePiece(before);
    ProsePiece(after);
    ThreePieces(JsonScan.Prose(before), JsonScan.Object(Spell(c, []), Meaning(c)), JsonScan.Prose(after));
  }

  lemma ProsePiece(text: string)
    requires '{' !in text && JsonScan.ESC !in text
    ensures JsonScan.ValidPiece(JsonScan.Prose(text))
  {
  }

  lemma ThreePieces(a: JsonScan.Piece, b: JsonScan.Piece, c: JsonScan.Piece)
    requires JsonScan.ValidPiece(a) && JsonScan.ValidPiece(b) && JsonScan.ValidPiece(c)
    requires a.Prose? && b.Object? && c.Prose?
    ensures JsonScan.Objects(JsonScan.StripAnsi(a.text + (b.text + c.text))) == [b.value]
  {
    hide *;
    var pieces := [a, b, c];
    JsonScan.ScanPieces(pieces);
    Rendered(a, [b, c]);
    Rendered(b, [c]);
    Rendered(c, []);
    NoPieces();
    assert [a] + [b, c] == pieces && [b] + [c] == [b, c] && [c] + [] == [c];
    assert c.text + [] == c.text;
  }

  lemma NoPieces()
    ensures JsonScan.Render([]) == [] && JsonScan.ObjectsOf([]) == []
  {
  }

  lemma Rendered(p: JsonScan.Piece, rest: seq<JsonScan.Piece>)
    ensures JsonScan.Render([p] + rest) == p.text + JsonScan.Render(rest)
    ensures JsonScan.ObjectsOf([p] + rest) == (if p.Object? then [p.value] else []) + JsonScan.ObjectsOf(rest)
  {
    assert ([p] + rest)[1..] == rest;
  }
}
