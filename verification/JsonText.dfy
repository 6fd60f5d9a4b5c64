/** The compact JSON text that json.dumps writes and the text that json's decoder reads (RFC 8259). */
module JsonText {
  import opened Wrappers
  import opened Json
  import opened Text

  // ----- Writing ------------------------------------------------------------------------------

  /** ensure_ascii, and whether the separators are the default ", " and ": " or the compact "," and ":". */
  datatype Style = Style(ascii: bool, spaced: bool)

  function Compact(ascii: bool): Style {
    Style(ascii, false)
  }

  /** What follows a comma or a colon. */
  function Gap(style: Style, text: string): string {
    if style.spaced then [' '] + text else text
  }

  function HexDigit(d: int): char
    requires 0 <= d < 16
  {
    if d < 10 then '0' + d as char else 'a' + (d - 10) as char
  }

  /** "\uXXXX", followed by `tail`. */
  function WriteHex4(unit: int, tail: string): string
    requires 0 <= unit < 0x10000
  {
    var q := unit / 0x10;
    ['\\', 'u', HexDigit(q / 0x10 / 0x10), HexDigit(q / 0x10 % 0x10), HexDigit(q % 0x10), HexDigit(unit % 0x10)] + tail
  }

  /** The escape letter of the characters that have a two-character escape. */
  function ShortEscape(c: char): Option<char> {
    match c
    case '"' => Some('"')
    case '\\' => Some('\\')
    case '\n' => Some('n')
    case '\r' => Some('r')
    case '\t' => Some('t')
    case '\U{0C}' => Some('f')
    case '\U{08}' => Some('b')
    case _ => None
  }

  function HighUnit(code: int): int
    requires 0x10000 <= code < 0x110000
  {
    0xD800 + (code - 0x10000) / 0x400
  }

  function LowUnit(code: int): int
    requires 0x10000 <= code < 0x110000
  {
    0xDC00 + (code - 0x10000) % 0x400
  }

  /** The \u escape of a character, a surrogate pair above U+FFFF, followed by `tail`. */
  function WriteLong(c: char, tail: string): string {
    if c as int < 0x10000 then WriteHex4(c as int, tail)
    else WriteHex4(HighUnit(c as int), WriteHex4(LowUnit(c as int), tail))
  }

  /** One character of a string literal, followed by `tail`; escaped as the style's ensure_ascii asks. */
  function WriteChar(c: char, style: Style, tail: string): string {
    if ShortEscape(c).Some? then ['\\', ShortEscape(c).value] + tail
    else if c as int < 0x20 || (style.ascii && 0x7F <= c as int) then WriteLong(c, tail)
    else [c] + tail
  }

  /** The characters of a literal and its closing quote, followed by `tail`. */
  function WriteChars(s: string, style: Style, tail: string): string {
    if s == [] then ['"'] + tail else WriteChar(s[0], style, WriteChars(s[1..], style, tail))
  }

  function WriteNat(n: nat, tail: string): string {
    var digit := ['0' + (n % 10) as char] + tail;
    if n < 10 then digit else WriteNat(n / 10, digit)
  }

  function WriteInt(n: int, tail: string): string {
    if n < 0 then ['-'] + WriteNat(-n, tail) else WriteNat(n, tail)
  }

  /** The text of `v`, followed by `tail`. */
  function Write(v: Json, style: Style, tail: string): string
    decreases v, 0
  {
    match v
    case Null => "null" + tail
    case Bool(b) => (if b then "true" else "false") + tail
    case Int(n) => WriteInt(n, tail)
    case Real(lexeme) => lexeme + tail
    case Str(s) => ['"'] + WriteChars(s, style, tail)
    case Arr(items) => ['['] + (if items == [] then [']'] + tail else WriteItems(items, style, tail))
    case Obj(fields) => ['{'] + (if fields == [] then ['}'] + tail else WriteFields(fields, style, tail))
  }

  function WriteItems(items: seq<Json>, style: Style, tail: string): string
    requires items != []
    decreases items, 1
  {
    var after := if |items| == 1 then [']'] + tail else [','] + Gap(style, WriteItems(items[1..], style, tail));
    Write(items[0], style, after)
  }

  function WriteField(f: Field, style: Style, tail: string): string
    decreases f, 1
  {
    ['"'] + WriteChars(f.key, style, [':'] + Gap(style, Write(f.value, style, tail)))
  }

  function WriteFields(fields: seq<Field>, style: Style, tail: string): string
    requires fields != []
    decreases fields, 1
  {
    var after := if |fields| == 1 then ['}'] + tail else [','] + Gap(style, WriteFields(fields[1..], style, tail));
    WriteField(fields[0], style, after)
  }

  function Print(v: Json, style: Style): string {
    Write(v, style, [])
  }

  // ----- Reading ------------------------------------------------------------------------------

  predicate IsSpace(c: char) {
    c == ' ' || c == '\t' || c == '\n' || c == '\r'
  }

  function SkipSpace(s: string): (r: string)
    ensures |r| <= |s|
    ensures r != [] ==> !IsSpace(r[0])
  {
    if s != [] && IsSpace(s[0]) then SkipSpace(s[1..]) else s
  }

  predicate IsDigit(c: char) {
    '0' <= c <= '9'
  }

  /** The longest prefix of digits. */
  function TakeDigits(s: string): (d: string)
    ensures |d| <= |s| && s[..|d|] == d
    ensures forall i | 0 <= i < |d| :: IsDigit(d[i])
  {
    if s != [] && IsDigit(s[0]) then [s[0]] + TakeDigits(s[1..]) else []
  }

  function DigitValue(c: char): nat
    requires IsDigit(c)
  {
    c as int - '0' as int
  }

  function DigitsValue(d: string): nat
    requires forall i | 0 <= i < |d| :: IsDigit(d[i])
  {
    if d == [] then 0 else 10 * DigitsValue(d[..|d| - 1]) + DigitValue(d[|d| - 1])
  }

  /** What remains after an optional fraction: a point counts only when a digit follows it. */
  function SkipFraction(s: string): (r: string)
    ensures |r| <= |s|
  {
    if |s| >= 2 && s[0] == '.' && IsDigit(s[1]) then s[1 + |TakeDigits(s[1..])|..] else s
  }

  /** How many characters an exponent takes before its digits. */
  function ExponentMark(s: string): (n: nat)
    requires s != []
    ensures 1 <= n <= 2 && n <= |s|
  {
    if |s| >= 2 && (s[1] == '+' || s[1] == '-') then 2 else 1
  }

  /** What remains after an optional exponent: the letter counts only when digits follow it. */
  function SkipExponent(s: string): (r: string)
    ensures |r| <= |s|
  {
    if s == [] || (s[0] != 'e' && s[0] != 'E') then s
    else
      var mark := ExponentMark(s);
      var d := TakeDigits(s[mark..]);
      if d == [] then s else s[mark + |d|..]
  }

  /** What remains after the part of a number that an integer does not have. */
  function SkipInexact(s: string): (r: string)
    ensures |r| <= |s|
  {
    SkipExponent(SkipFraction(s))
  }

  /** The integer part without its sign: a lone zero or digits that do not start with zero. */
  function TakeWhole(s: string): (d: string)
    ensures |d| <= |s| && s[..|d|] == d
    ensures forall i | 0 <= i < |d| :: IsDigit(d[i])
  {
    if s != [] && s[0] == '0' then s[..1] else TakeDigits(s)
  }

  /** The text before what is left to read. */
  function ReadPart(s: string, rest: string): string
    requires |rest| <= |s|
  {
    s[..|s| - |rest|]
  }

  /** The text after an optional minus sign. */
  function Unsigned(s: string): (r: string)
    ensures |r| <= |s|
  {
    if s != [] && s[0] == '-' then s[1..] else s
  }

  function Signed(negative: bool, magnitude: int): int {
    if negative then -magnitude else magnitude
  }

  function ReadNumber(s: string): (r: Option<(Json, string)>)
    ensures r.Some? ==> |r.value.1| < |s|
  {
    var body := Unsigned(s);
    var whole := TakeWhole(body);
    if whole == [] then None
    else
      var afterWhole := body[|whole|..];
      var rest := SkipInexact(afterWhole);
      if |rest| == |afterWhole| then Some((Int(Signed(|body| < |s|, DigitsValue(whole))), rest))
      else Some((Real(ReadPart(s, rest)), rest))
  }

  /** The text of a finite float: a number with a fraction or an exponent and nothing after it. */
  predicate FloatText(s: string) {
    ReadNumber(s) == Some((Real(s), []))
  }

  /** Every float in the value has such a text, so json.dumps accepts it under allow_nan=False. */
  predicate Finite(v: Json) {
    match v
    case Real(lexeme) => FloatText(lexeme)
    case Arr(items) => forall i | 0 <= i < |items| :: Finite(items[i])
    case Obj(fields) => forall i | 0 <= i < |fields| :: Finite(fields[i].value)
    case _ => true
  }

  function HexValue(c: char): (r: Option<int>)
    ensures r.Some? ==> 0 <= r.value < 16
  {
    if '0' <= c <= '9' then Some((c - '0') as int)
    else if 'a' <= c <= 'f' then Some((c - 'a') as int + 10)
    else if 'A' <= c <= 'F' then Some((c - 'A') as int + 10)
    else None
  }

  /** Four hexadecimal digits. */
  function ReadHex4(s: string): (r: Option<int>)
    ensures r.Some? ==> |s| >= 4 && 0 <= r.value < 0x10000
  {
    if |s| < 4 then None
    else
      match (HexValue(s[0]), HexValue(s[1]), HexValue(s[2]), HexValue(s[3]))
      case (Some(a), Some(b), Some(c), Some(d)) => Some(0x1000 * a + 0x100 * b + 0x10 * c + d)
      case _ => None
  }

  predicate IsHighSurrogate(unit: int) { 0xD800 <= unit < 0xDC00 }

  predicate IsLowSurrogate(unit: int) { 0xDC00 <= unit < 0xE000 }

  function Supplementary(high: int, low: int): char
    requires IsHighSurrogate(high) && IsLowSurrogate(low)
  {
    (0x10000 + 0x400 * (high - 0xD800) + (low - 0xDC00)) as char
  }

  function LongEscape(letter: char): Option<char> {
    match letter
    case '"' => Some('"')
    case '\\' => Some('\\')
    case '/' => Some('/')
    case 'b' => Some('\U{08}')
    case 'f' => Some('\U{0C}')
    case 'n' => Some('\n')
    case 'r' => Some('\r')
    case 't' => Some('\t')
    case _ => None
  }

  /** The character an escape stands for; `s` starts after the backslash. */
  function ReadEscape(s: string): (r: Option<(char, string)>)
    ensures r.Some? ==> |r.value.1| < |s|
  {
    if s == [] then None
    else if s[0] != 'u' then
      match LongEscape(s[0])
      case Some(c) => Some((c, s[1..]))
      case None => None
    else
      match ReadHex4(s[1..])
      case None => None
      case Some(unit) =>
        if IsHighSurrogate(unit) then
          if |s| >= 11 && s[5] == '\\' && s[6] == 'u'
             && ReadHex4(s[7..]).Some? && IsLowSurrogate(ReadHex4(s[7..]).value) then
            Some((Supplementary(unit, ReadHex4(s[7..]).value), s[11..]))
          else None
        else if IsLowSurrogate(unit) then None
        else Some((unit as char, s[5..]))
  }

  /** The rest of a string literal after its opening quote; raw control characters are refused. */
  function ReadChars(s: string): (r: Option<(string, string)>)
    ensures r.Some? ==> |r.value.1| < |s|
    decreases |s|
  {
    if s == [] then None
    else if s[0] == '"' then Some(("", s[1..]))
    else if s[0] == '\\' then
      match ReadEscape(s[1..])
      case None => None
      case Some((c, rest)) =>
        match ReadChars(rest)
        case None => None
        case Some((cs, after)) => Some(([c] + cs, after))
    else if s[0] as int < 0x20 then None
    else
      match ReadChars(s[1..])
      case None => None
      case Some((cs, after)) => Some(([s[0]] + cs, after))
  }

  /** The words the decoder knows, with the value of each. */
  function ReadWord(s: string): (r: Option<(Json, string)>)
    ensures r.Some? ==> |r.value.1| < |s|
  {
    if StartsWith(s, "null") then Some((Null, s[4..]))
    else if StartsWith(s, "true") then Some((Bool(true), s[4..]))
    else if StartsWith(s, "false") then Some((Bool(false), s[5..]))
    else if StartsWith(s, "NaN") then Some((Real("NaN"), s[3..]))
    else if StartsWith(s, "Infinity") then Some((Real("Infinity"), s[8..]))
    else if StartsWith(s, "-Infinity") then Some((Real("-Infinity"), s[9..]))
    else None
  }

  /** One value at the very start of `s` and the text after it (JSONDecoder.raw_decode). */
  function Read(s: string): (r: Option<(Json, string)>)
    ensures r.Some? ==> |r.value.1| < |s|
    decreases |s|, 0
  {
    if s == [] then None
    else if s[0] == '"' then
      match ReadChars(s[1..])
      case None => None
      case Some((cs, rest)) => Some((Str(cs), rest))
    else if s[0] == '{' then
      var body := SkipSpace(s[1..]);
      if body != [] && body[0] == '}' then Some((Obj([]), body[1..]))
      else
        match ReadFields(body, [])
        case None => None
        case Some((fields, rest)) => Some((Obj(fields), rest))
    else if s[0] == '[' then
      var body := SkipSpace(s[1..]);
      if body != [] && body[0] == ']' then Some((Arr([]), body[1..]))
      else
        match ReadItems(body)
        case None => None
        case Some((items, rest)) => Some((Arr(items), rest))
    else if ReadWord(s).Some? then ReadWord(s)
    else ReadNumber(s)
  }

  /** One or more array items and the closing bracket. */
  function ReadItems(s: string): (r: Option<(seq<Json>, string)>)
    ensures r.Some? ==> |r.value.1| < |s|
    decreases |s|, 1
  {
    match Read(s)
    case None => None
    case Some((v, afterValue)) =>
      var rest := SkipSpace(afterValue);
      if rest == [] then None
      else if rest[0] == ']' then Some(([v], rest[1..]))
      else if rest[0] != ',' then None
      else
        match ReadItems(SkipSpace(rest[1..]))
        case None => None
        case Some((vs, after)) => Some(([v] + vs, after))
  }

  /** One object member. */
  function ReadField(s: string): (r: Option<(Field, string)>)
    ensures r.Some? ==> |r.value.1| < |s|
    decreases |s|, 1
  {
    if s == [] || s[0] != '"' then None
    else
      match ReadChars(s[1..])
      case None => None
      case Some((key, afterKey)) =>
        var colon := SkipSpace(afterKey);
        if colon == [] || colon[0] != ':' then None
        else
          match Read(SkipSpace(colon[1..]))
          case None => None
          case Some((v, rest)) => Some((Field(key, v), rest))
  }

  /** One or more object members and the closing brace, added to the members already read. */
  function ReadFields(s: string, acc: seq<Field>): (r: Option<(seq<Field>, string)>)
    ensures r.Some? ==> |r.value.1| < |s|
    decreases |s|, 2
  {
    match ReadField(s)
    case None => None
    case Some((f, afterField)) =>
      var rest := SkipSpace(afterField);
      if rest == [] then None
      else if rest[0] == '}' then Some((Put(acc, f.key, f.value), rest[1..]))
      else if rest[0] != ',' then None
      else ReadFields(SkipSpace(rest[1..]), Put(acc, f.key, f.value))
  }

  /** json.loads: one value with nothing but white space around it. */
  function Loads(s: string): Option<Json> {
    match Read(SkipSpace(s))
    case Some((v, rest)) => if SkipSpace(rest) == [] then Some(v) else None
    case None => None
  }
}
