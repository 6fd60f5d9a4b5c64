/** UTF-8 (RFC 3629): encoding of Unicode scalar values and the strict decoder. */
module Utf8 {
  import opened Wrappers

  type Byte = b: int | 0 <= b < 0x100

  function EncodeChar(c: char): (r: seq<Byte>)
    ensures 1 <= |r| <= 4
  {
    var code := c as int;
    if code < 0x80 then [code]
    else if code < 0x800 then [0xC0 + code / 0x40, 0x80 + code % 0x40]
    else
      var high := code / 0x40;
      if code < 0x10000 then [0xE0 + high / 0x40, 0x80 + high % 0x40, 0x80 + code % 0x40]
      else [0xF0 + high / 0x40 / 0x40, 0x80 + high / 0x40 % 0x40, 0x80 + high % 0x40, 0x80 + code % 0x40]
  }

  /** str.encode("utf-8"). */
  function Encode(s: string): seq<Byte> {
    if s == [] then [] else EncodeChar(s[0]) + Encode(s[1..])
  }

  predicate IsContinuation(b: Byte) {
    0x80 <= b < 0xC0
  }

  /** The second bytes that may follow a first byte (section 4 of RFC 3629). */
  predicate IsSecond(first: Byte, b: Byte) {
    IsContinuation(b) &&
    match first
    case 0xE0 => 0xA0 <= b
    case 0xED => b < 0xA0
    case 0xF0 => 0x90 <= b
    case 0xF4 => b < 0x90
    case _ => true
  }

  /** The bits of a sequence so far, extended by the six bits of a continuation byte. */
  function Extend(bits: int, b: int): int {
    0x40 * bits + (b - 0x80)
  }

  /** The first character and the number of bytes it takes. */
  function DecodeChar(b: seq<Byte>): (r: Option<(char, nat)>)
    ensures r.Some? ==> 1 <= r.value.1 <= |b|
  {
    if b == [] then None
    else
      var lead: int := b[0];
      if lead < 0x80 then Some((lead as char, 1))
      else if |b| < 2 || !IsSecond(b[0], b[1]) then None
      else if 0xC2 <= lead < 0xE0 then Some((Extend(lead - 0xC0, b[1]) as char, 2))
      else if |b| < 3 || !IsContinuation(b[2]) then None
      else if 0xE0 <= lead < 0xF0 then Some((Extend(Extend(lead - 0xE0, b[1]), b[2]) as char, 3))
      else if |b| < 4 || !IsContinuation(b[3]) then None
      else if 0xF0 <= lead < 0xF5 then Some((Extend(Extend(Extend(lead - 0xF0, b[1]), b[2]), b[3]) as char, 4))
      else None
  }

  /** bytes.decode("utf-8"), None for a UnicodeDecodeError. */
  function Decode(b: seq<Byte>): Option<string>
    decreases |b|
  {
    if b == [] then Some([])
    else
      match DecodeChar(b)
      case None => None
      case Some((c, n)) =>
        match Decode(b[n..])
        case None => None
        case Some(cs) => Some([c] + cs)
  }

  // ----- Encoding, decoding and cutting -------------------------------------------------------

  lemma DecodeEncodedChar(c: char, rest: seq<Byte>)
    ensures DecodeChar(EncodeChar(c) + rest) == Some((c, |EncodeChar(c)|))
  {
    var code := c as int;
    var high := code / 0x40;
    assert code == 0x40 * high + code % 0x40;
    assert high == 0x40 * (high / 0x40) + high % 0x40;
    assert high / 0x40 == 0x40 * (high / 0x40 / 0x40) + high / 0x40 % 0x40;
  }

  /** A character cut short does not decode. */
  lemma CutCharUnreadable(c: char, k: nat)
    requires 0 < k < |EncodeChar(c)|
    ensures DecodeChar(EncodeChar(c)[..k]) == None
  {
    var code := c as int;
    var high := code / 0x40;
    assert code == 0x40 * high + code % 0x40;
    assert high == 0x40 * (high / 0x40) + high % 0x40;
  }

  lemma {:induction false} DecodeEncoded(s: string)
    ensures Decode(Encode(s)) == Some(s)
  {
    if s != [] {
      DecodeEncodedChar(s[0], Encode(s[1..]));
      assert Encode(s)[|EncodeChar(s[0])|..] == Encode(s[1..]);
      DecodeEncoded(s[1..]);
      assert [s[0]] + s[1..] == s;
    }
  }

  lemma EncodeDecodedChar(b: seq<Byte>)
    requires DecodeChar(b).Some?
    ensures EncodeChar(DecodeChar(b).value.0) == b[..DecodeChar(b).value.1]
  {
    var (c, n) := DecodeChar(b).value;
    var r := EncodeChar(c);
    if n == 2 {
      assert c as int / 0x40 == b[0] - 0xC0;
    } else if n == 3 {
      assert c as int / 0x40 == Extend(b[0] - 0xE0, b[1]);
    } else if n == 4 {
      assert c as int / 0x40 == Extend(Extend(b[0] - 0xF0, b[1]), b[2]);
      assert c as int / 0x40 / 0x40 == Extend(b[0] - 0xF0, b[1]);
    }
    assert |r| == n;
  }

  /** The strict decoder accepts encodings of texts and nothing else. */
  lemma {:induction false} EncodeDecoded(b: seq<Byte>)
    ensures Decode(b).Some? ==> Encode(Decode(b).value) == b
    decreases |b|
  {
    hide DecodeChar, EncodeChar;
    if Decode(b).Some? && b != [] {
      var (c, n) := DecodeChar(b).value;
      EncodeDecodedChar(b);
      EncodeDecoded(b[n..]);
      var cs := Decode(b[n..]).value;
      assert ([c] + cs)[1..] == cs;
      assert b == b[..n] + b[n..];
    }
  }

  lemma {:induction false} EncodeConcat(a: string, b: string)
    ensures Encode(a + b) == Encode(a) + Encode(b)
  {
    if a == [] {
      assert a + b == b;
    } else {
      assert (a + b)[1..] == a[1..] + b;
      EncodeConcat(a[1..], b);
      assert EncodeChar(a[0]) + (Encode(a[1..]) + Encode(b)) == (EncodeChar(a[0]) + Encode(a[1..])) + Encode(b);
    }
  }

  /** The number of whole characters at the start of `s` that fit in `limit` bytes. */
  function Fitting(s: string, limit: nat): (k: nat)
    ensures k <= |s|
  {
    if s == [] || |EncodeChar(s[0])| > limit then 0 else 1 + Fitting(s[1..], limit - |EncodeChar(s[0])|)
  }

  lemma EncodeTake(s: string, k: nat)
    requires 0 < k <= |s|
    ensures Encode(s[..k]) == EncodeChar(s[0]) + Encode(s[1..][..k - 1])
  {
    assert s[..k][1..] == s[1..][..k - 1];
  }

  /** `Fitting` is the longest prefix of whole characters within the limit. */
  lemma {:induction false} FittingLongest(s: string, limit: nat, k: nat)
    requires k <= |s|
    ensures |Encode(s[..k])| <= limit <==> k <= Fitting(s, limit)
  {
    if k > 0 {
      EncodeTake(s, k);
      if |EncodeChar(s[0])| <= limit {
        FittingLongest(s[1..], limit - |EncodeChar(s[0])|, k - 1);
      }
    }
  }

  /** What the longest prefix leaves unused is less than one character. */
  lemma FittingWaste(s: string, limit: nat)
    requires limit < |Encode(s)|
    ensures var used := |Encode(s[..Fitting(s, limit)])|; used <= limit < used + 4
  {
    var k := Fitting(s, limit);
    FittingLongest(s, limit, k);
    assert s[..|s|] == s;
    FittingLongest(s, limit, |s|);
    FittingLongest(s, limit, k + 1);
    assert s[..k + 1] == s[..k] + [s[k]];
    EncodeConcat(s[..k], [s[k]]);
    assert [s[k]][1..] == [];
  }

  /** Encoded text cut at `cut` bytes decodes exactly at a character boundary, to the characters before it. */
  lemma {:induction false} DecodeCut(s: string, cut: nat)
    requires cut <= |Encode(s)|
    ensures var k := Fitting(s, cut);
            Decode(Encode(s)[..cut]) == if |Encode(s[..k])| == cut then Some(s[..k]) else None
  {
    hide EncodeChar, DecodeChar;
    var part := Encode(s)[..cut];
    if cut == 0 {
      assert part == [];
    } else {
      var first := EncodeChar(s[0]);
      if |first| > cut {
        assert part == first[..cut];
        CutCharUnreadable(s[0], cut);
      } else {
        var k := Fitting(s, cut);
        assert part == first + Encode(s[1..])[..cut - |first|];
        DecodeEncodedChar(s[0], Encode(s[1..])[..cut - |first|]);
        assert part[|first|..] == Encode(s[1..])[..cut - |first|];
        DecodeCut(s[1..], cut - |first|);
        EncodeTake(s, k);
        assert [s[0]] + s[1..][..k - 1] == s[..k];
      }
    }
  }
}
