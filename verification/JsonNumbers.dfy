/** The numbers in what the decoder reads: a float is kept by a text that the printer can write again. */
module JsonNumbers {
  import opened Wrappers
  import opened Json
  import opened JsonText
  import opened JsonRoundTrip
  import Text

  /** Every float is finite, or one of the words the decoder takes for a float. */
  predicate Loaded(v: Json) {
    match v
    case Real(lexeme) => FloatText(lexeme) || !StrictJson(v)
    case Arr(items) => forall i | 0 <= i < |items| :: Loaded(items[i])
    case Obj(fields) => forall i | 0 <= i < |fields| :: Loaded(fields[i].value)
    case _ => true
  }

  /** Of a loaded value json.dumps refuses under allow_nan=False exactly what cannot be printed and read back. */
  lemma {:induction false} StrictIsFinite(v: Json)
    requires Loaded(v)
    ensures StrictJson(v) <==> Finite(v)
  {
    hide FloatText;
    match v
    case Real(lexeme) =>
      if FloatText(lexeme) {
        FloatStart(lexeme);
      }
    case Arr(items) =>
      forall i | 0 <= i < |items|
        ensures StrictJson(items[i]) <==> Finite(items[i])
      {
        StrictIsFinite(items[i]);
      }
    case Obj(fields) =>
      forall i | 0 <= i < |fields|
        ensures StrictJson(fields[i].value) <==> Finite(fields[i].value)
      {
        assert fields[i].value < fields[i];
        StrictIsFinite(fields[i].value);
      }
    case _ =>
  }

  // ----- A number cut off behind its end is read the same -------------------------------------

  lemma {:induction false} TakeDigitsCut(s: string, k: nat)
    requires |TakeDigits(s)| <= k <= |s|
    ensures TakeDigits(s[..k]) == TakeDigits(s)
  {
    if s != [] && IsDigit(s[0]) {
      assert s[..k][1..] == s[1..][..k - 1];
      TakeDigitsCut(s[1..], k - 1);
    }
  }

  lemma TakeWholeCut(s: string, k: nat)
    requires |TakeWhole(s)| <= k <= |s|
    ensures TakeWhole(s[..k]) == TakeWhole(s)
  {
    if s != [] && s[0] == '0' {
      assert s[..k][..1] == s[..1];
    } else {
      TakeDigitsCut(s, k);
    }
  }

  lemma SkipFractionCut(s: string, k: nat)
    requires |s| - |SkipFraction(s)| <= k <= |s|
    ensures SkipFraction(s) == s[|s| - |SkipFraction(s)|..]
    ensures SkipFraction(s[..k]) == s[|s| - |SkipFraction(s)|..k]
  {
    var cut := s[..k];
    if |s| >= 2 && s[0] == '.' && IsDigit(s[1]) {
      TakeDigitsStart(s[1..]);
      TakeDigitsCut(s[1..], k - 1);
      hide TakeDigits, IsDigit;
      var d := TakeDigits(s[1..]);
      SliceOfPrefix(s, 1, k);
      assert cut[0] == s[0] && cut[1] == s[1];
      SliceInside(s, 1 + |d|, k);
    }
  }

  lemma TakeDigitsStart(s: string)
    requires s != [] && IsDigit(s[0])
    ensures TakeDigits(s) != []
  {
  }

  lemma SkipExponentCut(s: string, k: nat)
    requires |s| - |SkipExponent(s)| <= k <= |s|
    ensures SkipExponent(s) == s[|s| - |SkipExponent(s)|..]
    ensures SkipExponent(s[..k]) == s[|s| - |SkipExponent(s)|..k]
  {
    if SkipExponent(s) == s {
      if s == [] || k == 0 || (s[0] != 'e' && s[0] != 'E') {
        PlainExponentCut(s, k);
      } else {
        NoExponentCut(s, k);
      }
      hide *;
      assert s[0..] == s;
    } else {
      hide *;
      var mark, d := ExponentDigits(s);
      var cut := s[..k];
      assert cut[0] == s[0] && cut[1] == s[1];
      SliceOfPrefix(s, mark, k);
      TakeDigitsCut(s[mark..], k - mark);
      MarkCut(s, k);
      ExponentIs(cut, mark, d);
      SliceInside(s, mark + |d|, k);
    }
  }

  lemma PlainExponentCut(s: string, k: nat)
    requires k <= |s| && (s == [] || k == 0 || (s[0] != 'e' && s[0] != 'E'))
    ensures SkipExponent(s[..k]) == s[..k]
  {
    hide TakeDigits, ExponentMark;
    if k > 0 {
      assert s[..k][0] == s[0];
    }
  }

  lemma SliceInside(s: string, i: nat, k: nat)
    requires i <= k <= |s|
    ensures s[..k][i..] == s[i..k] == s[i..][..k - i]
  {
  }

  lemma MarkCut(s: string, k: nat)
    requires 2 <= k <= |s|
    ensures ExponentMark(s[..k]) == ExponentMark(s)
  {
  }

  lemma NoExponentCut(s: string, k: nat)
    requires s != [] && (s[0] == 'e' || s[0] == 'E') && SkipExponent(s) == s && 0 < k <= |s|
    ensures SkipExponent(s[..k]) == s[..k]
  {
    hide TakeDigits;
    var cut, mark := s[..k], ExponentMark(s);
    assert TakeDigits(s[mark..]) == [];
    NoDigits();
    if k >= 2 {
      MarkCut(s, k);
      SliceOfPrefix(s, mark, k);
      TakeDigitsCut(s[mark..], k - mark);
    } else {
      assert cut[1..] == [];
    }
    assert cut[0] == s[0];
  }

  lemma NoDigits()
    ensures TakeDigits([]) == []
  {
  }

  lemma SkipInexactIs(s: string)
    ensures SkipInexact(s) == SkipExponent(SkipFraction(s))
  {
  }

  lemma SkipInexactCut(s: string)
    ensures SkipInexact(s[..|s| - |SkipInexact(s)|]) == []
  {
    hide *;
    var r := SkipFraction(s);
    var k := |s| - |SkipInexact(s)|;
    var f := |s| - |r|;
    SkipInexactIs(s);
    SkipInexactIs(s[..k]);
    SkipFractionCut(s, k);
    SkipExponentCut(r, k - f);
    SliceInside(s, f, k);
    EmptySlice(r, k - f);
  }

  lemma EmptySlice(s: string, k: nat)
    requires k <= |s|
    ensures s[k..k] == []
  {
  }

  lemma UnsignedCut(s: string, k: nat)
    requires 0 < k <= |Unsigned(s)|
    ensures Unsigned(s[..|s| - |Unsigned(s)| + k]) == Unsigned(s)[..k]
  {
    var part := s[..|s| - |Unsigned(s)| + k];
    assert part[0] == s[0];
  }

  lemma ReadNumberIs(s: string)
    requires ReadNumber(s).Some? && ReadNumber(s).value.0.Real?
    ensures var body := Unsigned(s);
            var whole := TakeWhole(body);
            var after := body[|whole|..];
            && whole != [] && |SkipInexact(after)| < |after|
            && ReadNumber(s).value.0 == Real(ReadPart(s, SkipInexact(after)))
  {
    hide TakeWhole, SkipInexact, Unsigned, DigitsValue;
  }

  lemma FloatTextIs(s: string)
    requires var body := Unsigned(s);
             var whole := TakeWhole(body);
             whole != [] && |whole| < |body| && SkipInexact(body[|whole|..]) == []
    ensures FloatText(s)
  {
    hide TakeWhole, SkipInexact, Unsigned, DigitsValue;
    assert ReadPart(s, []) == s;
  }

  /** The text of a float that was read is the text of a float. */
  lemma ReadFloatText(s: string)
    requires ReadNumber(s).Some? && ReadNumber(s).value.0.Real?
    ensures FloatText(ReadNumber(s).value.0.lexeme)
  {
    hide *;
    ReadNumberIs(s);
    var body := Unsigned(s);
    var whole := TakeWhole(body);
    var after := body[|whole|..];
    var k := |body| - |SkipInexact(after)|;
    TakeWholeCut(body, k);
    SkipInexactCut(after);
    UnsignedCut(s, k);
    SliceOfPrefix(body, |whole|, k);
    var part := ReadPart(s, SkipInexact(after));
    ReadPartIs(s, SkipInexact(after), part);
    FloatTextIs(part);
  }

  lemma SliceOfPrefix(s: string, i: nat, k: nat)
    requires i <= k <= |s|
    ensures s[..k][i..] == s[i..][..k - i]
  {
  }

  lemma ReadPartIs(s: string, rest: string, part: string)
    requires |rest| <= |s| && part == ReadPart(s, rest)
    ensures part == s[..|s| - |rest|]
  {
  }

  // ----- Everything that is read --------------------------------------------------------------

  lemma WordsLoaded(s: string)
    ensures ReadWord(s).Some? ==> Loaded(ReadWord(s).value.0)
  {
    hide Text.StartsWith, FloatText;
  }

  lemma ReadNumberKind(s: string)
    ensures ReadNumber(s).Some? ==> ReadNumber(s).value.0.Int? || ReadNumber(s).value.0.Real?
  {
    hide TakeWhole, SkipInexact, Unsigned, DigitsValue;
  }

  lemma ScalarsLoaded(s: string)
    ensures ReadWord(s).Some? ==> Loaded(ReadWord(s).value.0)
    ensures ReadNumber(s).Some? ==> Loaded(ReadNumber(s).value.0)
  {
    WordsLoaded(s);
    hide FloatText, ReadWord;
    ReadNumberKind(s);
    if ReadNumber(s).Some? && ReadNumber(s).value.0.Real? {
      ReadFloatText(s);
    }
    hide ReadNumber;
  }

  lemma {:induction false} ReadLoaded(s: string)
    requires Read(s).Some?
    ensures Loaded(Read(s).value.0)
    decreases |s|, 0
  {
    hide ReadNumber, ReadWord, ReadChars, ReadItems, ReadFields;
    if s[0] == '{' {
      var body := SkipSpace(s[1..]);
      if body[0] != '}' {
        ReadFieldsLoaded(body, []);
      }
    } else if s[0] == '[' {
      var body := SkipSpace(s[1..]);
      if body[0] != ']' {
        ReadItemsLoaded(body);
      }
    } else if s[0] != '"' {
      ScalarsLoaded(s);
    }
  }

  lemma {:induction false} ReadItemsLoaded(s: string)
    requires ReadItems(s).Some?
    ensures forall i | 0 <= i < |ReadItems(s).value.0| :: Loaded(ReadItems(s).value.0[i])
    decreases |s|, 1
  {
    hide Read, SkipSpace, Loaded;
    ReadLoaded(s);
    var rest := SkipSpace(Read(s).value.1);
    if rest[0] == ',' {
      ReadItemsLoaded(SkipSpace(rest[1..]));
    }
  }

  lemma {:induction false} ReadFieldsLoaded(s: string, acc: seq<Field>)
    requires ReadFields(s, acc).Some? && Loaded(Obj(acc))
    ensures Loaded(Obj(ReadFields(s, acc).value.0))
    decreases |s|, 2
  {
    hide SkipSpace, Put, ReadField;
    var (f, afterField) := ReadField(s).value;
    ReadFieldLoaded(s);
    PutMembers(acc, f.key, f.value);
    var put := Put(acc, f.key, f.value);
    forall i | 0 <= i < |put|
      ensures Loaded(put[i].value)
    {
      assert put[i] in put;
    }
    var rest := SkipSpace(afterField);
    if rest[0] == ',' {
      ReadFieldsLoaded(SkipSpace(rest[1..]), put);
    }
  }

  lemma {:induction false} ReadFieldLoaded(s: string)
    requires ReadField(s).Some?
    ensures Loaded(ReadField(s).value.0.value)
    decreases |s|, 1
  {
    hide Read, SkipSpace, Loaded, ReadChars;
    var colon := SkipSpace(ReadChars(s[1..]).value.1);
    ReadLoaded(SkipSpace(colon[1..]));
  }
}
