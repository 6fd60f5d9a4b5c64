/** The Python string operations the adapters use: find, strip, join. */
module Text {
  import opened Wrappers

  predicate StartsWith(s: string, prefix: string) {
    |prefix| <= |s| && s[..|prefix|] == prefix
  }

  /** str.find: the first position where `pattern` occurs. */
  function Find(s: string, pattern: string): (r: Option<nat>)
    ensures r.Some? ==> r.value + |pattern| <= |s|
  {
    if StartsWith(s, pattern) then Some(0)
    else if s == [] then None
    else
      match Find(s[1..], pattern)
      case Some(i) => Some(i + 1)
      case None => None
  }

  /** The position found is an occurrence and there is none before it. */
  lemma {:induction false} FindFirst(s: string, pattern: string)
    ensures match Find(s, pattern)
            case Some(i) => StartsWith(s[i..], pattern) && forall j | 0 <= j < i :: !StartsWith(s[j..], pattern)
            case None => forall j | 0 <= j <= |s| :: !StartsWith(s[j..], pattern)
  {
    assert s[0..] == s;
    if !StartsWith(s, pattern) && s != [] {
      FindFirst(s[1..], pattern);
      assert forall j | 1 <= j <= |s| :: s[j..] == s[1..][j - 1..];
    }
  }

  predicate Contains(s: string, pattern: string) {
    Find(s, pattern).Some?
  }

  /** str.isspace for one character. */
  predicate IsBlank(c: char) {
    || '\t' <= c <= '\r'
    || '\U{1C}' <= c <= ' '
    || c == '\U{85}' || c == '\U{A0}' || c == '\U{1680}'
    || '\U{2000}' <= c <= '\U{200A}'
    || c == '\U{2028}' || c == '\U{2029}' || c == '\U{202F}' || c == '\U{205F}' || c == '\U{3000}'
  }

  function StripLeft(s: string): string {
    if s != [] && IsBlank(s[0]) then StripLeft(s[1..]) else s
  }

  function StripRight(s: string): (r: string)
    ensures |r| <= |s| && r == s[..|r|]
  {
    if s != [] && IsBlank(s[|s| - 1]) then StripRight(s[..|s| - 1]) else s
  }

  /** str.strip. */
  function Strip(s: string): string {
    StripRight(StripLeft(s))
  }

  /** A text whose last character the pattern does not use cannot share an occurrence with what follows. */
  lemma {:induction false} FindAfter(s: string, rest: string, pattern: string)
    requires pattern != [] && s != [] && s[|s| - 1] !in pattern
    ensures Find(s + rest, pattern) ==
            match Find(s, pattern)
            case Some(i) => Some(i)
            case None => match Find(rest, pattern) case Some(i) => Some(|s| + i) case None => None
  {
    SameStart(s, rest, pattern);
    assert (s + rest)[1..] == s[1..] + rest;
    if !StartsWith(s, pattern) {
      if |s| == 1 {
        assert s[1..] + rest == rest;
        assert Find(s[1..], pattern) == None;
      } else {
        FindAfter(s[1..], rest, pattern);
      }
    }
  }

  lemma SameStart(s: string, rest: string, pattern: string)
    requires pattern != [] && s != [] && s[|s| - 1] !in pattern
    ensures StartsWith(s + rest, pattern) <==> StartsWith(s, pattern)
  {
    if |pattern| < |s| {
      assert (s + rest)[..|pattern|] == s[..|pattern|];
    } else {
      assert (s + rest)[|s| - 1] == s[|s| - 1];
    }
    if StartsWith(s, pattern) {
      assert (s + rest)[..|pattern|] == s[..|pattern|];
    }
  }

  /** Characters other than the first of the pattern are passed over. */
  lemma {:induction false} FindSkips(s: string, rest: string, pattern: string)
    requires pattern != [] && pattern[0] !in s
    ensures Find(s + rest, pattern) == match Find(rest, pattern) case Some(i) => Some(|s| + i) case None => None
  {
    if s == [] {
      assert s + rest == rest;
    } else {
      assert (s + rest)[1..] == s[1..] + rest;
      FindSkips(s[1..], rest, pattern);
    }
  }

  predicate EndsWith(s: string, ending: string) {
    |ending| <= |s| && s[|s| - |ending|..] == ending
  }

  lemma EndsWithTrans(a: string, b: string, c: string)
    requires EndsWith(a, b) && EndsWith(b, c)
    ensures EndsWith(a, c)
  {
    assert a[|a| - |c|..] == a[|a| - |b|..][|b| - |c|..];
  }

  lemma EndsWithSelf(s: string)
    ensures EndsWith(s, s)
  {
  }

  lemma EndsWithMore(front: string, s: string, ending: string)
    requires EndsWith(s, ending)
    ensures EndsWith(front + s, ending)
  {
    assert EndsWith(front + s, s);
    EndsWithTrans(front + s, s, ending);
  }

  // ----- str.splitlines -----------------------------------------------------------------------

  predicate IsBreak(c: char) {
    '\n' <= c <= '\r' || '\U{1C}' <= c <= '\U{1E}' || c == '\U{85}' || c == '\U{2028}' || c == '\U{2029}'
  }

  /** Where the first line of `s` ends. */
  function LineEnd(s: string): (n: nat)
    ensures n <= |s|
    ensures n < |s| ==> IsBreak(s[n])
    ensures forall i | 0 <= i < n :: !IsBreak(s[i])
  {
    if s == [] || IsBreak(s[0]) then 0
    else
      var n := LineEnd(s[1..]);
      assert forall i | 1 <= i < n + 1 :: s[i] == s[1..][i - 1];
      n + 1
  }

  /** The text after the break that ends the first line; "\r\n" is one break. */
  function AfterLine(s: string): string
    requires LineEnd(s) < |s|
  {
    var n := LineEnd(s);
    if StartsWith(s[n..], "\r\n") then s[n + 2..] else s[n + 1..]
  }

  /** str.splitlines: a final break starts no further line. */
  function SplitLines(s: string): seq<string>
    decreases |s|
  {
    if s == [] then []
    else if LineEnd(s) == |s| then [s]
    else [s[..LineEnd(s)]] + SplitLines(AfterLine(s))
  }

  lemma LineEndIs(s: string, n: nat)
    requires n < |s| && IsBreak(s[n])
    requires forall i | 0 <= i < n :: !IsBreak(s[i])
    ensures LineEnd(s) == n
  {
  }

  lemma AfterLineMore(s: string, more: string)
    requires s != [] && s[|s| - 1] == '\n' && LineEnd(s) < |s| && LineEnd(s + more) == LineEnd(s)
    ensures AfterLine(s + more) == AfterLine(s) + more
  {
    var n := LineEnd(s);
    hide LineEnd, IsBreak;
    var t := s + more;
    DropAppend(s, more, n + 1);
    CrLfAt(s, n);
    CrLfAt(t, n);
    hide StartsWith;
    if n + 1 < |s| {
      DropAppend(s, more, n + 2);
    }
  }

  lemma DropAppend<T>(s: seq<T>, more: seq<T>, n: nat)
    requires n <= |s|
    ensures (s + more)[n..] == s[n..] + more
  {
  }

  lemma CrLfAt(s: string, n: nat)
    requires n < |s|
    ensures StartsWith(s[n..], "\r\n") <==> n + 1 < |s| && s[n] == '\r' && s[n + 1] == '\n'
  {
    if n + 1 < |s| {
      assert s[n..][..2] == [s[n], s[n + 1]];
    }
  }

  lemma LineEndMore(s: string, more: string)
    requires s != [] && s[|s| - 1] == '\n'
    ensures LineEnd(s + more) == LineEnd(s) < |s|
  {
    LineEndIs(s + more, LineEnd(s));
  }

  lemma AfterLineLast(s: string)
    requires s != [] && s[|s| - 1] == '\n' && LineEnd(s) < |s|
    ensures |AfterLine(s)| < |s|
    ensures AfterLine(s) != [] ==> AfterLine(s)[|AfterLine(s)| - 1] == '\n'
  {
    hide LineEnd;
  }

  lemma AppendAssoc<T>(a: seq<T>, b: seq<T>, c: seq<T>)
    ensures a + b + c == a + (b + c)
  {
  }

  lemma SplitLinesStep(s: string)
    requires LineEnd(s) < |s|
    ensures SplitLines(s) == [s[..LineEnd(s)]] + SplitLines(AfterLine(s))
  {
    hide LineEnd, AfterLine, IsBreak;
  }

  predicate OneLine(s: string) {
    forall i | 0 <= i < |s| :: !IsBreak(s[i])
  }

  lemma SplitAtBreak(a: string, c: char, rest: string)
    requires OneLine(a) && IsBreak(c) && c != '\r'
    ensures SplitLines(a + ([c] + rest)) == [a] + SplitLines(rest)
  {
    var s := a + ([c] + rest);
    assert s[|a|] == c;
    LineEndIs(s, |a|);
    CrLfAt(s, |a|);
    assert s[..|a|] == a && s[|a| + 1..] == rest;
    SplitLinesStep(s);
    hide SplitLines, LineEnd, StartsWith;
    assert AfterLine(s) == rest;
  }

  lemma TakeAppend<T>(s: seq<T>, more: seq<T>, n: nat)
    requires n <= |s|
    ensures (s + more)[..n] == s[..n]
  {
  }

  /** The first line of a text that ends in a newline, and the text after it, whatever follows. */
  lemma FirstLine(s: string, more: string) returns (first: string, rest: string)
    requires s != [] && s[|s| - 1] == '\n'
    ensures SplitLines(s) == [first] + SplitLines(rest)
    ensures SplitLines(s + more) == [first] + SplitLines(rest + more)
    ensures |rest| < |s| && (rest != [] ==> rest[|rest| - 1] == '\n')
  {
    hide *;
    LineEndMore(s, more);
    AfterLineMore(s, more);
    AfterLineLast(s);
    SplitLinesStep(s);
    SplitLinesStep(s + more);
    TakeAppend(s, more, LineEnd(s));
    first, rest := s[..LineEnd(s)], AfterLine(s);
  }

  /** Text that ends in a newline splits the same whatever follows it. */
  lemma {:induction false} SplitLinesMore(s: string, more: string)
    requires s != [] && s[|s| - 1] == '\n'
    ensures SplitLines(s + more) == SplitLines(s) + SplitLines(more)
    decreases |s|
  {
    assert SplitLines([]) == [];
    hide *;
    var first, rest := FirstLine(s, more);
    if rest == [] {
      assert rest + more == more;
    } else {
      SplitLinesMore(rest, more);
    }
    AppendAssoc([first], SplitLines(rest), SplitLines(more));
  }

  /** Only text that is blank throughout strips to nothing. */
  lemma {:induction false} StripEmpty(s: string)
    ensures Strip(s) == [] <==> forall i | 0 <= i < |s| :: IsBlank(s[i])
  {
    StripLeftEmpty(s);
    if StripLeft(s) != [] {
      StripRightKeeps(StripLeft(s));
    }
  }

  lemma {:induction false} StripLeftEmpty(s: string)
    ensures StripLeft(s) == [] <==> forall i | 0 <= i < |s| :: IsBlank(s[i])
    ensures StripLeft(s) != [] ==> !IsBlank(StripLeft(s)[0])
  {
    if s != [] && IsBlank(s[0]) {
      StripLeftEmpty(s[1..]);
      assert forall i | 1 <= i < |s| :: s[i] == s[1..][i - 1];
      assert forall i | 0 <= i < |s[1..]| :: s[1..][i] == s[i + 1];
    }
  }

  lemma {:induction false} StripRightKeeps(s: string)
    requires s != [] && !IsBlank(s[0])
    ensures StripRight(s) != []
  {
    if IsBlank(s[|s| - 1]) {
      StripRightKeeps(s[..|s| - 1]);
    }
  }

  predicate Blank(s: string) {
    forall i | 0 <= i < |s| :: IsBlank(s[i])
  }

  lemma {:induction false} BlankLines(s: string)
    requires Blank(s)
    ensures forall i | 0 <= i < |SplitLines(s)| :: Strip(SplitLines(s)[i]) == []
    decreases |s|
  {
    if s != [] {
      if LineEnd(s) == |s| {
        StripEmpty(s);
      } else {
        StripEmpty(s[..LineEnd(s)]);
        BlankLines(AfterLine(s));
      }
    }
  }
}
