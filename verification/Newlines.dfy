/** The two-pass newline rewriting that gives a blob the bytes of a Windows checkout. */
module Newlines {

  type Bytes = seq<bv8>

  const CR: bv8 := 13
  const LF: bv8 := 10

  predicate StartsCrLf(y: Bytes) {
    |y| >= 2 && y[0] == CR && y[1] == LF
  }

  /** y.replace(b"\r\n", b"\n") */
  function Collapse(y: Bytes): Bytes {
    if y == [] then []
    else if StartsCrLf(y) then [LF] + Collapse(y[2..])
    else [y[0]] + Collapse(y[1..])
  }

  /** y.replace(b"\n", b"\r\n") */
  function Expand(y: Bytes): Bytes {
    if y == [] then [] else (if y[0] == LF then [CR, LF] else [y[0]]) + Expand(y[1..])
  }

  /** _historical_windows_bytes after the blob was read. */
  function Windows(y: Bytes): Bytes {
    Expand(Collapse(y))
  }

  /** Collapsing undoes expanding on every byte string, carriage returns and all. */
  lemma {:induction false} CollapseExpand(y: Bytes)
    ensures Collapse(Expand(y)) == y
  {
    if y != [] {
      var rest := Expand(y[1..]);
      CollapseExpand(y[1..]);
      if y[0] == LF {
        assert ([CR, LF] + rest)[2..] == rest;
      } else {
        assert ([y[0]] + rest)[1..] == rest;
        ExpandStart(y[1..]);
      }
      assert y == [y[0]] + y[1..];
    }
  }

  /** Expanded text never starts with a line feed. */
  lemma ExpandStart(y: Bytes)
    ensures Expand(y) != [] ==> Expand(y)[0] != LF
  {
  }

  /** Rewriting a second time changes nothing. */
  lemma WindowsIdempotent(y: Bytes)
    ensures Windows(Windows(y)) == Windows(y)
  {
    CollapseExpand(Collapse(y));
  }

  predicate HasCrLf(y: Bytes) {
    exists i | 0 <= i < |y| - 1 :: y[i] == CR && y[i + 1] == LF
  }

  lemma {:induction false} CollapseShorter(y: Bytes)
    ensures |Collapse(y)| <= |y|
    ensures HasCrLf(y) <==> |Collapse(y)| < |y|
    ensures !HasCrLf(y) ==> Collapse(y) == y
  {
    if y != [] {
      if StartsCrLf(y) {
        assert y[0 + 1] == LF;
        CollapseShorter(y[2..]);
      } else {
        CollapseShorter(y[1..]);
        HasCrLfTail(y);
        assert y == [y[0]] + y[1..];
      }
    }
  }

  lemma HasCrLfTail(y: Bytes)
    requires y != [] && !StartsCrLf(y)
    ensures HasCrLf(y) <==> HasCrLf(y[1..])
  {
    if HasCrLf(y) {
      var i :| 0 <= i < |y| - 1 && y[i] == CR && y[i + 1] == LF;
      assert i > 0 && y[1..][i - 1] == CR && y[1..][i - 1 + 1] == LF;
    }
    if HasCrLf(y[1..]) {
      var i :| 0 <= i < |y[1..]| - 1 && y[1..][i] == CR && y[1..][i + 1] == LF;
      assert y[i + 1] == CR && y[i + 1 + 1] == LF;
    }
  }

  /** A text and its expanded form are rewritten to the same bytes exactly when the text holds no CRLF. */
  lemma SameBytesIff(y: Bytes)
    ensures Windows(y) == Windows(Expand(y)) <==> !HasCrLf(y)
    ensures !HasCrLf(y) ==> Windows(y) == Expand(y)
  {
    CollapseExpand(y);
    CollapseShorter(y);
    if Windows(y) == Windows(Expand(y)) {
      CollapseExpand(Collapse(y));
    }
  }

  /** Every line feed stands after a carriage return; `before` is the byte in front of `y`. */
  predicate Paired(y: Bytes, before: bv8) {
    y == [] || ((y[0] == LF ==> before == CR) && Paired(y[1..], y[0]))
  }

  predicate PairedAt(y: Bytes, before: bv8, i: nat)
    requires i < |y|
  {
    y[i] == LF ==> (if i == 0 then before else y[i - 1]) == CR
  }

  lemma {:induction false} PairedMeans(y: Bytes, before: bv8)
    ensures Paired(y, before) <==> forall i | 0 <= i < |y| :: PairedAt(y, before, i)
  {
    if y != [] {
      PairedMeans(y[1..], y[0]);
      assert PairedAt(y, before, 0) <==> (y[0] == LF ==> before == CR);
      forall i | 1 <= i < |y|
        ensures PairedAt(y, before, i) <==> PairedAt(y[1..], y[0], i - 1)
      {
      }
      if forall i | 0 <= i < |y| :: PairedAt(y, before, i) {
        forall i | 0 <= i < |y| - 1
          ensures PairedAt(y[1..], y[0], i)
        {
          assert PairedAt(y, before, i + 1);
        }
      }
    }
  }

  lemma {:induction false} ExpandPaired(y: Bytes, before: bv8)
    ensures Paired(Expand(y), before)
  {
    if y != [] {
      var rest := Expand(y[1..]);
      ExpandPaired(y[1..], y[0]);
      if y[0] == LF {
        assert ([CR, LF] + rest)[1..] == [LF] + rest && ([LF] + rest)[1..] == rest;
      } else {
        assert ([y[0]] + rest)[1..] == rest;
      }
    }
  }

  lemma {:induction false} PairedKept(y: Bytes, before: bv8)
    requires Paired(y, before) && (y == [] || y[0] != LF)
    ensures Windows(y) == y
    decreases |y|
  {
    if y != [] {
      if StartsCrLf(y) {
        var rest := y[2..];
        assert y[1..][1..] == rest && Paired(rest, LF);
        PairedKept(rest, LF);
        assert ([LF] + Collapse(rest))[1..] == Collapse(rest);
        assert y == [CR, LF] + rest;
      } else {
        PairedKept(y[1..], y[0]);
        assert ([y[0]] + Collapse(y[1..]))[1..] == Collapse(y[1..]);
        assert y == [y[0]] + y[1..];
      }
    }
  }

  /** The rewriting leaves exactly those blobs alone in which every line feed follows a carriage return. */
  lemma FixedPoints(y: Bytes)
    ensures Windows(y) == y <==> forall i | 0 <= i < |y| :: PairedAt(y, 0, i)
  {
    PairedMeans(y, 0);
    if Paired(y, 0) {
      PairedKept(y, 0);
    } else {
      ExpandPaired(Collapse(y), 0);
    }
  }
}
