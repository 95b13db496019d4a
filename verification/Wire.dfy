/**
 The Guacamole wire format: the two ways elements are written, and the element scan at the heart
 of Stream.ReadSome as a function of the buffered bytes.
 */
module Wire {
  import opened Base
  import opened Utf8

  /** <n>.<e> */
  function Field(n: nat, e: Bytes): Bytes {
    Decimal(n) + [DOT] + e
  }

  /** The terminator after an element, and everything after it. */
  function Print(es: seq<Bytes>): Bytes
    requires es != []
  {
    Field(|es[0]|, es[0]) + if |es| == 1 then [SEMICOLON] else [COMMA] + Print(es[1..])
  }

  /** The frame guacd writes: lengths count characters, as the protocol demands. */
  function Encode(es: seq<Bytes>): (f: Bytes)
    requires es != []
  {
    Field(RuneCount(es[0]), es[0]) + if |es| == 1 then [SEMICOLON] else [COMMA] + Encode(es[1..])
  }

  predicate AllAscii(es: seq<Bytes>) {
    forall i | 0 <= i < |es| :: IsAscii(es[i])
  }

  predicate AllUtf8(es: seq<Bytes>) {
    forall i | 0 <= i < |es| :: IsUtf8(es[i])
  }

  /** Byte lengths and character counts agree when every character is one byte wide. */
  lemma {:induction false} PrintIsEncode(es: seq<Bytes>)
    requires es != [] && AllAscii(es)
    ensures AllUtf8(es) && Print(es) == Encode(es)
  {
    AsciiIsUtf8(es[0]);
    if |es| > 1 {
      PrintIsEncode(es[1..]);
    }
  }

  /** The first position at or after p that holds no digit. */
  function SkipDigits(buf: Bytes, p: nat): (q: nat)
    requires p <= |buf|
    ensures p <= q <= |buf|
    ensures forall j | p <= j < q :: IsDigit(buf[j])
    ensures q < |buf| ==> !IsDigit(buf[q])
    decreases |buf| - p
  {
    if p < |buf| && IsDigit(buf[p]) then SkipDigits(buf, p + 1) else p
  }

  /**
   What the scan finds at an element boundary. Fault is the out-of-range index of the terminator
   that Go turns into a panic.
   */
  datatype Step =
    | Element(next: nat, last: bool)
    | Wait
    | BadTerminator(next: nat)
    | BadLength
    | Fault

  /** One element of the parse loop, from the boundary p. */
  function ScanElement(buf: Bytes, p: nat): (s: Step)
    requires p <= |buf|
    ensures s.Element? ==> p + 1 < s.next <= |buf|
    ensures s.BadTerminator? ==> p < s.next <= |buf|
  {
    var q := SkipDigits(buf, p);
    if q == |buf| then Wait
    else if buf[q] != DOT then BadLength
    else
      var k := Value(buf[p..q]);
      // the "enough data" guard: a count of characters against a count of bytes
      if q + 1 + k >= |buf| then Wait
      else
        var j := SkipRunes(buf, q + 1, k);
        if j == |buf| then Fault
        else if buf[j] == SEMICOLON then Element(j + 1, true)
        else if buf[j] == COMMA then Element(j + 1, false)
        else BadTerminator(j + 1)
  }

  /** The outcome of one pass of the parse loop, with the boundary it leaves in parseStart. */
  datatype Scan =
    | Whole(end: nat)
    | More(start: nat)
    | WrongTerminator(start: nat)
    | WrongLength(start: nat)
    | Crash(start: nat)

  function ScanFrom(buf: Bytes, p: nat): (s: Scan)
    requires p <= |buf|
    ensures s.Whole? ==> p + 1 < s.end <= |buf|
    ensures !s.Whole? ==> p <= s.start <= |buf|
    decreases |buf| - p
  {
    match ScanElement(buf, p)
    case Element(next, last) => if last then Whole(next) else ScanFrom(buf, next)
    case Wait => More(p)
    case BadTerminator(next) => WrongTerminator(next)
    case BadLength => WrongLength(p)
    case Fault => Crash(p)
  }

  // ---------------------------------------------------------------- elements in place

  lemma DigitsEnd(buf: Bytes, p: nat, d: Bytes)
    requires At(buf, p, d) && AllDigits(d)
    requires p + |d| < |buf| ==> !IsDigit(buf[p + |d|])
    ensures SkipDigits(buf, p) == p + |d|
  {
    assert forall i | p <= i < p + |d| :: buf[i] == d[i - p];
  }

  /** The length field in front of an element is read back as its value. */
  lemma LengthRead(buf: Bytes, p: nat, n: nat, e: Bytes)
    requires At(buf, p, Field(n, e))
    ensures var q := p + |Decimal(n)|;
      SkipDigits(buf, p) == q && q < |buf| && buf[q] == DOT && buf[p..q] == Decimal(n) && At(buf, q + 1, e)
  {
    var q := p + |Decimal(n)|;
    AtSplit(buf, p, Decimal(n) + [DOT], e);
    AtSplit(buf, p, Decimal(n), [DOT]);
    assert buf[q] == buf[q..q + 1][0];
    DigitsEnd(buf, p, Decimal(n));
  }

  /** A complete element is recognised whatever follows it. */
  lemma ElementRead(buf: Bytes, p: nat, e: Bytes, t: Byte)
    requires IsUtf8(e) && (t == COMMA || t == SEMICOLON)
    requires At(buf, p, Field(RuneCount(e), e) + [t])
    ensures ScanElement(buf, p) == Element(p + |Field(RuneCount(e), e)| + 1, t == SEMICOLON)
  {
    hide IsUtf8, RuneCount, SkipRunes, Transcode, SkipDigits, Value;
    var k := RuneCount(e);
    var head := Field(k, e);
    AtSplit(buf, p, head, [t]);
    LengthRead(buf, p, k, e);
    SkipText(buf, p + |Decimal(k)| + 1, e);
    assert buf[p + |head|] == t by {
      assert buf[p + |head|] == buf[p + |head|..p + |head| + 1][0];
    }
  }

  /** The head element of a frame with its terminator, and the frame of the others. */
  lemma FrameSplit(buf: Bytes, p: nat, es: seq<Bytes>) returns (head: Bytes, t: Byte)
    requires es != []
    ensures head == Field(RuneCount(es[0]), es[0]) && t == if |es| == 1 then SEMICOLON else COMMA
    ensures |es| == 1 ==> Encode(es) == head + [t]
    ensures |es| > 1 ==> Encode(es) == head + [t] + Encode(es[1..])
    ensures |Encode(es)| == |head| + 1 + if |es| == 1 then 0 else |Encode(es[1..])|
    ensures At(buf, p, Encode(es)) ==> At(buf, p, head + [t])
    ensures At(buf, p, Encode(es)) && |es| > 1 ==> At(buf, p + |head| + 1, Encode(es[1..]))
  {
    head := Field(RuneCount(es[0]), es[0]);
    t := if |es| == 1 then SEMICOLON else COMMA;
    if |es| > 1 {
      assert Encode(es) == head + [t] + Encode(es[1..]);
      AtSplit(buf, p, head + [t], Encode(es[1..]));
    }
  }

  /** One step of the scan, as an equation. */
  lemma ScanStep(buf: Bytes, p: nat)
    requires p <= |buf| && ScanElement(buf, p).Element?
    ensures var s := ScanElement(buf, p); ScanFrom(buf, p) == if s.last then Whole(s.next) else ScanFrom(buf, s.next)
  {
  }

  /** The first element of a frame standing at p, and where the rest of the frame stands. */
  lemma FirstElement(buf: Bytes, p: nat, es: seq<Bytes>) returns (next: nat)
    requires es != [] && IsUtf8(es[0]) && At(buf, p, Encode(es))
    ensures p < next && ScanElement(buf, p) == Element(next, |es| == 1)
    ensures |es| == 1 ==> next == p + |Encode(es)|
    ensures |es| > 1 ==> At(buf, next, Encode(es[1..])) && next + |Encode(es[1..])| == p + |Encode(es)|
  {
    hide ScanElement, IsUtf8, RuneCount, Field, At, Encode;
    var head, t := FrameSplit(buf, p, es);
    ElementRead(buf, p, es[0], t);
    next := p + |head| + 1;
  }

  /** A whole frame standing in the buffer is found from its first byte, whatever follows it. */
  lemma {:induction false} FrameRead(buf: Bytes, p: nat, es: seq<Bytes>)
    requires es != [] && AllUtf8(es) && At(buf, p, Encode(es))
    ensures ScanFrom(buf, p) == Whole(p + |Encode(es)|)
    decreases |es|
  {
    hide ScanElement, ScanFrom, IsUtf8, At, Encode;
    var next := FirstElement(buf, p, es);
    ScanStep(buf, p);
    if |es| > 1 {
      FrameRead(buf, next, es[1..]);
    }
  }

  // ---------------------------------------------------------------- unique decodability

  /** Two length-prefixed fields at one place are the same field. */
  lemma SameField(buf: Bytes, p: nat, x: Bytes, y: Bytes)
    requires At(buf, p, Field(|x|, x)) && At(buf, p, Field(|y|, y))
    ensures x == y
  {
    LengthRead(buf, p, |x|, x);
    LengthRead(buf, p, |y|, y);
    assert Value(Decimal(|x|)) == Value(Decimal(|y|));
  }

  /** Two printed instructions at one place are the same instruction, for elements of any bytes. */
  lemma {:induction false} SameInstruction(buf: Bytes, p: nat, x: seq<Bytes>, y: seq<Bytes>)
    requires x != [] && y != []
    requires At(buf, p, Print(x)) && At(buf, p, Print(y))
    ensures x == y
    decreases |x|
  {
    var xt, yt := PrintTail(x), PrintTail(y);
    AtSplit(buf, p, Field(|x[0]|, x[0]), xt);
    AtSplit(buf, p, Field(|y[0]|, y[0]), yt);
    SameField(buf, p, x[0], y[0]);
    var q := p + |Field(|x[0]|, x[0])|;
    assert buf[q] == xt[0] == yt[0];
    if |x| > 1 {
      AtSplit(buf, q, [COMMA], Print(x[1..]));
      AtSplit(buf, q, [COMMA], Print(y[1..]));
      SameInstruction(buf, q + 1, x[1..], y[1..]);
      assert x == [x[0]] + x[1..] && y == [y[0]] + y[1..];
    }
  }

  /** What Print writes after the first field. */
  function PrintTail(es: seq<Bytes>): (t: Bytes)
    requires es != []
    ensures t != [] && Print(es) == Field(|es[0]|, es[0]) + t
    ensures t[0] == if |es| == 1 then SEMICOLON else COMMA
  {
    if |es| == 1 then [SEMICOLON] else [COMMA] + Print(es[1..])
  }

  /** No encoding is a proper prefix of another, and the text after it is determined too. */
  lemma PrefixFree(x: seq<Bytes>, y: seq<Bytes>, s: Bytes, t: Bytes)
    requires x != [] && y != []
    requires Print(x) + s == Print(y) + t
    ensures x == y && s == t
  {
    var buf := Print(x) + s;
    assert buf[0..0 + |Print(x)|] == Print(x);
    assert buf[0..0 + |Print(y)|] == Print(y);
    SameInstruction(buf, 0, x, y);
    assert s == buf[|Print(x)|..] == t;
  }

  // ---------------------------------------------------------------- resuming

  /** The bytes between p and ps are complete elements, each ended by a comma. */
  predicate Reaches(buf: Bytes, p: nat, ps: nat)
    requires p <= |buf|
    decreases |buf| - p
  {
    p == ps || (ScanElement(buf, p).Element? && !ScanElement(buf, p).last && Reaches(buf, ScanElement(buf, p).next, ps))
  }

  lemma {:induction false} ReachesBounds(buf: Bytes, p: nat, ps: nat)
    requires p <= |buf| && Reaches(buf, p, ps)
    ensures p <= ps <= |buf|
    decreases |buf| - p
  {
    hide ScanElement;
    if p != ps {
      ReachesBounds(buf, ScanElement(buf, p).next, ps);
    }
  }

  /** Scanning on from a boundary gives what scanning from the start gives. */
  lemma {:induction false} ScanResumed(buf: Bytes, p: nat, ps: nat)
    requires p <= ps <= |buf| && Reaches(buf, p, ps)
    ensures ScanFrom(buf, ps) == ScanFrom(buf, p)
    decreases |buf| - p
  {
    hide ScanElement;
    if p != ps {
      ReachesBounds(buf, ScanElement(buf, p).next, ps);
      ScanResumed(buf, ScanElement(buf, p).next, ps);
    }
  }

  /** The boundary left by a scan that ran out of bytes is reached from its start. */
  lemma {:induction false} MoreReaches(buf: Bytes, p: nat)
    requires p <= |buf| && ScanFrom(buf, p).More?
    ensures Reaches(buf, p, ScanFrom(buf, p).start)
    decreases |buf| - p
  {
    hide ScanElement;
    if ScanElement(buf, p).Element? {
      MoreReaches(buf, ScanElement(buf, p).next);
    }
  }

  /** An element once found stays found when bytes are appended, whatever the bytes. */
  lemma ElementStable(buf: Bytes, more: Bytes, p: nat)
    requires p <= |buf| && ScanElement(buf, p).Element?
    ensures ScanElement(buf + more, p) == ScanElement(buf, p)
  {
    hide SkipRunes, Value, SkipDigits;
    var q := SkipDigits(buf, p);
    assert (buf + more)[p..q] == buf[p..q];
    DigitsEnd(buf + more, p, buf[p..q]);
    SkipStable(buf, more, q + 1, Value(buf[p..q]));
  }

  lemma {:induction false} ReachesStable(buf: Bytes, more: Bytes, p: nat, ps: nat)
    requires p <= |buf| && Reaches(buf, p, ps)
    ensures Reaches(buf + more, p, ps)
    decreases |buf| - p
  {
    hide ScanElement;
    if p != ps {
      ElementStable(buf, more, p);
      ReachesStable(buf, more, ScanElement(buf, p).next, ps);
    }
  }

  // ---------------------------------------------------------------- frames cut short

  /** The buffer ends inside s, which starts at p. */
  predicate Cut(buf: Bytes, p: nat, s: Bytes) {
    p <= |buf| < p + |s| && buf[p..] == s[..|buf| - p]
  }

  /** Inside an element of one-byte characters the scan waits. */
  lemma ElementCut(buf: Bytes, p: nat, e: Bytes, t: Byte)
    requires Cut(buf, p, Field(|e|, e) + [t])
    ensures ScanElement(buf, p) == Wait
  {
    hide SkipRunes;
    var d := Decimal(|e|);
    var s := Field(|e|, e) + [t];
    assert forall i | p <= i < |buf| :: buf[i] == s[i - p];
    if |buf| <= p + |d| {
      assert forall i | p <= i < |buf| :: buf[i] == d[i - p];
      DigitsEnd(buf, p, buf[p..]);
    } else {
      assert buf[p..p + |d|] == d;
      DigitsEnd(buf, p, d);
    }
  }

  /** A proper prefix of a frame of one-byte characters makes the scan wait. */
  lemma {:induction false} FrameCut(buf: Bytes, p: nat, es: seq<Bytes>)
    requires es != [] && AllAscii(es) && Cut(buf, p, Encode(es))
    ensures ScanFrom(buf, p).More?
    decreases |es|
  {
    hide ScanElement, IsUtf8, RuneCount, IsAscii, Field;
    var f := Encode(es);
    var head, t := FrameSplit(f, 0, es);
    AsciiIsUtf8(es[0]);
    var n := |head| + 1;
    if |buf| < p + n {
      assert Cut(buf, p, head + [t]);
      ElementCut(buf, p, es[0], t);
    } else {
      assert buf[p..p + n] == head + [t] by {
        assert buf[p..p + n] == buf[p..][..n] == f[..n];
      }
      ElementRead(buf, p, es[0], t);
      assert buf[p + n..] == buf[p..][n..] == f[n..][..|buf| - p - n];
      FrameCut(buf, p + n, es[1..]);
    }
  }

  /**
   Skipping all the characters of a text of which only the first n bytes are buffered, n more than the
   number of characters: the skip ends at the end of the buffer or on a tail byte, never on a terminator.
   */
  lemma {:induction false} SkipCut(buf: Bytes, p: nat, e: Bytes, k: nat)
    requires IsUtf8(e) && k == RuneCount(e)
    requires p + k < |buf| <= p + |e| && buf[p..] == e[..|buf| - p]
    ensures var j := SkipRunes(buf, p, k); j == |buf| || IsTail(buf[j])
    decreases k
  {
    hide CodeAt, IsUtf8, RuneCount, EncodeRune;
    var w := FirstChar(e);
    assert forall i | p <= i < |buf| :: buf[i] == e[i - p];
    if w <= |buf| - p {
      assert DecodeRune(buf, p).size == w;
      if p + w + (k - 1) < |buf| {
        assert buf[p + w..] == e[w..][..|buf| - p - w];
        SkipCut(buf, p + w, e[w..], k - 1);
      }
    }
  }

  /** A frame with a character of several bytes can be cut where the scan does not wait. */
  lemma {:induction false} WideFrameCut(f: Bytes, p: nat, es: seq<Bytes>) returns (n: nat)
    requires es != [] && AllUtf8(es) && !AllAscii(es)
    requires At(f, p, Encode(es)) && p + |Encode(es)| == |f|
    ensures p < n < |f|
    ensures ScanFrom(f[..n], p).Crash? || ScanFrom(f[..n], p).WrongTerminator?
    decreases |es|
  {
    hide ScanElement, IsUtf8, RuneCount, IsAscii, Field;
    var head, t := FrameSplit(f, p, es);
    if RuneCount(es[0]) == |es[0]| {
      AsciiByCount(es[0]);
      n := WideFrameCut(f, p + |head| + 1, es[1..]);
      assert f[..n][p..p + |head| + 1] == f[p..p + |head| + 1];
      ElementRead(f[..n], p, es[0], t);
    } else {
      n := WideElementCut(f, p, es[0], t);
    }
  }

  lemma WideElementCut(f: Bytes, p: nat, e: Bytes, t: Byte) returns (n: nat)
    requires IsUtf8(e) && RuneCount(e) < |e|
    requires At(f, p, Field(RuneCount(e), e) + [t])
    ensures p < n < |f|
    ensures ScanElement(f[..n], p).Fault? || ScanElement(f[..n], p).BadTerminator?
  {
    hide IsUtf8, RuneCount, SkipRunes, ScanElement, Value, SkipDigits;
    var k := RuneCount(e);
    var q := p + |Decimal(k)|;
    n := q + 1 + k + 1;
    assert At(f, p, Field(k, e)) && |f| > p + |Field(k, e)| by { AtSplit(f, p, Field(k, e), [t]); }
    LengthRead(f, p, k, e);
    LengthShown(f, p, n, k);
    CutText(f, q + 1, n, e);
    SkipCut(f[..n], q + 1, e, k);
    CutScan(f[..n], p, q, k);
  }

  lemma CutScan(buf: Bytes, p: nat, q: nat, k: nat)
    requires p <= |buf| && SkipDigits(buf, p) == q && q + 1 + k < |buf| && buf[q] == DOT && Value(buf[p..q]) == k
    requires var j := SkipRunes(buf, q + 1, k); j == |buf| || IsTail(buf[j])
    ensures ScanElement(buf, p).Fault? || ScanElement(buf, p).BadTerminator?
  {
    hide SkipRunes, Value;
  }

  /** A length field well inside a shortened buffer is still read. */
  lemma LengthShown(f: Bytes, p: nat, n: nat, k: nat)
    requires p + |Decimal(k)| < n <= |f|
    requires f[p..p + |Decimal(k)|] == Decimal(k) && f[p + |Decimal(k)|] == DOT
    ensures var q := p + |Decimal(k)|; SkipDigits(f[..n], p) == q && f[..n][q] == DOT && f[..n][p..q] == Decimal(k)
  {
    var q := p + |Decimal(k)|;
    assert f[..n][p..q] == f[p..q];
    DigitsEnd(f[..n], p, Decimal(k));
  }

  lemma CutText(f: Bytes, i: nat, n: nat, e: Bytes)
    requires At(f, i, e) && i <= n <= i + |e|
    ensures f[..n][i..] == e[..n - i]
  {
    assert forall j | 0 <= j < |e| :: f[i..i + |e|][j] == e[j];
  }

  /**
   The exact condition under which ReadSome may be fed a frame in pieces: it waits at every cut
   precisely when every character of the frame is one byte wide.
   */
  lemma WaitsAtEveryCutIff(es: seq<Bytes>)
    requires es != [] && AllUtf8(es)
    ensures (forall n | 0 <= n < |Encode(es)| :: ScanFrom(Encode(es)[..n], 0).More?) <==> AllAscii(es)
  {
    var f := Encode(es);
    if AllAscii(es) {
      forall n | 0 <= n < |f| ensures ScanFrom(f[..n], 0).More? {
        FrameCut(f[..n], 0, es);
      }
    } else {
      var n := WideFrameCut(f, 0, es);
      assert !ScanFrom(f[..n], 0).More?;
    }
  }

  /**
   The smallest witness: a two-byte character alone in its frame, of which only the terminator has not arrived, makes
   ReadSome panic.
   */
  lemma CutCharacterPanics()
    ensures var f := Encode([[0xC3, 0xA9]]);
      f == [49, DOT, 0xC3, 0xA9, SEMICOLON] && ScanFrom(f, 0) == Whole(5) && ScanFrom(f[..4], 0) == Crash(0)
  {
    var e: Bytes := [0xC3, 0xA9];
    assert IsUtf8(e) && RuneCount(e) == 1 by {
      assert e[2..] == [];
    }
    assert Decimal(1) == [49];
    var f := Encode([e]);
    FrameRead(f, 0, [e]);
    var cut: Bytes := f[..4];
    CutAfterCharacter(cut);
  }

  lemma CutAfterCharacter(cut: Bytes)
    requires cut == [49, DOT, 0xC3, 0xA9]
    ensures ScanFrom(cut, 0) == Crash(0)
  {
    DigitsEnd(cut, 0, [49]);
    assert Value(cut[0..1]) == 1 by {
      assert cut[0..1] == Decimal(1);
    }
    assert DecodeRune(cut, 2).size == 2;
  }
}
