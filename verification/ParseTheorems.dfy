/** What the printer, the scan and the parser promise one another. */
module ParseTheorems {
  import opened Base
  import opened Utf8
  import opened Wire
  import opened Instructions
  import opened Options

  lemma DotAfter(data: Bytes, p: nat, q: nat)
    requires p <= q < |data| && data[q] == DOT
    requires forall i | p <= i < q :: data[i] != DOT
    ensures FindDot(data, p) == q
  {
  }

  // ---------------------------------------------------------------- printing, then parsing

  /** What the parser reads where an element is printed with its byte length. */
  lemma ParsePrinted(data: Bytes, p: nat, es: seq<Bytes>) returns (i: nat)
    requires es != [] && |es[0]| <= MAX_INT && At(data, p, Print(es))
    ensures i == p + |Decimal(|es[0]|)| + 1 && i + |es[0]| < |data|
    ensures FindDot(data, p) == i - 1 && Atoi(data[p..i - 1]) == Some(|es[0]|)
    ensures At(data, i, es[0])
    ensures data[i + |es[0]|] == if |es| == 1 then SEMICOLON else COMMA
    ensures |es| > 1 ==> At(data, i + |es[0]| + 1, Print(es[1..]))
  {
    hide Print, Atoi, FindDot, Field, At, Decimal, SkipDigits, Base.Value, PrintTail;
    var e, rest := es[0], PrintTail(es);
    i := p + |Decimal(|e|)| + 1;
    AtSplit(data, p, Field(|e|, e), rest);
    LengthRead(data, p, |e|, e);
    FieldLength(|e|, e);
    DotAfter(data, p, i - 1);
    AtoiDigits(Decimal(|e|));
    TailRead(data, i + |e|, es);
  }

  lemma TailRead(data: Bytes, q: nat, es: seq<Bytes>)
    requires es != [] && At(data, q, PrintTail(es))
    ensures q < |data| && data[q] == if |es| == 1 then SEMICOLON else COMMA
    ensures |es| > 1 ==> At(data, q + 1, Print(es[1..]))
  {
    var rest := PrintTail(es);
    assert data[q] == data[q..q + |rest|][0];
    if |es| > 1 {
      AtSplit(data, q, [COMMA], Print(es[1..]));
    }
  }

  lemma FieldLength(n: nat, e: Bytes)
    ensures |Field(n, e)| == |Decimal(n)| + 1 + |e|
  {
  }

  lemma PrintLength(es: seq<Bytes>)
    requires es != []
    ensures |Print(es)| == |Decimal(|es[0]|)| + 1 + |es[0]| + 1 + if |es| == 1 then 0 else |Print(es[1..])|
  {
    hide Decimal;
    FieldLength(|es[0]|, es[0]);
  }

  /** An element of one-byte characters comes back unchanged; the reader moves on to what was printed next. */
  lemma ParseAsciiElement(data: Bytes, p: nat, es: seq<Bytes>) returns (next: nat)
    requires es != [] && IsAscii(es[0]) && |es[0]| <= MAX_INT && At(data, p, Print(es))
    ensures p < next <= |data|
    ensures |es| == 1 ==> ParseFrom(data, p) == Done(es, next) && next == p + |Print(es)|
    ensures |es| > 1 ==> ParseFrom(data, p) == Prepend([es[0]], ParseFrom(data, next)) && At(data, next, Print(es[1..]))
    ensures |es| > 1 ==> next + |Print(es[1..])| == p + |Print(es)|
  {
    hide SkipRunes, Transcode, Atoi, FindDot, ParseFrom, IsUtf8, RuneCount, Print, At, Decimal, IsAscii;
    var e := es[0];
    var i := ParsePrinted(data, p, es);
    AsciiIsUtf8(e);
    SkipText(data, i, e);
    ParseStep(data, p);
    next := i + |e| + 1;
    PrintLength(es);
    if |es| == 1 {
      assert es == [e];
    }
  }

  /** Printing, then parsing one-byte characters gives the elements back and stops at the final semicolon. */
  lemma {:induction false} ParseAscii(data: Bytes, p: nat, es: seq<Bytes>)
    requires es != [] && AllAscii(es) && (forall i | 0 <= i < |es| :: |es[i]| <= MAX_INT)
    requires At(data, p, Print(es))
    ensures ParseFrom(data, p) == Done(es, p + |Print(es)|)
    decreases |es|
  {
    hide ParseFrom, Print, IsAscii;
    var next := ParseAsciiElement(data, p, es);
    if |es| > 1 {
      ParseAscii(data, next, es[1..]);
      assert [es[0]] + es[1..] == es;
    }
  }

  /** An element with a byte above 127 never comes back: w characters of one byte each cannot contain it. */
  lemma {:induction false} ParseWide(data: Bytes, p: nat, es: seq<Bytes>)
    requires es != [] && !AllAscii(es) && (forall i | 0 <= i < |es| :: |es[i]| <= MAX_INT)
    requires At(data, p, Print(es))
    ensures ParseFrom(data, p).Done? ==> ParseFrom(data, p).es != es
    decreases |es|
  {
    hide ParseFrom, Print, IsAscii, SkipRunes, Transcode, Atoi, FindDot, At;
    var e := es[0];
    if IsAscii(e) {
      var next := ParseAsciiElement(data, p, es);
      ParseWide(data, next, es[1..]);
      assert es == [e] + es[1..];
    } else {
      var i := ParsePrinted(data, p, es);
      ParseStep(data, p);
      assert Transcode(data, i, |e|) != e;
    }
  }

  /**
   The round trip: Parse gives back what String printed exactly when every character of every
   element is one byte wide, because String prints byte lengths and Parse counts characters.
   */
  lemma RoundTripIff(ins: Ins)
    requires forall i | 0 <= i < |ins.Elements()| :: |ins.Elements()[i]| <= MAX_INT
    ensures ParseReply(Print(ins.Elements())) == Parsed(ins) <==> AllAscii(ins.Elements())
  {
    var es := ins.Elements();
    var data := Print(es);
    assert At(data, 0, data);
    if AllAscii(es) {
      ParseAscii(data, 0, es);
    } else {
      ParseWide(data, 0, es);
      RepliesDiffer(data, ins);
    }
  }

  lemma RepliesDiffer(data: Bytes, ins: Ins)
    requires ParseFrom(data, 0).Done? ==> ParseFrom(data, 0).es != ins.Elements()
    ensures ParseReply(data) != Parsed(ins)
  {
    hide ParseFrom;
    var r := ParseFrom(data, 0);
    if r.Done? && r.es != [] {
      assert r.es == [r.es[0]] + r.es[1..];
    }
  }

  // ---------------------------------------------------------------- frames as guacd writes them

  /** An element whose length counts characters comes back unchanged; the reader moves on to what follows it. */
  lemma ParseEncodedElement(data: Bytes, p: nat, es: seq<Bytes>) returns (next: nat)
    requires es != [] && IsUtf8(es[0]) && |es[0]| <= MAX_INT && At(data, p, Encode(es))
    ensures p < next <= |data|
    ensures |es| == 1 ==> ParseFrom(data, p) == Done(es, next) && next == p + |Encode(es)|
    ensures |es| > 1 ==> ParseFrom(data, p) == Prepend([es[0]], ParseFrom(data, next))
    ensures |es| > 1 ==> At(data, next, Encode(es[1..]))
    ensures |es| > 1 ==> next + |Encode(es[1..])| == p + |Encode(es)|
  {
    hide SkipRunes, Transcode, Atoi, FindDot, ParseFrom, IsUtf8, RuneCount, Encode, At, Decimal, Field, SkipDigits,
      Base.Value;
    var e, k := es[0], RuneCount(es[0]);
    var head, t := FrameSplit(data, p, es);
    var q := p + |Decimal(k)|;
    AtSplit(data, p, head, [t]);
    LengthRead(data, p, k, e);
    FieldLength(k, e);
    DotAfter(data, p, q);
    AtoiDigits(Decimal(k));
    SkipText(data, q + 1, e);
    OneAt(data, q + 1 + |e|, t);
    ParseStep(data, p);
    next := q + 1 + |e| + 1;
    if |es| == 1 {
      assert es == [e];
    }
  }

  lemma OneAt(data: Bytes, p: nat, t: Byte)
    requires At(data, p, [t])
    ensures p < |data| && data[p] == t
  {
    assert data[p] == data[p..p + 1][0];
  }

  lemma {:induction false} ParseEncodedAt(data: Bytes, p: nat, es: seq<Bytes>)
    requires es != [] && AllUtf8(es) && (forall i | 0 <= i < |es| :: |es[i]| <= MAX_INT)
    requires At(data, p, Encode(es))
    ensures ParseFrom(data, p) == Done(es, p + |Encode(es)|)
    decreases |es|
  {
    hide ParseFrom, Encode, IsUtf8;
    var next := ParseEncodedElement(data, p, es);
    if |es| > 1 {
      ParseEncodedAt(data, next, es[1..]);
      assert [es[0]] + es[1..] == es;
    }
  }

  /** Parse gives back the elements of every frame whose lengths count characters, with characters of any width. */
  lemma EncodedParses(ins: Ins)
    requires AllUtf8(ins.Elements()) && forall i | 0 <= i < |ins.Elements()| :: |ins.Elements()[i]| <= MAX_INT
    ensures ParseReply(Encode(ins.Elements())) == Parsed(ins)
  {
    hide ParseFrom, Encode, IsUtf8;
    var es := ins.Elements();
    var data := Encode(es);
    assert At(data, 0, data);
    ParseEncodedAt(data, 0, es);
  }

  // ---------------------------------------------------------------- the two parsers agree

  /** Every length field of the frame at p is a non-empty numeral in the range of int. */
  predicate LengthsOk(buf: Bytes, p: nat)
    requires p <= |buf| && ScanFrom(buf, p).Whole?
    decreases |buf| - p
  {
    var q := SkipDigits(buf, p);
    && p < q
    && Value(buf[p..q]) <= MAX_INT
    && (ScanElement(buf, p).last || LengthsOk(buf, ScanElement(buf, p).next))
  }

  /** The element boundaries the scan finds in the frame at p: start and end of each text. */
  function Spans(buf: Bytes, p: nat): (s: seq<(nat, nat)>)
    requires p <= |buf| && ScanFrom(buf, p).Whole?
    ensures forall i | 0 <= i < |s| :: s[i].0 <= s[i].1 < |buf|
    decreases |buf| - p
  {
    var step := ScanElement(buf, p);
    var here := (SkipDigits(buf, p) + 1, step.next - 1);
    if step.last then [here] else [here] + Spans(buf, step.next)
  }

  /** The texts at the scan's boundaries, each decoded and encoded again. */
  function Texts(buf: Bytes, p: nat): (es: seq<Bytes>)
    requires p <= |buf| && ScanFrom(buf, p).Whole?
    ensures |es| == |Spans(buf, p)|
    decreases |buf| - p
  {
    var step := ScanElement(buf, p);
    var q := SkipDigits(buf, p);
    var here := Transcode(buf, q + 1, Value(buf[p..q]));
    if step.last then [here] else [here] + Texts(buf, step.next)
  }

  /** Skipping and transcoding up to a position inside the buffer do not depend on what lies behind it. */
  lemma {:induction false} SkipLocal(buf: Bytes, m: nat, p: nat, k: nat)
    requires p <= m <= |buf| && SkipRunes(buf, p, k) < m
    ensures SkipRunes(buf[..m], p, k) == SkipRunes(buf, p, k)
    ensures Transcode(buf[..m], p, k) == Transcode(buf, p, k)
    decreases k
  {
    hide DecodeRune, EncodeRune, SkipRunes, Transcode;
    if k == 0 {
      SkipNone(buf, p);
      SkipNone(buf[..m], p);
    } else {
      Utf8.Step(buf, p, k - 1);
      DecodeLocal(buf, m, p);
      Utf8.Step(buf[..m], p, k - 1);
      SkipLocal(buf, m, p + DecodeRune(buf, p).size, k - 1);
    }
  }

  lemma SkipNone(buf: Bytes, p: nat)
    requires p <= |buf|
    ensures SkipRunes(buf, p, 0) == p && Transcode(buf, p, 0) == []
  {
  }

  /** One element seen by the scan in the whole buffer and by the parser in the frame alone. */
  lemma ElementAgrees(buf: Bytes, m: nat, p: nat)
    requires p < m <= |buf| && ScanElement(buf, p).Element? && ScanElement(buf, p).next <= m
    ensures var f, q, j := buf[..m], SkipDigits(buf, p), ScanElement(buf, p).next - 1;
      && q < j + 1 && FindDot(f, p) == q && f[p..q] == buf[p..q]
      && SkipRunes(f, q + 1, Value(buf[p..q])) == j
      && Transcode(f, q + 1, Value(buf[p..q])) == Transcode(buf, q + 1, Value(buf[p..q]))
      && f[j] == if ScanElement(buf, p).last then SEMICOLON else COMMA
  {
    hide FindDot, SkipRunes, Transcode, Value;
    var q := SkipDigits(buf, p);
    DotAfter(buf[..m], p, q);
    SkipLocal(buf, m, q + 1, Value(buf[p..q]));
  }

  /**
   Parse on a frame that ReadSome returned: the same elements, ending at the same place, or a refused length field.
   */
  lemma {:induction false} FrameAgrees(buf: Bytes, p: nat, m: nat)
    requires p <= |buf| && ScanFrom(buf, p) == Whole(m)
    ensures ParseFrom(buf[..m], p) == if LengthsOk(buf, p) then Done(Texts(buf, p), m) else BadNumber
    decreases |buf| - p
  {
    hide SkipRunes, Transcode, Atoi, FindDot, ParseFrom, ScanElement, Value, SkipDigits;
    var step, q := ScanElement(buf, p), SkipDigits(buf, p);
    if !step.last {
      FrameAgrees(buf, step.next, m);
    }
    ElementAgrees(buf, m, p);
    AtoiDigits(buf[p..q]);
    ParseStep(buf[..m], p);
  }

  /**
   For every frame ReadSome returns, whatever its bytes: Parse never panics on it, accepts it exactly when
   no length field is empty or too large for an int, and then ends at the final semicolon with the elements
   at the scan's own boundaries.
   */
  lemma ParsersAgreeIff(buf: Bytes, m: nat)
    requires ScanFrom(buf, 0) == Whole(m)
    ensures ParseReply(buf[..m]).Parsed? <==> LengthsOk(buf, 0)
    ensures !LengthsOk(buf, 0) ==> ParseReply(buf[..m]) == Refused
    ensures LengthsOk(buf, 0) ==> ParseReply(buf[..m]).ins.Elements() == Texts(buf, 0)
    ensures LengthsOk(buf, 0) ==> ParseFrom(buf[..m], 0).Done? && ParseFrom(buf[..m], 0).end == m
  {
    FrameAgrees(buf, 0, m);
    if LengthsOk(buf, 0) {
      var es := Texts(buf, 0);
      assert [es[0]] + es[1..] == es;
    }
  }

  /** The number of characters up to a position inside the buffer is determined by the position. */
  lemma {:induction false} SkipInjective(buf: Bytes, p: nat, j: nat, k: nat)
    requires p <= |buf| && SkipRunes(buf, p, j) == SkipRunes(buf, p, k) < |buf|
    ensures j == k
    decreases j
  {
    hide DecodeRune;
    if j > 0 && k > 0 {
      SkipInjective(buf, p + DecodeRune(buf, p).size, j - 1, k - 1);
    }
  }

  /** Where the texts between the boundaries are valid UTF-8, the elements are those texts, byte for byte. */
  lemma {:induction false} TextsUnchanged(buf: Bytes, p: nat, i: nat)
    requires p <= |buf| && ScanFrom(buf, p).Whole? && i < |Spans(buf, p)|
    requires IsUtf8(buf[Spans(buf, p)[i].0..Spans(buf, p)[i].1])
    ensures Texts(buf, p)[i] == buf[Spans(buf, p)[i].0..Spans(buf, p)[i].1]
    decreases i
  {
    hide SkipRunes, Transcode, Value, SkipDigits, IsUtf8, RuneCount;
    var step, q := ScanElement(buf, p), SkipDigits(buf, p);
    if i == 0 {
      var text := buf[q + 1..step.next - 1];
      SkipText(buf, q + 1, text);
      SkipInjective(buf, q + 1, Value(buf[p..q]), RuneCount(text));
    } else {
      hide ScanElement;
      TextsUnchanged(buf, step.next, i - 1);
    }
  }

  // ---------------------------------------------------------------- frames by themselves

  /** An element of a frame is found in the frame alone as in the longer buffer. */
  lemma ElementLocal(buf: Bytes, m: nat, p: nat)
    requires p < m <= |buf| && ScanElement(buf, p).Element? && ScanElement(buf, p).next <= m
    ensures ScanElement(buf[..m], p) == ScanElement(buf, p)
  {
    hide FindDot, SkipRunes, Transcode, Value;
    ElementAgrees(buf, m, p);
    var q := SkipDigits(buf, p);
    DigitsEnd(buf[..m], p, buf[p..q]);
  }

  /** A frame found at the front of a buffer is found in the frame alone. */
  lemma {:induction false} FrameLocal(buf: Bytes, p: nat, m: nat)
    requires p <= |buf| && ScanFrom(buf, p) == Whole(m)
    ensures ScanFrom(buf[..m], p) == Whole(m)
    decreases |buf| - p
  {
    hide ScanElement;
    ElementLocal(buf, m, p);
    if !ScanElement(buf, p).last {
      FrameLocal(buf, ScanElement(buf, p).next, m);
    }
  }

  /** Inside a character there is no one-byte character. */
  lemma NotInside(s: Bytes, j: nat)
    requires s != [] && HasChar(s, 0) && j < |s| && s[j] < 0x80
    ensures j == 0 || Width(s[0]) <= j
  {
  }

  lemma CharKept(s: Bytes, j: nat)
    requires s != [] && HasChar(s, 0) && Width(s[0]) <= j <= |s|
    ensures HasChar(s[..j], 0) && Width(s[..j][0]) == Width(s[0])
  {
  }

  /** Valid text is valid on both sides of a one-byte character. */
  lemma {:induction false} Utf8Cut(s: Bytes, j: nat)
    requires IsUtf8(s) && j < |s| && s[j] < 0x80
    ensures IsUtf8(s[..j]) && IsUtf8(s[j + 1..])
    decreases |s|
  {
    hide HasChar;
    var w := Width(s[0]);
    NotInside(s, j);
    if j == 0 {
      assert w == 1;
    } else {
      Utf8Cut(s[w..], j - w);
      CharKept(s, j);
      Slices(s, w, j);
    }
  }

  lemma Slices(s: Bytes, w: nat, j: nat)
    requires w <= j < |s|
    ensures s[w..][..j - w] == s[..j][w..] && s[w..][j - w + 1..] == s[j + 1..]
  {
  }

  lemma {:induction false} SpanEdges(buf: Bytes, p: nat, i: nat)
    requires p <= |buf| && ScanFrom(buf, p).Whole? && i < |Spans(buf, p)|
    ensures var (a, b) := Spans(buf, p)[i];
      0 < a <= b < |buf| && buf[a - 1] == DOT && (buf[b] == COMMA || buf[b] == SEMICOLON)
    decreases i
  {
    hide SkipRunes, Value;
    if i > 0 {
      SpanEdges(buf, ScanElement(buf, p).next, i - 1);
    }
  }

  /** In a frame of valid UTF-8 every text between the boundaries is valid UTF-8. */
  lemma SpanIsUtf8(f: Bytes, i: nat)
    requires ScanFrom(f, 0).Whole? && i < |Spans(f, 0)| && IsUtf8(f)
    ensures IsUtf8(f[Spans(f, 0)[i].0..Spans(f, 0)[i].1])
  {
    hide IsUtf8, ScanFrom, Spans;
    SpanEdges(f, 0, i);
    var (a, b) := Spans(f, 0)[i];
    Utf8Cut(f, a - 1);
    assert f[a - 1 + 1..] == f[a..];
    Utf8Cut(f[a..], b - a);
    assert f[a..][..b - a] == f[a..b];
  }

  /** The texts between the boundaries of a frame, byte for byte. */
  function Pieces(f: Bytes): (es: seq<Bytes>)
    requires ScanFrom(f, 0).Whole?
  {
    seq(|Spans(f, 0)|, i requires 0 <= i < |Spans(f, 0)| => f[Spans(f, 0)[i].0..Spans(f, 0)[i].1])
  }

  /**
   What Parse makes of a frame: never a panic; an instruction exactly when no length field is empty or too large
   for an int; then it ends at the final semicolon, its elements are the texts at the boundaries of the scan, each
   decoded and encoded again, and in a frame of valid UTF-8 these texts themselves.
   */
  predicate ParsedAsScanned(f: Bytes) {
    && ScanFrom(f, 0) == Whole(|f|)
    && (if LengthsOk(f, 0) then
          && ParseReply(f).Parsed? && ParseReply(f).ins.Elements() == Texts(f, 0) && ParseFrom(f, 0).end == |f|
          && (IsUtf8(f) ==> ParseReply(f).ins.Elements() == Pieces(f))
        else ParseReply(f) == Refused)
  }

  lemma FramesParse(buf: Bytes, m: nat)
    requires ScanFrom(buf, 0) == Whole(m)
    ensures ParsedAsScanned(buf[..m])
  {
    hide ScanFrom, LengthsOk, Texts, ParseReply, ParseFrom, IsUtf8, Spans;
    var f := buf[..m];
    FrameLocal(buf, 0, m);
    assert f[..m] == f;
    ParsersAgreeIff(f, m);
    if IsUtf8(f) {
      forall i | 0 <= i < |Spans(f, 0)| ensures Texts(f, 0)[i] == Pieces(f)[i] {
        SpanIsUtf8(f, i);
        TextsUnchanged(f, 0, i);
      }
      assert Texts(f, 0) == Pieces(f);
    }
  }

  // ---------------------------------------------------------------- what is not a frame

  /** No data is a panic on the missing opcode; data without a dot is refused. */
  lemma NoElements(data: Bytes)
    requires forall i | 0 <= i < |data| :: data[i] != DOT
    ensures ParseReply(data) == if data == [] then Panicked else Refused
  {
  }

  /** A text in front of the first dot that is no number in the range of int is refused. */
  lemma BadNumberRefused(text: Bytes, rest: Bytes)
    requires DOT !in text && Atoi(text).None?
    ensures ParseReply(text + [DOT] + rest) == Refused
  {
    hide SkipRunes, Transcode, Atoi;
    var data := text + [DOT] + rest;
    assert data[0..|text|] == text;
    DotAfter(data, 0, |text|);
  }

  /** A text that goes up to the end of the data, with no terminator behind it, is a panic, also if it falls short. */
  lemma NoTerminatorPanics(n: nat, e: Bytes)
    requires IsUtf8(e) && RuneCount(e) <= n <= MAX_INT
    ensures ParseReply(Field(n, e)) == Panicked
  {
    hide SkipRunes, Transcode, Atoi, Decimal, IsUtf8, RuneCount, FindDot, Base.Value, SkipDigits;
    var data := Field(n, e);
    assert At(data, 0, data);
    LengthRead(data, 0, n, e);
    var q := |Decimal(n)|;
    DotAfter(data, 0, q);
    AtoiDigits(Decimal(n));
    SkipToEnd(data, q + 1, e, n);
    ParseStep(data, 0);
  }

  /** Skipping at least as many characters as are left ends at the end. */
  lemma {:induction false} SkipToEnd(buf: Bytes, p: nat, e: Bytes, k: nat)
    requires At(buf, p, e) && p + |e| == |buf| && IsUtf8(e) && RuneCount(e) <= k
    ensures SkipRunes(buf, p, k) == |buf|
    decreases k
  {
    hide CodeAt, IsUtf8, RuneCount, EncodeRune;
    if e == [] {
      SkipAtEnd(buf, k);
    } else {
      var w := FirstChar(e);
      assert e == e[..w] + e[w..];
      AtSplit(buf, p, e[..w], e[w..]);
      DecodeShift(buf, p, e);
      SkipToEnd(buf, p + w, e[w..], k - 1);
    }
  }

  lemma {:induction false} SkipAtEnd(buf: Bytes, k: nat)
    ensures SkipRunes(buf, |buf|, k) == |buf|
    decreases k
  {
    if k > 0 {
      SkipAtEnd(buf, k - 1);
    }
  }

  /** Parse takes any byte but a semicolon behind an element for a comma. */
  lemma AnyTerminator(e: Bytes, t: Byte, rest: Bytes)
    requires IsUtf8(e) && |e| <= MAX_INT && t != SEMICOLON
    ensures var data := Field(RuneCount(e), e) + [t] + rest;
      var next := |Field(RuneCount(e), e)| + 1;
      next <= |data| && ParseFrom(data, 0) == Prepend([e], ParseFrom(data, next))
  {
    hide SkipRunes, Transcode, Atoi, Decimal, IsUtf8, RuneCount, FindDot, Base.Value, SkipDigits, ParseFrom, Field;
    var k := RuneCount(e);
    var field := Field(k, e);
    var data := field + [t] + rest;
    assert At(data, 0, field);
    FieldLength(k, e);
    LengthRead(data, 0, k, e);
    var q := |Decimal(k)|;
    DotAfter(data, 0, q);
    AtoiDigits(Decimal(k));
    SkipText(data, q + 1, e);
    ParseStep(data, 0);
  }
}
