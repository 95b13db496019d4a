/**
 Go's unicode/utf8 decoder and encoder on byte strings. Character widths and the ranges of
 the bytes that follow a first byte are those of sections 3 and 4 of RFC 3629.
 */
module Utf8 {
  import opened Base

  // The replacement character that stands for a byte that starts no character.
  const RUNE_ERROR := 0xFFFD

  datatype Rune = Rune(code: int, size: nat)

  /** The width a first byte announces; 0 when no character starts with it. */
  function Width(b: Byte): (w: nat)
    ensures w <= 4
  {
    if b < 0x80 then 1
    else if b < 0xC2 then 0
    else if b < 0xE0 then 2
    else if b < 0xF0 then 3
    else if b < 0xF5 then 4
    else 0
  }

  predicate IsTail(b: Byte) {
    0x80 <= b <= 0xBF
  }

  /** May b1 follow the first byte b0? Rules out overlong forms, surrogates and large codes. */
  predicate IsSecond(b0: Byte, b1: Byte) {
    if b0 == 0xE0 then 0xA0 <= b1 <= 0xBF
    else if b0 == 0xED then 0x80 <= b1 <= 0x9F
    else if b0 == 0xF0 then 0x90 <= b1 <= 0xBF
    else if b0 == 0xF4 then 0x80 <= b1 <= 0x8F
    else IsTail(b1)
  }

  /** Is there a whole character at position p? */
  predicate HasChar(buf: Bytes, p: nat)
    requires p < |buf|
    ensures HasChar(buf, p) ==> 1 <= Width(buf[p]) <= |buf| - p
  {
    var w := Width(buf[p]);
    && 1 <= w <= |buf| - p
    && (w >= 2 ==> IsSecond(buf[p], buf[p + 1]))
    && (w >= 3 ==> IsTail(buf[p + 2]))
    && (w >= 4 ==> IsTail(buf[p + 3]))
  }

  /** A code point so far, extended by the six bits of a tail byte. */
  function Extend(code: int, tail: int): int {
    code * 0x40 + (tail - 0x80)
  }

  function CodeAt(buf: Bytes, p: nat): int
    requires p < |buf| && HasChar(buf, p)
  {
    var first: int := buf[p];
    match Width(buf[p])
    case 1 => first
    case 2 => Extend(first - 0xC0, buf[p + 1])
    case 3 => Extend(Extend(first - 0xE0, buf[p + 1]), buf[p + 2])
    case _ => Extend(Extend(Extend(first - 0xF0, buf[p + 1]), buf[p + 2]), buf[p + 3])
  }

  /** utf8.DecodeRune(buf[p:]). */
  function DecodeRune(buf: Bytes, p: nat): (r: Rune)
    requires p <= |buf|
    ensures p + r.size <= |buf|
    ensures p < |buf| ==> r.size >= 1
  {
    if p == |buf| then Rune(RUNE_ERROR, 0)
    else if HasChar(buf, p) then Rune(CodeAt(buf, p), Width(buf[p]))
    else Rune(RUNE_ERROR, 1)
  }

  /** utf8.AppendRune(nil, code). */
  function EncodeRune(code: int): (s: Bytes)
    ensures |s| >= 1
    ensures |s| == 1 ==> s[0] < 0x80
  {
    if 0 <= code < 0x80 then
      [code]
    else if 0x80 <= code < 0x800 then
      [0xC0 + code / 0x40, 0x80 + code % 0x40]
    else if 0x800 <= code < 0x10000 && !(0xD800 <= code < 0xE000) then
      [0xE0 + code / 0x1000, 0x80 + code / 0x40 % 0x40, 0x80 + code % 0x40]
    else if 0x10000 <= code < 0x110000 then
      [0xF0 + code / 0x40000, 0x80 + code / 0x1000 % 0x40, 0x80 + code / 0x40 % 0x40, 0x80 + code % 0x40]
    else
      [0xEF, 0xBF, 0xBD]
  }

  /** Encoding undoes decoding wherever there is a whole character. */
  lemma EncodeDecoded(s: Bytes)
    requires s != [] && HasChar(s, 0)
    ensures EncodeRune(DecodeRune(s, 0).code) == s[..DecodeRune(s, 0).size]
  {
    hide EncodeRune, Extend;
    var first: int := s[0];
    match Width(s[0])
    case 1 =>
      EncodeOne(s[0]);
    case 2 =>
      EncodeTwo(s[0], s[1]);
    case 3 =>
      EncodeThree(s[0], s[1], s[2]);
    case _ =>
      EncodeFour(s[0], s[1], s[2], s[3]);
  }

  lemma EncodeOne(b0: Byte)
    requires b0 < 0x80
    ensures EncodeRune(b0) == [b0]
  {
  }

  lemma EncodeTwo(b0: Byte, b1: Byte)
    requires Width(b0) == 2 && IsSecond(b0, b1)
    ensures var first: int := b0; EncodeRune(Extend(first - 0xC0, b1)) == [b0, b1]
  {
    var first: int := b0;
    ExtendDigits(first - 0xC0, b1);
  }

  lemma EncodeThree(b0: Byte, b1: Byte, b2: Byte)
    requires Width(b0) == 3 && IsSecond(b0, b1) && IsTail(b2)
    ensures var first: int := b0; EncodeRune(Extend(Extend(first - 0xE0, b1), b2)) == [b0, b1, b2]
  {
    var first: int := b0;
    var code := Extend(Extend(first - 0xE0, b1), b2);
    ExtendDigits(first - 0xE0, b1);
    ExtendDigits(Extend(first - 0xE0, b1), b2);
    assert code / 0x1000 == code / 0x40 / 0x40;
  }

  lemma EncodeFour(b0: Byte, b1: Byte, b2: Byte, b3: Byte)
    requires Width(b0) == 4 && IsSecond(b0, b1) && IsTail(b2) && IsTail(b3)
    ensures var first: int := b0; EncodeRune(Extend(Extend(Extend(first - 0xF0, b1), b2), b3)) == [b0, b1, b2, b3]
  {
    var first: int := b0;
    var two := Extend(first - 0xF0, b1);
    var code := Extend(Extend(two, b2), b3);
    ExtendDigits(first - 0xF0, b1);
    ExtendDigits(two, b2);
    ExtendDigits(Extend(two, b2), b3);
    assert code / 0x1000 == code / 0x40 / 0x40;
    assert code / 0x40000 == code / 0x1000 / 0x40;
  }

  lemma ExtendDigits(code: int, tail: Byte)
    requires IsTail(tail)
    ensures Extend(code, tail) / 0x40 == code
    ensures 0x80 + Extend(code, tail) % 0x40 == tail
  {
  }

  /** The code points that have an encoding: all up to 0x10FFFF but the surrogates. */
  predicate IsScalar(code: int) {
    0 <= code < 0xD800 || 0xE000 <= code < 0x110000
  }

  /** Decoding undoes encoding for every such code point, and widths are those of section 3 of RFC 3629. */
  lemma DecodeEncoded(code: int)
    requires IsScalar(code)
    ensures var s := EncodeRune(code);
      && HasChar(s, 0) && DecodeRune(s, 0) == Rune(code, |s|)
      && |s| == if code < 0x80 then 1 else if code < 0x800 then 2 else if code < 0x10000 then 3 else 4
  {
    hide Extend;
    if code < 0x80 {
    } else if code < 0x800 {
      Recombine(code);
    } else if code < 0x10000 {
      Recombine(code);
      Recombine(code / 0x40);
      assert code / 0x1000 == code / 0x40 / 0x40;
    } else {
      Recombine(code);
      Recombine(code / 0x40);
      Recombine(code / 0x1000);
      assert code / 0x1000 == code / 0x40 / 0x40;
      assert code / 0x40000 == code / 0x1000 / 0x40;
    }
  }

  lemma Recombine(code: nat)
    ensures Extend(code / 0x40, 0x80 + code % 0x40) == code
  {
  }

  /** A byte that starts no character is read as the replacement character, alone, and written as its three bytes. */
  lemma StrayByte(buf: Bytes, p: nat)
    requires p < |buf| && (0x80 <= buf[p] < 0xC2 || 0xF5 <= buf[p] || Width(buf[p]) > |buf| - p)
    ensures DecodeRune(buf, p).size == 1
    ensures EncodeRune(DecodeRune(buf, p).code) == [0xEF, 0xBF, 0xBD]
  {
  }

  /** Decoding does not look past the character it returns: a shorter buffer that still holds it decodes alike. */
  lemma DecodeLocal(whole: Bytes, m: nat, p: nat)
    requires p < m <= |whole|
    requires p + DecodeRune(whole, p).size <= m
    ensures DecodeRune(whole[..m], p) == DecodeRune(whole, p)
  {
  }

  /** The position after k characters starting at p, an undecodable byte counting as one. */
  function SkipRunes(buf: Bytes, p: nat, k: nat): (q: nat)
    requires p <= |buf|
    ensures p <= q <= |buf|
    ensures q < |buf| ==> p + k <= q
    decreases k
  {
    if k == 0 then p else SkipRunes(buf, p + DecodeRune(buf, p).size, k - 1)
  }

  /** The bytes Parse collects for k characters at p: each is decoded and encoded again. */
  function Transcode(buf: Bytes, p: nat, k: nat): (s: Bytes)
    requires p <= |buf|
    ensures |s| >= k
    ensures |s| == k ==> IsAscii(s)
    decreases k
  {
    if k == 0 then []
    else
      var r := DecodeRune(buf, p);
      EncodeRune(r.code) + Transcode(buf, p + r.size, k - 1)
  }

  predicate IsAscii(s: Bytes) {
    forall i | 0 <= i < |s| :: s[i] < 0x80
  }

  /** Is s a sequence of whole characters? */
  predicate IsUtf8(s: Bytes) {
    s == [] || (HasChar(s, 0) && IsUtf8(s[Width(s[0])..]))
  }

  /** utf8.RuneCount. */
  function RuneCount(s: Bytes): (k: nat)
    ensures k <= |s|
  {
    if s == [] then 0 else 1 + RuneCount(s[DecodeRune(s, 0).size..])
  }

  /** A whole character is decoded alike wherever it stands. */
  lemma DecodeShift(buf: Bytes, p: nat, s: Bytes)
    requires At(buf, p, s) && s != [] && HasChar(s, 0)
    ensures HasChar(buf, p)
    ensures DecodeRune(buf, p) == DecodeRune(s, 0)
  {
    assert forall i | 0 <= i < |s| :: buf[p + i] == s[i];
  }

  /** The first character of well-formed text: its width, its bytes, and what is left. */
  lemma FirstChar(s: Bytes) returns (w: nat)
    requires s != [] && IsUtf8(s)
    ensures 1 <= w <= |s| && HasChar(s, 0) && DecodeRune(s, 0).size == w
    ensures EncodeRune(DecodeRune(s, 0).code) == s[..w]
    ensures RuneCount(s) == 1 + RuneCount(s[w..]) && IsUtf8(s[w..])
  {
    hide HasChar, CodeAt, EncodeRune, Width;
    w := Width(s[0]);
    EncodeDecoded(s);
  }

  /** One step of skipping and transcoding, as equations. */
  lemma Step(buf: Bytes, p: nat, k: nat)
    requires p <= |buf|
    ensures SkipRunes(buf, p, k + 1) == SkipRunes(buf, p + DecodeRune(buf, p).size, k)
    ensures Transcode(buf, p, k + 1)
      == EncodeRune(DecodeRune(buf, p).code) + Transcode(buf, p + DecodeRune(buf, p).size, k)
  {
  }

  /** Skipping and transcoding the characters of well-formed text cover exactly that text, whatever surrounds it. */
  lemma {:induction false} SkipText(buf: Bytes, p: nat, s: Bytes)
    requires At(buf, p, s) && IsUtf8(s)
    ensures SkipRunes(buf, p, RuneCount(s)) == p + |s|
    ensures Transcode(buf, p, RuneCount(s)) == s
    decreases |s|
  {
    hide DecodeRune, EncodeRune, IsUtf8, RuneCount, HasChar, SkipRunes, Transcode, At;
    if s == [] {
      NothingSkipped(buf, p, s);
    } else {
      var w := FirstChar(s);
      var rest := s[w..];
      assert s == s[..w] + rest;
      AtSplit(buf, p, s[..w], rest);
      DecodeShift(buf, p, s);
      SkipText(buf, p + w, rest);
      AtFits(buf, p, s);
      Step(buf, p, RuneCount(rest));
    }
  }

  lemma AtFits(buf: Bytes, p: nat, s: Bytes)
    requires At(buf, p, s)
    ensures p + |s| <= |buf|
  {
  }

  lemma NothingSkipped(buf: Bytes, p: nat, s: Bytes)
    requires At(buf, p, s) && s == []
    ensures SkipRunes(buf, p, RuneCount(s)) == p && Transcode(buf, p, RuneCount(s)) == s
  {
  }

  lemma {:induction false} AsciiIsUtf8(s: Bytes)
    requires IsAscii(s)
    ensures IsUtf8(s) && RuneCount(s) == |s|
    decreases |s|
  {
    if s != [] {
      AsciiIsUtf8(s[1..]);
    }
  }

  /** Text of whole characters has as many characters as bytes only when every character is one byte wide. */
  lemma {:induction false} AsciiByCount(s: Bytes)
    requires IsUtf8(s) && RuneCount(s) == |s|
    ensures IsAscii(s)
    decreases |s|
  {
    if s != [] {
      var w := Width(s[0]);
      assert RuneCount(s) == 1 + RuneCount(s[w..]);
      AsciiByCount(s[1..]);
      assert forall i | 1 <= i < |s| :: s[i] == s[1..][i - 1];
    }
  }

  lemma OnlyTailsFollow(buf: Bytes, more: Bytes, p: nat, q: nat)
    requires p < |buf| < p + DecodeRune(buf + more, p).size
    requires p < q < |buf|
    ensures IsTail(buf[q])
  {
    assert forall i | 0 <= i < |buf| :: (buf + more)[i] == buf[i];
  }

  /**
   A position reached before the end of the buffer, at a one-byte character, is still reached when the
   buffer grows: a character cut off by the end of the buffer leaves only tail bytes behind it.
   */
  lemma {:induction false} SkipStable(buf: Bytes, more: Bytes, p: nat, k: nat)
    requires p <= |buf|
    requires SkipRunes(buf, p, k) < |buf| && buf[SkipRunes(buf, p, k)] < 0x80
    ensures SkipRunes(buf + more, p, k) == SkipRunes(buf, p, k)
    decreases k
  {
    hide DecodeRune, SkipRunes, Transcode;
    SkipBase(buf, p);
    SkipBase(buf + more, p);
    if k > 0 {
      var here, grown := DecodeRune(buf, p), DecodeRune(buf + more, p);
      Step(buf, p, k - 1);
      Step(buf + more, p, k - 1);
      SkipEnds(buf, p, k);
      if p + grown.size <= |buf| {
        DecodeLocal(buf + more, |buf|, p);
        assert (buf + more)[..|buf|] == buf;
        SkipStable(buf, more, p + here.size, k - 1);
      } else {
        OnlyTailsFollow(buf, more, p, SkipRunes(buf, p, k));
      }
    }
  }

  lemma SkipBase(buf: Bytes, p: nat)
    requires p <= |buf|
    ensures SkipRunes(buf, p, 0) == p
  {
  }

  lemma SkipEnds(buf: Bytes, p: nat, k: nat)
    requires p <= |buf| && k > 0 && SkipRunes(buf, p, k) < |buf|
    ensures p < SkipRunes(buf, p, k)
  {
  }
}
