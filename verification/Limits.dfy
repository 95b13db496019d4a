/** Where ReadSome stops keeping its promises: frames too long for the window, and wide characters cut apart. */
module Limits {
  import opened Base
  import opened Utf8
  import opened Wire
  import opened StreamSpec
  import opened NextFrames
  import opened EndToEnd

  // ---------------------------------------------------------------- the size that is safe at every offset

  /** One element of n letters A. */
  function Letters(n: nat): (es: seq<Bytes>)
    ensures es != [] && AllAscii(es)
  {
    [seq(n, _ => 65)]
  }

  lemma LettersSize(n: nat)
    ensures |Encode(Letters(n))| == |Decimal(n)| + n + 2
  {
    hide Decimal;
    AsciiIsUtf8(Letters(n)[0]);
  }

  lemma FourDigits(n: nat)
    requires 1000 <= n < 10000
    ensures |Decimal(n)| == 4
  {
    assert |Decimal(n / 1000)| == 1;
    assert |Decimal(n / 100)| == 2 by {
      assert n / 100 / 10 == n / 1000;
    }
    assert |Decimal(n / 10)| == 3 by {
      assert n / 10 / 10 == n / 100;
    }
  }

  /** A frame of exactly MAX bytes. */
  const FILLER := Letters(MAX - 6)

  lemma FillerSize()
    ensures |Encode(FILLER)| == MAX
  {
    hide Decimal, Encode;
    LettersSize(MAX - 6);
    FourDigits(MAX - 6);
  }

  /** Two frames of MAX bytes move the buffer to an offset from which the window is MAX bytes long. */
  lemma TwoFillers(es: seq<Bytes>)
    requires es != [] && AllAscii(es) && |Encode(es)| > MAX
    ensures var st := Fresh([Chunk(Encode(FILLER) + Encode(FILLER) + Encode(es))]);
      var (r1, st1) := ReadSome(st);
      var (r2, st2) := ReadSome(st1);
      && r1 == r2 == Frame(Encode(FILLER))
      && st2.Committed() && st2.off == 2 * MAX && st2.buf == Encode(es)[..MAX]
      && st2.script == [Chunk(Encode(es)[MAX..])]
  {
    hide Encode, AllAscii, AllUtf8, Letters, Reaches, ScanFrom;
    FillerSize();
    PrintIsEncode(FILLER);
    var f, e := Encode(FILLER), Encode(es);
    var data := f + f + e;
    var st := Fresh([Chunk(data)]);
    EmptyScan([]);
    var filled := st.Filled();
    assert Pass(st, 0) == Again(filled);
    assert filled.buf == f + (f + e[..MAX]);
    assert data[CAPACITY..] == e[MAX..] && st.script[1..] == [];
    StartReaches(filled.buf);
    BufferedFrameReturned(filled, FILLER, f + e[..MAX]);
    var st1 := filled.Delivered(MAX);
    StartReaches(st1.buf);
    BufferedFrameReturned(st1, FILLER, e[..MAX]);
    StartReaches(st1.Delivered(MAX).buf);
  }

  /**
   Every frame longer than MAX makes ReadSome spin forever when one chunk delivers it behind two frames of MAX
   bytes, even if the array could hold it.
   */
  lemma MaxIsSharp(es: seq<Bytes>)
    requires es != [] && AllAscii(es) && |Encode(es)| > MAX
    ensures Fit([FILLER, FILLER]) && Frames([FILLER, FILLER]) == Encode(FILLER) + Encode(FILLER)
    ensures Reads(Fresh([Chunk(Frames([FILLER, FILLER]) + Encode(es))]), 3).0
         == [Frame(Encode(FILLER)), Frame(Encode(FILLER)), Stuck]
  {
    hide Encode, AllAscii, Letters, ReadSome, Reaches, Prompt;
    FillerSize();
    var fs := [FILLER, FILLER];
    assert fs[1..] == [FILLER] && [FILLER][1..] == [] && Frames([FILLER]) == Encode(FILLER);
    TwoFillers(es);
    var st := Fresh([Chunk(Frames(fs) + Encode(es))]);
    var st1 := ReadSome(st).1;
    var st2 := ReadSome(st1).1;
    assert Encode(es) == Encode(es)[..MAX] + Encode(es)[MAX..];
    OneChunk(Encode(es)[MAX..]);
    NextFrame(st2, es, [], 0);
    ThreeReads(st);
  }

  lemma OneChunk(data: Bytes)
    requires data != []
    ensures Pending([Chunk(data)]) == data && Failures([Chunk(data)]) == 0 && Prompt([Chunk(data)], |data|)
  {
    assert [Chunk(data)][1..] == [];
  }

  lemma ThreeReads(st: State)
    requires st.Ok()
    ensures var (r1, st1) := ReadSome(st);
      var (r2, st2) := ReadSome(st1);
      Live(r1) && Live(r2) ==> Reads(st, 3).0 == [r1, r2, ReadSome(st2).0]
  {
    hide ReadSome;
    var st1 := ReadSome(st).1;
    var st2 := ReadSome(st1).1;
    assert Reads(st2, 1).0 == [ReadSome(st2).0];
    assert Reads(st1, 2).0 == if Live(ReadSome(st1).0) then [ReadSome(st1).0] + Reads(st2, 1).0 else [ReadSome(st1).0];
  }

  /** The input with the shortest such frame: 8187 letters, a frame of 8193 bytes. */
  lemma ShortestSpin()
    ensures |Encode(Letters(MAX - 5))| == 8193 && |Encode(FILLER)| == 8192
    ensures Reads(Fresh([Chunk(Encode(FILLER) + Encode(FILLER) + Encode(Letters(MAX - 5)))]), 3).0
         == [Frame(Encode(FILLER)), Frame(Encode(FILLER)), Stuck]
  {
    hide Decimal, Encode, Letters, AllAscii, Reads;
    LettersSize(MAX - 5);
    FourDigits(MAX - 5);
    FillerSize();
    MaxIsSharp(Letters(MAX - 5));
  }

  /** Is r the outcome of the call of ReadSome that follows n others? */
  predicate Nth(script: seq<Event>, n: nat, r: Outcome) {
    var rs := Reads(Fresh(script), n + 1).0;
    |rs| == n + 1 && rs[n] == r
  }

  /** A script that delivers the frames fs and then the frame of es, without failures. */
  predicate Delivers(script: seq<Event>, fs: seq<seq<Bytes>>, es: seq<Bytes>) {
    Fit(fs) && es != [] && Failures(script) == 0 && Pending(script) == Frames(fs) + Encode(es)
  }

  lemma {:induction false} FramesSnoc(fs: seq<seq<Bytes>>, es: seq<Bytes>)
    requires Fit(fs) && es != []
    ensures (forall i | 0 <= i < |fs + [es]| :: (fs + [es])[i] != []) && Frames(fs + [es]) == Frames(fs) + Encode(es)
    decreases |fs|
  {
    hide Encode, AllAscii;
    if fs == [] {
      assert fs + [es] == [es] && [es][1..] == [];
    } else {
      FramesSnoc(fs[1..], es);
      assert (fs + [es])[1..] == fs[1..] + [es];
    }
  }

  /** As many frames as outcomes: every outcome is a frame. */
  lemma {:induction false} OnlyFrames(rs: seq<Outcome>)
    ensures |FramesOf(rs)| <= |rs|
    ensures |FramesOf(rs)| == |rs| ==> forall i | 0 <= i < |rs| :: rs[i] == Frame(FramesOf(rs)[i])
    decreases |rs|
  {
    if rs != [] {
      OnlyFrames(rs[1..]);
    }
  }

  lemma ShortFrameComes(script: seq<Event>, fs: seq<seq<Bytes>>, es: seq<Bytes>)
    requires Delivers(script, fs, es) && AllAscii(es) && |Encode(es)| <= MAX
    ensures Nth(script, |fs|, Frame(Encode(es)))
  {
    hide Encode, AllAscii, Reads, Frames, Reaches;
    FramesSnoc(fs, es);
    StartReaches([]);
    var all := fs + [es];
    var n := |all|;
    var m := ReadsOwe(Fresh(script), all, n);
    var rs := Reads(Fresh(script), n).0;
    OnlyFrames(rs);
    assert all[..m] == all && |FramesOf(rs)| == n;
  }

  /**
   The exact bound: a frame of one-byte characters is returned behind any frames that fit, however the bytes are
   cut, precisely when it has at most 8192 bytes.
   */
  lemma SafeSizeIff(es: seq<Bytes>)
    requires es != [] && AllAscii(es)
    ensures
      (forall script, fs | Delivers(script, fs, es) :: Nth(script, |fs|, Frame(Encode(es)))) <==> |Encode(es)| <= 8192
  {
    hide Encode, AllAscii, Reads, Frames, Fit, Letters;
    if |Encode(es)| <= MAX {
      forall script, fs | Delivers(script, fs, es) ensures Nth(script, |fs|, Frame(Encode(es))) {
        ShortFrameComes(script, fs, es);
      }
    } else {
      MaxIsSharp(es);
      var fs := [FILLER, FILLER];
      var script := [Chunk(Frames(fs) + Encode(es))];
      OneChunk(Frames(fs) + Encode(es));
      assert Delivers(script, fs, es) && !Nth(script, |fs|, Frame(Encode(es)));
    }
  }

  // ---------------------------------------------------------------- characters cut apart

  /** A script that delivers the frame of es and nothing else, without failures. */
  predicate Carries(script: seq<Event>, es: seq<Bytes>) {
    es != [] && Failures(script) == 0 && Pending(script) == Encode(es)
  }

  /** A frame with a wide character can be delivered in two pieces on which ReadSome fails. */
  lemma CutScript(es: seq<Bytes>) returns (script: seq<Event>)
    requires es != [] && AllUtf8(es) && !AllAscii(es) && |Encode(es)| <= MAX
    ensures Carries(script, es)
    ensures ReadSome(Fresh(script)).0.Panicked? || ReadSome(Fresh(script)).0.Malformed?
  {
    hide Encode, AllUtf8, AllAscii, ScanFrom;
    var f := Encode(es);
    var n := WideFrameCut(f, 0, es);
    var head, tail := f[..n], f[n..];
    script := [Chunk(head), Chunk(tail)];
    assert script[1..] == [Chunk(tail)];
    OneChunk(tail);
    assert f == head + tail;
    FirstChunk(script);
  }

  /**
   The exact condition for reading in pieces: a frame of at most MAX bytes is returned however its bytes are cut
   into reads precisely when all its characters are one byte wide.
   */
  lemma ReadInPiecesIff(es: seq<Bytes>)
    requires es != [] && AllUtf8(es) && |Encode(es)| <= MAX
    ensures (forall script | Carries(script, es) :: ReadSome(Fresh(script)).0 == Frame(Encode(es))) <==> AllAscii(es)
  {
    hide Encode, AllUtf8, AllAscii, ReadSome, Reaches, Prompt;
    if AllAscii(es) {
      StartReaches([]);
      forall script | Carries(script, es) ensures ReadSome(Fresh(script)).0 == Frame(Encode(es)) {
        PromptWithoutFailures(script, |Encode(es)|);
        assert Encode(es) + [] == Encode(es);
        NextFrame(Fresh(script), es, [], 0);
      }
    } else {
      var script := CutScript(es);
      assert Carries(script, es);
    }
  }

  // ---------------------------------------------------------------- what is not a frame

  /** The smallest frame cut before its terminator: ReadSome indexes out of range. */
  lemma CutReadPanics()
    ensures ReadSome(Fresh([Chunk([49, 46, 0xC3, 0xA9]), Chunk([59])])).0 == Panicked
  {
    hide ScanFrom;
    CutCharacterPanics();
    var f := Encode([[0xC3, 0xA9]]);
    assert f[..4] == [49, 46, 0xC3, 0xA9];
    FirstChunk([Chunk([49, 46, 0xC3, 0xA9]), Chunk([59])]);
  }

  /** An element that is followed by neither comma nor semicolon is a parse error. */
  lemma WrongTerminatorReported(st: State, e: Bytes, t: Byte)
    requires st.Committed() && IsUtf8(e) && t != COMMA && t != SEMICOLON
    requires At(st.buf, 0, Field(RuneCount(e), e) + [t])
    ensures ReadSome(st).0 == Malformed
  {
    hide Reaches, ScanElement, Field, RuneCount, IsUtf8, At;
    WrongTerminatorSeen(st.buf, e, t);
    PassResumes(st);
  }

  lemma WrongTerminatorSeen(buf: Bytes, e: Bytes, t: Byte)
    requires IsUtf8(e) && t != COMMA && t != SEMICOLON && At(buf, 0, Field(RuneCount(e), e) + [t])
    ensures ScanElement(buf, 0).BadTerminator?
  {
    hide IsUtf8, RuneCount, SkipRunes, Value, SkipDigits, Decimal, AllDigits;
    var k := RuneCount(e);
    AtSplit(buf, 0, Field(k, e), [t]);
    LengthRead(buf, 0, k, e);
    SkipText(buf, |Decimal(k)| + 1, e);
    OneMore(buf, |Field(k, e)|, t);
  }

  lemma OneMore(buf: Bytes, p: nat, t: Byte)
    requires At(buf, p, [t])
    ensures p < |buf| && buf[p] == t
  {
    assert buf[p] == buf[p..p + 1][0];
  }

  /** A length field that ends in neither a digit nor a dot is a parse error. */
  lemma WrongLengthReported(st: State, digits: Bytes, b: Byte)
    requires st.Committed() && AllDigits(digits) && !IsDigit(b) && b != DOT && At(st.buf, 0, digits + [b])
    ensures ReadSome(st).0 == Malformed
  {
    hide SkipRunes, Reaches, Value;
    AtSplit(st.buf, 0, digits, [b]);
    OneMore(st.buf, |digits|, b);
    DigitsEnd(st.buf, 0, digits);
    assert ScanElement(st.buf, 0).BadLength?;
    PassResumes(st);
  }
}
