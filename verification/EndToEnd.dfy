/** Printer, incremental reader and parser composed over whole runs. */
module EndToEnd {
  import opened Base
  import opened Utf8
  import opened Wire
  import opened Instructions
  import opened ParseTheorems
  import opened StreamSpec

  /** A stream just after NewStream. */
  function Fresh(script: seq<Event>): (st: State)
    ensures st.Ok()
  {
    State(0, [], 0, script, 0, 0)
  }

  function FramesOf(rs: seq<Outcome>): seq<Bytes> {
    if rs == [] then []
    else (if rs[0].Frame? then [rs[0].bytes] else []) + FramesOf(rs[1..])
  }

  function Encoded(fs: seq<seq<Bytes>>): (es: seq<Bytes>)
    requires forall i | 0 <= i < |fs| :: fs[i] != []
    ensures |es| == |fs| && forall i | 0 <= i < |fs| :: es[i] == Encode(fs[i])
  {
    if fs == [] then [] else [Encode(fs[0])] + Encoded(fs[1..])
  }

  predicate AllLive(rs: seq<Outcome>) {
    forall i | 0 <= i < |rs| :: Live(rs[i])
  }

  /**
   After n calls the frames returned are the first m of those owed, in order, and nothing is lost: unless all
   of them have come out, each of the n calls returned a frame or used up one failure of the connection.
   */
  lemma {:induction false} ReadsOwe(st: State, fs: seq<seq<Bytes>>, n: nat) returns (m: nat)
    requires Owes(st, fs)
    ensures m <= |fs| && Fit(fs)
    ensures var (rs, st') := Reads(st, n);
      && |rs| == n && AllLive(rs)
      && FramesOf(rs) == Encoded(fs[..m])
      && Owes(st', fs[m..])
      && (m == |fs| || n + Failures(st'.script) <= m + Failures(st.script))
    decreases n
  {
    hide Owes, ReadSome, Encode, AllAscii, Frames, Encoded, FramesOf, Reads;
    assert Fit(fs) && st.Ok() by {
      OwesFit(st, fs);
    }
    if n == 0 {
      NoReads(st);
      m := 0;
      assert fs[0..] == fs && fs[..0] == [];
    } else {
      ReadOwes(st, fs);
      OneRead(st, n);
      var (r, st') := ReadSome(st);
      if r.Frame? {
        var k := ReadsOwe(st', fs[1..], n - 1);
        m := k + 1;
        EncodedFront(fs, k);
      } else {
        m := ReadsOwe(st', fs, n - 1);
        assert [] + Encoded(fs[..m]) == Encoded(fs[..m]);
      }
    }
  }

  lemma NoReads(st: State)
    requires st.Ok()
    ensures Reads(st, 0) == ([], st) && FramesOf([]) == [] && Encoded([]) == []
  {
  }

  /** One call more, at the front. */
  lemma OneRead(st: State, n: nat)
    requires st.Ok() && n > 0 && Live(ReadSome(st).0)
    ensures var (r, st') := ReadSome(st);
      var (rs, end) := Reads(st', n - 1);
      && Reads(st, n) == ([r] + rs, end)
      && FramesOf([r] + rs) == (if r.Frame? then [r.bytes] else []) + FramesOf(rs)
  {
    hide ReadSome;
    var rs := Reads(ReadSome(st).1, n - 1).0;
    assert ([ReadSome(st).0] + rs)[1..] == rs;
  }

  lemma EncodedFront(fs: seq<seq<Bytes>>, k: nat)
    requires k < |fs| && Fit(fs)
    ensures Encoded(fs[..k + 1]) == [Encode(fs[0])] + Encoded(fs[1..][..k]) && fs[k + 1..] == fs[1..][k..]
  {
    hide Encode, AllAscii;
    assert fs[..k + 1][1..] == fs[1..][..k];
  }

  lemma OwesFit(st: State, fs: seq<seq<Bytes>>)
    requires Owes(st, fs)
    ensures Fit(fs) && st.Ok()
  {
  }

  // ---------------------------------------------------------------- instructions in, instructions out

  function Parts(inss: seq<Ins>): (fs: seq<seq<Bytes>>)
    ensures |fs| == |inss| && forall i | 0 <= i < |fs| :: fs[i] == inss[i].Elements()
  {
    seq(|inss|, i requires 0 <= i < |inss| => inss[i].Elements())
  }

  /** What a sender writes: the String() of each instruction, one after the other. */
  function Printed(inss: seq<Ins>): Bytes {
    if inss == [] then [] else Print(inss[0].Elements()) + Printed(inss[1..])
  }

  predicate Sendable(inss: seq<Ins>) {
    forall i | 0 <= i < |inss| :: AllAscii(inss[i].Elements()) && |Print(inss[i].Elements())| <= MAX
  }

  lemma {:induction false} PrintedFrames(inss: seq<Ins>)
    requires Sendable(inss)
    ensures Fit(Parts(inss)) && Printed(inss) == Frames(Parts(inss))
    decreases |inss|
  {
    hide Print, Encode, AllAscii;
    if inss != [] {
      PrintIsEncode(inss[0].Elements());
      PrintedFrames(inss[1..]);
      assert Parts(inss)[1..] == Parts(inss[1..]);
      assert forall i | 1 <= i < |inss| :: Parts(inss)[i] == Parts(inss[1..])[i - 1];
    }
  }

  /**
   End to end. However the printed bytes of a list of instructions are cut into reads and interleaved with
   failed reads, n calls of ReadSome return the first m encodings in order and nothing else; Parse turns
   each back into its instruction; and all of them have come out once n is the number of instructions plus
   the number of failures.
   */
  lemma {:induction false} InstructionsSurvive(inss: seq<Ins>, script: seq<Event>, n: nat) returns (m: nat)
    requires Sendable(inss) && Pending(script) == Printed(inss)
    ensures m <= |inss| && (n >= |inss| + Failures(script) ==> m == |inss|)
    ensures AllLive(Reads(Fresh(script), n).0)
    ensures var got := FramesOf(Reads(Fresh(script), n).0);
      |got| == m && forall i | 0 <= i < m ::
        got[i] == Print(inss[i].Elements()) && ParseReply(got[i]) == Parsed(inss[i])
  {
    hide ParseReply, Encode, Print, AllAscii, Reads, Reaches;
    var fs := Parts(inss);
    PrintedFrames(inss);
    StartReaches([]);
    m := ReadsOwe(Fresh(script), fs, n);
    var got := FramesOf(Reads(Fresh(script), n).0);
    forall i | 0 <= i < m
      ensures got[i] == Print(inss[i].Elements()) && ParseReply(got[i]) == Parsed(inss[i])
    {
      var es := inss[i].Elements();
      PrintIsEncode(es);
      ElementsShort(es);
      RoundTripIff(inss[i]);
    }
  }

  lemma {:induction false} ElementsShort(es: seq<Bytes>)
    requires es != []
    ensures forall i | 0 <= i < |es| :: |es[i]| <= |Print(es)|
    decreases |es|
  {
    hide Decimal;
    if |es| > 1 {
      ElementsShort(es[1..]);
      assert forall i | 1 <= i < |es| :: es[i] == es[1..][i - 1];
    }
  }

  // ---------------------------------------------------------------- characters of any width

  /** A frame that is wholly buffered is returned whatever its characters and whatever follows it. */
  lemma BufferedFrameReturned(st: State, es: seq<Bytes>, rest: Bytes)
    requires st.Committed() && es != [] && AllUtf8(es) && st.buf == Encode(es) + rest
    ensures ReadSome(st) == (Frame(Encode(es)), st.Delivered(|Encode(es)|))
    ensures st.Delivered(|Encode(es)|).buf == rest
  {
    hide Encode, AllUtf8, ScanFrom, Reaches;
    PassResumes(st);
    assert At(st.buf, 0, Encode(es));
    FrameRead(st.buf, 0, es);
    assert st.buf[..|Encode(es)|] == Encode(es);
  }

  /** The elements of instructions that guacd delivers one whole frame at a time. */
  predicate Deliverable(inss: seq<Ins>) {
    forall i | 0 <= i < |inss| :: AllUtf8(inss[i].Elements()) && |Encode(inss[i].Elements())| <= MAX
  }

  /** Each instruction as one chunk. */
  function Chunks(inss: seq<Ins>): (script: seq<Event>)
    ensures |script| == |inss|
  {
    if inss == [] then []
    else
      FieldSome(inss[0].Elements());
      [Chunk(Encode(inss[0].Elements()))] + Chunks(inss[1..])
  }

  lemma FieldSome(es: seq<Bytes>)
    requires es != []
    ensures Encode(es) != []
  {
    hide RuneCount, Decimal;
  }

  /** One read of a stream with nothing buffered, from a chunk that is one frame: the window always holds it. */
  lemma ChunkReturned(st: State, es: seq<Bytes>)
    requires st.Ok() && st.buf == [] && st.parseStart == 0 && st.script != []
    requires es != [] && AllUtf8(es) && |Encode(es)| <= MAX && st.script[0] == Chunk(Encode(es))
    ensures var (r, st') := ReadSome(st);
      r == Frame(Encode(es)) && st'.Ok() && st'.buf == [] && st'.parseStart == 0 && st'.script == st.script[1..]
  {
    hide Encode, AllUtf8, ScanFrom, Reaches;
    EmptyScan(st.buf);
    var c := st.Compacted();
    var filled := c.Filled();
    assert Pass(st, 0) == Again(filled);
    assert filled.buf == Encode(es) + [];
    StartReaches(filled.buf);
    BufferedFrameReturned(filled, es, []);
  }

  /**
   Frames with characters of any width that arrive one whole frame per read, each of at most MAX bytes, all come
   out in order, and Parse turns each back into its instruction.
   */
  lemma {:induction false} WholeFramesSurvive(st: State, inss: seq<Ins>)
    requires st.Ok() && st.buf == [] && st.parseStart == 0 && st.script == Chunks(inss) && Deliverable(inss)
    ensures var rs := Reads(st, |inss|).0;
      |rs| == |inss| && forall i | 0 <= i < |inss| ::
        rs[i] == Frame(Encode(inss[i].Elements())) && ParseReply(Encode(inss[i].Elements())) == Parsed(inss[i])
    decreases |inss|
  {
    hide ReadSome, Encode, AllUtf8, ParseReply;
    if inss != [] {
      var es := inss[0].Elements();
      ChunkReturned(st, es);
      EncodedShort(es);
      EncodedParses(inss[0]);
      var st' := ReadSome(st).1;
      WholeFramesSurvive(st', inss[1..]);
      var later := Reads(st', |inss| - 1).0;
      assert Reads(st, |inss|).0 == [Frame(Encode(es))] + later;
      forall i | 0 < i < |inss|
        ensures Reads(st, |inss|).0[i] == Frame(Encode(inss[i].Elements()))
          && ParseReply(Encode(inss[i].Elements())) == Parsed(inss[i])
      {
        assert inss[1..][i - 1] == inss[i];
      }
    }
  }

  lemma {:induction false} EncodedShort(es: seq<Bytes>)
    requires es != []
    ensures forall i | 0 <= i < |es| :: |es[i]| <= |Encode(es)|
    decreases |es|
  {
    hide Decimal, RuneCount;
    if |es| > 1 {
      EncodedShort(es[1..]);
      assert forall i | 1 <= i < |es| :: es[i] == es[1..][i - 1];
    }
  }

  /** The bytes counted as returned are those of the frames returned. */
  lemma {:induction false} ReturnedCounted(st: State, n: nat)
    requires st.Ok()
    ensures var (rs, st') := Reads(st, n);
      st'.returned == st.returned + |Concat(FramesOf(rs))|
    decreases n
  {
    hide ReadSome;
    if n > 0 {
      var (r, st') := ReadSome(st);
      ReadCounted(st);
      if Live(r) {
        OneRead(st, n);
        ReturnedCounted(st', n - 1);
        var later := FramesOf(Reads(st', n - 1).0);
        ConcatAppend(if r.Frame? then [r.bytes] else [], later);
        assert r.Frame? ==> Concat([r.bytes]) == r.bytes + Concat([r.bytes][1..]);
        assert [] + later == later;
      } else {
        assert [r][1..] == [];
      }
    }
  }

  lemma {:induction false} ReadCounted(st: State)
    requires st.Ok()
    ensures var (r, st') := ReadSome(st);
      st'.returned == st.returned + if r.Frame? then |r.bytes| else 0
    decreases ToRead(st)
  {
    hide ScanFrom;
    if Pass(st, st.parseStart).Again? {
      ReadCounted(Pass(st, st.parseStart).st);
    }
  }

  // ---------------------------------------------------------------- whatever frames come

  /** A frame that ReadSome returns is one that the scan from the start of some buffer finds. */
  lemma {:induction false} ReturnedFrame(st: State) returns (buf: Bytes)
    requires st.Committed() && ReadSome(st).0.Frame?
    ensures var f := ReadSome(st).0.bytes;
      ScanFrom(buf, 0) == Whole(|f|) && buf[..|f|] == f
    decreases ToRead(st)
  {
    hide ScanFrom, Reaches;
    PassResumes(st);
    if Pass(st, 0).Again? {
      buf := ReturnedFrame(Pass(st, 0).st);
    } else {
      buf := st.buf;
    }
  }

  /** Over any run, whatever the bytes and failures: the two parsers agree on every frame returned. */
  lemma {:induction false} ReturnedFramesAgree(st: State, n: nat)
    requires st.Committed()
    ensures forall f | Frame(f) in Reads(st, n).0 :: ParsedAsScanned(f)
    decreases n
  {
    hide ReadSome, ParsedAsScanned, Reaches;
    if n > 0 {
      var (r, st') := ReadSome(st);
      ResumeIsRestart(st);
      if r.Frame? {
        var buf := ReturnedFrame(st);
        FramesParse(buf, |r.bytes|);
      }
      if Live(r) {
        ReturnedFramesAgree(st', n - 1);
        assert Reads(st, n).0 == [r] + Reads(st', n - 1).0;
      } else {
        assert Reads(st, n).0 == [r];
      }
    }
  }

  /** The first read of a fresh stream takes a whole chunk that fits the array. */
  lemma FirstChunk(script: seq<Event>)
    requires script != [] && script[0].Chunk? && |script[0].data| <= CAPACITY
    ensures ReadSome(Fresh(script)) == ReadSome(State(0, script[0].data, 0, script[1..], 0, 0))
  {
    hide ScanFrom;
    EmptyScan([]);
    assert Fresh(script).Filled().buf == script[0].data;
  }

  /** A frame that ReadSome returns and Parse refuses: its length field is empty. */
  lemma EmptyLength()
    ensures var f := [DOT, SEMICOLON];
      ReadSome(Fresh([Chunk(f)])).0 == Frame(f) && ParseReply(f) == Refused
  {
    var f: Bytes := [DOT, SEMICOLON];
    assert f[0..0] == [];
    assert ScanElement(f, 0) == Element(2, true);
    FirstChunk([Chunk(f)]);
    assert !LengthsOk(f, 0);
    assert f[..2] == f;
    ParsersAgreeIff(f, 2);
  }
}
