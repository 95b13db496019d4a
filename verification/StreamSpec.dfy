/**
 Stream.ReadSome as a function: the sliding window over the connection's bytes, with the connection
 given as a script of what its reads will yield.
 */
module StreamSpec {
  import opened Base
  import opened Wire

  const MAX := 8192
  const CAPACITY := 3 * MAX

  /** Why a read that returned no bytes failed. */
  datatype NetError = Timeout | Closed | Other

  datatype RawEvent = Chunk(data: Bytes) | Fail(error: NetError)

  /** One thing the connection does next: hand over some bytes, or fail without any. */
  type Event = e: RawEvent | e.Chunk? ==> e.data != [] witness Fail(Other)

  datatype ErrorKind = UpstreamTimeout | ConnectionClosed | ServerError

  function KindOf(e: NetError): ErrorKind {
    match e
    case Timeout => UpstreamTimeout
    case Closed => ConnectionClosed
    case Other => ServerError
  }

  /**
   What a call of ReadSome does. Malformed is its parse error; Panicked is Go's index out of range; Stuck
   stands for a call that never returns because it keeps reading into an empty window.
   */
  datatype Outcome =
    | Frame(bytes: Bytes)
    | Failed(kind: ErrorKind)
    | Malformed
    | Panicked
    | Stuck

  /** The bytes the connection will still deliver. */
  function Pending(script: seq<Event>): Bytes {
    if script == [] then []
    else (if script[0].Chunk? then script[0].data else []) + Pending(script[1..])
  }

  function Failures(script: seq<Event>): nat {
    if script == [] then 0 else (if script[0].Fail? then 1 else 0) + Failures(script[1..])
  }

  /** What is left of a script whose first chunk gave n of its bytes. */
  function After(script: seq<Event>, n: nat): seq<Event>
    requires script != [] && script[0].Chunk? && 0 < n <= |script[0].data|
  {
    if n == |script[0].data| then script[1..] else [Chunk(script[0].data[n..])] + script[1..]
  }

  /**
   The stream: its buffer buf starts at offset off of the fixed array and may grow to the end of the array.
   moved counts the bytes copied by compaction, returned the bytes handed out.
   */
  datatype State = State(off: nat, buf: Bytes, parseStart: nat, script: seq<Event>, moved: nat, returned: nat) {
    predicate Ok() {
      off + |buf| <= CAPACITY && parseStart <= |buf|
    }

    /** The length of the slice the next read may fill. */
    function Room(): nat
      requires Ok()
    {
      CAPACITY - off - |buf|
    }

    function Flushed(): State {
      this.(off := 0, moved := moved + |buf|)
    }

    /** The capacity check before each read. */
    function Compacted(): State
      requires Ok()
    {
      if CAPACITY - off < MAX then Flushed() else this
    }

    function Delivered(end: nat): State
      requires end <= |buf|
    {
      this.(off := off + end, buf := buf[end..], parseStart := 0, returned := returned + end)
    }

    /** How many bytes of the next chunk the window holds. */
    function Quota(): (n: nat)
      requires Ok() && Room() > 0 && script != [] && script[0].Chunk?
      ensures 0 < n <= Room() && n <= |script[0].data|
    {
      if |script[0].data| <= Room() then |script[0].data| else Room()
    }

    /** A successful read. */
    function Filled(): State
      requires Ok() && Room() > 0 && script != [] && script[0].Chunk?
    {
      this.(buf := buf + script[0].data[..Quota()], script := After(script, Quota()))
    }

    /** The bytes before parseStart are complete, comma-terminated elements of the current frame. */
    predicate Committed() {
      Ok() && Reaches(buf, 0, parseStart)
    }
  }

  lemma AfterPending(script: seq<Event>, n: nat)
    requires script != [] && script[0].Chunk? && 0 < n <= |script[0].data|
    ensures script[0].data[..n] + Pending(After(script, n)) == Pending(script)
    ensures Failures(After(script, n)) == Failures(script)
    ensures |Pending(After(script, n))| + |After(script, n)| < |Pending(script)| + |script|
  {
    var d, rest := script[0].data, script[1..];
    var later := Pending(rest);
    assert Pending(script) == d + later;
    if n < |d| {
      PendingCons(Chunk(d[n..]), rest);
      assert d[..n] + (d[n..] + later) == d + later;
    }
  }

  lemma PendingCons(e: Event, rest: seq<Event>)
    ensures Pending([e] + rest) == (if e.Chunk? then e.data else []) + Pending(rest)
    ensures Failures([e] + rest) == (if e.Fail? then 1 else 0) + Failures(rest)
  {
    assert ([e] + rest)[1..] == rest;
  }

  /** One round of the loop of ReadSome: the call returns, or it parses again with more bytes. */
  datatype Round = Returns(r: Outcome, st: State) | Again(st: State)

  function ToRead(st: State): nat {
    |Pending(st.script)| + |st.script|
  }

  /** The second half of a round: compact if need be, then read. */
  function Receive(st: State): (round: Round)
    requires st.Ok()
    ensures round.st.Ok()
    ensures round.Again? ==> ToRead(round.st) < ToRead(st)
  {
    var c := st.Compacted();
    if c.Room() == 0 then Returns(Stuck, c)
    else if c.script == [] then Returns(Failed(ServerError), c)
    else if c.script[0].Fail? then Returns(Failed(KindOf(c.script[0].error)), c.(script := c.script[1..]))
    else
      AfterPending(c.script, c.Quota());
      Again(c.Filled())
  }

  /** A round whose parse starts at p. */
  function Pass(st: State, p: nat): (round: Round)
    requires st.Ok() && p <= |st.buf|
    ensures round.st.Ok()
    ensures round.Again? ==> ToRead(round.st) < ToRead(st)
  {
    match ScanFrom(st.buf, p)
    case Whole(end) => Returns(Frame(st.buf[..end]), st.Delivered(end))
    case WrongTerminator(start) => Returns(Malformed, st.(parseStart := start))
    case WrongLength(start) => Returns(Malformed, st.(parseStart := start))
    case Crash(start) => Returns(Panicked, st.(parseStart := start))
    case More(start) => Receive(st.(parseStart := start))
  }

  /** One call of ReadSome: every round resumes the parse at parseStart. */
  function ReadSome(st: State): (r: (Outcome, State))
    requires st.Ok()
    ensures r.1.Ok()
    decreases ToRead(st)
  {
    match Pass(st, st.parseStart)
    case Returns(r, st') => (r, st')
    case Again(st') => ReadSome(st')
  }

  /** One round of ReadSome, as an equation. */
  lemma ReadRound(st: State)
    requires st.Ok()
    ensures var round := Pass(st, st.parseStart);
      ReadSome(st) == if round.Returns? then (round.r, round.st) else ReadSome(round.st)
  {
    hide Pass;
  }

  /** The reference reader: every round parses the whole buffer afresh. */
  function RestartSome(st: State): (r: (Outcome, State))
    requires st.Ok()
    ensures r.1.Ok()
    decreases ToRead(st)
  {
    match Pass(st, 0)
    case Returns(r, st') => (r, st')
    case Again(st') => RestartSome(st')
  }

  /** May the caller call again? After a parse error or a panic it may not. */
  predicate Live(r: Outcome) {
    r.Frame? || r.Failed?
  }

  /** Up to n successive calls, the last one being the first that is not live. */
  function Reads(st: State, n: nat): (r: (seq<Outcome>, State))
    requires st.Ok()
    ensures r.1.Ok()
    decreases n
  {
    if n == 0 then ([], st)
    else
      var (r, st') := ReadSome(st);
      if !Live(r) then ([r], st')
      else
        var (rs, st'') := Reads(st', n - 1);
        ([r] + rs, st'')
  }

  function RestartReads(st: State, n: nat): (r: (seq<Outcome>, State))
    requires st.Ok()
    decreases n
  {
    if n == 0 then ([], st)
    else
      var (r, st') := RestartSome(st);
      if !Live(r) then ([r], st')
      else
        var (rs, st'') := RestartReads(st', n - 1);
        ([r] + rs, st'')
  }

  // ---------------------------------------------------------------- resuming refines restarting

  /** One round: resuming at a boundary is parsing afresh, and leaves a boundary again. */
  lemma PassResumes(st: State)
    requires st.Committed()
    ensures Pass(st, st.parseStart) == Pass(st, 0)
    ensures var round := Pass(st, 0); (round.Again? || Live(round.r)) ==> round.st.Committed()
  {
    hide ScanFrom, Reaches;
    ScanResumed(st.buf, 0, st.parseStart);
    var s := ScanFrom(st.buf, 0);
    if s.Whole? {
      StartReaches(st.buf[s.end..]);
    } else if s.More? {
      MoreReaches(st.buf, 0);
      var c := st.(parseStart := s.start).Compacted();
      if c.Room() > 0 && c.script != [] && c.script[0].Chunk? {
        ReachesStable(c.buf, c.script[0].data[..c.Quota()], 0, s.start);
      }
    }
  }

  /** One call. */
  lemma {:induction false} ResumeIsRestart(st: State)
    requires st.Committed()
    ensures ReadSome(st) == RestartSome(st)
    ensures Live(ReadSome(st).0) ==> ReadSome(st).1.Committed()
    decreases ToRead(st)
  {
    hide Pass;
    PassResumes(st);
    if Pass(st, 0).Again? {
      ResumeIsRestart(Pass(st, 0).st);
    }
  }

  lemma StartReaches(buf: Bytes)
    ensures Reaches(buf, 0, 0)
  {
  }

  /** Any number of calls, partial reads and failed calls included, whatever the bytes. */
  lemma {:induction false} ResumeRefinesRestart(st: State, n: nat)
    requires st.Committed()
    ensures Reads(st, n) == RestartReads(st, n)
    decreases n
  {
    hide ReadSome, RestartSome;
    if n > 0 {
      ResumeIsRestart(st);
      if Live(ReadSome(st).0) {
        ResumeRefinesRestart(ReadSome(st).1, n - 1);
      }
    }
  }

  // ---------------------------------------------------------------- conservation of bytes

  /** The bytes buffered or still to be read. */
  function Ahead(st: State): Bytes {
    st.buf + Pending(st.script)
  }

  lemma PassConserves(st: State, p: nat)
    requires st.Ok() && p <= |st.buf|
    ensures var round := Pass(st, p);
      && |round.st.script| <= |st.script|
      && Ahead(st) == (if round.Returns? && round.r.Frame? then round.r.bytes else []) + Ahead(round.st)
      && (round.Returns? && round.r.Frame? ==> round.r.bytes != [])
  {
    hide ScanFrom;
    var s := ScanFrom(st.buf, p);
    if s.Whole? {
      assert st.buf == st.buf[..s.end] + st.buf[s.end..];
    } else if s.More? {
      var c := st.(parseStart := s.start).Compacted();
      if c.Room() > 0 && c.script != [] && c.script[0].Chunk? {
        FilledKeeps(c);
      }
    }
  }

  /** Whatever the bytes, no call loses or duplicates any: a frame comes off the front, and nothing else leaves. */
  lemma {:induction false} ReadConserves(st: State)
    requires st.Ok()
    ensures var (r, st') := ReadSome(st);
      && |st'.script| <= |st.script|
      && Ahead(st) == (if r.Frame? then r.bytes else []) + Ahead(st')
      && (r.Frame? ==> r.bytes != [])
    decreases ToRead(st)
  {
    hide Pass, Ahead;
    PassConserves(st, st.parseStart);
    if Pass(st, st.parseStart).Again? {
      ReadConserves(Pass(st, st.parseStart).st);
    }
  }

  /**
   With no whole frame buffered and room to read, a failing connection is reported by its kind, and only the
   failure is used up: the bytes buffered are kept for the next call.
   */
  lemma FailureReported(st: State)
    requires st.Committed() && ScanFrom(st.buf, 0).More? && st.off + |st.buf| < CAPACITY
    requires st.script != [] && st.script[0].Fail?
    ensures var (r, st') := ReadSome(st);
      && st'.buf == st.buf && st'.script == st.script[1..] && st'.Committed()
      && match st.script[0].error
         case Timeout => r == Failed(UpstreamTimeout)
         case Closed => r == Failed(ConnectionClosed)
         case Other => r == Failed(ServerError)
  {
    hide ScanFrom, Reaches;
    PassResumes(st);
    ResumeIsRestart(st);
  }

  /** At the end of the connection, without a whole frame buffered, it reports a server error, and keeps its bytes. */
  lemma EndReported(st: State)
    requires st.Committed() && ScanFrom(st.buf, 0).More? && st.off + |st.buf| < CAPACITY && st.script == []
    ensures var (r, st') := ReadSome(st);
      r == Failed(ServerError) && st'.buf == st.buf && st'.script == [] && st'.Committed()
  {
    hide ScanFrom, Reaches;
    PassResumes(st);
    ResumeIsRestart(st);
  }

  // ---------------------------------------------------------------- cost of compaction

  /** Since the state base, every compaction is paid for by the bytes returned since the one before it. */
  predicate Paid(base: State, st: State) {
    2 * (st.moved - base.moved) + st.off <= st.returned - base.returned
  }

  lemma {:induction false} ReadKeepsPaid(base: State, st: State)
    requires st.Ok() && Paid(base, st)
    ensures Paid(base, ReadSome(st).1)
    decreases ToRead(st)
  {
    hide ScanFrom, ToRead;
    var round := Pass(st, st.parseStart);
    assert Paid(base, round.st);
    if round.Again? {
      ReadKeepsPaid(base, round.st);
    }
  }

  lemma {:induction false} ReadsKeepPaid(base: State, st: State, n: nat)
    requires st.Ok() && Paid(base, st)
    ensures Paid(base, Reads(st, n).1)
    decreases n
  {
    hide ReadSome, Paid;
    if n > 0 {
      ReadKeepsPaid(base, st);
      if Live(ReadSome(st).0) {
        ReadsKeepPaid(base, ReadSome(st).1, n - 1);
      }
    }
  }

  /**
   Over any run from a flushed stream, whatever the bytes and failures, twice the bytes moved by compaction
   is at most the bytes returned.
   */
  lemma CompactionCost(st: State, n: nat)
    requires st.Ok() && st.off == 0
    ensures var end := Reads(st, n).1; 2 * (end.moved - st.moved) <= end.returned - st.returned
  {
    ReadsKeepPaid(st, st, n);
  }

  // ---------------------------------------------------------------- end to end

  /** The concatenated frames of instructions given by their elements. */
  function Frames(fs: seq<seq<Bytes>>): Bytes
    requires forall i | 0 <= i < |fs| :: fs[i] != []
  {
    if fs == [] then [] else Encode(fs[0]) + Frames(fs[1..])
  }

  /** Every instruction has an element, only one-byte characters, and a frame of at most MAX bytes. */
  predicate Fit(fs: seq<seq<Bytes>>) {
    forall i | 0 <= i < |fs| :: fs[i] != [] && AllAscii(fs[i]) && |Encode(fs[i])| <= MAX
  }

  /** The stream still has to return exactly the frames fs. */
  predicate Owes(st: State, fs: seq<seq<Bytes>>) {
    st.Committed() && Fit(fs) && st.buf + Pending(st.script) == Frames(fs)
  }

  /** The buffer, as a prefix of what is owed, holds the first frame or ends inside it. */
  lemma BufferScan(st: State, fs: seq<seq<Bytes>>)
    requires Owes(st, fs)
    ensures fs == [] ==> st.buf == [] && ScanFrom(st.buf, 0) == More(0)
    ensures fs != [] && |Encode(fs[0])| <= |st.buf| ==>
      ScanFrom(st.buf, 0) == Whole(|Encode(fs[0])|) && st.buf[..|Encode(fs[0])|] == Encode(fs[0])
    ensures fs != [] && |st.buf| < |Encode(fs[0])| ==> ScanFrom(st.buf, 0).More? && st.script != []
  {
    hide Encode, ScanElement, AllAscii, At, Cut, AllUtf8;
    if fs == [] {
      EmptyScan(st.buf);
    } else {
      var f, rest := Encode(fs[0]), Frames(fs[1..]);
      var whole := f + rest;
      assert st.buf == whole[..|st.buf|];
      if |f| <= |st.buf| {
        assert st.buf[..|f|] == f;
        FrameAtStart(st.buf, fs[0]);
      } else {
        assert st.buf == f[..|st.buf|];
        FrameCutShort(st.buf, fs[0]);
      }
    }
  }

  lemma EmptyScan(buf: Bytes)
    requires buf == []
    ensures ScanFrom(buf, 0) == More(0)
  {
  }

  lemma FrameAtStart(buf: Bytes, es: seq<Bytes>)
    requires es != [] && AllAscii(es) && |Encode(es)| <= |buf| && buf[..|Encode(es)|] == Encode(es)
    ensures ScanFrom(buf, 0) == Whole(|Encode(es)|)
  {
    PrintIsEncode(es);
    FrameRead(buf, 0, es);
  }

  lemma FrameCutShort(buf: Bytes, es: seq<Bytes>)
    requires es != [] && AllAscii(es) && |buf| < |Encode(es)| && buf == Encode(es)[..|buf|]
    ensures ScanFrom(buf, 0).More?
  {
    assert buf[0..] == buf;
    FrameCut(buf, 0, es);
  }

  /** What a failed read may do to a stream that owes fs: use up one failure, or find nothing left to deliver. */
  predicate Stalled(st: State, fs: seq<seq<Bytes>>, st': State) {
    && Owes(st', fs)
    && Failures(st'.script) <= Failures(st.script)
    && (fs == [] || Failures(st'.script) < Failures(st.script))
  }

  predicate Advanced(st: State, fs: seq<seq<Bytes>>, r: Outcome, st': State)
    requires Fit(fs)
  {
    && fs != [] && r == Frame(Encode(fs[0]))
    && Owes(st', fs[1..])
    && Failures(st'.script) == Failures(st.script)
  }

  /** One round: the next frame, a failed read that changes nothing owed, or more bytes. Never an empty window. */
  lemma PassOwes(st: State, fs: seq<seq<Bytes>>)
    requires Owes(st, fs)
    ensures var round := Pass(st, 0);
      if round.Again? then Owes(round.st, fs) && Failures(round.st.script) == Failures(st.script)
      else Fit(fs) && (Advanced(st, fs, round.r, round.st) || (round.r.Failed? && Stalled(st, fs, round.st)))
  {
    hide Encode, ScanFrom, Reaches, AllAscii;
    PassResumes(st);
    BufferScan(st, fs);
    var s := ScanFrom(st.buf, 0);
    if s.Whole? {
      var rest := Pending(st.script);
      assert (st.buf + rest)[s.end..] == st.buf[s.end..] + rest;
      assert (Encode(fs[0]) + Frames(fs[1..]))[s.end..] == Frames(fs[1..]);
    } else {
      UnfinishedRound(st, fs, s.start);
    }
  }

  lemma UnfinishedRound(st: State, fs: seq<seq<Bytes>>, start: nat)
    requires Owes(st, fs) && ScanFrom(st.buf, 0) == More(start)
    requires |st.buf| < MAX && (fs != [] ==> st.script != [])
    requires Pass(st, 0).Again? || Live(Pass(st, 0).r) ==> Pass(st, 0).st.Committed()
    ensures var round := Pass(st, 0);
      if round.Again? then Owes(round.st, fs) && Failures(round.st.script) == Failures(st.script)
      else round.r.Failed? && Stalled(st, fs, round.st)
  {
    hide ScanFrom, Reaches, Fit, Frames, After;
    var c := st.(parseStart := start).Compacted();
    assert c.Room() > 0;
    if c.script != [] && c.script[0].Chunk? {
      FilledKeeps(c);
    }
  }

  /** A read moves bytes from the connection to the buffer and loses none. */
  lemma FilledKeeps(c: State)
    requires c.Ok() && c.Room() > 0 && c.script != [] && c.script[0].Chunk?
    ensures c.Filled().buf + Pending(c.Filled().script) == c.buf + Pending(c.script)
    ensures Failures(c.Filled().script) == Failures(c.script)
  {
    AfterPending(c.script, c.Quota());
    var d, rest := c.script[0].data[..c.Quota()], Pending(c.Filled().script);
    assert c.buf + (d + rest) == (c.buf + d) + rest;
  }

  /** One call. */
  lemma {:induction false} ReadOwes(st: State, fs: seq<seq<Bytes>>)
    requires Owes(st, fs)
    ensures var (r, st') := ReadSome(st);
      Fit(fs) && (Advanced(st, fs, r, st') || (r.Failed? && Stalled(st, fs, st')))
    decreases ToRead(st)
  {
    hide Pass, Owes, Frames, Encode, Fit;
    assert st.Committed() by {
      OwesCommitted(st, fs);
    }
    PassResumes(st);
    PassOwes(st, fs);
    if Pass(st, 0).Again? {
      ReadOwes(Pass(st, 0).st, fs);
    }
  }

  lemma OwesCommitted(st: State, fs: seq<seq<Bytes>>)
    requires Owes(st, fs)
    ensures st.Committed()
  {
  }
}
