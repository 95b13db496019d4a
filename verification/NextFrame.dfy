/** What one call of ReadSome does with the frame that comes next, exactly. */
module NextFrames {
  import opened Base
  import opened Wire
  import opened StreamSpec

  /** The connection delivers its next n bytes without a failure among them. */
  predicate Prompt(script: seq<Event>, n: int)
    decreases |script|
  {
    n <= 0 || (script != [] && script[0].Chunk? && Prompt(script[1..], n - |script[0].data|))
  }

  lemma {:induction false} PromptLess(script: seq<Event>, n: int, m: int)
    requires Prompt(script, n) && m <= n
    ensures Prompt(script, m)
    decreases |script|
  {
    if m > 0 {
      PromptLess(script[1..], n - |script[0].data|, m - |script[0].data|);
    }
  }

  lemma PromptAfter(script: seq<Event>, n: int, q: nat)
    requires Prompt(script, n) && script != [] && script[0].Chunk? && 0 < q <= |script[0].data|
    ensures Prompt(After(script, q), n - q)
  {
    if n > q {
      assert After(script, q)[1..] == if q == |script[0].data| then script[2..] else script[1..];
    }
  }

  /** A connection without failures delivers all it has promptly. */
  lemma {:induction false} PromptWithoutFailures(script: seq<Event>, n: int)
    requires Failures(script) == 0 && n <= |Pending(script)|
    ensures Prompt(script, n)
    decreases |script|
  {
    if n > 0 {
      PromptWithoutFailures(script[1..], n - |script[0].data|);
    }
  }

  /**
   Is a frame of n bytes, not wholly buffered yet, too long for the window? The window starts where the buffer
   does, or at the start of the array when the capacity left calls for a compaction.
   */
  predicate TooLong(st: State, n: nat) {
    |st.buf| < n && (if CAPACITY - st.off < MAX then 0 else st.off) + n > CAPACITY
  }

  /** One round on a frame of which the last bytes are not buffered. */
  lemma UnfinishedFrame(st: State, es: seq<Bytes>, rest: Bytes, k: nat)
    requires st.Committed() && es != [] && AllAscii(es) && Ahead(st) == Encode(es) + rest
    requires |st.buf| < |Encode(es)| && Prompt(st.script, |Encode(es)| + k - |st.buf|)
    ensures var n, round := |Encode(es)|, Pass(st, 0);
      if st.Compacted().Room() == 0 then TooLong(st, n) && round.Returns? && round.r == Stuck
      else
        && round.Again? && round.st.Committed() && Ahead(round.st) == Encode(es) + rest
        && (TooLong(round.st, n) <==> TooLong(st, n))
        && Prompt(round.st.script, n + k - |round.st.buf|)
  {
    hide Encode, AllAscii, ScanFrom, Reaches, After, Prompt;
    PassResumes(st);
    assert st.buf == Encode(es)[..|st.buf|] by {
      assert Ahead(st)[..|st.buf|] == (Encode(es) + rest)[..|st.buf|];
    }
    FrameCutShort(st.buf, es);
    PromptSome(st.script, |Encode(es)| + k - |st.buf|);
    var c := st.(parseStart := ScanFrom(st.buf, 0).start).Compacted();
    if c.Room() > 0 {
      FilledKeeps(c);
      PromptAfter(c.script, |Encode(es)| + k - |st.buf|, c.Quota());
    }
  }

  lemma PromptSome(script: seq<Event>, n: int)
    requires Prompt(script, n) && n > 0
    ensures script != [] && script[0].Chunk?
  {
  }

  /**
   The next frame, of one-byte characters and of any length: ReadSome spins forever on it exactly when it is too
   long for the window, and returns it otherwise. k more bytes that come promptly still come promptly.
   */
  lemma {:induction false} NextFrame(st: State, es: seq<Bytes>, rest: Bytes, k: nat)
    requires st.Committed() && es != [] && AllAscii(es) && Ahead(st) == Encode(es) + rest
    requires Prompt(st.script, |Encode(es)| + k - |st.buf|)
    ensures var (r, st') := ReadSome(st);
      if TooLong(st, |Encode(es)|) then r == Stuck
      else
        && r == Frame(Encode(es)) && st'.Committed() && Ahead(st') == rest
        && Prompt(st'.script, k - |st'.buf|)
    decreases ToRead(st)
  {
    hide Encode, AllAscii, ScanFrom, Reaches, Prompt;
    var f := Encode(es);
    PassResumes(st);
    if |f| <= |st.buf| {
      assert st.buf[..|f|] == f && Ahead(st)[|f|..] == st.buf[|f|..] + Pending(st.script) by {
        assert Ahead(st)[..|f|] == f;
      }
      FrameAtStart(st.buf, es);
      assert (f + rest)[|f|..] == rest;
    } else {
      UnfinishedFrame(st, es, rest, k);
      if st.Compacted().Room() > 0 {
        NextFrame(Pass(st, 0).st, es, rest, k);
      }
    }
  }

  /** Frames of at most MAX bytes are never too long. */
  lemma ShortFits(st: State, n: nat)
    requires n <= MAX
    ensures !TooLong(st, n)
  {
  }
}
