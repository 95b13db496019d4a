/** Which frames of guacd reach the browser, when all of them come without failures. */
module RelayDeliveries {
  import opened Base
  import opened Wire
  import opened StreamSpec
  import opened EndToEnd
  import opened Relays

  lemma {:induction false} GroupsFlat(sent: seq<Bytes>, groups: seq<seq<Bytes>>)
    requires Groups(sent, groups)
    ensures Concat(sent) == Concat(Concat(groups))
    decreases |sent|
  {
    if sent != [] {
      GroupsFlat(sent[1..], groups[1..]);
      ConcatAppend(groups[0], Concat(groups[1..]));
    }
  }

  predicate NoneForwarded(frames: seq<Bytes>) {
    forall f | f in frames :: !IsForwarded(f)
  }

  /** The last forwarded frame, if there is one, is the last of all or fills a message by itself. */
  predicate Settled(frames: seq<Bytes>) {
    forall i | 0 <= i < |frames| && IsForwarded(frames[i]) && NoneForwarded(frames[i + 1..]) ::
      i == |frames| - 1 || |frames[i]| >= MAX
  }

  lemma SettledTail(frames: seq<Bytes>)
    requires frames != [] && Settled(frames)
    ensures Settled(frames[1..])
    ensures IsForwarded(frames[0]) && NoneForwarded(frames[1..]) ==> |frames| == 1 || |frames[0]| >= MAX
  {
    hide IsForwarded, NoneForwarded;
    forall i | 0 <= i < |frames[1..]| && IsForwarded(frames[1..][i]) && NoneForwarded(frames[1..][i + 1..])
      ensures i == |frames[1..]| - 1 || |frames[1..][i]| >= MAX
    {
      assert frames[1..][i] == frames[i + 1] && frames[1..][i + 1..] == frames[i + 2..];
    }
  }

  lemma NoneForwardedTail(frames: seq<Bytes>)
    requires frames != []
    ensures NoneForwarded(frames) <==> !IsForwarded(frames[0]) && NoneForwarded(frames[1..])
  {
    hide IsForwarded;
    if !IsForwarded(frames[0]) && NoneForwarded(frames[1..]) {
      forall f | f in frames ensures !IsForwarded(f) {
        assert f == frames[0] || f in frames[1..];
      }
    }
  }

  /** All frames owed are read; the buffer is untouched when none is forwarded, and emptied when they are settled. */
  lemma {:induction false} LastFlushes(st: State, buf: Bytes, ses: Session, fs: seq<seq<Bytes>>)
    requires Owes(st, fs) && Fit(fs) && Failures(st.script) == 0
    ensures var e := Relay(st, buf, ses, []);
      && e.read == Encoded(fs)
      && (NoneForwarded(Encoded(fs)) ==> e.unsent == buf)
      && (!NoneForwarded(Encoded(fs)) && Settled(Encoded(fs)) ==> e.unsent == [])
    decreases |fs|
  {
    hide ReadSome, IsInternal, IsServerInfo, Work, ServerName, Relay, Owes, Encode, Frames, NoneForwarded, Settled;
    OwesFit(st, fs);
    RelayTurn(st, buf, ses, []);
    ReadOwes(st, fs);
    var (r, st') := ReadSome(st);
    if fs == [] {
      EmptyNone();
    } else {
      var later, frames := fs[1..], Encoded(fs);
      assert frames[1..] == Encoded(later) && frames[0] == r.bytes;
      NoneForwardedTail(frames);
      if Settled(frames) {
        SettledTail(frames);
      }
      if later == [] {
        NothingLeft(st', later);
      }
      if IsInternal(r.bytes) || IsServerInfo(r.bytes) {
        LastFlushes(st', buf, if IsInternal(r.bytes) then ses else Session(true, ServerName(r.bytes)), later);
      } else if st'.buf != [] && |buf + r.bytes| < MAX {
        LastFlushes(st', buf + r.bytes, ses, later);
      } else {
        LastFlushes(st', [], ses, later);
      }
    }
  }

  lemma EmptyNone()
    ensures NoneForwarded([])
  {
  }

  lemma NothingLeft(st: State, fs: seq<seq<Bytes>>)
    requires Owes(st, fs) && fs == []
    ensures st.buf == []
  {
    assert |st.buf + Pending(st.script)| == 0;
  }

  /** What is sent and what is left unsent are together exactly the forwarded frames. */
  lemma SentAndUnsent(st: State, fs: seq<seq<Bytes>>, ses: Session)
    requires Owes(st, fs) && Fit(fs) && Failures(st.script) == 0
    ensures var e := Relay(st, [], ses, []);
      Concat(e.sent) + e.unsent == Concat(Forwarded(Encoded(fs)))
  {
    hide Relay, Owes, Fit, IsForwarded, Frames, Encode, NoneForwarded, Settled;
    OwesFit(st, fs);
    assert Concat<Byte>([]) == [];
    LastFlushes(st, [], ses, fs);
    var groups, rest := RelayConserves(st, [], ses, []);
    var e := Relay(st, [], ses, []);
    GroupsFlat(e.sent, groups);
    ConcatAppend(Concat(groups), rest);
    assert Concat(groups) + rest == Forwarded(e.read);
  }

  /**
   From the wire to the browser: when guacd's frames come without failures and are settled, the messages together
   are exactly the forwarded frames.
   */
  lemma {:induction false} RelayDelivers(st: State, fs: seq<seq<Bytes>>, ses: Session)
    requires Owes(st, fs) && Fit(fs) && Failures(st.script) == 0 && Settled(Encoded(fs))
    ensures Concat(Relay(st, [], ses, []).sent) == Concat(Forwarded(Encoded(fs)))
  {
    hide Relay, Owes, Fit, IsForwarded, Frames, Encode, NoneForwarded, Settled, Forwarded;
    OwesFit(st, fs);
    LastFlushes(st, [], ses, fs);
    SentAndUnsent(st, fs, ses);
    var e := Relay(st, [], ses, []);
    assert Concat(e.sent) + [] == Concat(e.sent);
  }

  // ---------------------------------------------------------------- how a frame gets stuck

  predicate Solid(frames: seq<Bytes>) {
    forall k | 0 <= k < |frames| :: frames[k] != []
  }

  /** One chunk for each frame. */
  function Each(frames: seq<Bytes>): seq<Event>
    requires Solid(frames)
  {
    if frames == [] then [] else [Chunk(frames[0])] + Each(frames[1..])
  }

  /** One chunk for each frame, but for the one at i, which shares a chunk with its successor. */
  function Joining(frames: seq<Bytes>, i: nat): (script: seq<Event>)
    requires i + 1 < |frames| && Solid(frames)
    ensures script != []
  {
    if i == 0 then [Chunk(frames[0] + frames[1])] + Each(frames[2..])
    else [Chunk(frames[0])] + Joining(frames[1..], i - 1)
  }

  lemma {:induction false} EachPending(frames: seq<Bytes>)
    requires Solid(frames)
    ensures Pending(Each(frames)) == Concat(frames) && Failures(Each(frames)) == 0
    decreases |frames|
  {
    if frames != [] {
      EachPending(frames[1..]);
      PendingCons(Chunk(frames[0]), Each(frames[1..]));
    }
  }

  lemma {:induction false} JoiningPending(frames: seq<Bytes>, i: nat)
    requires i + 1 < |frames| && Solid(frames)
    ensures Pending(Joining(frames, i)) == Concat(frames) && Failures(Joining(frames, i)) == 0
    decreases |frames|
  {
    hide Concat;
    ConcatFront(frames);
    if i == 0 {
      EachPending(frames[2..]);
      PendingCons(Chunk(frames[0] + frames[1]), Each(frames[2..]));
      ConcatFront(frames[1..]);
      assert frames[1..][1..] == frames[2..];
      assert frames[0] + (frames[1] + Concat(frames[2..])) == frames[0] + frames[1] + Concat(frames[2..]);
    } else {
      JoiningPending(frames[1..], i - 1);
      PendingCons(Chunk(frames[0]), Joining(frames[1..], i - 1));
    }
  }

  lemma ConcatFront(frames: seq<Bytes>)
    requires frames != []
    ensures Concat(frames) == frames[0] + Concat(frames[1..])
  {
  }

  lemma {:induction false} FramesConcat(fs: seq<seq<Bytes>>)
    requires Fit(fs)
    ensures Frames(fs) == Concat(Encoded(fs)) && Solid(Encoded(fs))
    decreases |fs|
  {
    hide Encode, AllAscii;
    if fs != [] {
      FieldSome(fs[0]);
      FramesConcat(fs[1..]);
    }
  }

  /** A chunk that holds more than the first frame leaves something in the buffer. */
  lemma MoreBuffered(st: State, es: seq<Bytes>, more: Bytes)
    requires st.Ok() && st.buf == [] && st.parseStart == 0 && st.script != [] && more != []
    requires es != [] && AllUtf8(es) && |Encode(es)| < MAX && st.script[0] == Chunk(Encode(es) + more)
    ensures ReadSome(st).0 == Frame(Encode(es)) && ReadSome(st).1.buf != []
  {
    hide Encode, AllUtf8, ScanFrom, Reaches;
    EmptyScan(st.buf);
    var filled := st.Compacted().Filled();
    assert Pass(st, 0) == Again(filled);
    var n := |Encode(es)|;
    assert n < |filled.buf|;
    assert filled.buf == Encode(es) + filled.buf[n..];
    StartReaches(filled.buf);
    BufferedFrameReturned(filled, es, filled.buf[n..]);
  }

  /** The frame that gets stuck and its successor come next. */
  lemma FrameStalls(st: State, fs: seq<seq<Bytes>>, ses: Session)
    requires Owes(st, fs) && Fit(fs) && Failures(st.script) == 0 && 1 < |fs|
    requires IsForwarded(Encoded(fs)[0]) && |Encoded(fs)[0]| < MAX && NoneForwarded(Encoded(fs)[1..])
    requires Solid(Encoded(fs)) && st.Ok() && st.buf == [] && st.parseStart == 0
    requires st.script != [] && st.script[0] == Chunk(Encoded(fs)[0] + Encoded(fs)[1])
    ensures var e := Relay(st, [], ses, []);
      e.unsent == Encoded(fs)[0] && e.read == Encoded(fs)
  {
    hide ReadSome, IsInternal, IsServerInfo, Work, ServerName, Relay, Owes, Encode, Frames, AllAscii, NoneForwarded;
    var frames, later := Encoded(fs), fs[1..];
    assert frames[1..] == Encoded(later);
    RelayTurn(st, [], ses, []);
    ReadOwes(st, fs);
    PrintIsEncode(fs[0]);
    MoreBuffered(st, fs[0], frames[1]);
    var st' := ReadSome(st).1;
    LastFlushes(st', frames[0], ses, later);
    assert [] + frames[0] == frames[0] && [frames[0]] + frames[1..] == frames;
  }

  /** A frame that comes alone in its chunk is sent at once or held back, and nothing stays in the buffer. */
  lemma LoneFrame(st: State, fs: seq<seq<Bytes>>, ses: Session) returns (st': State, ses': Session)
    requires Owes(st, fs) && Fit(fs) && Failures(st.script) == 0 && fs != []
    requires st.Ok() && st.buf == [] && st.parseStart == 0
    requires st.script != [] && st.script[0] == Chunk(Encode(fs[0]))
    ensures st'.Ok() && Owes(st', fs[1..]) && Failures(st'.script) == 0
    ensures st'.buf == [] && st'.parseStart == 0 && st'.script == st.script[1..]
    ensures var e, e' := Relay(st, [], ses, []), Relay(st', [], ses', []);
      e.unsent == e'.unsent && e.read == [Encode(fs[0])] + e'.read
  {
    hide ReadSome, IsInternal, IsServerInfo, Work, ServerName, Relay, Owes, Encode, Frames, AllAscii;
    RelayTurn(st, [], ses, []);
    ReadOwes(st, fs);
    PrintIsEncode(fs[0]);
    ChunkReturned(st, fs[0]);
    var frame := Encode(fs[0]);
    st' := ReadSome(st).1;
    ses' := if IsServerInfo(frame) && !IsInternal(frame) then Session(true, ServerName(frame)) else ses;
  }

  /**
   Forwarding can stall: a forwarded frame shorter than MAX with only held-back frames behind it, the first of them
   in the same chunk, stays in the buffer and is never sent.
   */
  lemma {:induction false} DroppedFrameStalls(st: State, fs: seq<seq<Bytes>>, i: nat, ses: Session)
    requires Owes(st, fs) && Fit(fs) && Failures(st.script) == 0 && i + 1 < |fs|
    requires IsForwarded(Encoded(fs)[i]) && |Encoded(fs)[i]| < MAX && NoneForwarded(Encoded(fs)[i + 1..])
    requires Solid(Encoded(fs)) && st.Ok() && st.buf == [] && st.parseStart == 0
    requires st.script == Joining(Encoded(fs), i)
    ensures var e := Relay(st, [], ses, []);
      e.unsent == Encoded(fs)[i] && e.read == Encoded(fs)
    decreases i
  {
    hide IsForwarded, Relay, Owes, Encode, Frames, AllAscii, NoneForwarded;
    if i == 0 {
      FrameStalls(st, fs, ses);
    } else {
      var frames, later := Encoded(fs), fs[1..];
      assert frames == [Encode(fs[0])] + Encoded(later);
      var st', ses' := LoneFrame(st, fs, ses);
      assert frames[1..][i..] == frames[i + 1..];
      assert st.script[1..] == Joining(frames[1..], i - 1);
      OwesFit(st', later);
      DroppedFrameStalls(st', later, i - 1, ses');
    }
  }

  /**
   The exact condition: however guacd's frames are cut into reads, all forwarded frames reach the browser, precisely
   when the frames are settled.
   */
  lemma RelayDeliversIff(fs: seq<seq<Bytes>>, ses: Session)
    requires Fit(fs)
    ensures (forall script | Pending(script) == Frames(fs) && Failures(script) == 0 ::
        Concat(Relay(Fresh(script), [], ses, []).sent) == Concat(Forwarded(Encoded(fs))))
      <==> Settled(Encoded(fs))
  {
    hide Relay, Frames, Encode, AllAscii, NoneForwarded, IsForwarded, Forwarded, Reaches, Settled;
    if Settled(Encoded(fs)) {
      forall script | Pending(script) == Frames(fs) && Failures(script) == 0
        ensures Concat(Relay(Fresh(script), [], ses, []).sent) == Concat(Forwarded(Encoded(fs)))
      {
        FreshOwes(script, fs);
        RelayDelivers(Fresh(script), fs, ses);
      }
    } else {
      var i := Unsettled(Encoded(fs));
      FramesConcat(fs);
      JoiningPending(Encoded(fs), i);
      var script := Joining(Encoded(fs), i);
      FreshOwes(script, fs);
      DroppedFrameStalls(Fresh(script), fs, i, ses);
      SentAndUnsent(Fresh(script), fs, ses);
      var e := Relay(Fresh(script), [], ses, []);
      assert |Concat(e.sent)| < |Concat(Forwarded(Encoded(fs)))|;
    }
  }

  lemma FreshOwes(script: seq<Event>, fs: seq<seq<Bytes>>)
    requires Fit(fs) && Pending(script) == Frames(fs)
    ensures Owes(Fresh(script), fs)
  {
    StartReaches([]);
  }

  lemma Unsettled(frames: seq<Bytes>) returns (i: nat)
    requires !Settled(frames)
    ensures i + 1 < |frames| && IsForwarded(frames[i]) && |frames[i]| < MAX && NoneForwarded(frames[i + 1..])
  {
    hide IsForwarded, NoneForwarded;
    i :| 0 <= i < |frames| && IsForwarded(frames[i]) && NoneForwarded(frames[i + 1..]) && i != |frames| - 1
      && |frames[i]| < MAX;
  }
}
