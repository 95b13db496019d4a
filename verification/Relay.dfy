/** guacdToWs: frames from guacd, batched into websocket messages. */
module Relays {
  import opened Base
  import opened Utf8
  import opened Wire
  import opened StreamSpec
  import opened Streams
  import opened EndToEnd
  import opened Opcodes

  datatype Session = Session(auth: bool, serverName: Bytes)

  /** An instruction with the empty opcode, for internal use. */
  predicate IsInternal(frame: Bytes) {
    Ascii("0.") <= frame
  }

  predicate IsServerInfo(frame: Bytes) {
    Ascii("11.server_info") <= frame
  }

  predicate IsForwarded(frame: Bytes) {
    !IsInternal(frame) && !IsServerInfo(frame)
  }

  /** The position of the first b in s, or -1. */
  function IndexOf(s: Bytes, b: Byte): (i: int)
    ensures -1 <= i < |s|
    ensures i >= 0 ==> s[i] == b && forall k | 0 <= k < i :: s[k] != b
    ensures i == -1 ==> forall k | 0 <= k < |s| :: s[k] != b
  {
    if s == [] then -1
    else if s[0] == b then 0
    else
      var i := IndexOf(s[1..], b);
      assert forall k | 1 <= k < |s| :: s[k] == s[1..][k - 1];
      if i == -1 then -1 else i + 1
  }

  /** The server name in a server_info frame: what follows the first length field behind the first comma. */
  function ServerName(frame: Bytes): Bytes {
    var comma := IndexOf(frame, COMMA);
    // a frame ends with a semicolon, so a comma is never its last byte
    if comma > 0 && comma + 1 < |frame| then
      var info := frame[comma + 1..|frame| - 1];
      info[IndexOf(info, DOT) + 1..]
    else []
  }

  /** A relay that has ended: messages sent, bytes never sent, frames read, stream and session. */
  datatype Ended = Ended(sent: seq<Bytes>, unsent: Bytes, read: seq<Bytes>, st: State, ses: Session)

  function Work(st: State): nat {
    |st.buf| + ToRead(st)
  }

  lemma FrameShrinks(st: State)
    requires st.Ok() && ReadSome(st).0.Frame?
    ensures Work(ReadSome(st).1) < Work(st)
  {
    hide ReadSome;
    ReadConserves(st);
  }

  /** The end of a relay that first sent and read what is given. */
  function Before(sent: seq<Bytes>, read: seq<Bytes>, e: Ended): Ended {
    e.(sent := sent + e.sent, read := read + e.read)
  }

  lemma BeforeTwice(s1: seq<Bytes>, r1: seq<Bytes>, s2: seq<Bytes>, r2: seq<Bytes>, e: Ended)
    ensures Before(s1, r1, Before(s2, r2, e)) == Before(s1 + s2, r1 + r2, e)
  {
    assert s1 + (s2 + e.sent) == s1 + s2 + e.sent;
    assert r1 + (r2 + e.read) == r1 + r2 + e.read;
  }

  function Rest(accepts: seq<bool>): seq<bool> {
    if accepts == [] then [] else accepts[1..]
  }

  /** The loop of guacdToWs; accepts says whether the next message writes succeed. */
  function Relay(st: State, buf: Bytes, ses: Session, accepts: seq<bool>): (e: Ended)
    requires st.Ok()
    decreases Work(st)
  {
    var (r, st') := ReadSome(st);
    if !r.Frame? then Ended([], buf, [], st', ses)
    else
      FrameShrinks(st);
      var frame := r.bytes;
      if IsInternal(frame) then
        Before([], [frame], Relay(st', buf, ses, accepts))
      else if IsServerInfo(frame) then
        Before([], [frame], Relay(st', buf, Session(true, ServerName(frame)), accepts))
      else
        var full := buf + frame;
        if st'.buf == [] || |full| >= MAX then
          if accepts != [] && !accepts[0] then Ended([], full, [frame], st', ses)
          else Before([full], [frame], Relay(st', [], ses, Rest(accepts)))
        else
          Before([], [frame], Relay(st', full, ses, accepts))
  }

  /** One turn of the loop, as an equation. */
  lemma RelayTurn(st: State, buf: Bytes, ses: Session, accepts: seq<bool>)
    requires st.Ok()
    ensures var (r, st') := ReadSome(st);
      Relay(st, buf, ses, accepts) ==
        if !r.Frame? then Ended([], buf, [], st', ses)
        else if IsInternal(r.bytes) then Before([], [r.bytes], Relay(st', buf, ses, accepts))
        else if IsServerInfo(r.bytes) then
          Before([], [r.bytes], Relay(st', buf, Session(true, ServerName(r.bytes)), accepts))
        else if st'.buf != [] && |buf + r.bytes| < MAX then
          Before([], [r.bytes], Relay(st', buf + r.bytes, ses, accepts))
        else if accepts != [] && !accepts[0] then Ended([], buf + r.bytes, [r.bytes], st', ses)
        else Before([buf + r.bytes], [r.bytes], Relay(st', [], ses, Rest(accepts)))
  {
    hide ReadSome, IsInternal, IsServerInfo, Work, Before, ServerName;
  }

  class WebSocket {
    var accepts: seq<bool>
    var sent: seq<Bytes>

    constructor (accepts: seq<bool>)
      ensures this.accepts == accepts && sent == []
    {
      this.accepts, sent := accepts, [];
    }

    method WriteMessage(data: Bytes) returns (ok: bool)
      modifies this
      ensures ok == (old(accepts) == [] || old(accepts)[0])
      ensures sent == if ok then old(sent) + [data] else old(sent)
      ensures accepts == if old(accepts) == [] then [] else old(accepts)[1..]
    {
      ok := accepts == [] || accepts[0];
      if accepts != [] {
        accepts := accepts[1..];
      }
      if ok {
        sent := sent + [data];
      }
    }
  }

  /** Appends a frame to the buffer, and sends the buffer when nothing more is at hand or it is full. */
  method Buffer(ws: WebSocket, pending: Bytes, ins: Bytes, more: bool, ghost s: Stream) returns (ok: bool, buf: Bytes)
    requires ins != [] && s.Valid()
    modifies ws
    ensures s.Valid() && s.State() == old(s.State())
    ensures var full := pending + ins;
      if more && |full| < MAX then
        ok && buf == full && ws.sent == old(ws.sent) && ws.accepts == old(ws.accepts)
      else
        && ok == !(old(ws.accepts) != [] && !old(ws.accepts)[0])
        && ws.accepts == Rest(old(ws.accepts))
        && (ok ==> buf == [] && ws.sent == old(ws.sent) + [full])
        && (!ok ==> buf == full && ws.sent == old(ws.sent))
  {
    buf := pending + ins;
    ok := true;
    if !more || |buf| >= MAX {
      ok := ws.WriteMessage(buf);
      if ok {
        buf := [];
      }
    }
  }

  /**
   One turn of the loop of guacdToWs: reads a frame, forwards it or not. now are the messages sent and frame the
   frames read by this turn.
   */
  method Turn(ws: WebSocket, s: Stream, pending: Bytes, session: Session)
    returns (done: bool, buf: Bytes, ses: Session, ghost now: seq<Bytes>, ghost frame: seq<Bytes>)
    requires s.Valid() && |pending| < MAX
    modifies ws, s`off, s`len, s`parseStart, s`compactions, s`moved, s`returned, s.conn`script, s.reset
    ensures s.Valid() && ws.sent == old(ws.sent) + now
    ensures Relay(old(s.State()), pending, session, old(ws.accepts)) ==
      Before(now, frame, if done then Ended([], buf, [], s.State(), ses) else Relay(s.State(), buf, ses, ws.accepts))
    ensures !done ==> |buf| < MAX && Work(s.State()) < Work(old(s.State()))
  {
    hide Relay, ReadSome, IsInternal, IsServerInfo, Work, Before, ServerName, Ahead, Rest, Stream.State;
    ghost var st, accepts := s.State(), ws.accepts;
    RelayTurn(st, pending, session, accepts);
    done, buf, ses, now, frame := true, pending, session, [], [];
    var r, lo, hi := s.ReadSome();
    ghost var st' := s.State();
    if !r.Frame? {
      BeforeNothing(Ended([], buf, [], st', ses));
      return;
    }
    FrameShrinks(st);
    ReadConserves(st);
    var ins := s.reset[lo..hi];
    frame := [ins];
    if IsInternal(ins) {
      done := false;
    } else if IsServerInfo(ins) {
      done, ses := false, Session(true, ServerName(ins));
    } else {
      var more := s.Available();
      var ok;
      ok, buf := Buffer(ws, pending, ins, more, s);
      done := !ok;
      if done {
        BeforeEnd(ins, buf, st', ses);
      } else if buf == [] {
        now := [pending + ins];
      }
    }
  }

  /** The loop of guacdToWs. unsent are the bytes left in its buffer when it returns, read the frames it read. */
  method GuacdToWs(ws: WebSocket, s: Stream, session: Session)
    returns (ses: Session, ghost unsent: Bytes, ghost read: seq<Bytes>)
    requires s.Valid()
    modifies ws, s`off, s`len, s`parseStart, s`compactions, s`moved, s`returned, s.conn`script, s.reset
    ensures s.Valid()
    ensures var e := Relay(old(s.State()), [], session, old(ws.accepts));
      && ws.sent == old(ws.sent) + e.sent && s.State() == e.st && ses == e.ses && unsent == e.unsent && read == e.read
  {
    hide Relay, Stream.State, Stream.Valid, Work;
    ghost var start := Relay(s.State(), [], session, ws.accepts);
    ghost var sent: seq<Bytes> := [];
    var buf: Bytes := [];
    ses := session;
    read := [];
    BeforeNothing(start);
    var done := false;
    while !done
      invariant s.Valid() && (!done ==> |buf| < MAX)
      invariant ws.sent == old(ws.sent) + sent
      invariant start == Before(sent, read,
        if done then Ended([], buf, [], s.State(), ses) else Relay(s.State(), buf, ses, ws.accepts))
      decreases !done, Work(s.State())
    {
      ghost var now, frame;
      done, buf, ses, now, frame := Turn(ws, s, buf, ses);
      BeforeTwice(sent, read, now, frame,
        if done then Ended([], buf, [], s.State(), ses) else Relay(s.State(), buf, ses, ws.accepts));
      sent, read := sent + now, read + frame;
    }
    unsent := buf;
  }

  lemma BeforeEnd(frame: Bytes, unsent: Bytes, st: State, ses: Session)
    ensures Before([], [frame], Ended([], unsent, [], st, ses)) == Ended([], unsent, [frame], st, ses)
  {
  }

  lemma BeforeNothing(e: Ended)
    ensures Before([], [], e) == e
  {
  }

  // ---------------------------------------------------------------- what the relay guarantees

  function Forwarded(frames: seq<Bytes>): seq<Bytes> {
    if frames == [] then [] else (if IsForwarded(frames[0]) then [frames[0]] else []) + Forwarded(frames[1..])
  }

  /** Each message is the concatenation of its group of one or more whole frames. */
  predicate Groups(sent: seq<Bytes>, groups: seq<seq<Bytes>>) {
    |groups| == |sent| && forall i | 0 <= i < |sent| :: groups[i] != [] && sent[i] == Concat(groups[i])
  }

  /**
   Conservation: the messages, then the unsent bytes, are groups of whole frames, and these groups laid end to
   end are the frames already in the buffer, then the forwarded ones among the frames read, in order, none
   lost and none doubled, however reading and writing fail.
   */
  lemma {:induction false} RelayConserves(st: State, held: seq<Bytes>, ses: Session, accepts: seq<bool>)
    returns (groups: seq<seq<Bytes>>, rest: seq<Bytes>)
    requires st.Ok()
    ensures var e := Relay(st, Concat(held), ses, accepts);
      && Groups(e.sent, groups) && e.unsent == Concat(rest)
      && Concat(groups) + rest == held + Forwarded(e.read)
    decreases Work(st)
  {
    hide ReadSome, IsInternal, IsServerInfo, Work, ServerName, Relay, Concat, Forwarded;
    var buf := Concat(held);
    RelayTurn(st, buf, ses, accepts);
    var (r, st') := ReadSome(st);
    NoGroups(held);
    if !r.Frame? {
      groups, rest := [], held;
    } else {
      FrameShrinks(st);
      var frame := r.bytes;
      ConcatSnoc(held, frame);
      ForwardedOne(held, frame, []);
      if IsInternal(frame) || IsServerInfo(frame) {
        var ses' := if IsInternal(frame) then ses else Session(true, ServerName(frame));
        groups, rest := RelayConserves(st', held, ses', accepts);
        ForwardedOne(held, frame, Relay(st', buf, ses', accepts).read);
      } else if st'.buf != [] && |buf + frame| < MAX {
        groups, rest := RelayConserves(st', held + [frame], ses, accepts);
        ForwardedOne(held, frame, Relay(st', buf + frame, ses, accepts).read);
      } else if accepts != [] && !accepts[0] {
        groups, rest := [], held + [frame];
        NoGroups(rest);
        assert [frame] + [] == [frame];
      } else {
        groups, rest := RelayConserves(st', [], ses, Rest(accepts));
        var e := Relay(st', [], ses, Rest(accepts));
        ForwardedOne(held, frame, e.read);
        OneGroup(held + [frame], groups, rest, Forwarded(e.read));
        groups := [held + [frame]] + groups;
      }
    }
  }

  lemma NoGroups(held: seq<Bytes>)
    ensures Concat<Byte>([]) == [] && Concat<Bytes>([]) + held == held && held + Forwarded([]) == held
  {
  }

  lemma ForwardedOne(held: seq<Bytes>, frame: Bytes, later: seq<Bytes>)
    ensures held + Forwarded([frame] + later) ==
      (if IsForwarded(frame) then held + [frame] else held) + Forwarded(later)
  {
    hide IsForwarded;
    assert ([frame] + later)[1..] == later;
  }

  lemma OneGroup(group: seq<Bytes>, groups: seq<seq<Bytes>>, rest: seq<Bytes>, later: seq<Bytes>)
    requires Concat(groups) + rest == [] + later
    ensures Concat([group] + groups) + rest == group + later
  {
    assert ([group] + groups)[1..] == groups;
    assert group + Concat(groups) + rest == group + (Concat(groups) + rest);
  }

  /** The session after the given frames: the last server_info frame sets its server name. */
  function SessionAfter(frames: seq<Bytes>, ses: Session): Session {
    if frames == [] then ses
    else
      var last := frames[|frames| - 1];
      if IsServerInfo(last) && !IsInternal(last) then Session(true, ServerName(last))
      else SessionAfter(frames[..|frames| - 1], ses)
  }

  lemma {:induction false} SessionFront(frame: Bytes, later: seq<Bytes>, ses: Session)
    ensures SessionAfter([frame] + later, ses) ==
      SessionAfter(later, if IsServerInfo(frame) && !IsInternal(frame) then Session(true, ServerName(frame)) else ses)
    decreases |later|
  {
    hide IsServerInfo, IsInternal, ServerName;
    var all := [frame] + later;
    if later == [] {
      assert all[..0] == [];
    } else {
      SessionFront(frame, later[..|later| - 1], ses);
      assert all[..|all| - 1] == [frame] + later[..|later| - 1];
    }
  }

  /** The session ends up authorised under the name in the last server_info frame read, untouched without one. */
  lemma {:induction false} RelaySession(st: State, buf: Bytes, ses: Session, accepts: seq<bool>)
    requires st.Ok()
    ensures Relay(st, buf, ses, accepts).ses == SessionAfter(Relay(st, buf, ses, accepts).read, ses)
    decreases Work(st)
  {
    hide ReadSome, IsInternal, IsServerInfo, Work, ServerName, Relay;
    RelayTurn(st, buf, ses, accepts);
    var (r, st') := ReadSome(st);
    if r.Frame? {
      FrameShrinks(st);
      var frame := r.bytes;
      if IsInternal(frame) || IsServerInfo(frame) {
        var ses' := if IsInternal(frame) then ses else Session(true, ServerName(frame));
        RelaySession(st', buf, ses', accepts);
        SessionFront(frame, Relay(st', buf, ses', accepts).read, ses);
      } else if st'.buf != [] && |buf + frame| < MAX {
        RelaySession(st', buf + frame, ses, accepts);
        SessionFront(frame, Relay(st', buf + frame, ses, accepts).read, ses);
      } else if accepts != [] && !accepts[0] {
        SessionFront(frame, [], ses);
        assert [frame] + [] == [frame];
      } else {
        RelaySession(st', [], ses, Rest(accepts));
        SessionFront(frame, Relay(st', [], ses, Rest(accepts)).read, ses);
      }
    }
  }

  /**
   The relay ends at the first read that returns no frame, or else at the first refused message, with nothing read
   after it; every message before was accepted.
   */
  lemma {:induction false} RelayEnds(st: State, buf: Bytes, ses: Session, accepts: seq<bool>)
    requires st.Ok()
    ensures var e := Relay(st, buf, ses, accepts);
      var last := Reads(st, |e.read|).1;
      && (forall i | 0 <= i < |e.sent| && i < |accepts| :: accepts[i])
      && ((!ReadSome(last).0.Frame? && e.st == ReadSome(last).1)
        || (|e.sent| < |accepts| && !accepts[|e.sent|] && e.st == last))
    decreases Work(st)
  {
    hide ReadSome, IsInternal, IsServerInfo, Work, ServerName, Relay;
    RelayTurn(st, buf, ses, accepts);
    var (r, st') := ReadSome(st);
    if r.Frame? {
      FrameShrinks(st);
      var ses' := if IsInternal(r.bytes) then ses else Session(true, ServerName(r.bytes));
      if IsInternal(r.bytes) || IsServerInfo(r.bytes) {
        RelayEnds(st', buf, ses', accepts);
        OneMoreEnd(st, Relay(st', buf, ses', accepts).read);
      } else if st'.buf != [] && |buf + r.bytes| < MAX {
        RelayEnds(st', buf + r.bytes, ses, accepts);
        OneMoreEnd(st, Relay(st', buf + r.bytes, ses, accepts).read);
      } else if accepts != [] && !accepts[0] {
        OneMoreEnd(st, []);
      } else {
        RelayEnds(st', [], ses, Rest(accepts));
        OneMoreEnd(st, Relay(st', [], ses, Rest(accepts)).read);
        assert forall i | 0 <= i < |Rest(accepts)| :: Rest(accepts)[i] == accepts[i + 1];
      }
    }
  }

  lemma OneMoreEnd(st: State, later: seq<Bytes>)
    requires st.Ok() && ReadSome(st).0.Frame?
    ensures Reads(st, |[ReadSome(st).0.bytes] + later|).1 == Reads(ReadSome(st).1, |later|).1
  {
    hide ReadSome;
  }

  function AsOutcomes(frames: seq<Bytes>): (rs: seq<Outcome>)
    ensures |rs| == |frames|
  {
    seq(|frames|, i requires 0 <= i < |frames| => Frame(frames[i]))
  }

  /** The frames read are what successive calls of ReadSome return, up to the first call that returns none. */
  lemma {:induction false} RelayReads(st: State, buf: Bytes, ses: Session, accepts: seq<bool>)
    requires st.Ok()
    ensures var e := Relay(st, buf, ses, accepts);
      var (rs, st') := Reads(st, |e.read|);
      && rs == AsOutcomes(e.read)
      && ((forall i | 0 <= i < |accepts| :: accepts[i]) ==> !ReadSome(st').0.Frame? && ReadSome(st').1 == e.st)
    decreases Work(st)
  {
    hide ReadSome, IsInternal, IsServerInfo, Work, ServerName, Relay;
    RelayTurn(st, buf, ses, accepts);
    var (r, st') := ReadSome(st);
    if r.Frame? {
      FrameShrinks(st);
      var ses' := if IsInternal(r.bytes) then ses else Session(true, ServerName(r.bytes));
      if IsInternal(r.bytes) || IsServerInfo(r.bytes) {
        RelayReads(st', buf, ses', accepts);
        OneMoreRead(st, Relay(st', buf, ses', accepts).read);
      } else if st'.buf != [] && |buf + r.bytes| < MAX {
        RelayReads(st', buf + r.bytes, ses, accepts);
        OneMoreRead(st, Relay(st', buf + r.bytes, ses, accepts).read);
      } else if accepts != [] && !accepts[0] {
        OneMoreRead(st, []);
        assert [r.bytes] + [] == [r.bytes];
      } else {
        RelayReads(st', [], ses, Rest(accepts));
        OneMoreRead(st, Relay(st', [], ses, Rest(accepts)).read);
      }
    }
  }

  lemma OneMoreRead(st: State, later: seq<Bytes>)
    requires st.Ok() && ReadSome(st).0.Frame? && Reads(ReadSome(st).1, |later|).0 == AsOutcomes(later)
    ensures Reads(st, |[ReadSome(st).0.bytes] + later|).0 == AsOutcomes([ReadSome(st).0.bytes] + later)
    ensures Reads(st, |[ReadSome(st).0.bytes] + later|).1 == Reads(ReadSome(st).1, |later|).1
  {
    hide ReadSome;
  }

  /**
   The buffer: with frames of at most MAX bytes every message, and whatever is left at the end, stays below
   16384 bytes, so the buffer never outgrows the capacity it starts with.
   */
  lemma {:induction false} RelayBound(st: State, buf: Bytes, ses: Session, accepts: seq<bool>)
    requires st.Ok() && |buf| < MAX
    requires forall f | f in Relay(st, buf, ses, accepts).read :: |f| <= MAX
    ensures var e := Relay(st, buf, ses, accepts);
      |e.unsent| < 16384 && forall i | 0 <= i < |e.sent| :: |e.sent[i]| < 16384
    decreases Work(st)
  {
    hide ReadSome, IsInternal, IsServerInfo, Work, ServerName, Relay;
    RelayTurn(st, buf, ses, accepts);
    var (r, st') := ReadSome(st);
    if r.Frame? {
      FrameShrinks(st);
      assert r.bytes in Relay(st, buf, ses, accepts).read;
      if IsInternal(r.bytes) || IsServerInfo(r.bytes) {
        RelayBound(st', buf, if IsInternal(r.bytes) then ses else Session(true, ServerName(r.bytes)), accepts);
      } else if st'.buf != [] && |buf + r.bytes| < MAX {
        RelayBound(st', buf + r.bytes, ses, accepts);
      } else if !(accepts != [] && !accepts[0]) {
        RelayBound(st', [], ses, Rest(accepts));
      }
    }
  }

  /**
   The server name in a server_info frame with one argument is that argument, whatever its bytes and its length field.
   */
  lemma ServerNameIn(name: Bytes, n: nat)
    ensures var frame := Ascii("11.server_info") + ([COMMA] + (Field(n, name) + [SEMICOLON]));
      IsServerInfo(frame) && ServerName(frame) == name
  {
    hide Decimal, Ascii, Field, IndexOf, ServerName;
    var head, arg := Ascii("11.server_info"), Field(n, name);
    OpcodeField();
    NameIn(head + ([COMMA] + (arg + [SEMICOLON])), head, arg);
    DotInField(n, name);
    FirstIs(arg, DOT, |Decimal(n)|);
  }

  /** The name recorded for guacd's server_info instruction with one argument is that argument, whatever its bytes. */
  lemma ServerNameRead(name: Bytes)
    ensures var frame := Encode([SERVER_INFO, name]);
      IsServerInfo(frame) && ServerName(frame) == name
  {
    hide Decimal, Ascii, Field, IsServerInfo, ServerName, RuneCount, IsAscii;
    var opcode := Ascii("server_info");
    OpcodeField();
    ServerInfoBytes();
    AsciiIsUtf8(opcode);
    TwoElements(opcode, name);
    ServerNameIn(name, RuneCount(name));
  }

  /** The name in a frame made of a first field, a comma, a second field and the terminator. */
  lemma NameIn(frame: Bytes, head: Bytes, arg: Bytes)
    requires frame == head + ([COMMA] + (arg + [SEMICOLON])) && head != []
    requires forall k | 0 <= k < |head| :: head[k] != COMMA
    ensures head <= frame && ServerName(frame) == arg[IndexOf(arg, DOT) + 1..]
  {
    hide IndexOf, ServerName;
    Middle(head, COMMA, arg, SEMICOLON);
    FirstIs(frame, COMMA, |head|);
    NameBehind(frame, arg, |head|);
  }

  lemma NameBehind(frame: Bytes, arg: Bytes, comma: nat)
    requires IndexOf(frame, COMMA) == comma && comma > 0 && comma + 1 < |frame|
    requires frame[comma + 1..|frame| - 1] == arg
    ensures ServerName(frame) == arg[IndexOf(arg, DOT) + 1..]
  {
    hide IndexOf;
  }

  lemma Middle(head: Bytes, c: Byte, arg: Bytes, t: Byte)
    ensures var s := head + ([c] + (arg + [t]));
      && head <= s && |s| == |head| + 1 + |arg| + 1 && s[|head|] == c
      && s[|head| + 1..|s| - 1] == arg
      && forall k | 0 <= k < |head| :: s[k] == head[k]
  {
  }

  lemma TwoElements(x: Bytes, y: Bytes)
    ensures Encode([x, y]) == Field(RuneCount(x), x) + ([COMMA] + (Field(RuneCount(y), y) + [SEMICOLON]))
  {
    hide Field, RuneCount;
    assert [x, y][1..] == [y] && [y][0] == y;
    assert Encode([y]) == Field(RuneCount(y), y) + [SEMICOLON];
  }

  lemma DotInField(n: nat, e: Bytes)
    ensures var f, d := Field(n, e), |Decimal(n)|;
      d < |f| && f[d] == DOT && f[d + 1..] == e && forall k | 0 <= k < d :: f[k] != DOT
  {
    var d := Decimal(n);
    assert forall k | 0 <= k < |d| :: Field(n, e)[k] == d[k];
  }

  lemma OpcodeField()
    ensures var opcode, head := Ascii("server_info"), Ascii("11.server_info"); Field(|opcode|, opcode) == head
    ensures forall k | 0 <= k < |Ascii("11.server_info")| :: Ascii("11.server_info")[k] != COMMA
  {
    hide Field, Decimal, Ascii;
    HeadSplit();
    HeadLength();
    NoComma();
    FieldIs(11, Ascii("server_info"));
  }

  lemma FieldIs(n: nat, e: Bytes)
    ensures Field(n, e) == Decimal(n) + [DOT] + e
  {
    hide Decimal;
  }

  lemma HeadLength()
    ensures Decimal(11) == [49, 49]
  {
    assert Decimal(1) == [49];
  }

  lemma HeadSplit()
    ensures Ascii("11.server_info") == [49, 49, DOT] + Ascii("server_info")
  {
    var opcode, head := Ascii("server_info"), Ascii("11.server_info");
    assert head[..3] == [49, 49, DOT] && head[3..] == opcode;
    assert head == head[..3] + head[3..];
  }

  lemma NoComma()
    ensures forall k | 0 <= k < |Ascii("11.server_info")| :: Ascii("11.server_info")[k] != COMMA
  {
  }

  lemma FirstIs(s: Bytes, b: Byte, i: nat)
    requires i < |s| && s[i] == b && forall k | 0 <= k < i :: s[k] != b
    ensures IndexOf(s, b) == i
  {
  }
}
