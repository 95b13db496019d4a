/** The handshake that opens a guacd session, and what it leaves on the wire. */
module Handshakes {
  import opened Base
  import opened Wire
  import Instructions
  import opened StreamSpec
  import opened Streams
  import opened EndToEnd
  import opened NextFrames
  import opened Opcodes
  import opened Options
  import ParseTheorems

  type Ins = Instructions.Ins

  datatype Config = Config(
    connectionId: Bytes,
    protocol: Bytes,
    parameters: map<Bytes, Bytes>,
    width: int,
    height: int,
    resolution: int,
    audio: seq<Bytes>,
    video: seq<Bytes>,
    image: seq<Bytes>)

  datatype Problem =
    | WriteFailed
    | ReadFailed(outcome: Outcome)
    | BadInstruction(reply: Instructions.Reply)
    | EndOfStream
    | UnexpectedOpcode
    | NoConnectionId

  datatype Result<T> = Ok(value: T) | Err(problem: Problem)

  // ---------------------------------------------------------------- as a function

  function Command(opcode: string, args: seq<Bytes>): Bytes {
    Print(Instructions.Ins(Ascii(opcode), args).Elements())
  }

  /** The value configured for each name the server asked for; empty when there is none. */
  function Values(parameters: map<Bytes, Bytes>, names: seq<Bytes>): (vs: seq<Bytes>)
    ensures |vs| == |names|
    ensures forall i | 0 <= i < |names| :: vs[i] == if names[i] in parameters then parameters[names[i]] else []
  {
    seq(|names|, i requires 0 <= i < |names| => if names[i] in parameters then parameters[names[i]] else [])
  }

  function Select(c: Config): Bytes {
    Command("select", [if c.connectionId == [] then c.protocol else c.connectionId])
  }

  /** What is written after the server's args, in order. */
  function Answer(c: Config, values: seq<Bytes>): (answer: seq<Bytes>)
    ensures |answer| == 5
  {
    [ Command("size", [FormatInt(c.width), FormatInt(c.height), FormatInt(c.resolution)]),
      Command("audio", c.audio),
      Command("video", c.video),
      Command("image", c.image),
      Command("connect", values) ]
  }

  /** How many of the messages get written before the first write that fails. */
  function Accepted(accepts: seq<bool>, messages: seq<Bytes>): (n: nat)
    ensures n <= |messages|
    ensures forall i | 0 <= i < n && i < |accepts| :: accepts[i]
    ensures n < |messages| ==> n < |accepts| && !accepts[n]
    decreases |messages|
  {
    if messages == [] || (accepts != [] && !accepts[0]) then 0
    else 1 + Accepted(if accepts == [] then [] else accepts[1..], messages[1..])
  }

  /** ReadOne and the check of its opcode. */
  function Expect(st: State, opcode: string): (r: (Result<Ins>, State))
    requires st.Ok()
    ensures r.1.Ok()
  {
    var (r, st') := StreamSpec.ReadSome(st);
    if !r.Frame? then (Err(ReadFailed(r)), st')
    else
      var reply := Instructions.ParseReply(r.bytes);
      if !reply.Parsed? then (Err(BadInstruction(reply)), st')
      else if reply.ins.opcode == [] then (Err(EndOfStream), st')
      else if reply.ins.opcode != Ascii(opcode) then (Err(UnexpectedOpcode), st')
      else (Ok(reply.ins), st')
  }

  /** The answer to the server's args and the wait for ready: connection id or problem, stream, messages written. */
  function Conclude(c: Config, names: seq<Bytes>, st: State, accepts: seq<bool>)
    : (r: (Result<Bytes>, State, seq<Bytes>))
    requires st.Ok()
    ensures r.1.Ok()
  {
    var answer := Answer(c, Values(c.parameters, names));
    var n := Accepted(accepts, answer);
    if n < |answer| then (Err(WriteFailed), st, answer[..n])
    else
      var (ready, st') := Expect(st, "ready");
      if ready.Err? then (Err(ready.problem), st', answer)
      else if ready.value.args == [] then (Err(NoConnectionId), st', answer)
      else (Ok(ready.value.args[0]), st'.Flushed(), answer)
  }

  /** The whole handshake. */
  function Run(c: Config, st: State, accepts: seq<bool>): (r: (Result<Bytes>, State, seq<Bytes>))
    requires st.Ok()
    ensures r.1.Ok()
  {
    if Accepted(accepts, [Select(c)]) == 0 then (Err(WriteFailed), st, [])
    else
      var (args, st') := Expect(st, "args");
      if args.Err? then (Err(args.problem), st', [Select(c)])
      else
        var (r, st'', sent) := Conclude(c, args.value.args, st', if accepts == [] then [] else accepts[1..]);
        (r, st'', [Select(c)] + sent)
  }

  // ---------------------------------------------------------------- as the code does it

  method AssertOpcode(s: Stream, opcode: string) returns (r: Result<Ins>)
    requires s.Valid()
    modifies s`off, s`len, s`parseStart, s`compactions, s`moved, s`returned, s.conn`script, s.reset
    ensures s.Valid() && (r, s.State()) == Expect(old(s.State()), opcode)
  {
    hide StreamSpec.ReadSome, Instructions.ParseReply;
    var frame, lo, hi := s.ReadSome();
    if !frame.Frame? {
      return Err(ReadFailed(frame));
    }
    var reply := Instructions.Parse(s.reset[lo..hi]);
    if !reply.Parsed? {
      return Err(BadInstruction(reply));
    }
    if reply.ins.opcode == [] {
      return Err(EndOfStream);
    }
    if reply.ins.opcode != Ascii(opcode) {
      return Err(UnexpectedOpcode);
    }
    return Ok(reply.ins);
  }

  /** Builds the answers to the names the server listed. */
  method LookUp(parameters: map<Bytes, Bytes>, names: seq<Bytes>) returns (values: seq<Bytes>)
    ensures values == Values(parameters, names)
  {
    values := [];
    for i := 0 to |names|
      invariant values == Values(parameters, names)[..i]
    {
      var value := if names[i] in parameters then parameters[names[i]] else [];
      values := values + [value];
    }
  }

  /** Writes one instruction after the other, up to the first write that fails. */
  method Send(conn: Conn, messages: seq<Bytes>) returns (ok: bool)
    modifies conn`accepts, conn`written
    ensures var n := Accepted(old(conn.accepts), messages);
      ok == (n == |messages|) && conn.written == old(conn.written) + messages[..n]
      && (ok ==> conn.accepts == if |messages| <= |old(conn.accepts)| then old(conn.accepts)[|messages|..] else [])
  {
    ghost var start := conn.accepts;
    for i := 0 to |messages|
      invariant conn.accepts == if i <= |start| then start[i..] else []
      invariant conn.written == old(conn.written) + messages[..i]
      invariant Accepted(start, messages) == i + Accepted(conn.accepts, messages[i..])
    {
      var written := conn.Write(messages[i]);
      if !written {
        return false;
      }
      assert messages[i..][1..] == messages[i + 1..];
    }
    return true;
  }

  method AnswerArgs(s: Stream, config: Config, names: seq<Bytes>) returns (r: Result<Bytes>)
    requires s.Valid()
    modifies s`off, s`len, s`parseStart, s`compactions, s`moved, s`returned, s.conn, s.reset
    ensures s.Valid()
    ensures var (result, st, sent) := Conclude(config, names, old(s.State()), old(s.conn.accepts));
      r == result && s.State() == st && s.conn.written == old(s.conn.written) + sent
  {
    hide Expect, Answer, Accepted, Values;
    var values := LookUp(config.parameters, names);
    var answer := Answer(config, values);
    ghost var st := s.State();
    var answered := Send(s.conn, answer);
    assert s.State() == st;
    if !answered {
      return Err(WriteFailed);
    }
    assert answer[..|answer|] == answer;
    var ready := AssertOpcode(s, "ready");
    if ready.Err? {
      return Err(ready.problem);
    }
    if ready.value.args == [] {
      return Err(NoConnectionId);
    }
    s.Flush();
    return Ok(ready.value.args[0]);
  }

  method Handshake(s: Stream, config: Config) returns (r: Result<()>)
    requires s.Valid()
    modifies s, s.conn, s.reset
    ensures s.Valid()
    ensures var (result, st, sent) := Run(config, old(s.State()), old(s.conn.accepts));
      && s.State() == st
      && s.conn.written == old(s.conn.written) + sent
      && (if result.Ok? then r == Ok(()) && s.connectionId == result.value else r == Err(result.problem))
  {
    hide Expect, Select, Accepted, Conclude;
    ghost var st := s.State();
    var selected := Send(s.conn, [Select(config)]);
    assert s.State() == st;
    if !selected {
      return Err(WriteFailed);
    }
    assert [Select(config)][..1] == [Select(config)];
    var args := AssertOpcode(s, "args");
    if args.Err? {
      return Err(args.problem);
    }
    var id := AnswerArgs(s, config, args.value.args);
    if id.Err? {
      return Err(id.problem);
    }
    s.connectionId := id.value;
    return Ok(());
  }

  // ---------------------------------------------------------------- what a handshake achieves

  /** The messages of a handshake, spelled out, given the texts of the screen's width, height and resolution. */
  function Messages(c: Config, screen: seq<Bytes>, values: seq<Bytes>): (ms: seq<Bytes>)
    ensures |ms| == 6
  {
    [ Print([SELECT, if c.connectionId == [] then c.protocol else c.connectionId]),
      Print([SIZE] + screen),
      Print([AUDIO] + c.audio),
      Print([VIDEO] + c.video),
      Print([IMAGE] + c.image),
      Print([CONNECT] + values) ]
  }

  function Screen(c: Config): seq<Bytes> {
    [FormatInt(c.width), FormatInt(c.height), FormatInt(c.resolution)]
  }

  lemma MessagesWritten(c: Config, values: seq<Bytes>)
    ensures [Select(c)] + Answer(c, values) == Messages(c, Screen(c), values)
  {
    hide Print, Ascii, FormatInt;
    SelectBytes();
    SizeBytes();
    AudioBytes();
    VideoBytes();
    ImageBytes();
    ConnectBytes();
    var chosen := if c.connectionId == [] then c.protocol else c.connectionId;
    assert [SELECT] + [chosen] == [SELECT, chosen];
  }

  /** Does the text denote this number, when it is one of Go's int? */
  predicate Denotes(text: Bytes, n: int) {
    -MAX_INT - 1 <= n <= MAX_INT ==> Instructions.Atoi(text) == Some(n)
  }

  /** The texts denote the screen's width, height and resolution, in this order. */
  predicate ShowsScreen(c: Config, screen: seq<Bytes>) {
    |screen| == 3 && Denotes(screen[0], c.width) && Denotes(screen[1], c.height) && Denotes(screen[2], c.resolution)
  }

  lemma ScreenShown(c: Config)
    ensures ShowsScreen(c, Screen(c))
  {
    hide FormatInt, Instructions.Atoi;
    forall n | -MAX_INT - 1 <= n <= MAX_INT ensures Instructions.Atoi(FormatInt(n)) == Some(n) {
      Instructions.FormatReads(n);
    }
  }

  /** The values are those configured for the names, in order. */
  predicate Answers(c: Config, names: seq<Bytes>, values: seq<Bytes>) {
    && |values| == |names|
    && forall i | 0 <= i < |names| :: values[i] == if names[i] in c.parameters then c.parameters[names[i]] else []
  }

  /** An accepted instruction is one frame off the front of what is ahead. */
  lemma ExpectedFrame(st: State, opcode: string) returns (f: Bytes)
    requires st.Ok() && Expect(st, opcode).0.Ok?
    ensures var (r, st') := Expect(st, opcode);
      && ReadSome(st).0 == Frame(f) && Instructions.ParseReply(f) == Instructions.Parsed(r.value)
      && r.value.opcode == Ascii(opcode) && Ahead(st) == f + Ahead(st')
  {
    hide StreamSpec.ReadSome, Instructions.ParseReply, Ahead;
    ReadConserves(st);
    f := ReadSome(st).0.bytes;
  }

  /**
   Every successful run, whatever the bytes, the failures after it and the writes: it reads exactly two frames, one
   that parses as args and one that parses as ready, and leaves all bytes behind them, across the final overlapping
   compaction; it writes select, size, audio, video, image and connect in that order, with the configured value for
   each name in args; and the connection id is the first argument of ready.
   */
  lemma HandshakeConsumesTwo(c: Config, st: State, accepts: seq<bool>)
    returns (f: Bytes, g: Bytes, args: Ins, ready: Ins, screen: seq<Bytes>, values: seq<Bytes>)
    requires st.Ok() && Run(c, st, accepts).0.Ok?
    ensures Instructions.ParseReply(f) == Instructions.Parsed(args) && args.opcode == ARGS
    ensures Instructions.ParseReply(g) == Instructions.Parsed(ready) && ready.opcode == READY
    ensures ShowsScreen(c, screen) && Answers(c, args.args, values)
    ensures var (r, st', sent) := Run(c, st, accepts);
      && Reads(st, 2).0 == [Frame(f), Frame(g)] && Ahead(st) == f + g + Ahead(st')
      && ready.args != [] && r.value == ready.args[0]
      && sent == Messages(c, screen, values) && st'.off == 0
  {
    hide Expect, Select, Answer, Ascii, Ahead, Instructions.ParseReply, Messages, ReadSome, ShowsScreen, Screen;
    ArgsBytes();
    ReadyBytes();
    screen := Screen(c);
    ScreenShown(c);
    f := ExpectedFrame(st, "args");
    args := Expect(st, "args").0.value;
    var st1 := Expect(st, "args").1;
    g := ExpectedFrame(st1, "ready");
    ready := Expect(st1, "ready").0.value;
    values := Values(c.parameters, args.args);
    MessagesWritten(c, values);
    ExpectReads(st, "args");
    var st2 := Expect(st1, "ready").1;
    FlushKeepsAhead(st2);
    assert f + (g + Ahead(st2)) == f + g + Ahead(st2);
    assert Reads(st1, 1).0 == [Frame(g)];
    assert Reads(st, 2).0 == [Frame(f)] + Reads(st1, 1).0;
    var answer := Answer(c, values);
    assert answer[..|answer|] == answer;
  }

  lemma ExpectReads(st: State, opcode: string)
    requires st.Ok()
    ensures Expect(st, opcode).1 == ReadSome(st).1
  {
    hide ReadSome, Instructions.ParseReply, Ascii;
  }

  lemma FlushKeepsAhead(st: State)
    ensures Ahead(st.Flushed()) == Ahead(st)
  {
  }

  /** An expected instruction that comes next, without a failure on the way, is accepted. */
  lemma ExpectNext(st: State, opcode: string, ins: Ins, rest: Bytes, k: nat)
    requires st.Committed() && Fit([ins.Elements()]) && Ahead(st) == Encode(ins.Elements()) + rest
    requires Prompt(st.script, |Encode(ins.Elements())| + k - |st.buf|)
    requires ins.opcode == Ascii(opcode) && opcode != ""
    ensures var (r, st') := Expect(st, opcode);
      r == Ok(ins) && st'.Committed() && Ahead(st') == rest && Prompt(st'.script, k - |st'.buf|)
  {
    hide StreamSpec.ReadSome, Encode, Instructions.ParseReply, AllAscii, Ascii, Reaches, Prompt, Ahead;
    var es := ins.Elements();
    assert [es][0] == es;
    ShortFits(st, |Encode(es)|);
    NextFrame(st, es, rest, k);
    ParsesBack(ins);
  }

  lemma ParsesBack(ins: Ins)
    requires Fit([ins.Elements()])
    ensures Instructions.ParseReply(Encode(ins.Elements())) == Instructions.Parsed(ins)
  {
    hide Instructions.ParseReply, Encode, AllAscii, Print;
    var es := ins.Elements();
    assert [es][0] == es;
    PrintIsEncode(es);
    ElementsShort(es);
    ParseTheorems.RoundTripIff(ins);
  }

  /**
   A run succeeds when args and ready come next in any pieces, without a failure before they are complete, the six
   writes are accepted and ready carries an id; whatever comes behind ready, failures included. Without an id all is
   read and written alike, and the run fails.
   */
  lemma HandshakeSucceeds(c: Config, st: State, accepts: seq<bool>, args: Ins, ready: Ins, rest: Bytes)
    requires st.Committed() && Fit([args.Elements()]) && Fit([ready.Elements()])
    requires Ahead(st) == Encode(args.Elements()) + (Encode(ready.Elements()) + rest)
    requires Prompt(st.script, |Encode(args.Elements())| + |Encode(ready.Elements())| - |st.buf|)
    requires args.opcode == ARGS && ready.opcode == READY
    requires forall i | 0 <= i < 6 && i < |accepts| :: accepts[i]
    ensures var (r, st', sent) := Run(c, st, accepts);
      && r == (if ready.args == [] then Err(NoConnectionId) else Ok(ready.args[0]))
      && sent == Messages(c, Screen(c), Values(c.parameters, args.args))
      && Ahead(st') == rest && (r.Ok? ==> st'.Committed() && st'.off == 0)
  {
    hide Expect, Select, Answer, Values, Ascii, Fit, Reaches, Print, Ahead, Prompt, Encode, Messages, Screen;
    ArgsBytes();
    ReadyBytes();
    var m := |Encode(ready.Elements())|;
    ExpectNext(st, "args", args, Encode(ready.Elements()) + rest, m);
    var st1 := Expect(st, "args").1;
    ExpectNext(st1, "ready", ready, rest, 0);
    FlushKeepsAhead(Expect(st1, "ready").1);
    var answer := Answer(c, Values(c.parameters, args.args));
    MessagesWritten(c, Values(c.parameters, args.args));
    AllAccepted(accepts, [Select(c)]);
    AllAccepted(if accepts == [] then [] else accepts[1..], answer);
    assert answer[..|answer|] == answer;
  }

  /** What comes in place of an expected instruction is consumed and refused, with the reason. */
  lemma OtherNext(st: State, opcode: string, ins: Ins, rest: Bytes, k: nat)
    requires st.Committed() && Fit([ins.Elements()]) && Ahead(st) == Encode(ins.Elements()) + rest
    requires Prompt(st.script, |Encode(ins.Elements())| + k - |st.buf|)
    requires ins.opcode != Ascii(opcode)
    ensures var (r, st') := Expect(st, opcode);
      r == Err(if ins.opcode == [] then EndOfStream else UnexpectedOpcode) && Ahead(st') == rest
  {
    hide StreamSpec.ReadSome, Encode, Instructions.ParseReply, AllAscii, Ascii, Reaches, Prompt, Ahead;
    var es := ins.Elements();
    assert [es][0] == es;
    ShortFits(st, |Encode(es)|);
    NextFrame(st, es, rest, k);
    ParsesBack(ins);
  }

  /**
   Any run, successful or not: what is written is a prefix of the six messages, the connect values being those for
   some names; it is all of them after a success, and a failed write stops it at the first message refused.
   */
  lemma WrittenInOrder(c: Config, st: State, accepts: seq<bool>) returns (names: seq<Bytes>, k: nat)
    requires st.Ok()
    ensures var (r, _, sent) := Run(c, st, accepts);
      && k <= 6 && sent == Messages(c, Screen(c), Values(c.parameters, names))[..k]
      && (r.Ok? ==> k == 6)
      && (r == Err(WriteFailed) <==> k < |accepts| && k < 6 && !accepts[k] && (k == 0 || Expect(st, "args").0.Ok?))
      && (forall i | 0 <= i < k && i < |accepts| :: accepts[i])
  {
    hide Expect, Select, Answer, Values, Ascii, Screen, Messages;
    var args := Expect(st, "args").0;
    names := if args.Ok? then args.value.args else [];
    var values := Values(c.parameters, names);
    var all := Messages(c, Screen(c), values);
    MessagesWritten(c, values);
    assert all[0] == Select(c) && all[1..] == Answer(c, values);
    ExpectFails(st, "args");
    if Accepted(accepts, [Select(c)]) == 0 {
      k := 0;
    } else if args.Err? {
      k := 1;
    } else {
      ExpectFails(Expect(st, "args").1, "ready");
      k := 1 + Accepted(if accepts == [] then [] else accepts[1..], Answer(c, values));
      assert all[..k] == [all[0]] + all[1..][..k - 1];
    }
  }

  lemma ExpectFails(st: State, opcode: string)
    requires st.Ok()
    ensures Expect(st, opcode).0 != Err(WriteFailed) && Expect(st, opcode).0 != Err(NoConnectionId)
  {
    hide StreamSpec.ReadSome, Instructions.ParseReply, Ascii;
  }

  lemma {:induction false} AllAccepted(accepts: seq<bool>, messages: seq<Bytes>)
    requires forall i | 0 <= i < |messages| && i < |accepts| :: accepts[i]
    ensures Accepted(accepts, messages) == |messages|
    decreases |messages|
  {
    if messages != [] {
      AllAccepted(if accepts == [] then [] else accepts[1..], messages[1..]);
    }
  }
}
