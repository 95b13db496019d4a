/** The relays' tests on the first bytes of a message, and wsToGuacd, which filters what a client may send. */
module Filters {
  import opened Base
  import opened Utf8
  import opened Wire
  import opened Streams
  import opened Opcodes
  import Relays
  import RoomSpec

  /** A message from the browser, with the sender's rights at the time it is read. */
  datatype Message = Message(data: Bytes, role: RoomSpec.Role, mouse: bool, keyboard: bool)

  datatype Verdict = Internal | Command | Withheld | Forwarded

  function Judge(m: Message): Verdict {
    if Ascii("0.") <= m.data then Internal
    else if Ascii("5.AACMD") <= m.data then Command
    else if m.role != RoomSpec.Admin && Ascii("4.size") <= m.data then Withheld
    else if !m.mouse && Ascii("5.mouse") <= m.data then Withheld
    else if !m.keyboard && Ascii("3.key") <= m.data then Withheld
    else Forwarded
  }

  /** The data of the messages with the given verdict, in order. */
  function Select(messages: seq<Message>, v: Verdict): seq<Bytes>
    decreases |messages|
  {
    if messages == [] then []
    else
      var last := messages[|messages| - 1];
      Select(messages[..|messages| - 1], v) + if Judge(last) == v then [last.data] else []
  }

  lemma SelectMore(messages: seq<Message>, v: Verdict, n: nat)
    requires n < |messages|
    ensures Select(messages[..n + 1], v)
      == Select(messages[..n], v) + if Judge(messages[n]) == v then [messages[n].data] else []
  {
    hide Judge;
    assert messages[..n + 1][..n] == messages[..n];
  }

  /**
   The loop of wsToGuacd, until its messages run out or a write fails. k is the number of messages dealt with,
   commands are those handed to the command handler.
   */
  method WsToGuacd(messages: seq<Message>, guacd: Conn) returns (k: nat, commands: seq<Bytes>)
    modifies guacd`accepts, guacd`written
    ensures k <= |messages| && (k < |messages| ==> Judge(messages[k]).Forwarded?)
    ensures guacd.written == old(guacd.written) + Select(messages[..k], Forwarded)
    ensures commands == Select(messages[..k], Command)
    ensures k == |messages| <==> forall i | 0 <= i < |Select(messages, Forwarded)| && i < |old(guacd.accepts)| ::
      old(guacd.accepts)[i]
  {
    hide Judge, Select;
    ghost var accepts := guacd.accepts;
    SelectNothing(messages);
    k, commands := 0, [];
    while k < |messages|
      invariant k <= |messages|
      invariant guacd.written == old(guacd.written) + Select(messages[..k], Forwarded)
      invariant commands == Select(messages[..k], Command)
      invariant guacd.accepts == Remaining(accepts, |Select(messages[..k], Forwarded)|)
      invariant forall i | 0 <= i < |Select(messages[..k], Forwarded)| && i < |accepts| :: accepts[i]
      decreases |messages| - k
    {
      SelectMore(messages, Forwarded, k);
      SelectMore(messages, Command, k);
      SelectPrefix(messages, Forwarded, k + 1);
      var verdict := Judge(messages[k]);
      if verdict == Command {
        commands := commands + [messages[k].data];
      } else if verdict == Forwarded {
        var ok := guacd.Write(messages[k].data);
        if !ok {
          return;
        }
      }
      k := k + 1;
    }
    assert messages[..k] == messages;
  }

  function Remaining(accepts: seq<bool>, n: nat): seq<bool> {
    if n <= |accepts| then accepts[n..] else []
  }

  lemma SelectNothing(messages: seq<Message>)
    ensures forall v :: Select(messages[..0], v) == []
  {
  }

  lemma {:induction false} SelectPrefix(messages: seq<Message>, v: Verdict, n: nat)
    requires n <= |messages|
    ensures Select(messages[..n], v) <= Select(messages, v)
    decreases |messages| - n
  {
    hide Select, Judge;
    if n == |messages| {
      assert messages[..n] == messages;
    } else {
      SelectMore(messages, v, n);
      SelectPrefix(messages, v, n + 1);
    }
  }

  // ---------------------------------------------------------------- what the prefix tests test

  lemma {:induction false} AsciiFront(op: Bytes, e: Bytes)
    requires IsAscii(op) && op <= e
    ensures RuneCount(e) == |op| + RuneCount(e[|op|..])
    decreases |op|
  {
    hide HasChar, CodeAt;
    if op == [] {
      assert e[0..] == e;
    } else {
      OneByte(e);
      AsciiFront(op[1..], e[1..]);
      assert e[1..][|op| - 1..] == e[|op|..];
    }
  }

  lemma OneByte(e: Bytes)
    requires e != [] && e[0] < 0x80
    ensures DecodeRune(e, 0).size == 1
  {
  }

  /** An opcode field at the start of a well-formed message is the field of its first opcode. */
  lemma OpcodeTest(op: Bytes, es: seq<Bytes>, rest: Bytes)
    requires IsAscii(op) && es != [] && AllUtf8(es)
    ensures Field(|op|, op) <= Encode(es) + rest <==> es[0] == op
  {
    hide IsUtf8, RuneCount, Field, IsAscii, Encode;
    FirstField(es, rest);
    if es[0] == op {
      AsciiIsUtf8(op);
    }
    if Field(|op|, op) <= Encode(es) + rest {
      SameOpcode(Encode(es) + rest, op, es[0]);
    }
  }

  lemma SameOpcode(data: Bytes, op: Bytes, e: Bytes)
    requires IsAscii(op) && At(data, 0, Field(RuneCount(e), e)) && At(data, 0, Field(|op|, op))
    ensures e == op
  {
    hide RuneCount, IsAscii, Decimal, SkipDigits, Value;
    var n := RuneCount(e);
    LengthRead(data, 0, n, e);
    LengthRead(data, 0, |op|, op);
    assert n == |op| by {
      assert Value(Decimal(n)) == n && Value(Decimal(|op|)) == |op|;
    }
    var q := |Decimal(n)| + 1;
    assert op == data[q..q + |op|] && e == data[q..q + |e|];
    assert op <= e;
    AsciiFront(op, e);
    NoMore(e[|op|..]);
  }

  lemma FirstField(es: seq<Bytes>, rest: Bytes)
    requires es != []
    ensures var f := Field(RuneCount(es[0]), es[0]); f <= Encode(es) + rest && At(Encode(es) + rest, 0, f)
  {
    hide Field, RuneCount;
    var f := Field(RuneCount(es[0]), es[0]);
    assert f <= Encode(es);
  }

  lemma NoMore(s: Bytes)
    requires RuneCount(s) == 0
    ensures s == []
  {
  }

  lemma OneDigit(op: Bytes, text: Bytes)
    requires |op| < 10 && |text| == |op| + 2 && text[0] == 48 + |op| && text[1] == DOT && text[2..] == op
    ensures Field(|op|, op) == text
  {
    assert text == [text[0]] + [text[1]] + text[2..];
  }

  /** The texts the filter looks for are opcode fields. */
  lemma Texts()
    ensures Field(0, []) == Ascii("0.")
    ensures Field(5, Ascii("AACMD")) == Ascii("5.AACMD") && IsAscii(Ascii("AACMD"))
    ensures Field(4, Ascii("size")) == Ascii("4.size") && IsAscii(Ascii("size"))
    ensures Field(5, Ascii("mouse")) == Ascii("5.mouse") && IsAscii(Ascii("mouse"))
    ensures Field(3, Ascii("key")) == Ascii("3.key") && IsAscii(Ascii("key"))
  {
    hide Field, Ascii, IsAscii;
    NothingText();
    CommandText();
    SizeText();
    MouseText();
    KeyText();
  }

  lemma NothingText()
    ensures Field(0, []) == Ascii("0.")
  {
    hide Field;
    OneDigit([], Ascii("0."));
  }

  lemma CommandText()
    ensures Field(5, Ascii("AACMD")) == Ascii("5.AACMD") && IsAscii(Ascii("AACMD"))
  {
    hide Field;
    OneDigit(Ascii("AACMD"), Ascii("5.AACMD"));
  }

  lemma SizeText()
    ensures Field(4, Ascii("size")) == Ascii("4.size") && IsAscii(Ascii("size"))
  {
    hide Field;
    OneDigit(Ascii("size"), Ascii("4.size"));
  }

  lemma MouseText()
    ensures Field(5, Ascii("mouse")) == Ascii("5.mouse") && IsAscii(Ascii("mouse"))
  {
    hide Field;
    OneDigit(Ascii("mouse"), Ascii("5.mouse"));
  }

  lemma KeyText()
    ensures Field(3, Ascii("key")) == Ascii("3.key") && IsAscii(Ascii("key"))
  {
    hide Field;
    OneDigit(Ascii("key"), Ascii("3.key"));
  }

  /**
   Of a message that starts with a well-formed instruction, the filter judges exactly the opcode of that
   instruction, byte for byte, against the rights of the sender.
   */
  lemma JudgedByOpcode(m: Message, es: seq<Bytes>, rest: Bytes)
    requires es != [] && AllUtf8(es) && m.data == Encode(es) + rest
    ensures Judge(m).Internal? <==> es[0] == []
    ensures Judge(m).Command? <==> es[0] == COMMAND
    ensures Judge(m).Withheld? <==>
      || (es[0] == SIZE && m.role != RoomSpec.Admin)
      || (es[0] == MOUSE && !m.mouse)
      || (es[0] == KEY && !m.keyboard)
  {
    hide Field, Ascii, IsAscii, Encode, AllUtf8;
    Texts();
    NoBytes();
    CommandBytes();
    SizeBytes();
    MouseBytes();
    KeyBytes();
    OpcodeTest([], es, rest);
    OpcodeTest(COMMAND, es, rest);
    OpcodeTest(SIZE, es, rest);
    OpcodeTest(MOUSE, es, rest);
    OpcodeTest(KEY, es, rest);
  }

  lemma NoBytes()
    ensures IsAscii([])
  {
  }

  /** What guacdToWs keeps back are exactly the instructions with the empty opcode and server_info. */
  lemma RelayedByOpcode(es: seq<Bytes>)
    requires es != [] && AllUtf8(es)
    ensures Relays.IsInternal(Encode(es)) <==> es[0] == []
    ensures Relays.IsServerInfo(Encode(es)) <==> es[0] == SERVER_INFO
  {
    hide Field, Ascii, IsAscii, Encode, AllUtf8;
    Texts();
    NoBytes();
    OpcodeTest([], es, []);
    Relays.OpcodeField();
    ServerInfoBytes();
    OpcodeTest(SERVER_INFO, es, []);
    assert Encode(es) + [] == Encode(es);
  }

  /** The message of a viewer without rights that must not reach guacd: 5.mouse,1.9,1.9,1.0; */
  lemma MouseWithheld()
    ensures var data: Bytes := [53, 46, 109, 111, 117, 115, 101, 44, 49, 46, 57, 44, 49, 46, 57, 44, 49, 46, 48, 59];
      Judge(Message(data, RoomSpec.Viewer, false, false)) == Withheld
  {
    hide Ascii;
    var data: Bytes := [53, 46, 109, 111, 117, 115, 101, 44, 49, 46, 57, 44, 49, 46, 57, 44, 49, 46, 48, 59];
    MousePrefix();
    assert data[..7] == Ascii("5.mouse");
    assert Ascii("0.")[0] == 48 && Ascii("5.AACMD")[2] == 65;
  }

  lemma MousePrefix()
    ensures Ascii("5.mouse") == [53, 46, 109, 111, 117, 115, 101]
  {
  }
}
