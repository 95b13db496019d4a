/** Instructions: the printer with its cached rendering, and the parser that reads one frame back. */
module Instructions {
  import opened Base
  import opened Utf8
  import opened Wire
  import opened Options

  datatype Ins = Ins(opcode: Bytes, args: seq<Bytes>) {
    function Elements(): seq<Bytes> {
      [opcode] + args
    }
  }

  // ---------------------------------------------------------------- String

  /** The comma-separated fields of es. */
  function Fields(es: seq<Bytes>): Bytes
    requires es != []
  {
    var e := es[|es| - 1];
    if |es| == 1 then Field(|e|, e) else Fields(es[..|es| - 1]) + [COMMA] + Field(|e|, e)
  }

  lemma {:induction false} PrintFields(es: seq<Bytes>)
    requires es != []
    ensures Print(es) == Fields(es) + [SEMICOLON]
    decreases |es|
  {
    if |es| > 1 {
      PrintFields(es[1..]);
      FieldsFront(es);
    }
  }

  lemma {:induction false} FieldsFront(es: seq<Bytes>)
    requires |es| > 1
    ensures Fields(es) == Field(|es[0]|, es[0]) + [COMMA] + Fields(es[1..])
    decreases |es|
  {
    var front, e := es[..|es| - 1], es[|es| - 1];
    assert es[1..][..|es| - 2] == front[1..];
    if |es| > 2 {
      FieldsFront(front);
      assert Fields(es[1..]) == Fields(front[1..]) + [COMMA] + Field(|e|, e);
    }
  }

  class Instruction {
    const opcode: Bytes
    const args: seq<Bytes>
    var cache: Bytes

    constructor (opcode: Bytes, args: seq<Bytes>)
      ensures Valid() && Value() == Ins(opcode, args)
    {
      this.opcode, this.args, cache := opcode, args, [];
    }

    function Value(): Ins {
      Ins(opcode, args)
    }

    /** The cache is empty or a fresh rendering. */
    ghost predicate Valid()
      reads this
    {
      cache == [] || cache == Print(Value().Elements())
    }

    method String() returns (s: Bytes)
      requires Valid()
      modifies this
      ensures Valid() && s == Print(Value().Elements())
    {
      if cache != [] {
        return cache;
      }
      ghost var es := Value().Elements();
      cache := Decimal(|opcode|) + [DOT] + opcode;
      for i := 0 to |args|
        invariant cache == Fields(es[..i + 1])
      {
        assert es[..i + 2][..i + 1] == es[..i + 1];
        cache := cache + [COMMA] + (Decimal(|args[i]|) + [DOT] + args[i]);
      }
      assert es[..|args| + 1] == es;
      PrintFields(es);
      cache := cache + [SEMICOLON];
      return cache;
    }
  }

  // ---------------------------------------------------------------- Parse

  /** strconv.Atoi: an optional sign, then one or more digits, within the range of int. */
  function Atoi(s: Bytes): Option<int> {
    var negative := s != [] && s[0] == 45;
    var digits := if s != [] && (s[0] == 43 || s[0] == 45) then s[1..] else s;
    if digits == [] || !AllDigits(digits) then None
    else
      var n: int := Base.Value(digits);
      if negative then (if n <= MAX_INT + 1 then Some(-n) else None)
      else if n <= MAX_INT then Some(n)
      else None
  }

  lemma AtoiDigits(s: Bytes)
    requires AllDigits(s)
    ensures Atoi(s) == if s != [] && Base.Value(s) <= MAX_INT then Some(Base.Value(s)) else None
  {
  }

  /** What FormatInt prints reads back. */
  lemma FormatReads(n: int)
    requires -MAX_INT - 1 <= n <= MAX_INT
    ensures Atoi(FormatInt(n)) == Some(n)
  {
    hide FormatInt, Base.Value;
    var s := FormatInt(n);
    NotEmpty(n);
    NoDigitsNoValue();
    if n >= 0 {
      assert IsDigit(s[0]);
    }
  }

  lemma NoDigitsNoValue()
    ensures Base.Value([]) == 0
  {
  }

  lemma NotEmpty(n: int)
    ensures FormatInt(n) != []
  {
    hide Decimal;
  }

  function FindDot(data: Bytes, p: nat): (d: nat)
    requires p <= |data|
    ensures p <= d <= |data|
    ensures forall i | p <= i < d :: data[i] != DOT
    ensures d < |data| ==> data[d] == DOT
    decreases |data| - p
  {
    if p < |data| && data[p] != DOT then FindDot(data, p + 1) else p
  }

  /** The elements Parse collects, with the position it stops at, or why it stops early. */
  datatype Elements =
    | Done(es: seq<Bytes>, end: nat)
    | Incomplete
    | BadNumber
    | OutOfRange

  function Prepend(es: seq<Bytes>, r: Elements): Elements {
    if r.Done? then Done(es + r.es, r.end) else r
  }

  function ParseFrom(data: Bytes, p: nat): (r: Elements)
    requires p <= |data|
    decreases |data| - p
  {
    if p == |data| then Done([], p)
    else
      var d := FindDot(data, p);
      if d == |data| then Incomplete
      else
        match Atoi(data[p..d])
        case None => BadNumber
        case Some(n) =>
          var k := if n < 0 then 0 else n;
          var j := SkipRunes(data, d + 1, k);
          if j == |data| then OutOfRange
          else
            var e := Transcode(data, d + 1, k);
            if data[j] == SEMICOLON then Done([e], j + 1) else Prepend([e], ParseFrom(data, j + 1))
  }

  /** Parse's result: an instruction, an error, or a panic on an index out of range. */
  datatype Reply = Parsed(ins: Ins) | Refused | Panicked

  function ParseReply(data: Bytes): Reply {
    match ParseFrom(data, 0)
    case Done(es, _) => if es == [] then Panicked else Parsed(Ins(es[0], es[1..]))
    case Incomplete => Refused
    case BadNumber => Refused
    case OutOfRange => Panicked
  }

  /** What one more element does to the parse of the whole, given the elements collected before p. */
  lemma ParseProgress(data: Bytes, elements: seq<Bytes>, p: nat)
    requires p < |data| && ParseFrom(data, 0) == Prepend(elements, ParseFrom(data, p))
    ensures var whole := ParseFrom(data, 0);
      var d := FindDot(data, p);
      if d == |data| then whole == Incomplete
      else if Atoi(data[p..d]).None? then whole == BadNumber
      else
        var n := Atoi(data[p..d]).value;
        var k := if n < 0 then 0 else n;
        var j := SkipRunes(data, d + 1, k);
        var e := Transcode(data, d + 1, k);
        if j == |data| then whole == OutOfRange
        else if data[j] == SEMICOLON then whole == Done(elements + [e], j + 1)
        else whole == Prepend(elements + [e], ParseFrom(data, j + 1))
  {
    hide ParseFrom, Prepend, SkipRunes, Transcode, Atoi, FindDot;
    ParseStep(data, p);
    var d := FindDot(data, p);
    if d < |data| && Atoi(data[p..d]).Some? {
      var n := Atoi(data[p..d]).value;
      var k := if n < 0 then 0 else n;
      var j, e := SkipRunes(data, d + 1, k), Transcode(data, d + 1, k);
      PrependCases(elements, [e], j + 1);
      if j < |data| {
        PrependTwice(elements, [e], ParseFrom(data, j + 1));
      }
    } else {
      PrependCases(elements, [], 0);
    }
  }

  lemma PrependCases(xs: seq<Bytes>, ys: seq<Bytes>, end: nat)
    ensures Prepend(xs, Done(ys, end)) == Done(xs + ys, end)
    ensures Prepend(xs, Incomplete) == Incomplete
    ensures Prepend(xs, BadNumber) == BadNumber
    ensures Prepend(xs, OutOfRange) == OutOfRange
  {
  }

  lemma PrependTwice(xs: seq<Bytes>, ys: seq<Bytes>, r: Elements)
    ensures Prepend(xs, Prepend(ys, r)) == Prepend(xs + ys, r)
  {
    if r.Done? {
      assert xs + (ys + r.es) == xs + ys + r.es;
    }
  }

  /** One step of the parse, as an equation. */
  lemma ParseStep(data: Bytes, p: nat)
    requires p < |data|
    ensures var d := FindDot(data, p);
      ParseFrom(data, p) ==
        if d == |data| then Incomplete
        else if Atoi(data[p..d]).None? then BadNumber
        else
          var n := Atoi(data[p..d]).value;
          var k := if n < 0 then 0 else n;
          var j := SkipRunes(data, d + 1, k);
          var e := Transcode(data, d + 1, k);
          if j == |data| then OutOfRange
          else if data[j] == SEMICOLON then Done([e], j + 1)
          else Prepend([e], ParseFrom(data, j + 1))
  {
    hide SkipRunes, Transcode, Atoi, FindDot, Prepend;
  }

  method Parse(data: Bytes) returns (r: Reply)
    ensures r == ParseReply(data)
  {
    hide SkipRunes, Transcode, Atoi, FindDot, ParseFrom;
    var elementStart := 0;
    var elements: seq<Bytes> := [];
    while elementStart < |data|
      invariant 0 <= elementStart <= |data|
      invariant ParseFrom(data, 0) == Prepend(elements, ParseFrom(data, elementStart))
      decreases |data| - elementStart
    {
      ParseProgress(data, elements, elementStart);
      hide Prepend;
      var lengthEnd := FirstDot(data, elementStart);
      if lengthEnd == -1 {
        return Refused;
      }
      var length := Atoi(data[elementStart..lengthEnd]);
      if length.None? {
        return Refused;
      }
      var element, end := Characters(data, lengthEnd + 1, if length.value < 0 then 0 else length.value);
      if end == |data| {
        return Panicked;
      }
      elements := elements + [element];
      elementStart := end + 1;
      if data[end] == SEMICOLON {
        assert ParseFrom(data, 0) == Done(elements, elementStart);
        break;
      }
    }
    assert ParseFrom(data, 0).Done? && ParseFrom(data, 0).es == elements by {
      ParseEnd(data);
    }
    if elements == [] {
      return Panicked;
    }
    return Parsed(Ins(elements[0], elements[1..]));
  }

  lemma ParseEnd(data: Bytes)
    ensures ParseFrom(data, |data|) == Done([], |data|)
  {
  }

  /** Parse's search for the end of the length field; -1 when there is none. */
  method FirstDot(data: Bytes, start: nat) returns (lengthEnd: int)
    requires start <= |data|
    ensures lengthEnd == if FindDot(data, start) < |data| then FindDot(data, start) else -1
  {
    for i := start to |data|
      invariant FindDot(data, start) == FindDot(data, i)
    {
      if data[i] == DOT {
        return i;
      }
    }
    return -1;
  }

  /** Parse's loop over the characters of one element. */
  method Characters(data: Bytes, start: nat, length: nat) returns (element: Bytes, end: nat)
    requires start <= |data|
    ensures end == SkipRunes(data, start, length) && end <= |data|
    ensures element == Transcode(data, start, length)
  {
    hide DecodeRune, EncodeRune;
    element, end := [], start;
    for i := 0 to length
      invariant start <= end <= |data|
      invariant SkipRunes(data, start, length) == SkipRunes(data, end, length - i)
      invariant Transcode(data, start, length) == element + Transcode(data, end, length - i)
    {
      hide SkipRunes, Transcode;
      Utf8.Step(data, end, length - i - 1);
      var r := DecodeRune(data, end);
      element := element + EncodeRune(r.code);
      end := end + r.size;
    }
  }
}
