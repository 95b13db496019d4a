/** The stream over one fixed array, its connection, and the loop of ReadSome. */
module Streams {
  import opened Base
  import opened Utf8
  import opened Wire
  import opened StreamSpec
  import opened Options

  /** The network connection: what its reads will yield, whether its writes succeed, and what was written. */
  class Conn {
    var script: seq<Event>
    var accepts: seq<bool>
    var written: seq<Bytes>

    constructor (script: seq<Event>, accepts: seq<bool>)
      ensures this.script == script && this.accepts == accepts && written == []
    {
      this.script, this.accepts, written := script, accepts, [];
    }

    /** Read into buf[lo..hi]. The end of the script is the end of the connection. */
    method Read(buf: array<Byte>, lo: nat, hi: nat) returns (n: nat, err: Option<NetError>)
      requires lo <= hi <= buf.Length
      modifies this`script, buf
      ensures forall j | 0 <= j < buf.Length && !(lo <= j < lo + n) :: buf[j] == old(buf[j])
      ensures lo == hi || old(script) == [] ==>
        n == 0 && script == old(script) && err == if lo == hi then None else Some(Other)
      ensures lo < hi && old(script) != [] && old(script)[0].Fail? ==>
        n == 0 && err == Some(old(script)[0].error) && script == old(script)[1..]
      ensures lo < hi && old(script) != [] && old(script)[0].Chunk? ==>
        && err == None && 0 < n == (if |old(script)[0].data| <= hi - lo then |old(script)[0].data| else hi - lo)
        && buf[lo..lo + n] == old(script)[0].data[..n] && script == After(old(script), n)
    {
      n, err := 0, None;
      if lo == hi {
        return;
      }
      if script == [] {
        return 0, Some(Other);
      }
      match script[0]
      case Fail(e) =>
        script := script[1..];
        return 0, Some(e);
      case Chunk(data) =>
        n := if |data| <= hi - lo then |data| else hi - lo;
        for i := 0 to n
          invariant unchanged(this)
          invariant forall j | 0 <= j < buf.Length :: buf[j] == if lo <= j < lo + i then data[j - lo] else old(buf[j])
        {
          buf[lo + i] := data[i];
        }
        script := After(script, n);
    }

    /** Write whole messages; accepts says whether the next write succeeds, and writes beyond it do. */
    method Write(data: Bytes) returns (ok: bool)
      modifies this`accepts, this`written
      ensures ok == (old(accepts) == [] || old(accepts)[0])
      ensures written == if ok then old(written) + [data] else old(written)
      ensures accepts == if old(accepts) == [] then [] else old(accepts)[1..]
    {
      ok := accepts == [] || accepts[0];
      if accepts != [] {
        accepts := accepts[1..];
      }
      if ok {
        written := written + [data];
      }
    }
  }

  class Stream {
    const conn: Conn
    const reset: array<Byte>
    var connectionId: Bytes
    // the buffer is reset[off..off + len], with capacity up to the end of reset
    var off: nat
    var len: nat
    var parseStart: nat
    // how often compaction ran, how many bytes it copied, and how many were handed out
    ghost var compactions: nat
    ghost var moved: nat
    ghost var returned: nat

    ghost predicate Valid()
      reads this
    {
      reset.Length == CAPACITY && off + len <= CAPACITY && parseStart <= len
    }

    ghost function State(): (st: StreamSpec.State)
      requires Valid()
      reads this, conn, reset
      ensures st.Ok()
    {
      StreamSpec.State(off, reset[off..off + len], parseStart, conn.script, moved, returned)
    }

    constructor (conn: Conn)
      ensures Valid() && this.conn == conn && fresh(reset)
      ensures State() == StreamSpec.State(0, [], 0, conn.script, 0, 0)
    {
      this.conn := conn;
      reset := new Byte[CAPACITY](_ => 0);
      connectionId := [];
      off, len, parseStart := 0, 0, 0;
      compactions, moved, returned := 0, 0, 0;
    }

    method Available() returns (b: bool)
      requires Valid()
      ensures b == (State().buf != [])
    {
      return len > 0;
    }

    /** Moves the buffer to the start of the array; source and destination may overlap. */
    method Flush()
      requires Valid()
      modifies this`off, this`compactions, this`moved, reset
      ensures Valid() && State() == old(State()).Flushed() && compactions == old(compactions) + 1
      ensures off == 0 && reset[..len] == old(reset[off..off + len]) && moved == old(moved) + len
    {
      for i := 0 to len
        invariant unchanged(this)
        invariant forall k | 0 <= k < reset.Length :: reset[k] == if k < i then old(reset[off + k]) else old(reset[k])
      {
        reset[i] := reset[off + i];
      }
      off := 0;
      compactions, moved := compactions + 1, moved + len;
      assert reset[0..len] == old(reset[off..off + len]);
    }

    /** The parse loop over the buffered bytes: parseStart moves on behind each complete element. */
    method ParseBuffer() returns (scan: Scan)
      requires Valid()
      modifies this`parseStart
      ensures Valid() && scan == ScanFrom(old(State()).buf, old(parseStart))
      ensures parseStart == if scan.Whole? then scan.end else scan.start
    {
      hide ScanElement;
      ghost var buf := State().buf;
      while true
        invariant Valid() && reset[off..off + len] == buf
        invariant ScanFrom(buf, parseStart) == ScanFrom(buf, old(parseStart))
        decreases len - parseStart
      {
        var step := ParseElement(parseStart);
        match step
        case Element(next, last) =>
          parseStart := next;
          if last {
            return Whole(next);
          }
        case Wait => return More(parseStart);
        case BadTerminator(next) =>
          parseStart := next;
          return WrongTerminator(next);
        case BadLength => return WrongLength(parseStart);
        case Fault => return Crash(parseStart);
      }
    }

    /** The part of the loop that reads one length field and the element behind it. */
    method ParseElement(start: nat) returns (step: Step)
      requires Valid() && start <= len
      ensures step == ScanElement(State().buf, start)
    {
      hide SkipRunes, SkipDigits, Base.Value, ScanElement, AllDigits, IsDigit;
      ghost var buf := State().buf;
      var elementLength: nat := 0;
      var i := start;
      NoDigits(buf, i);
      while i < len
        invariant start <= i <= len
        invariant AllDigits(buf[start..i]) && Base.Value(buf[start..i]) == elementLength
      {
        var readChar: int := reset[off + i];
        i := i + 1;
        if IsDigit(readChar) {
          OneMoreDigit(buf, start, i - 1);
          elementLength := elementLength * 10 + (readChar - 48);
        } else {
          step := EndOfLength(start, i - 1, elementLength);
          return;
        }
      }
      ElementAt(buf, start, i);
      return Wait;
    }

    /** What follows the digits of a length field that ends at q, where there is a byte that is no digit. */
    method EndOfLength(ghost start: nat, q: nat, elementLength: nat) returns (step: Step)
      requires Valid() && start <= q < len
      requires AllDigits(State().buf[start..q]) && Base.Value(State().buf[start..q]) == elementLength
      requires !IsDigit(State().buf[q])
      ensures step == ScanElement(State().buf, start)
    {
      hide SkipRunes, SkipDigits, Base.Value, ScanElement, AllDigits, IsDigit;
      ElementAt(State().buf, start, q);
      if reset[off + q] != DOT {
        return BadLength;
      }
      var i := q + 1;
      if i + elementLength >= len {
        return Wait;
      }
      i := SkipElement(i, elementLength);
      if i == len {
        return Fault;
      }
      var terminator := reset[off + i];
      if terminator == SEMICOLON {
        return Element(i + 1, true);
      } else if terminator == COMMA {
        return Element(i + 1, false);
      }
      return BadTerminator(i + 1);
    }

    /** The scan of an element at p, once its digits are known to end at q. */
    static lemma ElementAt(buf: Bytes, p: nat, q: nat)
      requires p <= q <= |buf| && AllDigits(buf[p..q]) && (q < |buf| ==> !IsDigit(buf[q]))
      ensures ScanElement(buf, p) ==
        if q == |buf| then Wait
        else if buf[q] != DOT then BadLength
        else
          var k := Base.Value(buf[p..q]);
          if q + 1 + k >= |buf| then Wait
          else
            var j := SkipRunes(buf, q + 1, k);
            if j == |buf| then Fault
            else if buf[j] == SEMICOLON then Element(j + 1, true)
            else if buf[j] == COMMA then Element(j + 1, false)
            else BadTerminator(j + 1)
    {
      hide SkipRunes, SkipDigits, Base.Value;
      DigitsEnd(buf, p, buf[p..q]);
    }

    static lemma NoDigits(buf: Bytes, p: nat)
      requires p <= |buf|
      ensures AllDigits(buf[p..p]) && Base.Value(buf[p..p]) == 0
    {
    }

    static lemma OneMoreDigit(buf: Bytes, p: nat, q: nat)
      requires p <= q < |buf| && AllDigits(buf[p..q]) && IsDigit(buf[q])
      ensures AllDigits(buf[p..q + 1])
      ensures var digit: int := buf[q]; Base.Value(buf[p..q + 1]) == Base.Value(buf[p..q]) * 10 + (digit - 48)
    {
      assert buf[p..q + 1][..q - p] == buf[p..q];
    }

    /** Steps over the characters of an element. */
    method SkipElement(start: nat, elementLength: nat) returns (i: nat)
      requires Valid() && start <= len
      ensures i == SkipRunes(State().buf, start, elementLength) && i <= len
    {
      hide DecodeRune;
      i := start;
      for c := 0 to elementLength
        invariant i <= len
        invariant SkipRunes(State().buf, start, elementLength) == SkipRunes(State().buf, i, elementLength - c)
      {
        var size := DecodeRune(reset[off..off + len], i).size;
        i := i + size;
      }
    }

    /** Reads into the free part of the buffer's capacity. */
    method ReadMore() returns (n: nat, err: Option<NetError>)
      requires Valid()
      modifies this`len, conn`script, reset
      ensures Valid() && forall j | 0 <= j < old(off + len) :: reset[j] == old(reset[j])
      ensures var st := old(State());
        if st.Room() == 0 then n == 0 && err == None && State() == st
        else if st.script == [] then n == 0 && err == Some(Other) && State() == st
        else if st.script[0].Fail? then
          n == 0 && err == Some(st.script[0].error) && State() == st.(script := st.script[1..])
        else n > 0 && err == None && State() == st.Filled()
    {
      hide After;
      ghost var buf := State().buf;
      n, err := conn.Read(reset, off + len, reset.Length);
      assert reset[off..off + len] == buf;
      assert reset[off..off + len + n] == buf + reset[off + len..off + len + n];
      len := len + n;
    }

    /** The capacity check and the read; None when the loop goes round again. */
    method Receive() returns (r: Option<Outcome>)
      requires Valid()
      modifies this`off, this`len, this`compactions, this`moved, conn`script, reset
      ensures Valid() && parseStart == old(parseStart) && !(r.Some? && r.value.Frame?)
      ensures (if r.Some? then Returns(r.value, State()) else Again(State())) == StreamSpec.Receive(old(State()))
      ensures Kept(old(compactions), old(off + len), old(reset[..]))
    {
      hide After, ToRead;
      if reset.Length - off < MAX {
        Flush();
      }
      var n, err := ReadMore();
      if err.Some? {
        return Some(Failed(KindOf(err.value)));
      }
      if n == 0 {
        // an empty window: the error is set but not returned, and the loop reads into the empty window again
        return Some(Stuck);
      }
      return None;
    }

    /** Unless a compaction has run since, the array still starts with the first n bytes of was. */
    ghost predicate Kept(since: nat, n: nat, was: seq<Byte>)
      reads this, reset
    {
      && since <= compactions
      && (compactions == since ==> n <= off + len && n <= reset.Length && n <= |was| && reset[..n] == was[..n])
    }

    /** Hands out the first end bytes of the buffer. */
    method TakeFrame(end: nat) returns (r: Outcome, lo: nat, hi: nat)
      requires Valid() && end <= len
      modifies this`off, this`len, this`parseStart, this`returned
      ensures Valid() && State() == old(State()).Delivered(end)
      ensures r == Frame(old(State()).buf[..end])
      ensures lo <= hi <= reset.Length && reset[lo..hi] == r.bytes && hi == off && off + len == old(off + len)
    {
      ghost var buf := State().buf;
      lo, hi := off, off + end;
      r := Frame(reset[lo..hi]);
      parseStart := 0;
      off := off + end;
      len := len - end;
      returned := returned + end;
      assert reset[off..off + len] == buf[end..];
      assert r.bytes == buf[..end];
    }

    /** One round of the loop; None when it goes round again. */
    method Round() returns (r: Option<Outcome>, lo: nat, hi: nat)
      requires Valid()
      modifies this`off, this`len, this`parseStart, this`compactions, this`moved, this`returned, conn`script, reset
      ensures Valid()
      ensures (if r.Some? then Returns(r.value, State()) else Again(State())) == Pass(old(State()), old(parseStart))
      ensures r.Some? && r.value.Frame? ==> lo <= hi <= reset.Length && reset[lo..hi] == r.value.bytes && hi == off
      ensures Kept(old(compactions), old(off + len), old(reset[..]))
    {
      hide ScanFrom, StreamSpec.Receive, ToRead;
      r, lo, hi := None, 0, 0;
      ghost var st := State();
      var scan := ParseBuffer();
      assert State() == st.(parseStart := parseStart);
      match scan
      case Whole(end) =>
        var frame;
        frame, lo, hi := TakeFrame(end);
        r := Some(frame);
      case WrongTerminator(_) => r := Some(Malformed);
      case WrongLength(_) => r := Some(Malformed);
      case Crash(_) => r := Some(Panicked);
      case More(_) => r := Receive();
    }

    /**
     The next frame, as bytes and as the slice reset[lo..hi] that the caller is handed. Slices handed out
     earlier keep their bytes until a compaction.
     */
    method ReadSome() returns (r: Outcome, lo: nat, hi: nat)
      requires Valid()
      modifies this`off, this`len, this`parseStart, this`compactions, this`moved, this`returned, conn`script, reset
      ensures Valid() && (r, State()) == StreamSpec.ReadSome(old(State()))
      ensures r.Frame? ==> lo <= hi <= reset.Length && reset[lo..hi] == r.bytes && hi == off
      ensures Kept(old(compactions), old(off + len), old(reset[..]))
    {
      hide Pass, StreamSpec.ReadSome;
      ghost var start := State();
      while true
        invariant Valid() && StreamSpec.ReadSome(State()) == StreamSpec.ReadSome(start)
        invariant Kept(old(compactions), old(off + len), old(reset[..]))
        decreases ToRead(State())
      {
        var done;
        ReadRound(State());
        done, lo, hi := Round();
        if done.Some? {
          return done.value, lo, hi;
        }
      }
    }
  }
}
