/** Bytes, byte strings and decimal numerals, shared by every protocol module. */
module Base {

  type Byte = b: int | 0 <= b < 256

  type Bytes = seq<Byte>

  const DOT: Byte := 46
  const COMMA: Byte := 44
  const SEMICOLON: Byte := 59

  // The largest value of Go's 64-bit int.
  const MAX_INT := 0x7FFF_FFFF_FFFF_FFFF

  /** The bytes of a string literal whose characters are all one byte wide. */
  function Ascii(s: string): (b: Bytes)
    ensures |b| == |s|
    ensures forall i | 0 <= i < |s| && s[i] < 128 as char :: b[i] == s[i] as int
  {
    seq(|s|, i requires 0 <= i < |s| => s[i] as int % 256)
  }

  /** Concatenation of a list of sequences, in order. */
  function Concat<T>(xs: seq<seq<T>>): seq<T> {
    if xs == [] then [] else xs[0] + Concat(xs[1..])
  }

  lemma {:induction false} ConcatAppend<T>(xs: seq<seq<T>>, ys: seq<seq<T>>)
    ensures Concat(xs + ys) == Concat(xs) + Concat(ys)
  {
    if xs == [] {
      assert xs + ys == ys;
    } else {
      assert (xs + ys)[1..] == xs[1..] + ys;
      ConcatAppend(xs[1..], ys);
    }
  }

  lemma ConcatSnoc<T>(xs: seq<seq<T>>, x: seq<T>)
    ensures Concat(xs + [x]) == Concat(xs) + x
  {
    ConcatAppend(xs, [x]);
    assert [x][1..] == [];
  }

  /** Does s stand at position p of buf? */
  predicate At(buf: Bytes, p: nat, s: Bytes) {
    p + |s| <= |buf| && buf[p..p + |s|] == s
  }

  lemma AtSplit(buf: Bytes, p: nat, x: Bytes, y: Bytes)
    ensures At(buf, p, x + y) <==> At(buf, p, x) && At(buf, p + |x|, y)
  {
    if p + |x| + |y| <= |buf| {
      assert buf[p..p + |x + y|] == buf[p..p + |x|] + buf[p + |x|..p + |x| + |y|];
      assert (x + y)[..|x|] == x && (x + y)[|x|..] == y;
    }
  }

  predicate IsDigit(b: Byte) {
    48 <= b <= 57
  }

  predicate AllDigits(s: Bytes) {
    forall i | 0 <= i < |s| :: IsDigit(s[i])
  }

  /** The number a digit string denotes; the empty string denotes 0. */
  function Value(s: Bytes): nat
    requires AllDigits(s)
  {
    if s == [] then 0 else 10 * Value(s[..|s| - 1]) + (s[|s| - 1] - 48)
  }

  /** Go's %d for a non-negative int. */
  function Decimal(n: nat): (s: Bytes)
    ensures |s| > 0 && AllDigits(s) && Value(s) == n
    ensures |s| > 1 ==> s[0] != 48
  {
    if n < 10 then
      [48 + n]
    else
      var front := Decimal(n / 10);
      var s := front + [48 + n % 10];
      assert s[..|s| - 1] == front;
      s
  }

  /** Go's %v for an int. */
  function FormatInt(n: int): (s: Bytes)
    ensures n >= 0 ==> AllDigits(s) && Value(s) == n
    ensures n < 0 ==> s != [] && s[0] == 45 && AllDigits(s[1..]) && Value(s[1..]) == -n
  {
    if n < 0 then [45] + Decimal(-n) else Decimal(n)
  }
}
