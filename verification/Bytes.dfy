/** Machine integers, the byte orders used on the wire, and what else several modules share. */
module Bytes {

  type byte = x: int | 0 <= x < 0x100
  type u16 = x: int | 0 <= x < 0x1_0000
  type u32 = x: int | 0 <= x < 0x1_0000_0000

  /** Reduction to 32 bits, as unsigned arithmetic does after every operation. */
  function Wrap32(n: int): u32 { n % 0x1_0000_0000 }

  datatype Option<+T> = None | Some(value: T)

  function Max(a: int, b: int): int { if a < b then b else a }

  function Min(a: int, b: int): int { if a < b then a else b }

  /** A set that is not empty has an element to pick. */
  lemma EmptyOrNot(s: set<int>)
    ensures s == {} || exists k: int :: k in s
  {
    if forall k: int :: k !in s { assert s == {}; }
  }

  /** Times are in nanoseconds. */
  const SECOND := 1_000_000_000

  /** encoding/binary BigEndian.PutUint16 and Uint16. */
  function PutBig16(n: u16): (b: seq<byte>)
    ensures |b| == 2
  {
    [n / 0x100, n % 0x100]
  }

  function Big16(b: seq<byte>): (n: u16)
    requires |b| == 2
  {
    (b[0] as int) * 0x100 + b[1]
  }

  /** encoding/binary BigEndian.PutUint32 and Uint32. */
  function PutBig32(n: u32): (b: seq<byte>)
    ensures |b| == 4
  {
    PutBig16(n / 0x1_0000) + PutBig16(n % 0x1_0000)
  }

  function Big32(b: seq<byte>): (n: u32)
    requires |b| == 4
  {
    Big16(b[..2]) * 0x1_0000 + Big16(b[2..])
  }

  /** encoding/binary LittleEndian.PutUint16 and Uint16. */
  function PutLittle16(n: u16): (b: seq<byte>)
    ensures |b| == 2
  {
    [n % 0x100, n / 0x100]
  }

  function Little16(b: seq<byte>): (n: u16)
    requires |b| == 2
  {
    (b[1] as int) * 0x100 + b[0]
  }

  lemma Big32RoundTrip(n: u32)
    ensures Big32(PutBig32(n)) == n
  {
    var b := PutBig32(n);
    assert b[..2] == PutBig16(n / 0x1_0000) && b[2..] == PutBig16(n % 0x1_0000);
  }

  /** Successive counters stay in step with their unbounded count. */
  lemma NextCounter(n: nat)
    ensures Wrap32(Wrap32(n) + 1) == Wrap32(n + 1) != Wrap32(n)
    ensures Wrap32(Wrap32(n + 1) - 1) == Wrap32(n)
  {
  }

  /** Two counts less than one lap apart agree on the wire only when they are the same. */
  lemma SameLap(a: nat, b: nat)
    requires Wrap32(a) == Wrap32(b)
    requires a <= b < a + 0x1_0000_0000
    ensures a == b
  {
  }

  /** The 32-bit difference of two counters is the difference of the counts. */
  lemma CounterGap(a: nat, b: nat)
    requires a <= b <= a + 1
    ensures Wrap32(Wrap32(b) - Wrap32(a)) == b - a
  {
  }
}
