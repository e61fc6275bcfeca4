/**
 The numbers and byte strings everything on the wire is made of: big-endian
 integers of fixed width, and lists of byte strings laid end to end.
 */
module Bytes {
  type Byte = x: int | 0 <= x < 0x100
  type Word = x: int | 0 <= x < 0x1_0000

  datatype Option<+T> = None | Some(value: T)

  // Go's error returns: a value, or the reason there is none.
  datatype Result<+T, +E> = Ok(value: T) | Err(error: E)

  function BigEndian16(hi: Byte, lo: Byte): Word {
    0x100 * hi + lo
  }

  function BigEndian24(a: Byte, b: Byte, c: Byte): nat {
    0x1_0000 * a + 0x100 * b + c
  }

  function BigEndian32(a: Byte, b: Byte, c: Byte, d: Byte): nat {
    0x100_0000 * a + 0x1_0000 * b + 0x100 * c + d
  }

  function PutUint16(w: Word): (s: seq<Byte>)
    ensures |s| == 2
  {
    [w / 0x100, w % 0x100]
  }

  lemma PutUint16OfBytes(hi: Byte, lo: Byte)
    ensures PutUint16(BigEndian16(hi, lo)) == [hi, lo]
  {
  }

  // The bottom eight bits of a value (lowByte).
  function LowByte(n: nat): Byte {
    n % 0x100
  }

  function PutUint24(n: nat): (s: seq<Byte>)
    ensures |s| == 3
    ensures n < 0x100_0000 ==> BigEndian24(s[0], s[1], s[2]) == n
  {
    [LowByte(n / 0x100 / 0x100), LowByte(n / 0x100), LowByte(n)]
  }

  lemma HeadAndTail<T>(s: seq<T>, t: seq<T>)
    requires s != []
    ensures s + t == [s[0]] + (s[1..] + t)
  {
  }

  lemma Associate<T>(a: seq<T>, b: seq<T>, c: seq<T>)
    ensures (a + b) + c == a + (b + c)
  {
  }

  lemma ConsAppend<T>(s: seq<T>, t: seq<T>)
    requires s != []
    ensures (s + t)[0] == s[0] && (s + t)[1..] == s[1..] + t
  {
  }

  lemma SplitAt<T>(s: seq<T>, k: nat)
    requires k <= |s|
    ensures s[..k] + s[k..] == s
  {
  }

  lemma FrontAndLast<T>(s: seq<T>)
    requires s != []
    ensures s[..|s| - 1] + [s[|s| - 1]] == s
  {
  }

  // Pieces laid end to end.
  function Concat<T>(parts: seq<seq<T>>): seq<T> {
    if parts == [] then [] else parts[0] + Concat(parts[1..])
  }

  lemma {:induction false} ConcatAppend<T>(a: seq<seq<T>>, b: seq<seq<T>>)
    ensures Concat(a + b) == Concat(a) + Concat(b)
  {
    if a == [] {
      assert a + b == b;
    } else {
      ConcatAppend(a[1..], b);
      ConsAppend(a, b);
      Associate(a[0], Concat(a[1..]), Concat(b));
    }
  }
}
