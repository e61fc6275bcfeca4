/**
 Reading big-endian integers and length-prefixed blocks off the front of a byte
 string (pkg/tls/wire/reader.go). The functions say what one read yields; the class
 is the cursor the parsers move.
 */
module Readers {
  import opened Bytes

  // What one read yields: the value and the bytes after it, or nothing.
  datatype Taken<+T> = Taken(value: T, rest: seq<Byte>) | Truncated {
    predicate IsFailure() {
      Truncated?
    }

    function PropagateFailure<U>(): Taken<U>
      requires Truncated?
    {
      Truncated
    }

    function Extract(): (T, seq<Byte>)
      requires Taken?
    {
      (value, rest)
    }
  }

  function TakeBytes(s: seq<Byte>, count: int): Taken<seq<Byte>> {
    if count < 0 || |s| < count then Truncated else Taken(s[..count], s[count..])
  }

  function TakeUint8(s: seq<Byte>): Taken<Byte> {
    if |s| < 1 then Truncated else Taken(s[0], s[1..])
  }

  function TakeUint16(s: seq<Byte>): Taken<Word> {
    if |s| < 2 then Truncated else Taken(BigEndian16(s[0], s[1]), s[2..])
  }

  function TakeUint24(s: seq<Byte>): Taken<nat> {
    if |s| < 3 then Truncated else Taken(BigEndian24(s[0], s[1], s[2]), s[3..])
  }

  function TakeUint32(s: seq<Byte>): Taken<nat> {
    if |s| < 4 then Truncated else Taken(BigEndian32(s[0], s[1], s[2], s[3]), s[4..])
  }

  // A block bounded by the length in front of it.
  function TakeBlock8(s: seq<Byte>): Taken<seq<Byte>> {
    var (length, s1) :- TakeUint8(s);
    TakeBytes(s1, length)
  }

  function TakeBlock16(s: seq<Byte>): Taken<seq<Byte>> {
    var (length, s1) :- TakeUint16(s);
    TakeBytes(s1, length)
  }

  function TakeBlock24(s: seq<Byte>): Taken<seq<Byte>> {
    var (length, s1) :- TakeUint24(s);
    TakeBytes(s1, length)
  }

  // The encoders the reads undo.
  function PutBlock8(block: seq<Byte>): (s: seq<Byte>)
    requires |block| < 0x100
  {
    [|block|] + block
  }

  function PutBlock16(block: seq<Byte>): (s: seq<Byte>)
    requires |block| < 0x1_0000
  {
    PutUint16(|block|) + block
  }

  // A read succeeds with a value exactly when the input is that value's encoding
  // followed by what the read leaves.
  lemma TakeBytesIff(s: seq<Byte>, block: seq<Byte>, rest: seq<Byte>)
    ensures TakeBytes(s, |block|) == Taken(block, rest) <==> s == block + rest
  {
    if s == block + rest {
      assert s[..|block|] == block && s[|block|..] == rest;
    }
  }

  lemma TakeUint8Iff(s: seq<Byte>, b: Byte, rest: seq<Byte>)
    ensures TakeUint8(s) == Taken(b, rest) <==> s == [b] + rest
  {
    if s == [b] + rest {
      assert s[1..] == rest;
    }
  }

  lemma TakeUint16Iff(s: seq<Byte>, w: Word, rest: seq<Byte>)
    ensures TakeUint16(s) == Taken(w, rest) <==> s == PutUint16(w) + rest
  {
    if s == PutUint16(w) + rest {
      assert s[2..] == rest;
    }
  }

  lemma TakeBlock8Iff(s: seq<Byte>, block: seq<Byte>, rest: seq<Byte>)
    ensures TakeBlock8(s) == Taken(block, rest) <==> |block| < 0x100 && s == PutBlock8(block) + rest
  {
    if |s| >= 1 {
      TakeUint8Iff(s, s[0], s[1..]);
      TakeBytesIff(s[1..], block, rest);
      if |block| < 0x100 {
        Associate([|block|], block, rest);
        TakeUint8Iff(s, |block|, block + rest);
      }
    }
  }

  lemma TakeBlock16Iff(s: seq<Byte>, block: seq<Byte>, rest: seq<Byte>)
    ensures TakeBlock16(s) == Taken(block, rest) <==> |block| < 0x1_0000 && s == PutBlock16(block) + rest
  {
    if |s| >= 2 {
      TakeUint16Iff(s, BigEndian16(s[0], s[1]), s[2..]);
      TakeBytesIff(s[2..], block, rest);
      if |block| < 0x1_0000 {
        Associate(PutUint16(|block|), block, rest);
        TakeUint16Iff(s, |block|, block + rest);
      }
    }
  }

  // A whole byte string as 16-bit values, two bytes each.
  function Words(s: seq<Byte>): (words: seq<Word>)
    requires |s| % 2 == 0
    ensures |words| == |s| / 2
  {
    if s == [] then [] else [BigEndian16(s[0], s[1])] + Words(s[2..])
  }

  function PutWords(words: seq<Word>): (s: seq<Byte>)
    ensures |s| == 2 * |words|
  {
    if words == [] then [] else PutUint16(words[0]) + PutWords(words[1..])
  }

  lemma {:induction false} WordsInverse(words: seq<Word>)
    ensures Words(PutWords(words)) == words
  {
    if words != [] {
      var s := PutWords(words);
      assert s[2..] == PutWords(words[1..]);
      WordsInverse(words[1..]);
      calc {
        Words(s);
        [BigEndian16(s[0], s[1])] + Words(s[2..]);
        [words[0]] + words[1..];
        words;
      }
    }
  }

  lemma {:induction false} PutWordsInverse(s: seq<Byte>)
    requires |s| % 2 == 0
    ensures PutWords(Words(s)) == s
  {
    if s != [] {
      PutWordsInverse(s[2..]);
      PutUint16OfBytes(s[0], s[1]);
      assert Words(s)[1..] == Words(s[2..]);
    }
  }

  lemma {:induction false} PutWordsSnoc(words: seq<Word>, last: Word)
    ensures PutWords(words + [last]) == PutWords(words) + PutUint16(last)
  {
    if words == [] {
      assert [last][1..] == [];
      assert words + [last] == [last];
      assert PutWords([last]) == PutUint16(last) + PutWords([]);
    } else {
      PutWordsSnoc(words[1..], last);
      assert (words + [last])[1..] == words[1..] + [last];
      assert PutWords(words + [last]) == PutUint16(words[0]) + PutWords(words[1..] + [last]);
    }
  }

  // The cursor. Every read that succeeds moves it past what was read; one that runs
  // out of bytes leaves it where the failing piece began.
  class Reader {
    var data: seq<Byte>

    constructor (data: seq<Byte>)
      ensures this.data == data
    {
      this.data := data;
    }

    method Len() returns (n: nat)
      ensures n == |data|
    {
      n := |data|;
    }

    method Empty() returns (empty: bool)
      ensures empty <==> data == []
    {
      var n := Len();
      empty := n == 0;
    }

    method Rest() returns (rest: seq<Byte>)
      modifies this
      ensures rest == old(data) && data == []
    {
      rest := data;
      data := [];
    }

    method Bytes(count: int) returns (taken: Option<seq<Byte>>)
      modifies this
      ensures match TakeBytes(old(data), count)
              case Taken(value, rest) => taken == Some(value) && data == rest
              case Truncated => taken == None && data == old(data)
    {
      if count < 0 || |data| < count {
        return None;
      }
      taken := Some(data[..count]);
      data := data[count..];
    }

    method Uint8() returns (value: Option<Byte>)
      modifies this
      ensures match TakeUint8(old(data))
              case Taken(v, rest) => value == Some(v) && data == rest
              case Truncated => value == None && data == old(data)
    {
      var taken := Bytes(1);
      if taken.None? {
        return None;
      }
      value := Some(taken.value[0]);
    }

    method Uint16() returns (value: Option<Word>)
      modifies this
      ensures match TakeUint16(old(data))
              case Taken(v, rest) => value == Some(v) && data == rest
              case Truncated => value == None && data == old(data)
    {
      var taken := Bytes(2);
      if taken.None? {
        return None;
      }
      value := Some(BigEndian16(taken.value[0], taken.value[1]));
    }

    method Uint24() returns (value: Option<nat>)
      modifies this
      ensures match TakeUint24(old(data))
              case Taken(v, rest) => value == Some(v) && data == rest
              case Truncated => value == None && data == old(data)
    {
      var taken := Bytes(3);
      if taken.None? {
        return None;
      }
      value := Some(BigEndian24(taken.value[0], taken.value[1], taken.value[2]));
    }

    method Uint32() returns (value: Option<nat>)
      modifies this
      ensures match TakeUint32(old(data))
              case Taken(v, rest) => value == Some(v) && data == rest
              case Truncated => value == None && data == old(data)
    {
      var taken := Bytes(4);
      if taken.None? {
        return None;
      }
      value := Some(BigEndian32(taken.value[0], taken.value[1], taken.value[2], taken.value[3]));
    }

    method SubReader(length: int) returns (sub: Reader?)
      modifies this
      ensures match TakeBytes(old(data), length)
              case Taken(value, rest) => sub != null && fresh(sub) && sub.data == value && data == rest
              case Truncated => sub == null && data == old(data)
    {
      var taken := Bytes(length);
      if taken.None? {
        return null;
      }
      sub := new Reader(taken.value);
    }

    method Uint8LengthPrefixed() returns (sub: Reader?)
      modifies this
      ensures match TakeBlock8(old(data))
              case Taken(value, rest) => sub != null && fresh(sub) && sub.data == value && data == rest
              case Truncated => sub == null && data == if |old(data)| < 1 then old(data) else old(data)[1..]
    {
      var length := Uint8();
      if length.None? {
        return null;
      }
      sub := SubReader(length.value);
    }

    method Uint16LengthPrefixed() returns (sub: Reader?)
      modifies this
      ensures match TakeBlock16(old(data))
              case Taken(value, rest) => sub != null && fresh(sub) && sub.data == value && data == rest
              case Truncated => sub == null && data == if |old(data)| < 2 then old(data) else old(data)[2..]
    {
      var length := Uint16();
      if length.None? {
        return null;
      }
      sub := SubReader(length.value);
    }

    method Uint24LengthPrefixed() returns (sub: Reader?)
      modifies this
      ensures match TakeBlock24(old(data))
              case Taken(value, rest) => sub != null && fresh(sub) && sub.data == value && data == rest
              case Truncated => sub == null && data == if |old(data)| < 3 then old(data) else old(data)[3..]
    {
      var length := Uint24();
      if length.None? {
        return null;
      }
      sub := SubReader(length.value);
    }

    // An odd number of bytes is refused before anything is read; otherwise the reader
    // is walked to its end.
    method Uint16List() returns (values: Option<seq<Word>>)
      modifies this
      ensures |old(data)| % 2 != 0 ==> values == None && data == old(data)
      ensures |old(data)| % 2 == 0 ==> values == Some(Words(old(data))) && data == []
    {
      if |data| % 2 != 0 {
        return None;
      }
      var read: seq<Word> := [];
      while data != []
        invariant |data| % 2 == 0
        invariant Words(old(data)) == read + Words(data)
        decreases |data|
      {
        var value := Uint16();
        read := read + [value.value];
      }
      assert read + Words([]) == read;
      values := Some(read);
    }
  }
}
