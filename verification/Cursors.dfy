/** Reading and writing a byte buffer at a position. */
module Cursors {
  import opened Bytes
  import opened Package

  function Max(a: nat, b: nat): nat { if a >= b then a else b }

  function Zeros(n: nat): seq<byte> {
    seq(n, _ => 0)
  }

  /**
   * Writing through a cursor over a growing buffer: a gap is filled with zeros, and nothing written changes nothing.
   */
  function WriteAt(buffer: seq<byte>, at: nat, data: seq<byte>): seq<byte> {
    if data == [] then buffer
    else
      var padded := buffer + Zeros(if at > |buffer| then at - |buffer| else 0);
      padded[..at] + data + if at + |data| < |padded| then padded[at + |data|..] else []
  }

  ghost predicate HasBlob(buffer: seq<byte>, at: nat, blob: seq<byte>) {
    blob == [] || (at + |blob| <= |buffer| && buffer[at..at + |blob|] == blob)
  }

  /** Byte by byte: the written data, or what was there. */
  lemma {:induction false} WriteAtByte(buffer: seq<byte>, at: nat, data: seq<byte>, i: nat)
    requires data != []
    ensures |WriteAt(buffer, at, data)| == Max(|buffer|, at + |data|)
    ensures at <= i < at + |data| ==> WriteAt(buffer, at, data)[i] == data[i - at]
    ensures i < |buffer| && !(at <= i < at + |data|) ==> WriteAt(buffer, at, data)[i] == buffer[i]
  {
  }

  lemma {:induction false} WriteAtHolds(buffer: seq<byte>, at: nat, data: seq<byte>)
    ensures HasBlob(WriteAt(buffer, at, data), at, data)
  {
    if data != [] {
      WriteAtByte(buffer, at, data, at);
      forall i | at <= i < at + |data| ensures WriteAt(buffer, at, data)[i] == data[i - at] {
        WriteAtByte(buffer, at, data, i);
      }
    }
  }

  /** A write leaves a region alone that it does not overlap. */
  lemma {:induction false} WriteAtKeeps(buffer: seq<byte>, at: nat, data: seq<byte>, other: nat, blob: seq<byte>)
    requires HasBlob(buffer, other, blob) && (other + |blob| <= at || at + |data| <= other)
    ensures HasBlob(WriteAt(buffer, at, data), other, blob)
  {
    if data != [] && blob != [] {
      var after := WriteAt(buffer, at, data);
      WriteAtByte(buffer, at, data, at);
      forall i | other <= i < other + |blob| ensures after[i] == buffer[i] {
        WriteAtByte(buffer, at, data, i);
      }
      assert after[other..other + |blob|] == buffer[other..other + |blob|];
    }
  }

  /** A stretch in two parts. */
  lemma {:induction false} SplitBlob(buffer: seq<byte>, at: nat, a: seq<byte>, b: seq<byte>)
    requires HasBlob(buffer, at, a + b)
    ensures HasBlob(buffer, at, a) && HasBlob(buffer, at + |a|, b)
  {
    if a + b != [] {
      var whole := buffer[at..at + |a + b|];
      assert whole[..|a|] == a && whole[|a|..] == b;
      assert buffer[at..at + |a|] == whole[..|a|] && buffer[at + |a|..at + |a| + |b|] == whole[|a|..];
    }
  }

  /** Two writes in a row are one. */
  lemma {:induction false} WriteTwice(buffer: seq<byte>, at: nat, a: seq<byte>, b: seq<byte>)
    ensures WriteAt(WriteAt(buffer, at, a), at + |a|, b) == WriteAt(buffer, at, a + b)
  {
    if a == [] {
      assert a + b == b;
    } else if b == [] {
      assert a + b == a;
    } else {
      var first := WriteAt(buffer, at, a);
      var both, once := WriteAt(first, at + |a|, b), WriteAt(buffer, at, a + b);
      WriteAtByte(buffer, at, a, 0);
      WriteAtByte(first, at + |a|, b, 0);
      WriteAtByte(buffer, at, a + b, 0);
      forall i | 0 <= i < |both| ensures both[i] == once[i] {
        WriteTwiceByte(buffer, at, a, b, i);
      }
    }
  }

  lemma {:induction false} WriteTwiceByte(buffer: seq<byte>, at: nat, a: seq<byte>, b: seq<byte>, i: nat)
    requires a != [] && b != [] && i < Max(|buffer|, at + |a| + |b|)
    ensures |WriteAt(buffer, at, a)| == Max(|buffer|, at + |a|)
    ensures |WriteAt(WriteAt(buffer, at, a), at + |a|, b)| == Max(|buffer|, at + |a| + |b|)
      == |WriteAt(buffer, at, a + b)|
    ensures WriteAt(WriteAt(buffer, at, a), at + |a|, b)[i] == WriteAt(buffer, at, a + b)[i]
  {
    WriteAtByte(buffer, at, a, i);
    WriteAtByte(WriteAt(buffer, at, a), at + |a|, b, i);
    WriteAtByte(buffer, at, a + b, i);
    if |buffer| <= i < at {
      PaddingByte(buffer, at, a, i);
      PaddingByte(buffer, at, a + b, i);
    }
  }

  /** A gap is filled with zeros. */
  lemma {:induction false} PaddingByte(buffer: seq<byte>, at: nat, data: seq<byte>, i: nat)
    requires data != [] && |buffer| <= i < at
    ensures i < |WriteAt(buffer, at, data)| && WriteAt(buffer, at, data)[i] == 0
  {
  }

  /** A little-endian number at a position; none past the end. */
  function ReadLe(buffer: seq<byte>, at: nat, n: nat): Option<nat> {
    if at + n <= |buffer| then Some(FromLe(buffer[at..at + n])) else None
  }

  lemma {:induction false} ReadsBack(buffer: seq<byte>, at: nat, v: nat, n: nat)
    requires n > 0 && v < Range(n) && HasBlob(buffer, at, Le(v, n))
    ensures ReadLe(buffer, at, n) == Some(v)
  {
    LeRoundTrip(v, n);
    assert Le(v, n) != [];
  }

  lemma {:induction false} Ranges()
    ensures Range(4) == 0x1_0000_0000 && Range(8) == 0x1_0000_0000_0000_0000
  {
    assert Range(1) == 256 && Range(2) == 0x1_0000 && Range(3) == 0x100_0000 && Range(4) == 0x1_0000_0000;
    assert Range(5) == 0x100_0000_0000 && Range(6) == 0x1_0000_0000_0000 && Range(7) == 0x100_0000_0000_0000;
  }

  /** A signed 32-bit number at a position. */
  function ReadI32(buffer: seq<byte>, at: nat): Option<int> {
    if at + 4 <= |buffer| then Some(ToI32(buffer[at..at + 4])) else None
  }

  lemma {:induction false} ReadsBackSigned(buffer: seq<byte>, at: nat, v: int)
    requires IsI32(v) && HasBlob(buffer, at, I32(v))
    ensures ReadI32(buffer, at) == Some(v)
  {
    I32RoundTrip(v);
    assert I32(v) != [];
  }
}
