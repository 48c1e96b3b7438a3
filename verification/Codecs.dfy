/** Alignment, block encryption and compression as container files use them. */
module Codecs {
  import opened Bytes
  import opened Package

  /** `align_u64` and `align_usize` for an alignment that is a power of two: round up to a multiple. */
  function Align(value: nat, alignment: nat): (r: nat)
    requires alignment > 0
  {
    (value + alignment - 1) / alignment * alignment
  }

  /** The rounded value is the least multiple that is not smaller. */
  lemma {:induction false} AlignIsLeast(value: nat, alignment: nat, multiple: nat)
    requires alignment > 0
    ensures value <= Align(value, alignment) < value + alignment
    ensures value <= multiple * alignment ==> Align(value, alignment) <= multiple * alignment
  {
    var q := (value + alignment - 1) / alignment;
    assert value + alignment - 1 == q * alignment + (value + alignment - 1) % alignment;
    if value <= multiple * alignment {
      MulBound(alignment, q - multiple);
      assert alignment * (q - multiple) == q * alignment - multiple * alignment;
    }
  }

  /** A 16-byte block cipher and the compressors, about which only laws are known. */
  datatype Codec = Codec(
    compress: (nat, seq<byte>) -> Option<seq<byte>>,
    decompress: (nat, seq<byte>, nat) -> Option<seq<byte>>,
    encrypt: (nat, seq<byte>) -> seq<byte>,
    decrypt: (nat, seq<byte>) -> seq<byte>)
  {
    /** Decompression inverts compression and fills the output it is given; decryption inverts encryption of a block. */
    ghost predicate Lawful() {
      && (forall m: nat, x: seq<byte> :: compress(m, x).Some? ==> decompress(m, compress(m, x).value, |x|) == Some(x))
      && (forall m: nat, x: seq<byte>, n: nat :: decompress(m, x, n).Some? ==> |decompress(m, x, n).value| == n)
      && (forall k: nat, b: seq<byte> :: |b| == 16 ==> |encrypt(k, b)| == 16)
      && (forall k: nat, b: seq<byte> :: |b| == 16 ==> |decrypt(k, b)| == 16)
      && (forall k: nat, b: seq<byte> :: |b| == 16 ==> decrypt(k, encrypt(k, b)) == b)
    }

    function Crypt(encrypting: bool, key: nat, block: seq<byte>): seq<byte> {
      if encrypting then encrypt(key, block) else decrypt(key, block)
    }
  }

  /** Every 16-byte block replaced by its encryption or decryption. */
  function CryptAll(codec: Codec, encrypting: bool, key: nat, s: seq<byte>): seq<byte>
    decreases |s|
  {
    if |s| < 16 then [] else codec.Crypt(encrypting, key, s[..16]) + CryptAll(codec, encrypting, key, s[16..])
  }

  lemma {:induction false} CryptAllLength(codec: Codec, encrypting: bool, key: nat, s: seq<byte>)
    requires codec.Lawful() && |s| % 16 == 0
    ensures |CryptAll(codec, encrypting, key, s)| == |s|
    decreases |s|
  {
    if |s| >= 16 {
      CryptAllLength(codec, encrypting, key, s[16..]);
    }
  }

  /** Decrypting what was encrypted gives it back. */
  lemma {:induction false} DecryptInvertsEncrypt(codec: Codec, key: nat, s: seq<byte>)
    requires codec.Lawful() && |s| % 16 == 0
    ensures CryptAll(codec, false, key, CryptAll(codec, true, key, s)) == s
    decreases |s|
  {
    if |s| >= 16 {
      var head, rest := codec.encrypt(key, s[..16]), CryptAll(codec, true, key, s[16..]);
      assert CryptAll(codec, true, key, s) == head + rest;
      assert (head + rest)[..16] == head && (head + rest)[16..] == rest;
      DecryptInvertsEncrypt(codec, key, s[16..]);
      assert s == s[..16] + s[16..];
    }
  }

  lemma {:induction false} CryptAllAppend(codec: Codec, encrypting: bool, key: nat, s: seq<byte>, block: seq<byte>)
    requires codec.Lawful() && |s| % 16 == 0 && |block| == 16
    ensures CryptAll(codec, encrypting, key, s + block)
      == CryptAll(codec, encrypting, key, s) + codec.Crypt(encrypting, key, block)
    decreases |s|
  {
    if |s| >= 16 {
      assert (s + block)[..16] == s[..16] && (s + block)[16..] == s[16..] + block;
      CryptAllAppend(codec, encrypting, key, s[16..], block);
    } else {
      assert s + block == block && block[..16] == block;
    }
  }

  /** A buffer in which the stretch from `from` to `at` has been encrypted or decrypted. */
  function CryptedUpTo(codec: Codec, encrypting: bool, key: nat, s: seq<byte>, from: nat, at: nat): seq<byte>
    requires from <= at <= |s|
  {
    s[..from] + CryptAll(codec, encrypting, key, s[from..at]) + s[at..]
  }

  lemma {:induction false} CryptOneMore(codec: Codec, encrypting: bool, key: nat, s: seq<byte>, from: nat, at: nat)
    requires codec.Lawful() && from <= at <= at + 16 <= |s| && (at - from) % 16 == 0
    ensures var b := CryptedUpTo(codec, encrypting, key, s, from, at);
      |b| == |s| && b[..at] + codec.Crypt(encrypting, key, b[at..at + 16]) + b[at + 16..]
        == CryptedUpTo(codec, encrypting, key, s, from, at + 16)
  {
    var b, done := CryptedUpTo(codec, encrypting, key, s, from, at), CryptAll(codec, encrypting, key, s[from..at]);
    CryptAllLength(codec, encrypting, key, s[from..at]);
    CryptAllAppend(codec, encrypting, key, s[from..at], s[at..at + 16]);
    assert s[from..at + 16] == s[from..at] + s[at..at + 16];
    assert b[..at] == s[..from] + done && b[at..at + 16] == s[at..at + 16] && b[at + 16..] == s[at + 16..];
  }

  /** One block of the loop below. */
  method CryptBlock(codec: Codec, encrypting: bool, key: nat, a: array<byte>, at: nat)
    requires codec.Lawful() && at + 16 <= a.Length
    modifies a
    ensures a[..] == old(a[..at]) + codec.Crypt(encrypting, key, old(a[at..at + 16])) + old(a[at + 16..])
  {
    var block := codec.Crypt(encrypting, key, a[at..at + 16]);
    forall i | 0 <= i < 16 {
      a[at + i] := block[i];
    }
  }

  /** Encrypts or decrypts a stretch of a buffer in place, 16 bytes at a time. */
  method CryptInPlace(codec: Codec, encrypting: bool, key: nat, a: array<byte>, from: nat, to: nat)
    requires codec.Lawful() && from <= to <= a.Length && (to - from) % 16 == 0
    modifies a
    ensures a[..] == CryptedUpTo(codec, encrypting, key, old(a[..]), from, to)
  {
    var at := from;
    ghost var s := a[..];
    assert s == CryptedUpTo(codec, encrypting, key, s, from, from);
    while at < to
      invariant from <= at <= to && (at - from) % 16 == 0
      invariant a[..] == CryptedUpTo(codec, encrypting, key, s, from, at)
    {
      CryptOneMore(codec, encrypting, key, s, from, at);
      ghost var b := a[..];
      CryptBlock(codec, encrypting, key, a, at);
      assert a[..] == b[..at] + codec.Crypt(encrypting, key, b[at..at + 16]) + b[at + 16..];
      at := at + 16;
    }
  }
}
