/** Bytes of the database file and the little-endian integers the format
    stores in them. */
module Bytes {

  /** One byte of the file, as `ord` of one character read from it. */
  newtype byte = x: int | 0 <= x < 256

  function Pow256(k: nat): (r: nat)
    ensures r > 0
  {
    if k == 0 then 1 else 256 * Pow256(k - 1)
  }

  /** The unsigned integer whose little-endian encoding is `s`: byte `j`
      contributes `s[j] << (8 * j)`. */
  function LittleEndian(s: seq<byte>): nat
  {
    if s == [] then 0 else s[0] as nat + 256 * LittleEndian(s[1..])
  }

  /** The `n`-byte little-endian encoding of `v` (its low `n` bytes). */
  function EncodeLittleEndian(v: nat, n: nat): (s: seq<byte>)
    ensures |s| == n
  {
    if n == 0 then [] else [(v % 256) as byte] + EncodeLittleEndian(v / 256, n - 1)
  }

  /** An `n`-byte little-endian value is below 256^n. */
  lemma {:induction false} LittleEndianBound(s: seq<byte>)
    ensures LittleEndian(s) < Pow256(|s|)
  {
    if s != [] {
      LittleEndianBound(s[1..]);
      assert LittleEndian(s[1..]) + 1 <= Pow256(|s| - 1);
      assert 256 * (LittleEndian(s[1..]) + 1) <= 256 * Pow256(|s| - 1);
    }
  }

  /** Appending a byte adds it at the next higher power of 256, which is how
      the byte-by-byte accumulation loops of the decoder build a value. */
  lemma {:induction false} LittleEndianSnoc(s: seq<byte>, b: byte)
    ensures LittleEndian(s + [b]) == LittleEndian(s) + b as nat * Pow256(|s|)
  {
    if s == [] {
      assert [b][1..] == [];
    } else {
      assert (s + [b])[1..] == s[1..] + [b];
      LittleEndianSnoc(s[1..], b);
      var p := Pow256(|s| - 1);
      assert 256 * (LittleEndian(s[1..]) + b as nat * p)
          == 256 * LittleEndian(s[1..]) + b as nat * (256 * p);
    }
  }

  /** Decoding inverts encoding for every value that fits in `n` bytes. */
  lemma {:induction false} DecodeEncode(v: nat, n: nat)
    requires v < Pow256(n)
    ensures LittleEndian(EncodeLittleEndian(v, n)) == v
  {
    if n > 0 {
      var s := EncodeLittleEndian(v, n);
      assert s[1..] == EncodeLittleEndian(v / 256, n - 1);
      assert v / 256 < Pow256(n - 1);
      DecodeEncode(v / 256, n - 1);
    }
  }

  /** Encoding inverts decoding: a byte sequence is determined by its value
      and its length. */
  lemma {:induction false} EncodeDecode(s: seq<byte>)
    ensures EncodeLittleEndian(LittleEndian(s), |s|) == s
  {
    if s != [] {
      var v := LittleEndian(s);
      assert v % 256 == s[0] as nat && v / 256 == LittleEndian(s[1..]);
      EncodeDecode(s[1..]);
    }
  }

  function Min(a: nat, b: nat): nat
  {
    if a <= b then a else b
  }

  /** What a read of `n` bytes at absolute position `start` returns: the
      bytes up to the end of the data, possibly fewer than `n`, and none at
      all at or past the end. */
  function Slice(data: seq<byte>, start: nat, n: nat): (r: seq<byte>)
    ensures |r| == if start >= |data| then 0 else Min(n, |data| - start)
    ensures forall i :: 0 <= i < |r| ==> r[i] == data[start + i]
  {
    if start >= |data| then []
    else if start + n <= |data| then data[start..start + n]
    else data[start..]
  }

  /** Accumulates `n` bytes of `buf` from `start`, least significant first,
      as the decoder's `x += ord(buf[k]) << (j * 8)` loops do. */
  method ReadLittleEndian(buf: seq<byte>, start: nat, n: nat) returns (x: nat)
    requires start + n <= |buf|
    ensures x == LittleEndian(buf[start..start + n])
  {
    x := 0;
    var scale: nat := 1;
    for j := 0 to n
      invariant scale == Pow256(j)
      invariant x == LittleEndian(buf[start..start + j])
    {
      assert buf[start..start + j + 1] == buf[start..start + j] + [buf[start + j]];
      LittleEndianSnoc(buf[start..start + j], buf[start + j]);
      x := x + buf[start + j] as nat * scale;
      scale := scale * 256;
    }
  }
}
