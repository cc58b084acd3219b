/** The gzip container (RFC 1952) as `compress/gzip` frames it. The deflate
    compression of the body and the CRC-32 check are not modelled: the body is
    carried as it is, so only the framing that `gzip.NewReader` and the final
    read check is here, namely the header magic and method, and the ISIZE
    trailer (input length modulo 2^32). */
module Gzip {
  import opened Types

  const Size32: nat := 4294967296

  /** The member header a `gzip.Writer` with a zero `Header` writes:
      ID1, ID2, CM = 8 (deflate), FLG = 0, MTIME = 0, XFL = 0, OS = 255. */
  const Header: Bytes := [0x1f, 0x8b, 8, 0, 0, 0, 0, 0, 0, 255]

  /** The low 32 bits of `n`, least significant byte first. */
  function Le32(n: nat): (b: Bytes)
    ensures |b| == 4
  {
    var m := n % Size32;
    [m % 256, (m / 256) % 256, (m / 65536) % 256, m / 16777216]
  }

  function ReadLe32(b: Bytes): nat
    requires |b| == 4
  {
    b[0] as int + 256 * (b[1] as int) + 65536 * (b[2] as int) + 16777216 * (b[3] as int)
  }

  lemma ReadLe32Le32(n: nat)
    ensures ReadLe32(Le32(n)) == n % Size32
  {
    var m := n % Size32;
    var a, r1 := m % 256, m / 256;
    var b, r2 := r1 % 256, r1 / 256;
    var c, d := r2 % 256, r2 / 256;
    assert m == a + 256 * r1;
    assert r1 == b + 256 * r2;
    assert r2 == c + 256 * d;
    assert m / 65536 == r2;
    assert m / 16777216 == d;
  }

  /** A gzip stream holding `p`. */
  function Compress(p: Bytes): (z: Bytes)
    ensures |z| == |p| + 14
    ensures z[..10] == Header
  {
    Header + p + Le32(|p|)
  }

  /** The stream's contents, or None where Go's reader reports ErrHeader,
      io.ErrUnexpectedEOF or ErrChecksum. */
  function Decompress(z: Bytes): (r: Option<Bytes>)
    ensures r.Some? ==> |z| == |r.value| + 14 && z[0] == 0x1f && z[1] == 0x8b && z[2] == 8
  {
    if |z| < 14 || z[0] != 0x1f || z[1] != 0x8b || z[2] != 8 then None
    else
      var body := z[10..|z| - 4];
      if ReadLe32(z[|z| - 4..]) != |body| % Size32 then None else Some(body)
  }

  /** Decompressing what was compressed gives back the input, empty input included. */
  lemma DecompressCompress(p: Bytes)
    ensures Decompress(Compress(p)) == Some(p)
  {
    var z := Compress(p);
    assert z[10..|z| - 4] == p;
    assert z[|z| - 4..] == Le32(|p|);
    ReadLe32Le32(|p|);
  }

  /** Anything shorter than a header and a trailer, or without the magic, is refused. */
  lemma DecompressRefusesNonGzip(z: Bytes)
    requires |z| < 14 || z[0] != 0x1f || z[1] != 0x8b
    ensures Decompress(z) == None
  {
  }
}
