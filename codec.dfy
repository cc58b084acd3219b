/** The payload codec of `File.Zip` and `File.Unzip`: a gzip stream wrapped
    in standard base64, so that the result can be stored as a text value. */
module Codec {
  import opened Types
  import Base64
  import Gzip

  /** Text of the zipped payload: only alphabet characters and '=', in
      whole 4-character quanta. */
  function Zip(p: Bytes): (z: Bytes)
    ensures |z| % 4 == 0
    ensures forall i :: 0 <= i < |z| ==> Base64.IsSymbol(z[i]) || z[i] == Base64.Pad
  {
    Base64.EncodeLength(Gzip.Compress(p));
    Base64.EncodeAlphabet(Gzip.Compress(p));
    Base64.Encode(Gzip.Compress(p))
  }

  /** Undoing `Zip`; the base64 layer and the gzip layer both may refuse. */
  function Unzip(z: Bytes): (r: Result<Bytes>)
    ensures r.Err? ==> r.error == CodecError
    ensures r.Ok? <==> Base64.Decode(z).Some? && Gzip.Decompress(Base64.Decode(z).value).Some?
  {
    match Base64.Decode(z)
    case None => Err(CodecError)
    case Some(g) =>
      match Gzip.Decompress(g)
      case None => Err(CodecError)
      case Some(p) => Ok(p)
  }

  /** `Unzip` restores what `Zip` produced, byte for byte, for every payload. */
  lemma UnzipZip(p: Bytes)
    ensures Unzip(Zip(p)) == Ok(p)
  {
    Base64.DecodeEncode(Gzip.Compress(p));
    Gzip.DecompressCompress(p);
  }

  /** A payload whose length, line breaks aside, is not a multiple of four
      is not base64 at all, so unzipping it fails. */
  lemma UnzipRefusesPartialQuanta(z: Bytes)
    requires |Base64.StripNewlines(z)| % 4 != 0
    ensures Unzip(z) == Err(CodecError)
  {
    if Base64.Decode(z).Some? {
      Base64.DecodeNeedsQuanta(Base64.StripNewlines(z));
    }
  }

  /** Well-formed base64 that is not a gzip stream is refused as well. */
  lemma UnzipRefusesNonGzip(z: Bytes, g: Bytes)
    requires Base64.Decode(z) == Some(g)
    requires |g| < 14 || g[0] != 0x1f || g[1] != 0x8b
    ensures Unzip(z) == Err(CodecError)
  {
    Gzip.DecompressRefusesNonGzip(g);
  }
}
