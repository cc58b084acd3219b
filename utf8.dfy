/** UTF-8 well-formedness as Go's `utf8.DecodeRune` reads it, and the
    repair `encoding/json` applies when it encodes a string: every byte
    that does not start a well-formed sequence becomes the three bytes of
    U+FFFD, and every well-formed sequence is kept. */
module Utf8 {
  import opened Types

  /** The UTF-8 encoding of U+FFFD, the replacement character. */
  const Replacement: Bytes := [0xEF, 0xBF, 0xBD]

  /** A continuation byte, `10xxxxxx`. */
  predicate Cont(c: byte) {
    0x80 <= c <= 0xBF
  }

  /** The length of the well-formed sequence `b` starts with, or 0 when its
      first byte does not start one (an invalid or truncated sequence, an
      overlong form, a surrogate, or a code point above U+10FFFF). */
  function RuneLength(b: Bytes): (n: nat)
    requires b != []
    ensures n <= 4 && n <= |b|
    ensures b[0] < 0x80 <==> n == 1
  {
    var c := b[0];
    if c < 0x80 then 1
    else if 0xC2 <= c <= 0xDF then
      if |b| >= 2 && Cont(b[1]) then 2 else 0
    else if 0xE0 <= c <= 0xEF then
      var lo := if c == 0xE0 then 0xA0 else 0x80;
      var hi := if c == 0xED then 0x9F else 0xBF;
      if |b| >= 3 && lo <= b[1] <= hi && Cont(b[2]) then 3 else 0
    else if 0xF0 <= c <= 0xF4 then
      var lo := if c == 0xF0 then 0x90 else 0x80;
      var hi := if c == 0xF4 then 0x8F else 0xBF;
      if |b| >= 4 && lo <= b[1] <= hi && Cont(b[2]) && Cont(b[3]) then 4 else 0
    else 0
  }

  /** `utf8.Valid`: the bytes split into well-formed sequences. */
  predicate Valid(b: Bytes)
    decreases |b|
  {
    b == [] || (RuneLength(b) > 0 && Valid(b[RuneLength(b)..]))
  }

  /** The bytes of a Go string after a JSON encode and decode. */
  function Sanitize(b: Bytes): Bytes
    decreases |b|
  {
    if b == [] then []
    else if RuneLength(b) == 0 then Replacement + Sanitize(b[1..])
    else b[..RuneLength(b)] + Sanitize(b[RuneLength(b)..])
  }

  /** Well-formed text passes through unchanged. */
  lemma {:induction false} SanitizeValid(b: Bytes)
    requires Valid(b)
    ensures Sanitize(b) == b
    decreases |b|
  {
    if b != [] {
      var n := RuneLength(b);
      SanitizeValid(b[n..]);
      assert b[..n] + b[n..] == b;
    }
  }

  /** Plain ASCII is well-formed. */
  lemma {:induction false} AsciiValid(b: Bytes)
    requires forall i :: 0 <= i < |b| ==> b[i] < 0x80
    ensures Valid(b)
    decreases |b|
  {
    if b != [] {
      AsciiValid(b[1..]);
    }
  }

  /** The length of the first sequence depends only on its own bytes. */
  lemma SameStart(b: Bytes, x: Bytes)
    requires b != [] && RuneLength(b) > 0
    requires |x| >= RuneLength(b) && x[..RuneLength(b)] == b[..RuneLength(b)]
    ensures RuneLength(x) == RuneLength(b)
  {
    var n := RuneLength(b);
    assert forall i :: 0 <= i < n ==> x[i] == x[..n][i] == b[..n][i] == b[i];
  }

  /** A well-formed sequence in front of well-formed text is well-formed. */
  lemma ChunkValid(chunk: Bytes, rest: Bytes)
    requires chunk != [] && RuneLength(chunk) == |chunk|
    requires Valid(rest)
    ensures Valid(chunk + rest)
  {
    var x := chunk + rest;
    assert x[..|chunk|] == chunk[..|chunk|];
    SameStart(chunk, x);
    assert x[|chunk|..] == rest;
  }

  /** The repair always yields well-formed text. */
  lemma {:induction false} SanitizeIsValid(b: Bytes)
    ensures Valid(Sanitize(b))
    decreases |b|
  {
    if b != [] {
      var n := RuneLength(b);
      if n == 0 {
        SanitizeIsValid(b[1..]);
        ChunkValid(Replacement, Sanitize(b[1..]));
      } else {
        SanitizeIsValid(b[n..]);
        var chunk := b[..n];
        assert chunk[..n] == b[..n];
        SameStart(b, chunk);
        ChunkValid(chunk, Sanitize(b[n..]));
      }
    }
  }

  /** Repairing twice is repairing once. */
  lemma SanitizeIdempotent(b: Bytes)
    ensures Sanitize(Sanitize(b)) == Sanitize(b)
  {
    SanitizeIsValid(b);
    SanitizeValid(Sanitize(b));
  }

  /** A lone `0xFF` is not UTF-8 and comes back as U+FFFD. */
  lemma InvalidByteReplaced()
    ensures !Valid([0xFF])
    ensures Sanitize([0xFF]) == Replacement
  {
    assert Sanitize([0xFF][1..]) == [];
  }
}
