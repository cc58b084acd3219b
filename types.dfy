/** Shared value types of the model: bytes, optional values, and the error
    kinds the Go code returns as `error`. */
module Types {

  /** One octet; Go's `byte`. */
  type byte = x: int | 0 <= x < 256

  /** Go's `[]byte`, and every Go `string` that carries a payload. */
  type Bytes = seq<byte>

  datatype Option<T> = None | Some(value: T)

  /** Why a configuration is refused (config.go). */
  datatype ConfigProblem =
    | VaultAddrMissing
    | CredentialsMissing
    | CredentialsConflict
    | OutputDirMissing
    | OutputDirNotFound(dir: string)

  /** The errors the core returns, one constructor per distinct error site. */
  datatype Error =
    | FileNotFound(path: string)          // File.Read: nothing at the path
    | IoError(path: string)               // the filesystem refused a read or write
    | CodecError                          // base64 or gzip stream is malformed
    | VaultError(path: string)            // the vault client call itself failed
    | NoDataFound(path: string)           // Vault.Read: empty response
    | EnvelopeNotMap                      // Vault.extractKey: "data" is not a map
    | CannotExtractKey(key: string)       // Vault.extractKey: key absent or not a string
    | NoAuthData                          // AppRole login returned no token
    | MissingEnvVar(name: string)         // Upload.Prepare: fromEnv variable empty
    | DuplicateName(name: string)         // Copy.compare: name twice in a group
    | KubeError(name: string)             // the cluster API refused a call
    | SecretNotFound(name: string)        // the cluster has no secret of that name
    | ShellError(path: string)            // an existing dot-env file could not be sourced
    | ConfigError(problem: ConfigProblem) // Config.Validate

  datatype Result<T> = Ok(value: T) | Err(error: Error)

  /** No element occurs twice; the visiting order of a Go map range. */
  predicate Distinct<T(==)>(s: seq<T>) {
    forall i, j :: 0 <= i < j < |s| ==> s[i] != s[j]
  }

  /** A fresh element keeps a sequence free of repetitions. */
  lemma DistinctSnoc<T>(s: seq<T>, x: T)
    requires Distinct(s) && x !in s
    ensures Distinct(s + [x])
  {
    forall i, j | 0 <= i < j < |s + [x]| ensures (s + [x])[i] != (s + [x])[j] {
      assert (s + [x])[i] == s[i];
      if j < |s| {
        assert (s + [x])[j] == s[j];
      }
    }
  }

  /** Characters as single bytes (Latin-1); used where text is stored as a file. */
  function CharsToBytes(s: string): (b: Bytes)
    ensures |b| == |s|
    ensures forall i :: 0 <= i < |s| ==> b[i] == (s[i] as int) % 256
  {
    seq(|s|, i requires 0 <= i < |s| => (s[i] as int) % 256)
  }

  function BytesToChars(b: Bytes): (s: string)
    ensures |s| == |b|
    ensures forall i :: 0 <= i < |b| ==> s[i] as int == b[i]
  {
    seq(|b|, i requires 0 <= i < |b| => b[i] as char)
  }

  /** Every character fits in one byte. */
  predicate Latin1(s: string) {
    forall i :: 0 <= i < |s| ==> (s[i] as int) < 256
  }

  lemma CharsBytesRoundTrip(s: string)
    requires Latin1(s)
    ensures BytesToChars(CharsToBytes(s)) == s
  {
    var r := BytesToChars(CharsToBytes(s));
    assert |r| == |s|;
    forall i | 0 <= i < |s| ensures r[i] == s[i] {
      assert r[i] as int == (s[i] as int) % 256 == s[i] as int;
    }
  }

  lemma BytesCharsLatin1(b: Bytes)
    ensures Latin1(BytesToChars(b))
  {
  }
}
