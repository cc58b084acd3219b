/** The vault client of vault.go: the kv-v2 envelope added on write, the
    JSON encoding of the request body, the empty-response check and the
    one-level unwrapping on read, and the token the client authenticates
    with. The server is a map from path to the last body it received there;
    a set of paths stands for the calls the server or the network refuses. */
module VaultClient {
  import opened Types
  import Paths
  import Utf8

  /** A JSON value as Go holds it in `interface{}`: a string as its bytes,
      an object as its fields; numbers, booleans, arrays and null are all
      `Other`, which `extractKey` treats alike. */
  datatype Value = Str(bytes: Bytes) | Obj(fields: map<string, Value>) | Other

  type FieldMap = map<string, Value>

  /** The path prefix that selects the kv-v2 request shape. */
  const KvV2Prefix: string := "secret/data"

  /** The login path of AppRole authentication. */
  const AppRoleLoginPath: string := "auth/approle/login"

  /** The body sent for a write: kv-v2 paths carry the field map under a
      single `"data"` key, every other path carries it as it is. */
  function Wrap(path: string, data: FieldMap): (body: FieldMap)
    ensures Paths.HasPrefix(path, KvV2Prefix) ==> body.Keys == {"data"} && body["data"] == Obj(data)
    ensures !Paths.HasPrefix(path, KvV2Prefix) ==> body == data
  {
    if Paths.HasPrefix(path, KvV2Prefix) then map["data" := Obj(data)] else data
  }

  /** A value as the server receives it: `encoding/json` turns every
      string into well-formed UTF-8, replacing each byte that does not start
      a well-formed sequence by U+FFFD; objects are encoded value by value. */
  function Encoded(v: Value): (e: Value)
    ensures v.Str? ==> e.Str? && Utf8.Valid(e.bytes)
    ensures v.Str? && Utf8.Valid(v.bytes) ==> e == v
    ensures v.Obj? ==> e.Obj? && e.fields.Keys == v.fields.Keys
    ensures v.Other? ==> e == v
    decreases v
  {
    match v
    case Str(b) =>
      Utf8.SanitizeIsValid(b);
      if Utf8.Valid(b) then Utf8.SanitizeValid(b); Str(Utf8.Sanitize(b)) else Str(Utf8.Sanitize(b))
    case Obj(m) => Obj(map k | k in m :: Encoded(m[k]))
    case Other => Other
  }

  /** A field map as the server receives it: the same keys, every value
      encoded. */
  function EncodedFields(data: FieldMap): (r: FieldMap)
    ensures r.Keys == data.Keys
    ensures forall k :: k in data && data[k].Str? ==> r[k].Str? && Utf8.Valid(r[k].bytes)
    ensures forall k :: k in data && data[k].Str? && Utf8.Valid(data[k].bytes) ==> r[k] == data[k]
  {
    map k | k in data :: Encoded(data[k])
  }

  /** The body a write of `data` at `path` delivers to the server: the
      kv-v2 envelope around the JSON-encoded field map. */
  function Body(path: string, data: FieldMap): FieldMap {
    Wrap(path, EncodedFields(data))
  }

  /** The map the key is looked up in: the object under `"data"` if there
      is such a key, the payload itself otherwise. A `"data"` that is not an
      object is where Go's unchecked type assertion panics; here it is the
      error `EnvelopeNotMap`. */
  function Unwrap(payload: FieldMap): (r: Result<FieldMap>)
    ensures "data" !in payload ==> r == Ok(payload)
    ensures "data" in payload && payload["data"].Obj? ==> r == Ok(payload["data"].fields)
    ensures "data" in payload && !payload["data"].Obj? ==> r == Err(EnvelopeNotMap)
  {
    if "data" !in payload then Ok(payload)
    else if payload["data"].Obj? then Ok(payload["data"].fields)
    else Err(EnvelopeNotMap)
  }

  /** `extractKey`: after at most one level of unwrapping, the key must
      hold a string, whose bytes are the result. */
  function ExtractKey(payload: FieldMap, key: string): (r: Result<Bytes>)
    ensures r.Ok? <==> Unwrap(payload).Ok? && key in Unwrap(payload).value && Unwrap(payload).value[key].Str?
    ensures r.Ok? ==> r.value == Unwrap(payload).value[key].bytes
    ensures Unwrap(payload).Err? ==> r == Err(EnvelopeNotMap)
    ensures Unwrap(payload).Ok? && r.Err? ==> r == Err(CannotExtractKey(key))
  {
    match Unwrap(payload)
    case Err(e) => Err(e)
    case Ok(m) =>
      if key in m && m[key].Str? then Ok(m[key].bytes) else Err(CannotExtractKey(key))
  }

  /** What a key of a written field map reads back as. */
  function Expected(data: FieldMap, key: string): Result<Bytes> {
    if key in data && data[key].Str? then Ok(data[key].bytes) else Err(CannotExtractKey(key))
  }

  /** Reading a key back from a written body returns what the field map held
      under that key, whenever unwrapping cannot be fooled: on kv-v2 paths
      always, elsewhere when the field map has no entry named `"data"`. */
  lemma ExtractKeyOfWrap(path: string, data: FieldMap, key: string)
    requires Paths.HasPrefix(path, KvV2Prefix) || "data" !in data
    ensures ExtractKey(Wrap(path, data), key) == Expected(data, key)
  {
  }

  /** Outside kv-v2, an entry named `"data"` holding a string is taken for
      the envelope, and no key of that field map can be read any more. */
  lemma ExtractKeyKvV1DataEntry(path: string, data: FieldMap, key: string)
    requires !Paths.HasPrefix(path, KvV2Prefix)
    requires "data" in data && data["data"].Str?
    ensures ExtractKey(Wrap(path, data), key) == Err(EnvelopeNotMap)
    ensures Expected(data, "data").Ok?
  {
  }

  /** A read against a server holding `store` and refusing `denied`. */
  function ReadAt(store: map<string, FieldMap>, denied: set<string>, path: string, key: string): Result<Bytes> {
    if path in denied then Err(VaultError(path))
    else if path !in store || store[path] == map[] then Err(NoDataFound(path))
    else ExtractKey(store[path], key)
  }

  /** The answer to an AppRole login request: the call failed, or it
      returned a reply whose auth section may be missing. */
  datatype LoginReply = LoginFailed | LoginReplied(clientToken: Option<string>)

  class Vault {
    /** The token the client sends with every call. */
    var token: string
    /** The last body written at each path. */
    var store: map<string, FieldMap>
    /** Paths at which the server refuses reads and writes. */
    const denied: set<string>
    /** Every write request sent, in order: path and body. */
    var sent: seq<(string, FieldMap)>

    constructor (store: map<string, FieldMap>, denied: set<string>)
      ensures this.store == store && this.denied == denied
      ensures token == "" && sent == []
    {
      this.store := store;
      this.denied := denied;
      token := "";
      sent := [];
    }

    /** `TokenAuth`: the client now uses `t`. */
    method TokenAuth(t: string)
      modifies this
      ensures token == t
      ensures store == old(store) && sent == old(sent)
    {
      token := t;
    }

    /** `AppRoleAuth` with the server's reply as input: a failed call is
      returned as it is, a reply without a client token is `NoAuthData`,
      and only a non-empty client token replaces the current one. */
    method AppRoleAuth(reply: LoginReply) returns (err: Option<Error>)
      modifies this
      ensures reply.LoginFailed? ==> err == Some(VaultError(AppRoleLoginPath)) && token == old(token)
      ensures reply.LoginReplied? && (reply.clientToken == None || reply.clientToken == Some("")) ==>
                err == Some(NoAuthData) && token == old(token)
      ensures reply.LoginReplied? && reply.clientToken.Some? && reply.clientToken.value != "" ==>
                err == None && token == reply.clientToken.value
      ensures store == old(store) && sent == old(sent)
    {
      if reply.LoginFailed? {
        return Some(VaultError(AppRoleLoginPath));
      }
      if reply.clientToken == None || reply.clientToken == Some("") {
        return Some(NoAuthData);
      }
      token := reply.clientToken.value;
      err := None;
    }

    /** `Read`: a refused call, then an empty or absent response, then the
      key extraction, in that order. */
    function Read(path: string, key: string): (r: Result<Bytes>)
      reads this
      ensures path in denied ==> r == Err(VaultError(path))
      ensures path !in denied && (path !in store || store[path] == map[]) ==> r == Err(NoDataFound(path))
      ensures path !in denied && path in store && store[path] != map[] ==> r == ExtractKey(store[path], key)
    {
      ReadAt(store, denied, path, key)
    }

    /** `Write`: the request goes out with the wrapped, JSON-encoded body;
      the server keeps it unless it refuses the path. */
    method Write(path: string, data: FieldMap) returns (err: Option<Error>)
      modifies this
      ensures sent == old(sent) + [(path, Body(path, data))]
      ensures path in denied ==> err == Some(VaultError(path)) && store == old(store)
      ensures path !in denied ==> err == None && store == old(store)[path := Body(path, data)]
      ensures token == old(token)
    {
      var body := Body(path, data);
      sent := sent + [(path, body)];
      if path in denied {
        return Some(VaultError(path));
      }
      store := store[path := body];
      err := None;
    }
  }

  /** After a successful write of a non-empty field map, reading any key
      of it at the same path gives back what the server received under that
      key: the written string itself when it is well-formed UTF-8. */
  lemma ReadAfterWrite(v: Vault, path: string, data: FieldMap, key: string)
    requires path !in v.denied && path in v.store && v.store[path] == Body(path, data)
    requires data != map[]
    requires Paths.HasPrefix(path, KvV2Prefix) || "data" !in data
    ensures v.Read(path, key) == Expected(EncodedFields(data), key)
    ensures key in data && data[key].Str? && Utf8.Valid(data[key].bytes) ==> v.Read(path, key) == Ok(data[key].bytes)
  {
    var sent := EncodedFields(data);
    var k0 :| k0 in data;
    assert k0 in sent;
    if Paths.HasPrefix(path, KvV2Prefix) {
      assert "data" in Wrap(path, sent);
    } else {
      assert k0 in Wrap(path, sent);
    }
    ExtractKeyOfWrap(path, sent, key);
  }

  /** The text `bar` is ASCII, hence UTF-8. */
  lemma BarIsUtf8()
    ensures Utf8.Valid(CharsToBytes("bar"))
  {
    var bar := CharsToBytes("bar");
    assert |bar| == 3 && bar[0] == 0x62 && bar[1] == 0x61 && bar[2] == 0x72;
    Utf8.AsciiValid(bar);
  }

  /** Writing `{"foo": "bar"}` at `secret/data/foo/bar/baz` and reading key
      `foo` there gives `bar`. */
  lemma ReadAfterWriteExample(v: Vault)
    requires "secret/data/foo/bar/baz" !in v.denied
    requires "secret/data/foo/bar/baz" in v.store
    requires v.store["secret/data/foo/bar/baz"] == Body("secret/data/foo/bar/baz", map["foo" := Str(CharsToBytes("bar"))])
    ensures v.Read("secret/data/foo/bar/baz", "foo") == Ok(CharsToBytes("bar"))
  {
    var path := "secret/data/foo/bar/baz";
    assert Paths.HasPrefix(path, KvV2Prefix) by {
      assert path[..|KvV2Prefix|] == KvV2Prefix;
    }
    var data := map["foo" := Str(CharsToBytes("bar"))];
    assert "foo" in data;
    BarIsUtf8();
    ReadAfterWrite(v, path, data, "foo");
  }

  /** A string that is not UTF-8 does not survive the write: a lone `0xFF`
      written and read back at any path is U+FFFD. */
  lemma InvalidBytesReplaced(path: string, key: string)
    requires key != "data"
    ensures ExtractKey(Body(path, map[key := Str([0xFF])]), key) == Ok(Utf8.Replacement)
  {
    var data := map[key := Str([0xFF])];
    Utf8.InvalidByteReplaced();
    assert EncodedFields(data)[key] == Str(Utf8.Replacement);
    ExtractKeyOfWrap(path, EncodedFields(data), key);
  }
}
