/** Upload followed by download: what an upload publishes for an entry is
    what a download of the same entry keeps, byte for byte, when the entry
    is zipped or its payload is UTF-8 text; other bytes are repaired by the
    JSON encoding of the request. */
module RoundTrip {
  import opened Types
  import opened Manifests
  import opened VaultClient
  import opened Uploads
  import opened Downloads
  import Paths
  import Utf8
  import Codec
  import Base64

  /** After a publish without error, reading an entry back from the path it
      was aggregated at, and unzipping it when the entry asks for it, gives
      the original payload, provided the payload survives the JSON encoding
      of the request (it is zipped, and so plain base64, or it is UTF-8
      text) and the unwrapping on a path outside kv-v2 cannot mistake a
      field named `"data"` for the envelope. */
  lemma UploadThenDownload(store: map<string, FieldMap>, denied: set<string>, perPath: PerPath, order: seq<string>,
                           i: nat, data: SecretData, payload: Bytes)
    requires forall j :: 0 <= j < |order| ==> order[j] in perPath
    requires Publish(store, denied, perPath, order).0 == None
    requires i < |order|
    requires data.name in perPath[order[i]] && perPath[order[i]][data.name] == Str(Staged(data, payload))
    requires data.zip || Utf8.Valid(payload)
    requires Paths.HasPrefix(order[i], KvV2Prefix) || "data" !in perPath[order[i]]
    ensures Received(ReadAt(Publish(store, denied, perPath, order).1, denied, order[i], data.name), data.zip) == Ok(payload)
  {
    var p := order[i];
    var fields := perPath[p];
    var sent := EncodedFields(fields);
    PublishStoresAll(store, denied, perPath, order);
    var after := Publish(store, denied, perPath, order).1;
    assert after[p] == Wrap(p, sent);
    StagedValid(data, payload);
    assert sent[data.name] == Str(Staged(data, payload));
    if Paths.HasPrefix(p, KvV2Prefix) {
      assert "data" in Wrap(p, sent);
    } else {
      assert data.name in Wrap(p, sent);
    }
    ExtractKeyOfWrap(p, sent, data.name);
    assert ReadAt(after, denied, p, data.name) == Ok(Staged(data, payload));
  }

  /** A zipped payload is uploaded as base64, which is ASCII; a plain one
      as it is. */
  lemma StagedValid(data: SecretData, payload: Bytes)
    requires data.zip || Utf8.Valid(payload)
    ensures Utf8.Valid(Staged(data, payload))
  {
    if data.zip {
      var z := Codec.Zip(payload);
      forall j | 0 <= j < |z| ensures z[j] < 0x80 {
        assert Base64.IsSymbol(z[j]) || z[j] == Base64.Pad;
      }
      Utf8.AsciiValid(z);
    }
  }

  /** A plain entry whose payload is not UTF-8 does not come back: the
      single byte `0xFF` uploaded to a kv-v2 path downloads as U+FFFD. */
  lemma PlainBinaryUploadReplaced(name: string)
    requires name != "data"
    ensures var path := "secret/data/app";
            var perPath := map[path := map[name := Str([0xFF])]];
            var after := Publish(map[], {}, perPath, [path]).1;
            Received(ReadAt(after, {}, path, name), false) == Ok(Utf8.Replacement)
  {
    var path := "secret/data/app";
    var perPath := map[path := map[name := Str([0xFF])]];
    var order: seq<string> := [path];
    assert order[..0] == [];
    assert Publish(map[], {}, perPath, order) == (None, map[path := Body(path, perPath[path])]);
    assert Paths.HasPrefix(path, KvV2Prefix) by {
      assert path[..|KvV2Prefix|] == KvV2Prefix;
    }
    assert "data" in Body(path, perPath[path]);
    InvalidBytesReplaced(path, name);
  }
}
