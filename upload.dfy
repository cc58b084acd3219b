/** Uploading (upload.go): every entry's payload, taken from an environment
    variable or from the input directory and zipped on request, is gathered
    into one field map per composed vault path; then each path is written
    once with its whole field map. */
module Uploads {
  import opened Types
  import opened Manifests
  import opened Fs
  import opened Files
  import opened VaultClient
  import Codec
  import Paths

  /** Vault path to the field map that will be written there. */
  type PerPath = map<string, FieldMap>

  /** `os.Getenv`: an unset variable reads as the empty string. */
  function Getenv(env: map<string, Bytes>, name: string): (v: Bytes)
    ensures name !in env ==> v == []
    ensures name in env ==> v == env[name]
  {
    if name in env then env[name] else []
  }

  /** The text an entry's payload is uploaded as: its gzip+base64 form when
      the entry asks for zipping, the payload itself otherwise. Either way
      the download side can restore the payload. */
  function Staged(data: SecretData, payload: Bytes): (v: Bytes)
    ensures data.zip ==> Codec.Unzip(v) == Ok(payload)
    ensures !data.zip ==> v == payload
  {
    if data.zip then
      Codec.UnzipZip(payload);
      Codec.Zip(payload)
    else payload
  }

  /** The field map of `path` gets `name := payload`; other names at that
      path and every other path keep their values. */
  function Aggregate(perPath: PerPath, path: string, name: string, payload: Bytes): (r: PerPath)
    ensures r.Keys == perPath.Keys + {path}
    ensures path in perPath ==> r[path].Keys == perPath[path].Keys + {name}
    ensures path !in perPath ==> r[path].Keys == {name}
    ensures r[path][name] == Str(payload)
    ensures forall k :: k in r[path] && k != name ==> r[path][k] == perPath[path][k]
    ensures forall p :: p in perPath && p != path ==> r[p] == perPath[p]
  {
    var fields := if path in perPath then perPath[path] else map[];
    perPath[path := fields[name := Str(payload)]]
  }

  /** A second entry with the same name at the same path replaces the
      first one; no error is raised for the duplicate. */
  lemma AggregateOverwrites(perPath: PerPath, path: string, name: string, first: Bytes, second: Bytes)
    ensures Aggregate(Aggregate(perPath, path, name, first), path, name, second)
         == Aggregate(perPath, path, name, second)
  {
    var once := Aggregate(perPath, path, name, second);
    var twice := Aggregate(Aggregate(perPath, path, name, first), path, name, second);
    assert twice[path] == once[path];
  }

  /** Entries with different names at one path are both kept, whatever
      order they were prepared in. */
  lemma AggregateCommutes(perPath: PerPath, path: string, n1: string, v1: Bytes, n2: string, v2: Bytes)
    requires n1 != n2
    ensures Aggregate(Aggregate(perPath, path, n1, v1), path, n2, v2)
         == Aggregate(Aggregate(perPath, path, n2, v2), path, n1, v1)
  {
    var f := if path in perPath then perPath[path] else map[];
    var f1, f2 := f[n1 := Str(v1)], f[n2 := Str(v2)];
    AggregateAt(perPath, path, n1, v1);
    AggregateAt(perPath, path, n2, v2);
    var a1, b1 := perPath[path := f1], perPath[path := f2];
    AggregateAt(a1, path, n2, v2);
    AggregateAt(b1, path, n1, v1);
    UpdateTwice(perPath, path, f1, f1[n2 := Str(v2)]);
    UpdateTwice(perPath, path, f2, f2[n1 := Str(v1)]);
    UpdateCommutes(f, n1, Str(v1), n2, Str(v2));
  }

  lemma UpdateTwice<K, V>(m: map<K, V>, k: K, x: V, y: V)
    ensures m[k := x][k := y] == m[k := y]
  {
  }

  lemma UpdateCommutes<K, V>(m: map<K, V>, k1: K, x1: V, k2: K, x2: V)
    requires k1 != k2
    ensures m[k1 := x1][k2 := x2] == m[k2 := x2][k1 := x1]
  {
  }

  lemma AggregateAt(perPath: PerPath, path: string, name: string, payload: Bytes)
    ensures Aggregate(perPath, path, name, payload)
         == perPath[path := (if path in perPath then perPath[path] else map[])[name := Str(payload)]]
  {
  }

  /** The write requests for the paths of `order`, in that order. */
  function Requests(perPath: PerPath, order: seq<string>): (rs: seq<(string, FieldMap)>)
    requires forall i :: 0 <= i < |order| ==> order[i] in perPath
    ensures |rs| == |order|
    ensures forall i :: 0 <= i < |order| ==> rs[i] == (order[i], Body(order[i], perPath[order[i]]))
  {
    seq(|order|, i requires 0 <= i < |order| => (order[i], Body(order[i], perPath[order[i]])))
  }

  /** The server state after writing the paths of `order` one by one,
      stopping at the first path the server refuses. */
  function Publish(store: map<string, FieldMap>, denied: set<string>, perPath: PerPath, order: seq<string>)
    : (r: (Option<Error>, map<string, FieldMap>))
    requires forall i :: 0 <= i < |order| ==> order[i] in perPath
    decreases |order|
  {
    if order == [] then (None, store)
    else
      var (err, before) := Publish(store, denied, perPath, order[..|order| - 1]);
      var p := order[|order| - 1];
      if err.Some? then (err, before)
      else if p in denied then (Some(VaultError(p)), before)
      else (None, before[p := Body(p, perPath[p])])
  }

  /** After a publish without error, every published path holds the body
      of its field map and every other path is as before. */
  lemma {:induction false} PublishStoresAll(store: map<string, FieldMap>, denied: set<string>, perPath: PerPath, order: seq<string>)
    requires forall i :: 0 <= i < |order| ==> order[i] in perPath
    requires Publish(store, denied, perPath, order).0 == None
    ensures forall i :: 0 <= i < |order| ==> order[i] !in denied
    ensures forall i :: 0 <= i < |order| ==>
              order[i] in Publish(store, denied, perPath, order).1 &&
              Publish(store, denied, perPath, order).1[order[i]] == Body(order[i], perPath[order[i]])
    ensures forall p :: p !in order ==>
              (p in Publish(store, denied, perPath, order).1 <==> p in store) &&
              (p in store ==> Publish(store, denied, perPath, order).1[p] == store[p])
    decreases |order|
  {
    if order != [] {
      var init := order[..|order| - 1];
      PublishStoresAll(store, denied, perPath, init);
      forall i | 0 <= i < |order| - 1 ensures order[i] == init[i] { }
    }
  }

  /** A publish that fails stops at the first refused path: all paths
      before it were stored, the error names it, and no later path was
      written. */
  lemma {:induction false} PublishStopsAtFirstDenied(store: map<string, FieldMap>, denied: set<string>, perPath: PerPath, order: seq<string>)
    requires forall i :: 0 <= i < |order| ==> order[i] in perPath
    requires Publish(store, denied, perPath, order).0.Some?
    ensures exists k :: 0 <= k < |order| && order[k] in denied
              && (forall i :: 0 <= i < k ==> order[i] !in denied)
              && Publish(store, denied, perPath, order) == (Some(VaultError(order[k])), Publish(store, denied, perPath, order[..k]).1)
    decreases |order|
  {
    var init := order[..|order| - 1];
    var (err, before) := Publish(store, denied, perPath, init);
    if err.Some? {
      PublishStopsAtFirstDenied(store, denied, perPath, init);
      var k :| 0 <= k < |init| && init[k] in denied
              && (forall i :: 0 <= i < k ==> init[i] !in denied)
              && Publish(store, denied, perPath, init) == (Some(VaultError(init[k])), Publish(store, denied, perPath, init[..k]).1);
      assert init[..k] == order[..k];
      assert order[k] == init[k];
      forall i | 0 <= i < k ensures order[i] !in denied {
        assert order[i] == init[i];
      }
    } else {
      var k := |order| - 1;
      assert order[..k] == init;
      PublishStoresAll(store, denied, perPath, init);
      forall i | 0 <= i < k ensures order[i] !in denied {
        assert order[i] == init[i];
      }
    }
  }

  /** One more path published: the requests and the fold over the paths
      so far grow by one step. */
  lemma PublishStep(start: map<string, FieldMap>, denied: set<string>, perPath: PerPath, done: seq<string>, p: string,
                    before: map<string, FieldMap>, err: Option<Error>, after: map<string, FieldMap>)
    requires p in perPath && forall i :: 0 <= i < |done| ==> done[i] in perPath
    requires (None, before) == Publish(start, denied, perPath, done)
    requires p in denied ==> err == Some(VaultError(p)) && after == before
    requires p !in denied ==> err == None && after == before[p := Body(p, perPath[p])]
    ensures (err, after) == Publish(start, denied, perPath, done + [p])
    ensures Requests(perPath, done + [p]) == Requests(perPath, done) + [(p, Body(p, perPath[p]))]
  {
    assert (done + [p])[..|done|] == done;
  }

  class Upload {
    const vault: Vault
    const inputDir: string
    var uploadPerPath: PerPath

    /** `NewUpload`: nothing gathered yet. */
    constructor (vault: Vault, inputDir: string)
      ensures this.vault == vault && this.inputDir == inputDir && uploadPerPath == map[]
    {
      this.vault := vault;
      this.inputDir := inputDir;
      uploadPerPath := map[];
    }

    /** Where an entry of `group` is read from when it does not name an
        environment variable. */
    function InputPath(group: string, data: SecretData): string {
      Paths.Join(inputDir, NameOf(group, data))
    }

    /** The raw payload of an entry: the named environment variable, which
        must not be empty, or else the file in the input directory. */
    function Source(env: map<string, Bytes>, fs: FileSystem, group: string, data: SecretData): (r: Result<Bytes>)
      reads fs
      ensures data.fromEnv != "" ==>
                r == (if Getenv(env, data.fromEnv) == [] then Err(MissingEnvVar(data.fromEnv)) else Ok(Getenv(env, data.fromEnv)))
      ensures data.fromEnv == "" && !fs.Exists(InputPath(group, data)) ==> r == Err(FileNotFound(InputPath(group, data)))
      ensures data.fromEnv == "" && fs.Exists(InputPath(group, data)) ==> r == fs.ReadFile(InputPath(group, data))
    {
      if data.fromEnv != "" then
        var v := Getenv(env, data.fromEnv);
        if v == [] then Err(MissingEnvVar(data.fromEnv)) else Ok(v)
      else if !fs.Exists(InputPath(group, data)) then Err(FileNotFound(InputPath(group, data)))
      else fs.ReadFile(InputPath(group, data))
    }

    /** `Prepare`: a missing payload is an error that gathers nothing;
        otherwise the staged payload is put under the entry name at the
        composed path. */
    method Prepare(group: string, secretType: string, vaultPath: string, data: SecretData,
                   env: map<string, Bytes>, fs: FileSystem) returns (err: Option<Error>)
      modifies this
      ensures Source(env, fs, group, data).Err? ==>
                err == Some(Source(env, fs, group, data).error) && uploadPerPath == old(uploadPerPath)
      ensures Source(env, fs, group, data).Ok? ==>
                err == None &&
                uploadPerPath == Aggregate(old(uploadPerPath), ComposePath(data, vaultPath), data.name,
                                           Staged(data, Source(env, fs, group, data).value))
    {
      var file := new File(group, secretType, data, []);
      if data.fromEnv != "" {
        var payload := Getenv(env, data.fromEnv);
        if payload == [] {
          return Some(MissingEnvVar(data.fromEnv));
        }
        file.payload := payload;
      } else {
        assert file.FilePath(inputDir) == InputPath(group, data);
        err := file.Read(fs, inputDir);
        if err.Some? {
          return;
        }
      }
      if data.zip {
        file.Zip();
      }
      var path := ComposePath(data, vaultPath);
      uploadPerPath := Aggregate(uploadPerPath, path, data.name, file.payload);
      err := None;
    }

    /** `vaultWrite`: in dry-run nothing is sent and the result is success. */
    method VaultWrite(path: string, data: FieldMap, dryRun: bool) returns (err: Option<Error>)
      modifies vault
      ensures dryRun ==> err == None && vault.store == old(vault.store) && vault.sent == old(vault.sent)
      ensures !dryRun ==> vault.sent == old(vault.sent) + [(path, Body(path, data))]
      ensures !dryRun && path in vault.denied ==> err == Some(VaultError(path)) && vault.store == old(vault.store)
      ensures !dryRun && path !in vault.denied ==> err == None && vault.store == old(vault.store)[path := Body(path, data)]
      ensures vault.token == old(vault.token)
    {
      if dryRun {
        return None;
      }
      err := vault.Write(path, data);
    }

    /** `Execute`: the paths are visited in some order, each once; outside
        dry-run each visit sends one write with the path's whole field map,
        and the first refused write ends the run with its error. */
    method Execute(dryRun: bool) returns (err: Option<Error>, ghost order: seq<string>)
      modifies vault
      ensures Distinct(order) && forall i :: 0 <= i < |order| ==> order[i] in uploadPerPath
      ensures err == None ==> forall p :: p in uploadPerPath ==> p in order
      ensures dryRun ==> err == None && vault.store == old(vault.store) && vault.sent == old(vault.sent)
      ensures !dryRun ==> vault.sent == old(vault.sent) + Requests(uploadPerPath, order)
      ensures !dryRun ==> (err, vault.store) == Publish(old(vault.store), vault.denied, uploadPerPath, order)
      ensures vault.token == old(vault.token)
    {
      var remaining := uploadPerPath.Keys;
      order := [];
      err := None;
      while remaining != {}
        invariant remaining <= uploadPerPath.Keys
        invariant Distinct(order) && forall i :: 0 <= i < |order| ==> order[i] in uploadPerPath && order[i] !in remaining
        invariant forall p :: p in uploadPerPath ==> p in remaining || p in order
        invariant dryRun ==> vault.store == old(vault.store) && vault.sent == old(vault.sent)
        invariant !dryRun ==> vault.sent == old(vault.sent) + Requests(uploadPerPath, order)
        invariant !dryRun ==> (None, vault.store) == Publish(old(vault.store), vault.denied, uploadPerPath, order)
        invariant vault.token == old(vault.token)
        invariant err == None
        decreases remaining
      {
        var p :| p in remaining;
        remaining := remaining - {p};
        ghost var done, store := order, vault.store;
        order := order + [p];
        err := VaultWrite(p, uploadPerPath[p], dryRun);
        if !dryRun {
          PublishStep(old(vault.store), vault.denied, uploadPerPath, done, p, store, err, vault.store);
        }
        if err.Some? {
          return;
        }
      }
    }
  }
}
