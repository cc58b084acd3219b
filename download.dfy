/** Downloading (download.go): each entry is read from its composed vault
    path under its own name, unzipped on request and kept as a `File`; the
    kept files are then written to the output directory in the order they
    were read. */
module Downloads {
  import opened Types
  import opened Manifests
  import opened Fs
  import opened Files
  import opened VaultClient
  import Codec
  import Paths
  import Utf8

  /** The payload kept for an entry, given what the vault returned. */
  function Received(read: Result<Bytes>, zip: bool): (r: Result<Bytes>)
    ensures read.Err? ==> r == read
    ensures read.Ok? && !zip ==> r == read
    ensures read.Ok? && zip ==> r == Codec.Unzip(read.value)
  {
    if read.Err? || !zip then read else Codec.Unzip(read.value)
  }

  /** Where each entry's file goes and what it holds, in list order. */
  function Targets(entries: seq<Entry>, dir: string): (ts: seq<(string, Bytes)>)
    ensures |ts| == |entries|
    ensures forall i :: 0 <= i < |entries| ==>
              ts[i] == (Paths.Join(dir, NameOf(entries[i].group, entries[i].properties)), entries[i].payload)
  {
    seq(|entries|, i requires 0 <= i < |entries| =>
      (Paths.Join(dir, NameOf(entries[i].group, entries[i].properties)), entries[i].payload))
  }

  class Download {
    const vault: Vault
    const outputDir: string
    /** The downloaded files, in the order they were prepared. */
    var files: seq<File>

    /** `NewDownload`: no file yet. */
    constructor (vault: Vault, outputDir: string)
      ensures this.vault == vault && this.outputDir == outputDir && files == []
    {
      this.vault := vault;
      this.outputDir := outputDir;
      files := [];
    }

    /** `Prepare`: a failed read or a failed unzip keeps the list as it
        was; otherwise exactly one new file is appended at the end. */
    method Prepare(group: string, secretType: string, vaultPath: string, data: SecretData) returns (err: Option<Error>)
      modifies this
      ensures var r := Received(vault.Read(ComposePath(data, vaultPath), data.name), data.zip);
              (r.Err? ==> err == Some(r.error) && files == old(files)) &&
              (r.Ok? ==> err == None && |files| == |old(files)| + 1 && files[..|old(files)|] == old(files)
                         && fresh(files[|old(files)|])
                         && files[|old(files)|].Snapshot() == Entry(group, secretType, data, r.value))
      ensures forall i :: 0 <= i < |old(files)| ==> files[i].Snapshot() == old(files[i].Snapshot())
    {
      var path := ComposePath(data, vaultPath);
      var read := vault.Read(path, data.name);
      if read.Err? {
        return Some(read.error);
      }
      var file := new File(group, secretType, data, read.value);
      if data.zip {
        err := file.Unzip();
        if err.Some? {
          return;
        }
      }
      files := files + [file];
      assert files[..|files| - 1] == old(files);
      err := None;
    }

    /** `Execute`: dry-run writes nothing; otherwise the files are written
        in list order to the output directory, stopping at the first
        failing write. */
    method Execute(fs: FileSystem, dryRun: bool) returns (err: Option<Error>)
      modifies fs
      ensures dryRun ==> err == None && fs.files == old(fs.files)
      ensures !dryRun ==> (err, fs.files) == fs.WriteAll(old(fs.files), Targets(old(Snapshots(files)), outputDir))
    {
      // the dry-run loop only logs each path, so it is left out
      if dryRun {
        return None;
      }
      var fl := files;
      var es := Snapshots(fl);
      ghost var targets := Targets(es, outputDir);
      var i := 0;
      while i < |es|
        invariant 0 <= i <= |es|
        invariant (None, fs.files) == fs.WriteAll(old(fs.files), targets[..i])
      {
        ghost var before := fs.files;
        var file := fl[i];
        assert file.Snapshot() == es[i];
        assert file.FilePath(outputDir) == targets[i].0;
        err := file.Write(fs, outputDir);
        WriteStep(fs, old(fs.files), targets, i, before, err, fs.files);
        if err.Some? {
          return;
        }
        i := i + 1;
      }
      assert targets[..i] == targets;
      err := None;
    }
  }

  /** One more file written: the fold over the targets so far grows by one
      step, and a failing step is where the whole fold ends. */
  lemma WriteStep(fs: FileSystem, start: map<string, Bytes>, targets: seq<(string, Bytes)>, i: nat,
                  before: map<string, Bytes>, err: Option<Error>, after: map<string, Bytes>)
    requires i < |targets|
    requires (None, before) == fs.WriteAll(start, targets[..i])
    requires (err, after) == fs.Write(before, targets[i].0, targets[i].1)
    ensures (err, after) == fs.WriteAll(start, targets[..i + 1])
    ensures err.Some? ==> (err, after) == fs.WriteAll(start, targets)
  {
    fs.WriteAllSnoc(start, targets[..i], targets[i]);
    assert targets[..i + 1] == targets[..i] + [targets[i]];
    if err.Some? {
      fs.WriteAllAfterError(start, targets[..i + 1], targets[i + 1..]);
      assert targets[..i + 1] + targets[i + 1..] == targets;
    }
  }

  /** What an upload left at a path is what a download of the same entry
      keeps: the payload, byte for byte, zipped or not, as long as the
      uploaded string was UTF-8 and so survived the JSON encoding. */
  lemma DownloadRestoresUpload(v: Vault, path: string, fields: FieldMap, data: SecretData, payload: Bytes, staged: Bytes)
    requires path !in v.denied && path in v.store && v.store[path] == Body(path, fields)
    requires data.name in fields && fields[data.name] == Str(staged) && Utf8.Valid(staged)
    requires data.zip ==> Codec.Unzip(staged) == Ok(payload)
    requires !data.zip ==> staged == payload
    requires Paths.HasPrefix(path, KvV2Prefix) || "data" !in fields
    ensures Received(v.Read(path, data.name), data.zip) == Ok(payload)
  {
    ReadAfterWrite(v, path, fields, data.name);
  }
}
