/** The entry container of file.go: one secret's payload with the group and
    entry it belongs to, the file name it is stored under, and the codec and
    filesystem operations that rewrite its payload in place. */
module Files {
  import opened Types
  import opened Manifests
  import opened Fs
  import Paths
  import Codec

  /** `<group>.<name>.<extension>`. */
  function NameOf(group: string, data: SecretData): string {
    group + "." + data.name + "." + data.extension
  }

  predicate NoDot(s: string) {
    forall i :: 0 <= i < |s| ==> s[i] != '.'
  }

  /** Where no part contains a dot, the file name determines group, entry
      name and extension: distinct entries never share a file. */
  lemma FileNameInjective(g1: string, d1: SecretData, g2: string, d2: SecretData)
    requires NoDot(g1) && NoDot(d1.name) && NoDot(d1.extension)
    requires NoDot(g2) && NoDot(d2.name) && NoDot(d2.extension)
    requires NameOf(g1, d1) == NameOf(g2, d2)
    ensures g1 == g2 && d1.name == d2.name && d1.extension == d2.extension
  {
    assert NameOf(g1, d1) == g1 + "." + (d1.name + "." + d1.extension);
    assert NameOf(g2, d2) == g2 + "." + (d2.name + "." + d2.extension);
    FirstDot(g1, d1.name + "." + d1.extension, g2, d2.name + "." + d2.extension);
    FirstDot(d1.name, d1.extension, d2.name, d2.extension);
  }

  /** The position of the first dot, or the length when there is none. */
  function FirstDotAt(s: string): (k: nat)
    ensures k <= |s|
  {
    if s == [] then 0 else if s[0] == '.' then 0 else 1 + FirstDotAt(s[1..])
  }

  lemma {:induction false} FirstDotAfterPrefix(a: string, b: string)
    requires NoDot(a)
    ensures FirstDotAt(a + "." + b) == |a|
    decreases |a|
  {
    if a != [] {
      assert (a + "." + b)[1..] == a[1..] + "." + b;
      FirstDotAfterPrefix(a[1..], b);
    }
  }

  /** `a + "." + b == c + "." + d` with no dot in `a` or `c` splits at the same place. */
  lemma FirstDot(a: string, b: string, c: string, d: string)
    requires NoDot(a) && NoDot(c)
    requires a + "." + b == c + "." + d
    ensures a == c && b == d
  {
    var s := a + "." + b;
    FirstDotAfterPrefix(a, b);
    FirstDotAfterPrefix(c, d);
    assert a == s[..|a|] == c;
    assert b == s[|a| + 1..] == d;
  }

  /** The value of a `File` at one moment; the reconcilers' specifications
      are stated over these. */
  datatype Entry = Entry(group: string, secretType: string, properties: SecretData, payload: Bytes)

  class File {
    var group: string
    var secretType: string        // cluster secret type of the group
    var properties: SecretData
    var payload: Bytes

    /** `NewFile`: the fields as given. */
    constructor (group: string, secretType: string, properties: SecretData, payload: Bytes)
      ensures this.group == group && this.secretType == secretType
      ensures this.properties == properties && this.payload == payload
    {
      this.group := group;
      this.secretType := secretType;
      this.properties := properties;
      this.payload := payload;
    }

    function Snapshot(): Entry
      reads this
    {
      Entry(group, secretType, properties, payload)
    }

    /** `fileName`: the group, the entry name and the extension,
        dot-separated, in that order. */
    function FileName(): string
      reads this
    {
      NameOf(group, properties)
    }

    /** `FilePath`: the file name inside `baseDir`. */
    function FilePath(baseDir: string): string
      reads this
    {
      Paths.Join(baseDir, FileName())
    }

    /** The file name starts with the group and a dot, holds the entry name,
        and ends with a dot and the extension; when the group has no dot, the
        first dot is the one right after it. */
    lemma FileNameParts()
      ensures var n := FileName();
              |n| == |group| + |properties.name| + |properties.extension| + 2 &&
              n[..|group|] == group && n[|group|] == '.' &&
              n[|group| + 1..|group| + 1 + |properties.name|] == properties.name &&
              n[|n| - |properties.extension| - 1] == '.' &&
              n[|n| - |properties.extension|..] == properties.extension
      ensures NoDot(group) ==> FirstDotAt(FileName()) == |group|
    {
      var rest := properties.name + "." + properties.extension;
      assert FileName() == group + "." + rest;
      if NoDot(group) {
        FirstDotAfterPrefix(group, rest);
      }
    }

    /** The path is `baseDir`, a slash and the file name, so it ends with
        the extension; a file name with no dot in the group is split right
        after the group. */
    lemma FilePathParts(baseDir: string)
      requires baseDir != ""
      ensures var p := FilePath(baseDir);
              |p| == |baseDir| + 1 + |FileName()| &&
              p[..|baseDir|] == baseDir && p[|baseDir|] == '/' && p[|baseDir| + 1..] == FileName() &&
              p[|p| - |properties.extension|..] == properties.extension
      ensures NoDot(group) ==> FirstDotAt(FilePath(baseDir)[|baseDir| + 1..]) == |group|
    {
      FileNameParts();
      var p := FilePath(baseDir);
      assert p == baseDir + "/" + FileName();
      assert p[|baseDir| + 1..] == FileName();
      assert p[|p| - |properties.extension|..] == FileName()[|FileName()| - |properties.extension|..];
    }

    /** Replaces the payload by its gzip+base64 text. Writing into an
        in-memory buffer cannot fail, so no error is returned. */
    method Zip()
      modifies this
      ensures payload == Codec.Zip(old(payload))
      ensures group == old(group) && secretType == old(secretType) && properties == old(properties)
    {
      payload := Codec.Zip(payload);
    }

    /** Replaces the payload by its decoded contents; a malformed payload is
        an error and is kept. */
    method Unzip() returns (err: Option<Error>)
      modifies this
      ensures Codec.Unzip(old(payload)).Ok? ==> err == None && payload == Codec.Unzip(old(payload)).value
      ensures Codec.Unzip(old(payload)).Err? ==> err == Some(CodecError) && payload == old(payload)
      ensures group == old(group) && secretType == old(secretType) && properties == old(properties)
    {
      var r := Codec.Unzip(payload);
      if r.Ok? {
        payload := r.value;
        err := None;
      } else {
        err := Some(r.error);
      }
    }

    /** Loads the payload from `FilePath(baseDir)`. A missing file leaves the
        payload alone; a failing read empties it, as `ioutil.ReadFile`
        returns nil together with its error. */
    method Read(fs: FileSystem, baseDir: string) returns (err: Option<Error>)
      modifies this
      ensures group == old(group) && secretType == old(secretType) && properties == old(properties)
      ensures !fs.Exists(FilePath(baseDir)) ==> err == Some(FileNotFound(FilePath(baseDir))) && payload == old(payload)
      ensures fs.Exists(FilePath(baseDir)) && fs.ReadFile(FilePath(baseDir)).Err? ==>
                err == Some(IoError(FilePath(baseDir))) && payload == []
      ensures fs.ReadFile(FilePath(baseDir)).Ok? ==> err == None && payload == fs.files[FilePath(baseDir)]
    {
      var fullPath := FilePath(baseDir);
      if !fs.Exists(fullPath) {
        return Some(FileNotFound(fullPath));
      }
      var r := fs.ReadFile(fullPath);
      if r.Err? {
        payload := [];
        return Some(r.error);
      }
      payload := r.value;
      err := None;
    }

    /** Stores the payload at `FilePath(baseDir)`. */
    method Write(fs: FileSystem, baseDir: string) returns (err: Option<Error>)
      modifies fs
      ensures (err, fs.files) == fs.Write(old(fs.files), FilePath(baseDir), payload)
    {
      err := fs.WriteFile(FilePath(baseDir), payload);
    }
  }

  /** The file of entry `zipped.txt` of group `group` in `/var/tmp`. */
  lemma FilePathExample(f: File)
    requires f.group == "group" && f.properties.name == "zipped" && f.properties.extension == "txt"
    ensures f.FilePath("/var/tmp") == "/var/tmp/group.zipped.txt"
  {
    assert f.FileName() == "group.zipped.txt";
  }

  /** The snapshots of a list of files, in list order. */
  function Snapshots(files: seq<File>): (es: seq<Entry>)
    reads files
    ensures |es| == |files|
    ensures forall i :: 0 <= i < |files| ==> es[i] == files[i].Snapshot()
    decreases |files|
  {
    if files == [] then [] else Snapshots(files[..|files| - 1]) + [files[|files| - 1].Snapshot()]
  }

  lemma SnapshotsAppend(files: seq<File>, f: File)
    ensures Snapshots(files + [f]) == Snapshots(files) + [f.Snapshot()]
  {
    assert (files + [f])[..|files|] == files;
  }
}
