/** The filesystem as the core sees it through `os.Stat`, `ioutil.ReadFile`
    and `ioutil.WriteFile`: a map from path to contents, a set of directories,
    and a set of paths at which the operating system refuses I/O. */
module Fs {
  import opened Types

  class FileSystem {
    var files: map<string, Bytes>
    const dirs: set<string>
    /** Paths where reads and writes fail (permissions, devices, ...). */
    const faulty: set<string>

    constructor (files: map<string, Bytes>, dirs: set<string>, faulty: set<string>)
      ensures this.files == files && this.dirs == dirs && this.faulty == faulty
    {
      this.files := files;
      this.dirs := dirs;
      this.faulty := faulty;
    }

    /** `os.Stat` succeeds: a file or a directory is there. */
    predicate Exists(path: string)
      reads this
    {
      path in files || path in dirs
    }

    predicate IsDir(path: string) {
      path in dirs
    }

    /** `ioutil.WriteFile` can create or replace the file at `path`. */
    predicate Writable(path: string) {
      path !in dirs && path !in faulty
    }

    /** `ioutil.ReadFile`. */
    function ReadFile(path: string): (r: Result<Bytes>)
      reads this
      ensures r.Ok? <==> path in files && path !in faulty
      ensures r.Ok? ==> r.value == files[path]
      ensures r.Err? ==> r.error == IoError(path)
    {
      if path in files && path !in faulty then Ok(files[path]) else Err(IoError(path))
    }

    /** Once `data` has been written at a writable `path`, reading `path`
        gives `data` back and every other path reads as before. */
    lemma ReadAfterWrite(before: map<string, Bytes>, path: string, data: Bytes)
      requires Writable(path) && files == Write(before, path, data).1
      ensures ReadFile(path) == Ok(data)
      ensures forall p :: p != path ==>
                ReadFile(p) == if p in before && p !in faulty then Ok(before[p]) else Err(IoError(p))
    {
    }

    /** The outcome of writing `data` at `path` when the files are `before`. */
    function Write(before: map<string, Bytes>, path: string, data: Bytes): (r: (Option<Error>, map<string, Bytes>))
      ensures Writable(path) ==> r.0 == None && path in r.1 && r.1[path] == data
      ensures !Writable(path) ==> r.0 == Some(IoError(path)) && r.1 == before
      ensures forall p :: p != path ==> (p in r.1 <==> p in before) && (p in before ==> r.1[p] == before[p])
    {
      if Writable(path) then (None, before[path := data]) else (Some(IoError(path)), before)
    }

    /** Writing `targets` in order, stopping at the first failure. */
    function WriteAll(before: map<string, Bytes>, targets: seq<(string, Bytes)>): (r: (Option<Error>, map<string, Bytes>))
      decreases |targets|
    {
      if targets == [] then (None, before)
      else
        var (err, mid) := WriteAll(before, targets[..|targets| - 1]);
        var t := targets[|targets| - 1];
        if err.Some? then (err, mid) else Write(mid, t.0, t.1)
    }

    /** `ioutil.WriteFile` (owner-only permissions are not modelled). */
    method WriteFile(path: string, data: Bytes) returns (err: Option<Error>)
      modifies this
      ensures (err, files) == Write(old(files), path, data)
    {
      if Writable(path) {
        files := files[path := data];
        err := None;
      } else {
        err := Some(IoError(path));
      }
    }

    /** Writing one more target after a prefix that reported no error. */
    lemma WriteAllSnoc(before: map<string, Bytes>, targets: seq<(string, Bytes)>, t: (string, Bytes))
      requires WriteAll(before, targets).0 == None
      ensures WriteAll(before, targets + [t]) == Write(WriteAll(before, targets).1, t.0, t.1)
    {
      assert (targets + [t])[..|targets|] == targets;
    }

    /** A run of writes without error wrote its last target after the
        others. */
    lemma WriteAllLast(before: map<string, Bytes>, targets: seq<(string, Bytes)>)
      requires targets != [] && WriteAll(before, targets).0 == None
      ensures var init := targets[..|targets| - 1];
              var t := targets[|targets| - 1];
              WriteAll(before, init).0 == None && WriteAll(before, targets) == Write(WriteAll(before, init).1, t.0, t.1)
    {
    }

    /** Once a write has failed, later targets are not written. */
    lemma {:induction false} WriteAllAfterError(before: map<string, Bytes>, targets: seq<(string, Bytes)>, more: seq<(string, Bytes)>)
      requires WriteAll(before, targets).0.Some?
      ensures WriteAll(before, targets + more) == WriteAll(before, targets)
      decreases |more|
    {
      if more == [] {
        assert targets + more == targets;
      } else {
        var init := more[..|more| - 1];
        WriteAllAfterError(before, targets, init);
        assert (targets + more)[..|targets + more| - 1] == targets + init;
      }
    }

    /** On success every target path holds what the last target for that
        path carried, and no other path changed. */
    lemma WriteAllLastWins(before: map<string, Bytes>, targets: seq<(string, Bytes)>)
      requires WriteAll(before, targets).0 == None
      ensures forall i :: 0 <= i < |targets| ==> Writable(targets[i].0)
      ensures forall i :: 0 <= i < |targets| ==> targets[i].0 in WriteAll(before, targets).1
      ensures forall i :: 0 <= i < |targets| && (forall j :: i < j < |targets| ==> targets[j].0 != targets[i].0)
                ==> WriteAll(before, targets).1[targets[i].0] == targets[i].1
      ensures forall p :: (forall i :: 0 <= i < |targets| ==> targets[i].0 != p) ==>
                (p in WriteAll(before, targets).1 <==> p in before) &&
                (p in before ==> WriteAll(before, targets).1[p] == before[p])
    {
      forall i | 0 <= i < |targets| ensures Writable(targets[i].0) && targets[i].0 in WriteAll(before, targets).1 {
        WriteAllWritten(before, targets, i);
      }
      forall i | 0 <= i < |targets| && (forall j :: i < j < |targets| ==> targets[j].0 != targets[i].0)
        ensures WriteAll(before, targets).1[targets[i].0] == targets[i].1
      {
        WriteAllLastAt(before, targets, i);
      }
      forall p | forall i :: 0 <= i < |targets| ==> targets[i].0 != p
        ensures (p in WriteAll(before, targets).1 <==> p in before) &&
                (p in before ==> WriteAll(before, targets).1[p] == before[p])
      {
        WriteAllUntouched(before, targets, p);
      }
    }

    /** Every target of a successful run was writable and is present. */
    lemma {:induction false} WriteAllWritten(before: map<string, Bytes>, targets: seq<(string, Bytes)>, i: nat)
      requires WriteAll(before, targets).0 == None && i < |targets|
      ensures Writable(targets[i].0) && targets[i].0 in WriteAll(before, targets).1
      decreases |targets|
    {
      var n := |targets| - 1;
      WriteAllLast(before, targets);
      if i < n {
        assert targets[i] == targets[..n][i];
        WriteAllWritten(before, targets[..n], i);
      }
    }

    /** A target that no later target overwrites keeps its contents. */
    lemma {:induction false} WriteAllLastAt(before: map<string, Bytes>, targets: seq<(string, Bytes)>, i: nat)
      requires WriteAll(before, targets).0 == None && i < |targets|
      requires forall j :: i < j < |targets| ==> targets[j].0 != targets[i].0
      ensures targets[i].0 in WriteAll(before, targets).1 && WriteAll(before, targets).1[targets[i].0] == targets[i].1
      decreases |targets|
    {
      var n := |targets| - 1;
      var init := targets[..n];
      WriteAllLast(before, targets);
      if i < n {
        assert targets[i] == init[i];
        forall j | i < j < |init| ensures init[j].0 != init[i].0 {
          assert init[j] == targets[j];
        }
        WriteAllLastAt(before, init, i);
      }
    }

    /** A path that no target names is left as it was. */
    lemma {:induction false} WriteAllUntouched(before: map<string, Bytes>, targets: seq<(string, Bytes)>, p: string)
      requires WriteAll(before, targets).0 == None
      requires forall i :: 0 <= i < |targets| ==> targets[i].0 != p
      ensures (p in WriteAll(before, targets).1 <==> p in before) &&
              (p in before ==> WriteAll(before, targets).1[p] == before[p])
      decreases |targets|
    {
      if targets != [] {
        var n := |targets| - 1;
        var init := targets[..n];
        WriteAllLast(before, targets);
        forall i | 0 <= i < |init| ensures init[i].0 != p {
          assert init[i] == targets[i];
        }
        WriteAllUntouched(before, init, p);
      }
    }

    /** On failure the first unwritable target is where the writing stopped:
        every earlier target was written and nothing after it. */
    lemma {:induction false} WriteAllStopsAtFirstError(before: map<string, Bytes>, targets: seq<(string, Bytes)>)
      requires WriteAll(before, targets).0.Some?
      ensures exists k :: 0 <= k < |targets| && !Writable(targets[k].0)
                && (forall i :: 0 <= i < k ==> Writable(targets[i].0))
                && WriteAll(before, targets) == (Some(IoError(targets[k].0)), WriteAll(before, targets[..k]).1)
      decreases |targets|
    {
      var n := |targets| - 1;
      var init := targets[..n];
      if WriteAll(before, init).0.Some? {
        WriteAllStopsAtFirstError(before, init);
        var k :| 0 <= k < |init| && !Writable(init[k].0)
                && (forall i :: 0 <= i < k ==> Writable(init[i].0))
                && WriteAll(before, init) == (Some(IoError(init[k].0)), WriteAll(before, init[..k]).1);
        assert init[..k] == targets[..k];
        assert targets[k] == init[k];
        forall i | 0 <= i < k ensures Writable(targets[i].0) {
          assert targets[i] == init[i];
        }
      } else {
        WriteAllLastWins(before, init);
        forall i | 0 <= i < n ensures Writable(targets[i].0) {
          assert targets[i] == init[i];
        }
      }
    }
  }
}
