/** The application runtime of handler.go: log in to the vault, then for
    every group of the manifest and every entry of the group, read the
    entry from its composed vault path and persist it in the output
    directory, stopping at the first error. */
module Handlers {
  import opened Types
  import opened Manifests
  import opened Fs
  import opened Files
  import opened VaultClient
  import opened Configs
  import Codec
  import Paths

  /** What persisting one payload does to the files `before`: an unzip
      failure comes before any write, the dry-run writes nothing, and
      otherwise the (unzipped) payload is written at
      `<dir>/<group>.<name>.<extension>`. */
  function PersistOutcome(fs: FileSystem, before: map<string, Bytes>, dir: string, dryRun: bool,
                          group: string, data: SecretData, payload: Bytes): (r: (Option<Error>, map<string, Bytes>))
    ensures data.zip && Codec.Unzip(payload).Err? ==> r == (Some(CodecError), before)
    ensures dryRun ==> r.1 == before
    ensures r.0 == None && !dryRun ==>
              var path := Paths.Join(dir, NameOf(group, data));
              path in r.1 && r.1[path] == (if data.zip then Codec.Unzip(payload).value else payload) &&
              forall p :: p != path ==> (p in r.1 <==> p in before) && (p in before ==> r.1[p] == before[p])
  {
    var content := if data.zip then Codec.Unzip(payload) else Ok(payload);
    if content.Err? then (Some(content.error), before)
    else if dryRun then (None, before)
    else fs.Write(before, Paths.Join(dir, NameOf(group, data)), content.value)
  }

  /** The entries of one group, read and persisted in list order, stopping
      at the first failing read or persist. */
  function RunEntries(store: map<string, FieldMap>, denied: set<string>, fs: FileSystem, before: map<string, Bytes>,
                      dir: string, dryRun: bool, group: string, vaultPath: string, ds: seq<SecretData>): (r: (Option<Error>, map<string, Bytes>))
    decreases |ds|
  {
    if ds == [] then (None, before)
    else
      var (err, mid) := RunEntries(store, denied, fs, before, dir, dryRun, group, vaultPath, ds[..|ds| - 1]);
      if err.Some? then (err, mid)
      else
        var d := ds[|ds| - 1];
        var read := ReadAt(store, denied, ComposePath(d, vaultPath), d.name);
        if read.Err? then (Some(read.error), mid)
        else PersistOutcome(fs, mid, dir, dryRun, group, d, read.value)
  }

  /** The groups of `order`, one after the other, stopping at the first
      failing group. */
  function RunGroups(store: map<string, FieldMap>, denied: set<string>, fs: FileSystem, before: map<string, Bytes>,
                     dir: string, dryRun: bool, m: Manifest, order: seq<string>): (r: (Option<Error>, map<string, Bytes>))
    requires forall i :: 0 <= i < |order| ==> order[i] in m.secrets
    decreases |order|
  {
    if order == [] then (None, before)
    else
      var (err, mid) := RunGroups(store, denied, fs, before, dir, dryRun, m, order[..|order| - 1]);
      if err.Some? then (err, mid)
      else
        var g := order[|order| - 1];
        RunEntries(store, denied, fs, mid, dir, dryRun, g, m.secrets[g].path, m.secrets[g].data)
  }

  class Handler {
    const config: Config
    const vault: Vault

    /** `NewHandler`; the vault client's construction from the address is
        not part of this model, so the client is given. */
    constructor (config: Config, vault: Vault)
      ensures this.config == config && this.vault == vault
    {
      this.config := config;
      this.vault := vault;
    }

    /** `persist`. */
    method Persist(fs: FileSystem, group: string, data: SecretData, payload: Bytes) returns (err: Option<Error>)
      modifies fs
      ensures (err, fs.files) == PersistOutcome(fs, old(fs.files), config.outputDir, config.dryRun, group, data, payload)
    {
      var filePath := Paths.Join(config.outputDir, NameOf(group, data));
      var content := payload;
      if data.zip {
        var r := Codec.Unzip(payload);
        if r.Err? {
          return Some(r.error);
        }
        content := r.value;
      }
      if config.dryRun {
        return None;
      }
      err := fs.WriteFile(filePath, content);
    }

    /** The inner loop of `Run`: the entries of one group in order. */
    method RunGroup(fs: FileSystem, group: string, secrets: Secrets) returns (err: Option<Error>)
      modifies fs
      ensures (err, fs.files) == RunEntries(vault.store, vault.denied, fs, old(fs.files), config.outputDir,
                                            config.dryRun, group, secrets.path, secrets.data)
    {
      ghost var start := fs.files;
      ghost var store := vault.store;
      var ds, dir, dryRun, path := secrets.data, config.outputDir, config.dryRun, secrets.path;
      var i := 0;
      while i < |ds|
        invariant 0 <= i <= |ds|
        invariant vault.store == store
        invariant (None, fs.files) == RunEntries(store, vault.denied, fs, start, dir, dryRun, group, path, ds[..i])
      {
        var data := ds[i];
        var read := vault.Read(ComposePath(data, path), data.name);
        EntriesStep(store, vault.denied, fs, start, dir, dryRun, group, path, ds, i);
        if read.Err? {
          EntriesStopAt(store, vault.denied, fs, start, dir, dryRun, group, path, ds, i + 1);
          return Some(read.error);
        }
        err := Persist(fs, group, data, read.value);
        if err.Some? {
          EntriesStopAt(store, vault.denied, fs, start, dir, dryRun, group, path, ds, i + 1);
          return;
        }
        i := i + 1;
      }
      assert ds[..i] == ds;
      err := None;
    }

    /** `Run`: a token logs in directly, otherwise AppRole is used and its
        failure ends the run before anything is read; then the groups are
        visited in the map's (unspecified) order. */
    method Run(fs: FileSystem, m: Manifest, reply: LoginReply) returns (err: Option<Error>, ghost order: seq<string>)
      modifies vault, fs
      ensures vault.store == old(vault.store) && vault.sent == old(vault.sent)
      ensures config.vaultToken != "" ==> vault.token == config.vaultToken
      ensures Distinct(order) && forall i :: 0 <= i < |order| ==> order[i] in m.secrets
      ensures config.vaultToken == "" && reply.LoginFailed? ==>
                err == Some(VaultError(AppRoleLoginPath)) && order == [] && fs.files == old(fs.files)
      ensures config.vaultToken == "" && reply.LoginReplied? && (reply.clientToken == None || reply.clientToken == Some("")) ==>
                err == Some(NoAuthData) && order == [] && fs.files == old(fs.files)
      ensures config.vaultToken == "" && reply.LoginReplied? && reply.clientToken.Some? && reply.clientToken.value != "" ==>
                vault.token == reply.clientToken.value
      ensures config.vaultToken != "" || (reply.LoginReplied? && reply.clientToken.Some? && reply.clientToken.value != "") ==>
                (err, fs.files) == RunGroups(vault.store, vault.denied, fs, old(fs.files), config.outputDir, config.dryRun, m, order)
      ensures err == None ==> forall g :: g in m.secrets ==> g in order
    {
      order := [];
      if config.vaultToken != "" {
        vault.TokenAuth(config.vaultToken);
      } else {
        err := vault.AppRoleAuth(reply);
        if err.Some? {
          return;
        }
      }
      ghost var start := fs.files;
      var remaining := m.secrets.Keys;
      while remaining != {}
        invariant remaining <= m.secrets.Keys
        invariant Distinct(order)
        invariant forall g :: g in m.secrets <==> g in order || g in remaining
        invariant forall g :: g in order ==> g !in remaining
        invariant vault.store == old(vault.store) && vault.sent == old(vault.sent)
        invariant config.vaultToken != "" ==> vault.token == config.vaultToken
        invariant config.vaultToken == "" ==> vault.token == reply.clientToken.value
        invariant (None, fs.files) == RunGroups(vault.store, vault.denied, fs, start, config.outputDir, config.dryRun, m, order)
        decreases |remaining|
      {
        var g :| g in remaining;
        var secrets := m.secrets[g];
        ghost var mid := fs.files;
        err := RunGroup(fs, g, secrets);
        GroupsStep(vault.store, vault.denied, fs, start, config.outputDir, config.dryRun, m, order, g);
        DistinctSnoc(order, g);
        order := order + [g];
        if err.Some? {
          return;
        }
        remaining := remaining - {g};
      }
      err := None;
    }
  }

  lemma EntriesStep(store: map<string, FieldMap>, denied: set<string>, fs: FileSystem, before: map<string, Bytes>,
                    dir: string, dryRun: bool, group: string, vaultPath: string, ds: seq<SecretData>, i: nat)
    requires i < |ds|
    requires RunEntries(store, denied, fs, before, dir, dryRun, group, vaultPath, ds[..i]).0 == None
    ensures var mid := RunEntries(store, denied, fs, before, dir, dryRun, group, vaultPath, ds[..i]).1;
            var read := ReadAt(store, denied, ComposePath(ds[i], vaultPath), ds[i].name);
            RunEntries(store, denied, fs, before, dir, dryRun, group, vaultPath, ds[..i + 1]) ==
              if read.Err? then (Some(read.error), mid) else PersistOutcome(fs, mid, dir, dryRun, group, ds[i], read.value)
  {
    assert ds[..i + 1][..i] == ds[..i];
  }

  /** A group that ran without error ran its last entry without error,
      after the entries before it. */
  lemma EntriesLast(store: map<string, FieldMap>, denied: set<string>, fs: FileSystem, before: map<string, Bytes>,
                    dir: string, dryRun: bool, group: string, vaultPath: string, ds: seq<SecretData>)
    requires ds != []
    requires RunEntries(store, denied, fs, before, dir, dryRun, group, vaultPath, ds).0 == None
    ensures var d := ds[|ds| - 1];
            var mid := RunEntries(store, denied, fs, before, dir, dryRun, group, vaultPath, ds[..|ds| - 1]);
            var read := ReadAt(store, denied, ComposePath(d, vaultPath), d.name);
            mid.0 == None && read.Ok? &&
            RunEntries(store, denied, fs, before, dir, dryRun, group, vaultPath, ds) ==
              PersistOutcome(fs, mid.1, dir, dryRun, group, d, read.value)
  {
  }

  /** Once an entry fails, the entries after it change nothing: the
      outcome of the whole group is the outcome up to the failure. */
  lemma {:induction false} EntriesStopAt(store: map<string, FieldMap>, denied: set<string>, fs: FileSystem, before: map<string, Bytes>,
                                         dir: string, dryRun: bool, group: string, vaultPath: string, ds: seq<SecretData>, n: nat)
    requires n <= |ds|
    requires RunEntries(store, denied, fs, before, dir, dryRun, group, vaultPath, ds[..n]).0.Some?
    ensures RunEntries(store, denied, fs, before, dir, dryRun, group, vaultPath, ds) ==
            RunEntries(store, denied, fs, before, dir, dryRun, group, vaultPath, ds[..n])
    decreases |ds| - n
  {
    if n < |ds| {
      assert ds[..n + 1][..n] == ds[..n];
      EntriesStopAt(store, denied, fs, before, dir, dryRun, group, vaultPath, ds, n + 1);
    } else {
      assert ds[..n] == ds;
    }
  }

  lemma GroupsStep(store: map<string, FieldMap>, denied: set<string>, fs: FileSystem, before: map<string, Bytes>,
                   dir: string, dryRun: bool, m: Manifest, order: seq<string>, g: string)
    requires forall i :: 0 <= i < |order| ==> order[i] in m.secrets
    requires g in m.secrets
    requires RunGroups(store, denied, fs, before, dir, dryRun, m, order).0 == None
    ensures RunGroups(store, denied, fs, before, dir, dryRun, m, order + [g]) ==
            RunEntries(store, denied, fs, RunGroups(store, denied, fs, before, dir, dryRun, m, order).1,
                       dir, dryRun, g, m.secrets[g].path, m.secrets[g].data)
  {
    assert (order + [g])[..|order|] == order;
  }

  /** The dry-run writes no file, whatever the entries. */
  lemma {:induction false} EntriesDryRun(store: map<string, FieldMap>, denied: set<string>, fs: FileSystem, before: map<string, Bytes>,
                                         dir: string, group: string, vaultPath: string, ds: seq<SecretData>)
    ensures RunEntries(store, denied, fs, before, dir, true, group, vaultPath, ds).1 == before
    decreases |ds|
  {
    if ds != [] {
      EntriesDryRun(store, denied, fs, before, dir, group, vaultPath, ds[..|ds| - 1]);
    }
  }

  lemma {:induction false} GroupsDryRun(store: map<string, FieldMap>, denied: set<string>, fs: FileSystem, before: map<string, Bytes>,
                                        dir: string, m: Manifest, order: seq<string>)
    requires forall i :: 0 <= i < |order| ==> order[i] in m.secrets
    ensures RunGroups(store, denied, fs, before, dir, true, m, order).1 == before
    decreases |order|
  {
    if order != [] {
      var init := order[..|order| - 1];
      GroupsDryRun(store, denied, fs, before, dir, m, init);
      var g := order[|order| - 1];
      EntriesDryRun(store, denied, fs, before, dir, g, m.secrets[g].path, m.secrets[g].data);
    }
  }

  /** A successful run that is not a dry-run leaves a file for every entry
      of every visited group. */
  lemma {:induction false} GroupsWriteAll(store: map<string, FieldMap>, denied: set<string>, fs: FileSystem, before: map<string, Bytes>,
                                          dir: string, m: Manifest, order: seq<string>)
    requires forall i :: 0 <= i < |order| ==> order[i] in m.secrets
    requires RunGroups(store, denied, fs, before, dir, false, m, order).0 == None
    ensures forall p :: p in before ==> p in RunGroups(store, denied, fs, before, dir, false, m, order).1
    ensures forall i, j :: 0 <= i < |order| && 0 <= j < |m.secrets[order[i]].data| ==>
              Paths.Join(dir, NameOf(order[i], m.secrets[order[i]].data[j])) in RunGroups(store, denied, fs, before, dir, false, m, order).1
    decreases |order|
  {
    if order != [] {
      var init := order[..|order| - 1];
      var g := order[|order| - 1];
      var mid := RunGroups(store, denied, fs, before, dir, false, m, init);
      assert mid.0 == None;
      GroupsWriteAll(store, denied, fs, before, dir, m, init);
      EntriesWriteAll(store, denied, fs, mid.1, dir, g, m.secrets[g].path, m.secrets[g].data);
      var after := RunGroups(store, denied, fs, before, dir, false, m, order).1;
      forall i, j | 0 <= i < |order| && 0 <= j < |m.secrets[order[i]].data|
        ensures Paths.Join(dir, NameOf(order[i], m.secrets[order[i]].data[j])) in after
      {
        if i < |init| {
          assert order[i] == init[i];
        }
      }
    }
  }

  /** A successful run through a group leaves a file for each of its
      entries, at `<dir>/<group>.<name>.<extension>`, and keeps every file
      that was there. */
  lemma EntriesWriteAll(store: map<string, FieldMap>, denied: set<string>, fs: FileSystem, before: map<string, Bytes>,
                        dir: string, group: string, vaultPath: string, ds: seq<SecretData>)
    requires RunEntries(store, denied, fs, before, dir, false, group, vaultPath, ds).0 == None
    ensures forall p :: p in before ==> p in RunEntries(store, denied, fs, before, dir, false, group, vaultPath, ds).1
    ensures forall i :: 0 <= i < |ds| ==>
              Paths.Join(dir, NameOf(group, ds[i])) in RunEntries(store, denied, fs, before, dir, false, group, vaultPath, ds).1
  {
    forall p | p in before ensures p in RunEntries(store, denied, fs, before, dir, false, group, vaultPath, ds).1 {
      EntriesKeep(store, denied, fs, before, dir, group, vaultPath, ds, p);
    }
    forall i | 0 <= i < |ds|
      ensures Paths.Join(dir, NameOf(group, ds[i])) in RunEntries(store, denied, fs, before, dir, false, group, vaultPath, ds).1
    {
      EntriesWrittenAt(store, denied, fs, before, dir, group, vaultPath, ds, i);
    }
  }

  /** No file is removed by a successful run through a group. */
  lemma {:induction false} EntriesKeep(store: map<string, FieldMap>, denied: set<string>, fs: FileSystem, before: map<string, Bytes>,
                                       dir: string, group: string, vaultPath: string, ds: seq<SecretData>, p: string)
    requires RunEntries(store, denied, fs, before, dir, false, group, vaultPath, ds).0 == None
    requires p in before
    ensures p in RunEntries(store, denied, fs, before, dir, false, group, vaultPath, ds).1
    decreases |ds|
  {
    if ds != [] {
      EntriesLast(store, denied, fs, before, dir, false, group, vaultPath, ds);
      EntriesKeep(store, denied, fs, before, dir, group, vaultPath, ds[..|ds| - 1], p);
    }
  }

  /** Entry `i` of a group that ran without error has its file. */
  lemma {:induction false} EntriesWrittenAt(store: map<string, FieldMap>, denied: set<string>, fs: FileSystem, before: map<string, Bytes>,
                                            dir: string, group: string, vaultPath: string, ds: seq<SecretData>, i: nat)
    requires RunEntries(store, denied, fs, before, dir, false, group, vaultPath, ds).0 == None
    requires i < |ds|
    ensures Paths.Join(dir, NameOf(group, ds[i])) in RunEntries(store, denied, fs, before, dir, false, group, vaultPath, ds).1
    decreases |ds|
  {
    var init := ds[..|ds| - 1];
    EntriesLast(store, denied, fs, before, dir, false, group, vaultPath, ds);
    if i < |init| {
      assert ds[i] == init[i];
      EntriesWrittenAt(store, denied, fs, before, dir, group, vaultPath, init, i);
    }
  }

  /** The file of an entry holds what the vault returned for it, unzipped
      when the entry asks for it, as long as no later entry of the group
      has the same file name. */
  lemma {:induction false} EntriesContent(store: map<string, FieldMap>, denied: set<string>, fs: FileSystem, before: map<string, Bytes>,
                                          dir: string, group: string, vaultPath: string, ds: seq<SecretData>, i: nat)
    requires i < |ds|
    requires RunEntries(store, denied, fs, before, dir, false, group, vaultPath, ds).0 == None
    requires forall j :: i < j < |ds| ==> NameOf(group, ds[j]) != NameOf(group, ds[i])
    ensures var read := ReadAt(store, denied, ComposePath(ds[i], vaultPath), ds[i].name);
            var after := RunEntries(store, denied, fs, before, dir, false, group, vaultPath, ds).1;
            var path := Paths.Join(dir, NameOf(group, ds[i]));
            read.Ok? && (ds[i].zip ==> Codec.Unzip(read.value).Ok?) && path in after &&
            after[path] == if ds[i].zip then Codec.Unzip(read.value).value else read.value
    decreases |ds|
  {
    var init := ds[..|ds| - 1];
    EntriesLast(store, denied, fs, before, dir, false, group, vaultPath, ds);
    if i < |init| {
      assert init[i] == ds[i];
      forall j | i < j < |init| ensures NameOf(group, init[j]) != NameOf(group, init[i]) {
        assert init[j] == ds[j];
      }
      EntriesContent(store, denied, fs, before, dir, group, vaultPath, init, i);
      var last := ds[|ds| - 1];
      assert NameOf(group, last) != NameOf(group, ds[i]);
      JoinInjective(dir, NameOf(group, last), NameOf(group, ds[i]));
    }
  }

  lemma JoinInjective(dir: string, a: string, b: string)
    requires a != b
    ensures Paths.Join(dir, a) != Paths.Join(dir, b)
  {
    var pa, pb := Paths.Join(dir, a), Paths.Join(dir, b);
    if dir != "" && (a == "" || b == "") {
      // one side joins to the directory itself, the other is longer
      assert |pa| != |pb|;
    } else if dir != "" {
      assert pa[|dir| + 1..] == a && pb[|dir| + 1..] == b;
    }
  }
}
