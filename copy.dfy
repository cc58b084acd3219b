/** Copying to the cluster (copy.go): the downloaded files are grouped by
    group name, each group becomes a name to payload map, and only the
    groups whose secret is absent from the cluster or holds different data
    are kept; those are then written as secrets. */
module Copies {
  import opened Types
  import opened Files
  import opened Kube
  import opened Downloads

  /** The files of group `g`, in list order. */
  function Members(fs: seq<Entry>, g: string): (r: seq<Entry>)
    ensures forall f :: f in r ==> f in fs && f.group == g
    decreases |fs|
  {
    if fs == [] then []
    else
      var last := fs[|fs| - 1];
      Members(fs[..|fs| - 1], g) + (if last.group == g then [last] else [])
  }

  /** The group names that occur in the list. */
  function GroupNames(fs: seq<Entry>): set<string>
  {
    set i | 0 <= i < |fs| :: fs[i].group
  }

  /** The grouping is a partition: every file is in the list of its own
      group, and each list holds only files of that group. */
  lemma MembersPartition(fs: seq<Entry>)
    ensures forall i :: 0 <= i < |fs| ==> fs[i] in Members(fs, fs[i].group)
    ensures forall g :: g in GroupNames(fs) <==> Members(fs, g) != []
  {
    MembersOwn(fs);
    forall g ensures g in GroupNames(fs) <==> Members(fs, g) != [] {
      MembersNonEmpty(fs, g);
    }
  }

  lemma {:induction false} MembersOwn(fs: seq<Entry>)
    ensures forall i :: 0 <= i < |fs| ==> fs[i] in Members(fs, fs[i].group)
    decreases |fs|
  {
    if fs != [] {
      var init := fs[..|fs| - 1];
      MembersOwn(init);
      forall i | 0 <= i < |fs| - 1 ensures fs[i] in Members(fs, fs[i].group) {
        assert fs[i] == init[i];
      }
    }
  }

  lemma {:induction false} MembersNonEmpty(fs: seq<Entry>, g: string)
    ensures g in GroupNames(fs) <==> Members(fs, g) != []
    decreases |fs|
  {
    if fs != [] {
      var init, last := fs[..|fs| - 1], fs[|fs| - 1];
      assert fs == init + [last];
      MembersNonEmpty(init, g);
      GroupNamesSnoc(init, last);
    }
  }

  /** `Members` of a longer list extends that of the shorter one by the
      new file if it belongs to the group: grouping keeps list order. */
  lemma MembersSnoc(fs: seq<Entry>, f: Entry, g: string)
    ensures Members(fs + [f], g) == Members(fs, g) + (if f.group == g then [f] else [])
  {
    assert (fs + [f])[..|fs|] == fs;
  }

  /** The entry names of a group's files with their payloads; a name that
      occurs a second time is an error. */
  function NameMap(fs: seq<Entry>): (r: Result<map<string, Bytes>>)
    ensures r.Err? ==> r.error.DuplicateName?
    decreases |fs|
  {
    if fs == [] then Ok(map[])
    else
      var last := fs[|fs| - 1];
      match NameMap(fs[..|fs| - 1])
      case Err(e) => Err(e)
      case Ok(m) =>
        if last.properties.name in m then Err(DuplicateName(last.properties.name))
        else Ok(m[last.properties.name := last.payload])
  }

  predicate DistinctNames(fs: seq<Entry>)
  {
    forall i, j :: 0 <= i < j < |fs| ==> fs[i].properties.name != fs[j].properties.name
  }

  /** The map is built exactly when no two files share a name, and then it
      holds every file's payload under its name and nothing else. */
  lemma NameMapOk(fs: seq<Entry>)
    ensures NameMap(fs).Ok? <==> DistinctNames(fs)
    ensures NameMap(fs).Ok? ==>
              (forall i :: 0 <= i < |fs| ==> fs[i].properties.name in NameMap(fs).value &&
                                             NameMap(fs).value[fs[i].properties.name] == fs[i].payload) &&
              (forall k :: k in NameMap(fs).value ==> exists i :: 0 <= i < |fs| && fs[i].properties.name == k)
  {
    NameMapContents(fs);
    NameMapDistinct(fs);
  }

  /** The map is built exactly when no two files share a name. */
  lemma NameMapDistinct(fs: seq<Entry>)
    ensures NameMap(fs).Ok? <==> DistinctNames(fs)
  {
    if NameMap(fs).Ok? {
      NameMapOkDistinct(fs);
    }
    if DistinctNames(fs) {
      DistinctNameMapOk(fs);
    }
  }

  lemma {:induction false} NameMapOkDistinct(fs: seq<Entry>)
    requires NameMap(fs).Ok?
    ensures DistinctNames(fs)
    decreases |fs|
  {
    if fs != [] {
      var n := |fs| - 1;
      var init := fs[..n];
      NameMapOkDistinct(init);
      NameMapContents(init);
      var m := NameMap(init).value;
      forall i, j | 0 <= i < j < |fs| ensures fs[i].properties.name != fs[j].properties.name {
        assert fs[i] == init[i];
        if j < n {
          assert fs[j] == init[j];
        } else {
          assert init[i].properties.name in m;
        }
      }
    }
  }

  lemma {:induction false} DistinctNameMapOk(fs: seq<Entry>)
    requires DistinctNames(fs)
    ensures NameMap(fs).Ok?
    decreases |fs|
  {
    if fs != [] {
      var n := |fs| - 1;
      var init := fs[..n];
      forall i, j | 0 <= i < j < |init| ensures init[i].properties.name != init[j].properties.name {
        assert init[i] == fs[i] && init[j] == fs[j];
      }
      DistinctNameMapOk(init);
      NameMapContents(init);
      forall i | 0 <= i < n ensures init[i].properties.name != fs[n].properties.name {
        assert init[i] == fs[i];
      }
      assert fs[n].properties.name !in NameMap(init).value;
    }
  }

  /** A map built without error holds each file's payload under its name,
      and only those names. */
  lemma {:induction false} NameMapContents(fs: seq<Entry>)
    ensures NameMap(fs).Ok? ==>
              (forall i :: 0 <= i < |fs| ==> fs[i].properties.name in NameMap(fs).value &&
                                             NameMap(fs).value[fs[i].properties.name] == fs[i].payload) &&
              (forall k :: k in NameMap(fs).value ==> exists i :: 0 <= i < |fs| && fs[i].properties.name == k)
    decreases |fs|
  {
    if fs != [] && NameMap(fs).Ok? {
      var n := |fs| - 1;
      var init := fs[..n];
      NameMapContents(init);
      forall i | 0 <= i < n ensures fs[i] == init[i] { }
      var m := NameMap(init).value;
      forall k | k in NameMap(fs).value ensures exists i :: 0 <= i < |fs| && fs[i].properties.name == k {
        if k != fs[n].properties.name {
          var i :| 0 <= i < n && init[i].properties.name == k;
          assert fs[i].properties.name == k;
        }
      }
    }
  }

  /** The cluster lacks the group's secret, or that secret's data is not
      `m`, so `m` has to be written. */
  predicate Stale(items: seq<Secret>, group: string, m: map<string, Bytes>) {
    !Has(items, group) || View(Find(items, group).value) != m
  }

  /** What `compare` decides for one group: an error, `None` when the
      cluster already holds equal data, or the map to be written. A failed
      map, a failed listing, and a failed read of an existing secret are
      errors; the map is kept exactly when the secret is stale, and what is
      kept is the map itself. */
  function Decision(items: seq<Secret>, failing: set<Call>, group: string, vaultSecrets: Result<map<string, Bytes>>)
    : (r: Result<Option<map<string, Bytes>>>)
    ensures vaultSecrets.Err? ==> r == Err(vaultSecrets.error)
    ensures vaultSecrets.Ok? && r.Err? ==> r.error == KubeError(group)
    ensures r.Err? <==> vaultSecrets.Err? || ListCall in failing || (Has(items, group) && GetCall(group) in failing)
    ensures r.Ok? ==> (r.value.Some? <==> Stale(items, group, vaultSecrets.value))
    ensures r.Ok? && r.value.Some? ==> r.value.value == vaultSecrets.value
  {
    if vaultSecrets.Err? then Err(vaultSecrets.error)
    else if ListCall in failing then Err(KubeError(group))
    else if !Has(items, group) then Ok(Some(vaultSecrets.value))
    else if GetCall(group) in failing then Err(KubeError(group))
    else if View(Find(items, group).value) != vaultSecrets.value then Ok(Some(vaultSecrets.value))
    else Ok(None)
  }

  /** A decision applied to the collected data. */
  function Apply(data: map<string, map<string, Bytes>>, group: string, d: Result<Option<map<string, Bytes>>>)
    : (r: (Option<Error>, map<string, map<string, Bytes>>))
    ensures d.Err? ==> r == (Some(d.error), data)
    ensures d == Ok(None) ==> r == (None, data)
    ensures d.Ok? && d.value.Some? ==> r == (None, data[group := d.value.value])
  {
    match d
    case Err(e) => (Some(e), data)
    case Ok(None) => (None, data)
    case Ok(Some(m)) => (None, data[group := m])
  }

  /** The files of a group in the grouping; none for an unknown group. */
  function GroupOf(groups: map<string, seq<Entry>>, g: string): seq<Entry> {
    if g in groups then groups[g] else []
  }

  /** The collected data after comparing the groups of `order` in turn,
      stopping at the first error. */
  function CompareAll(items: seq<Secret>, failing: set<Call>, groups: map<string, seq<Entry>>,
                      before: map<string, map<string, Bytes>>, order: seq<string>)
    : (r: (Option<Error>, map<string, map<string, Bytes>>))
    decreases |order|
  {
    if order == [] then (None, before)
    else
      var (err, mid) := CompareAll(items, failing, groups, before, order[..|order| - 1]);
      var g := order[|order| - 1];
      if err.Some? then (err, mid)
      else Apply(mid, g, Decision(items, failing, g, NameMap(GroupOf(groups, g))))
  }

  /** After a comparison without error, a group is recorded exactly when it
      was recorded before or it is compared and its secret is stale, and a
      compared stale group is recorded with the map of its files; no
      compared group's files failed to make a map. */
  lemma CompareAllRecords(items: seq<Secret>, failing: set<Call>, groups: map<string, seq<Entry>>,
                          before: map<string, map<string, Bytes>>, order: seq<string>)
    requires CompareAll(items, failing, groups, before, order).0 == None
    ensures forall i :: 0 <= i < |order| ==> NameMap(GroupOf(groups, order[i])).Ok?
    ensures forall g :: g in CompareAll(items, failing, groups, before, order).1 <==>
              g in before || (g in order && Stale(items, g, NameMap(GroupOf(groups, g)).value))
    ensures forall g :: g in order && Stale(items, g, NameMap(GroupOf(groups, g)).value) ==>
              CompareAll(items, failing, groups, before, order).1[g] == NameMap(GroupOf(groups, g)).value
    ensures forall g :: g in before && !(g in order && Stale(items, g, NameMap(GroupOf(groups, g)).value)) ==>
              CompareAll(items, failing, groups, before, order).1[g] == before[g]
  {
    forall i | 0 <= i < |order| ensures NameMap(GroupOf(groups, order[i])).Ok? {
      CompareAllAt(items, failing, groups, before, order, order[i]);
    }
    forall g ensures g in CompareAll(items, failing, groups, before, order).1 <==>
                     g in before || (g in order && Stale(items, g, NameMap(GroupOf(groups, g)).value)) {
      CompareAllAt(items, failing, groups, before, order, g);
    }
    forall g | g in order && Stale(items, g, NameMap(GroupOf(groups, g)).value)
      ensures CompareAll(items, failing, groups, before, order).1[g] == NameMap(GroupOf(groups, g)).value {
      CompareAllAt(items, failing, groups, before, order, g);
    }
    forall g | g in before && !(g in order && Stale(items, g, NameMap(GroupOf(groups, g)).value))
      ensures CompareAll(items, failing, groups, before, order).1[g] == before[g] {
      CompareAllAt(items, failing, groups, before, order, g);
    }
  }

  /** `CompareAllRecords` for one group. */
  lemma {:induction false} CompareAllAt(items: seq<Secret>, failing: set<Call>, groups: map<string, seq<Entry>>,
                                        before: map<string, map<string, Bytes>>, order: seq<string>, g: string)
    requires CompareAll(items, failing, groups, before, order).0 == None
    ensures g in order ==> NameMap(GroupOf(groups, g)).Ok?
    ensures var r := CompareAll(items, failing, groups, before, order).1;
            var rec := g in order && Stale(items, g, NameMap(GroupOf(groups, g)).value);
            (g in r <==> g in before || rec) &&
            (rec ==> r[g] == NameMap(GroupOf(groups, g)).value) &&
            (!rec && g in before ==> r[g] == before[g])
    decreases |order|
  {
    if order != [] {
      var n := |order| - 1;
      var init := order[..n];
      var h := order[n];
      assert order == init + [h];
      var r0 := CompareAll(items, failing, groups, before, init);
      assert r0.0 == None;
      CompareAllAt(items, failing, groups, before, init, g);
      var d := Decision(items, failing, h, NameMap(GroupOf(groups, h)));
      assert d.Ok?;
      assert g in order <==> g in init || g == h;
    }
  }

  /** Go's lookup of a missing key gives the empty string. */
  function TypeOf(secretType: map<string, string>, group: string): string {
    if group in secretType then secretType[group] else ""
  }

  /** The cluster after writing the groups of `order` in turn, stopping at
      the first failing write. */
  function SyncAll(items: seq<Secret>, failing: set<Call>, data: map<string, map<string, Bytes>>,
                   secretType: map<string, string>, order: seq<string>)
    : (r: (Option<Error>, seq<Secret>))
    requires forall i :: 0 <= i < |order| ==> order[i] in data
    decreases |order|
  {
    if order == [] then (None, items)
    else
      var (err, mid) := SyncAll(items, failing, data, secretType, order[..|order| - 1]);
      var g := order[|order| - 1];
      if err.Some? then (err, mid)
      else WriteOutcome(mid, failing, g, TypeOf(secretType, g), data[g])
  }

  /** After a sync without error every written group is in the cluster
      with exactly its type and data. */
  lemma SyncAllStores(items: seq<Secret>, failing: set<Call>, data: map<string, map<string, Bytes>>,
                      secretType: map<string, string>, order: seq<string>)
    requires forall i :: 0 <= i < |order| ==> order[i] in data
    requires SyncAll(items, failing, data, secretType, order).0 == None
    ensures forall i :: 0 <= i < |order| ==>
              Find(SyncAll(items, failing, data, secretType, order).1, order[i])
                == Some(Secret(order[i], TypeOf(secretType, order[i]), data[order[i]]))
    ensures forall g :: g !in order ==> Find(SyncAll(items, failing, data, secretType, order).1, g) == Find(items, g)
  {
    forall i | 0 <= i < |order|
      ensures Find(SyncAll(items, failing, data, secretType, order).1, order[i])
                == Some(Secret(order[i], TypeOf(secretType, order[i]), data[order[i]]))
    {
      SyncAllAt(items, failing, data, secretType, order, order[i]);
    }
    forall g | g !in order ensures Find(SyncAll(items, failing, data, secretType, order).1, g) == Find(items, g) {
      SyncAllAt(items, failing, data, secretType, order, g);
    }
  }

  /** What a sync without error leaves under one name: the group's secret
      when the name was written, what was there before otherwise. */
  lemma {:induction false} SyncAllAt(items: seq<Secret>, failing: set<Call>, data: map<string, map<string, Bytes>>,
                                     secretType: map<string, string>, order: seq<string>, g: string)
    requires forall i :: 0 <= i < |order| ==> order[i] in data
    requires SyncAll(items, failing, data, secretType, order).0 == None
    ensures Find(SyncAll(items, failing, data, secretType, order).1, g) ==
              if g in order then Some(Secret(g, TypeOf(secretType, g), data[g])) else Find(items, g)
    decreases |order|
  {
    if order != [] {
      var n := |order| - 1;
      var init := order[..n];
      var h := order[n];
      assert order == init + [h];
      var r0 := SyncAll(items, failing, data, secretType, init);
      assert r0.0 == None;
      var t := TypeOf(secretType, h);
      WriteOutcomeStores(r0.1, failing, h, t, data[h]);
      if g != h {
        SyncAllAt(items, failing, data, secretType, init, g);
      }
    }
  }

  /** Copying the same data twice changes nothing the second time exactly
      when no value ends in a newline: the cluster read trims trailing
      newlines, the data to compare with is not trimmed. */
  lemma CopyAgainIsNoop(items: seq<Secret>, failing: set<Call>, group: string, secretType: string, vaultSecrets: map<string, Bytes>)
    requires ListCall !in failing && GetCall(group) !in failing
    requires WriteOutcome(items, failing, group, secretType, vaultSecrets).0 == None
    ensures var after := WriteOutcome(items, failing, group, secretType, vaultSecrets).1;
            Decision(after, failing, group, Ok(vaultSecrets)) == Ok(None) <==>
            forall k :: k in vaultSecrets ==> vaultSecrets[k] == [] || vaultSecrets[k][|vaultSecrets[k]| - 1] != Newline
  {
    WriteOutcomeStores(items, failing, group, secretType, vaultSecrets);
    ViewIsData(Secret(group, secretType, vaultSecrets));
  }

  /** The grouping loop of `Prepare`: each group name with its files in
      list order. */
  method GroupFiles(fs: seq<File>) returns (groups: map<string, seq<Entry>>)
    ensures groups == Grouped(Snapshots(fs))
  {
    ghost var es := Snapshots(fs);
    groups := map[];
    var i := 0;
    while i < |fs|
      invariant 0 <= i <= |fs|
      invariant groups == Grouped(es[..i])
    {
      GroupedSnoc(es, i);
      groups := AddTo(groups, fs[i].Snapshot());
      i := i + 1;
    }
    assert es[..i] == es;
  }

  /** One step of the grouping: the entry goes to the end of its group. */
  function AddTo(m: map<string, seq<Entry>>, e: Entry): (r: map<string, seq<Entry>>)
    ensures r.Keys == m.Keys + {e.group}
    ensures r[e.group] == (if e.group in m then m[e.group] else []) + [e]
    ensures forall g :: g in m && g != e.group ==> r[g] == m[g]
  {
    m[e.group := (if e.group in m then m[e.group] else []) + [e]]
  }

  lemma GroupedSnoc(es: seq<Entry>, i: nat)
    requires i < |es|
    ensures Grouped(es[..i + 1]) == AddTo(Grouped(es[..i]), es[i])
  {
    assert es[..i + 1][..i] == es[..i];
  }

  /** The grouping as a fold over the entries: each entry is appended to
      the list of its group. */
  function Grouped(es: seq<Entry>): (m: map<string, seq<Entry>>)
    decreases |es|
  {
    if es == [] then map[]
    else
      var e := es[|es| - 1];
      AddTo(Grouped(es[..|es| - 1]), e)
  }

  /** No group of the fold is empty. */
  lemma {:induction false} GroupedNonEmpty(es: seq<Entry>)
    ensures forall g :: g in Grouped(es) ==> Grouped(es)[g] != []
    decreases |es|
  {
    if es != [] {
      GroupedNonEmpty(es[..|es| - 1]);
    }
  }

  /** The fold groups exactly as the filter does: one list per group name,
      holding that group's entries in list order. */
  lemma GroupedIsMembers(es: seq<Entry>)
    ensures Grouped(es).Keys == GroupNames(es)
    ensures forall g :: g in Grouped(es) ==> Grouped(es)[g] == Members(es, g)
  {
    GroupedKeys(es);
    forall g | g in Grouped(es) ensures Grouped(es)[g] == Members(es, g) {
      GroupedAt(es, g);
    }
  }

  /** The list the fold keeps for a group is that group's members. */
  lemma {:induction false} GroupedAt(es: seq<Entry>, g: string)
    requires g in Grouped(es)
    ensures Grouped(es)[g] == Members(es, g)
    decreases |es|
  {
    var pre, e := es[..|es| - 1], es[|es| - 1];
    assert es == pre + [e];
    var m := Grouped(pre);
    MembersSnoc(pre, e, g);
    if g in m {
      GroupedAt(pre, g);
    } else {
      GroupedKeys(pre);
      MembersNonEmpty(pre, g);
    }
  }

  /** The groups of the fold are the group names of the list. */
  lemma {:induction false} GroupedKeys(es: seq<Entry>)
    ensures Grouped(es).Keys == GroupNames(es)
    decreases |es|
  {
    if es != [] {
      var pre, e := es[..|es| - 1], es[|es| - 1];
      assert es == pre + [e];
      GroupedKeys(pre);
      GroupNamesSnoc(pre, e);
    }
  }

  lemma GroupNamesSnoc(pre: seq<Entry>, e: Entry)
    ensures GroupNames(pre + [e]) == GroupNames(pre) + {e.group}
  {
    var all := pre + [e];
    forall h | h in GroupNames(all) ensures h in GroupNames(pre) + {e.group} {
      var j :| 0 <= j < |all| && all[j].group == h;
      if j < |pre| {
        assert pre[j].group == h;
      }
    }
    forall h | h in GroupNames(pre) ensures h in GroupNames(all) {
      var j :| 0 <= j < |pre| && pre[j].group == h;
      assert all[j].group == h;
    }
    assert all[|pre|].group == e.group;
  }

  /** One more group compared: the fold grows by one step. */
  lemma CompareStep(items: seq<Secret>, failing: set<Call>, groups: map<string, seq<Entry>>, start: map<string, map<string, Bytes>>,
                    done: seq<string>, g: string, before: map<string, map<string, Bytes>>)
    requires (None, before) == CompareAll(items, failing, groups, start, done)
    ensures CompareAll(items, failing, groups, start, done + [g]) == Apply(before, g, Decision(items, failing, g, NameMap(GroupOf(groups, g))))
  {
    assert (done + [g])[..|done|] == done;
  }

  /** The first loop of `compare`: the payloads of a group's files under
      their entry names, refusing a name seen twice. */
  method CollectNames(files: seq<Entry>) returns (r: Result<map<string, Bytes>>)
    ensures r == NameMap(files)
  {
    var vaultSecrets: map<string, Bytes> := map[];
    var i := 0;
    while i < |files|
      invariant 0 <= i <= |files|
      invariant NameMap(files[..i]) == Ok(vaultSecrets)
    {
      assert files[..i + 1][..i] == files[..i];
      var name := files[i].properties.name;
      if name in vaultSecrets {
        NameMapAfterError(files[..i + 1], files[i + 1..]);
        assert files[..i + 1] + files[i + 1..] == files;
        return Err(DuplicateName(name));
      }
      vaultSecrets := vaultSecrets[name := files[i].payload];
      i := i + 1;
    }
    assert files[..i] == files;
    r := Ok(vaultSecrets);
  }

  /** The secret type `Prepare` gives every group: that of the first
      downloaded file. */
  function FirstType(es: seq<Entry>): string {
    if es == [] then "" else es[0].secretType
  }

  /** The type map after giving each group of `order` the type `t`. */
  function Stamp(m: map<string, string>, order: seq<string>, t: string): (r: map<string, string>)
    decreases |order|
  {
    if order == [] then m else Stamp(m, order[..|order| - 1], t)[order[|order| - 1] := t]
  }

  /** Every stamped group has the type, every other key keeps its own. */
  lemma StampSpec(m: map<string, string>, order: seq<string>, t: string)
    ensures Stamp(m, order, t).Keys == m.Keys + (set i | 0 <= i < |order| :: order[i])
    ensures forall i :: 0 <= i < |order| ==> Stamp(m, order, t)[order[i]] == t
    ensures forall k :: k in m && k !in order ==> Stamp(m, order, t)[k] == m[k]
  {
    var keys := set i | 0 <= i < |order| :: order[i];
    forall k ensures (k in Stamp(m, order, t) <==> k in m || k in keys)
                  && (k in Stamp(m, order, t) ==> Stamp(m, order, t)[k] == if k in order then t else m[k])
    {
      StampAt(m, order, t, k);
      if k in order {
        var i :| 0 <= i < |order| && order[i] == k;
      }
    }
  }

  /** One key after stamping: the type if `order` names it, its own value
      otherwise. */
  lemma {:induction false} StampAt(m: map<string, string>, order: seq<string>, t: string, k: string)
    ensures k in Stamp(m, order, t) <==> k in m || k in order
    ensures k in Stamp(m, order, t) ==> Stamp(m, order, t)[k] == if k in order then t else m[k]
    decreases |order|
  {
    if order != [] {
      var init := order[..|order| - 1];
      assert order == init + [order[|order| - 1]];
      StampAt(m, init, t, k);
    }
  }

  class Copy {
    const kube: Kubernetes
    const download: Download
    /** The cluster secret type of each group. */
    var secretType: map<string, string>
    /** The groups to be written, with their name to payload maps. */
    var data: map<string, map<string, Bytes>>

    /** `NewCopy`: nothing collected yet. */
    constructor (kube: Kubernetes, download: Download)
      ensures this.kube == kube && this.download == download
      ensures secretType == map[] && data == map[]
    {
      this.kube := kube;
      this.download := download;
      secretType := map[];
      data := map[];
    }

    /** `compare`: collect the group's names and payloads, then look the
        group up in the cluster and record it unless equal data is there. */
    method Compare(group: string, files: seq<Entry>) returns (err: Option<Error>)
      modifies this
      ensures (err, data) == Apply(old(data), group, Decision(kube.items, kube.failing, group, NameMap(files)))
      ensures secretType == old(secretType)
    {
      var names := CollectNames(files);
      if names.Err? {
        return Some(names.error);
      }
      var vaultSecrets := names.value;
      var present;
      present, err := kube.SecretExists(group);
      if err.Some? {
        return;
      }
      if !present {
        data := data[group := vaultSecrets];
        return None;
      }
      var kubeSecrets;
      kubeSecrets, err := kube.SecretRead(group);
      if err.Some? {
        return;
      }
      if vaultSecrets != kubeSecrets {
        data := data[group := vaultSecrets];
      }
    }

    /** `Prepare`: group the downloaded files, then compare the groups in
        some order, giving each group the secret type of the first
        downloaded file, and stop at the first failing comparison. */
    method Prepare() returns (err: Option<Error>, ghost order: seq<string>)
      modifies this
      ensures var groups := Grouped(old(Snapshots(download.files)));
              Distinct(order) && (forall i :: 0 <= i < |order| ==> order[i] in groups) &&
              (err == None ==> forall g :: g in groups ==> g in order)
      ensures secretType == Stamp(old(secretType), order, FirstType(old(Snapshots(download.files))))
      ensures (err, data) == CompareAll(kube.items, kube.failing, Grouped(old(Snapshots(download.files))), old(data), order)
    {
      var fs := download.files;
      var groups := GroupFiles(fs);
      GroupedNonEmpty(Snapshots(fs));
      assert FirstType(Snapshots(fs)) == if |fs| > 0 then fs[0].secretType else "";
      err, order := CompareGroups(groups, if |fs| > 0 then fs[0].secretType else "");
    }

    /** The second loop of `Prepare`: the groups are taken in some order;
        each is given the type `t` and compared, and the first failing
        comparison ends the loop. */
    method CompareGroups(groups: map<string, seq<Entry>>, t: string) returns (err: Option<Error>, ghost order: seq<string>)
      requires forall g :: g in groups ==> groups[g] != []
      modifies this
      ensures Distinct(order) && (forall i :: 0 <= i < |order| ==> order[i] in groups)
      ensures err == None ==> forall g :: g in groups ==> g in order
      ensures secretType == Stamp(old(secretType), order, t)
      ensures (err, data) == CompareAll(kube.items, kube.failing, groups, old(data), order)
    {
      var remaining := groups.Keys;
      order := [];
      err := None;
      while remaining != {}
        invariant remaining <= groups.Keys
        invariant Distinct(order) && forall j :: 0 <= j < |order| ==> order[j] in groups && order[j] !in remaining
        invariant forall g :: g in groups ==> g in remaining || g in order
        invariant secretType == Stamp(old(secretType), order, t)
        invariant (None, data) == CompareAll(kube.items, kube.failing, groups, old(data), order)
        invariant err == None
        decreases remaining
      {
        var g :| g in remaining;
        DistinctSnoc(order, g);
        remaining := remaining - {g};
        ghost var done := order;
        order := order + [g];
        assert order[..|done|] == done;
        ghost var before := data;
        err := Visit(g, groups[g], t);
        CompareStep(kube.items, kube.failing, groups, old(data), done, g, before);
        if err.Some? {
          return;
        }
      }
    }

    /** One turn of `Prepare`'s second loop: the group is compared and, if
        it has files, gets the type `t` (that of the first downloaded
        file). The comparison neither reads nor writes the types, so the
        order of the two steps is immaterial. */
    method Visit(group: string, files: seq<Entry>, t: string) returns (err: Option<Error>)
      modifies this
      ensures secretType == if files == [] then old(secretType) else old(secretType)[group := t]
      ensures (err, data) == Apply(old(data), group, Decision(kube.items, kube.failing, group, NameMap(files)))
    {
      err := Compare(group, files);
      if |files| > 0 {
        secretType := secretType[group := t];
      }
    }

    /** `Execute`: the collected groups are visited in some order; outside
        dry-run each is written with its recorded type, and the first
        failing write ends the run. */
    method Execute(dryRun: bool) returns (err: Option<Error>, ghost order: seq<string>)
      modifies kube
      ensures Distinct(order) && forall i :: 0 <= i < |order| ==> order[i] in data
      ensures err == None ==> forall g :: g in data ==> g in order
      ensures dryRun ==> err == None && kube.items == old(kube.items)
      ensures !dryRun ==> (err, kube.items) == SyncAll(old(kube.items), kube.failing, data, secretType, order)
    {
      var groups, types := data, secretType;
      ghost var start := kube.items;
      var remaining := groups.Keys;
      order := [];
      err := None;
      while remaining != {}
        invariant remaining <= groups.Keys
        invariant Distinct(order) && forall j :: 0 <= j < |order| ==> order[j] in groups && order[j] !in remaining
        invariant forall g :: g in groups ==> g in remaining || g in order
        invariant dryRun ==> kube.items == start
        invariant !dryRun ==> (None, kube.items) == SyncAll(start, kube.failing, groups, types, order)
        invariant err == None
        decreases remaining
      {
        var g :| g in remaining;
        remaining := remaining - {g};
        ghost var done := order;
        order := order + [g];
        assert order[..|order| - 1] == done;
        if dryRun {
          continue;
        }
        err := kube.SecretWrite(g, TypeOf(types, g), groups[g]);
        if err.Some? {
          return;
        }
      }
    }
  }

  /** Once a duplicate is found, more files do not change the outcome. */
  lemma {:induction false} NameMapAfterError(fs: seq<Entry>, more: seq<Entry>)
    requires NameMap(fs).Err?
    ensures NameMap(fs + more) == NameMap(fs)
    decreases |more|
  {
    if more == [] {
      assert fs + more == fs;
    } else {
      var init := more[..|more| - 1];
      NameMapAfterError(fs, init);
      assert (fs + more)[..|fs + more| - 1] == fs + init;
    }
  }
}
