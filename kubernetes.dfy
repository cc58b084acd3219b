/** The cluster secret store of kubernetes.go: a list of named secrets,
    each with a type and a data map, and the four calls the core makes on
    it (list, get, delete, create). The calls the API server refuses are a
    fixed set of the model. */
module Kube {
  import opened Types

  datatype Secret = Secret(name: string, secretType: string, data: map<string, Bytes>)

  /** One API call on the secrets of the namespace. */
  datatype Call = ListCall | GetCall(name: string) | DeleteCall(name: string) | CreateCall(name: string)

  const Newline: byte := 10

  /** `bytes.TrimRight(b, "\n")`: every trailing newline removed. */
  function TrimNewlines(b: Bytes): (r: Bytes)
    ensures |r| <= |b| && r == b[..|r|]
    ensures r == [] || r[|r| - 1] != Newline
    ensures forall i :: |r| <= i < |b| ==> b[i] == Newline
    decreases |b|
  {
    if b != [] && b[|b| - 1] == Newline then TrimNewlines(b[..|b| - 1]) else b
  }

  /** Trimming changes nothing exactly when there is no trailing newline. */
  lemma TrimNewlinesNoop(b: Bytes)
    ensures TrimNewlines(b) == b <==> (b == [] || b[|b| - 1] != Newline)
  {
  }

  lemma TrimNewlinesIdempotent(b: Bytes)
    ensures TrimNewlines(TrimNewlines(b)) == TrimNewlines(b)
  {
    TrimNewlinesNoop(TrimNewlines(b));
  }

  /** Some secret in the list has exactly this name. */
  predicate Has(items: seq<Secret>, name: string) {
    exists i :: 0 <= i < |items| && items[i].name == name
  }

  /** No two secrets share a name, as in a namespace. */
  predicate UniqueNames(items: seq<Secret>) {
    forall i, j :: 0 <= i < j < |items| ==> items[i].name != items[j].name
  }

  /** The secret a get by name returns. */
  function Find(items: seq<Secret>, name: string): (r: Option<Secret>)
    ensures r.None? <==> !Has(items, name)
    ensures r.Some? ==> r.value.name == name && r.value in items
    decreases |items|
  {
    if items == [] then None
    else if items[0].name == name then Some(items[0])
    else
      var r := Find(items[1..], name);
      assert r.Some? ==> r.value in items;
      assert Has(items, name) ==> Has(items[1..], name) by {
        if Has(items, name) {
          var i :| 0 <= i < |items| && items[i].name == name;
          assert items[1..][i - 1] == items[i];
        }
      }
      r
  }

  /** The list without the secrets of that name. */
  function Remove(items: seq<Secret>, name: string): (r: seq<Secret>)
    ensures !Has(r, name)
    ensures forall s :: s in r <==> s in items && s.name != name
    decreases |items|
  {
    if items == [] then []
    else if items[0].name == name then Remove(items[1..], name)
    else [items[0]] + Remove(items[1..], name)
  }

  lemma {:induction false} RemoveAbsent(items: seq<Secret>, name: string)
    requires !Has(items, name)
    ensures Remove(items, name) == items
    decreases |items|
  {
    if items != [] {
      assert items[0].name != name;
      assert !Has(items[1..], name) by {
        forall i | 0 <= i < |items[1..]| ensures items[1..][i].name != name {
          assert items[1..][i] == items[i + 1];
        }
      }
      RemoveAbsent(items[1..], name);
      assert items == [items[0]] + items[1..];
    }
  }

  /** Removing one name does not change what the others find. */
  lemma {:induction false} FindRemove(items: seq<Secret>, name: string, other: string)
    requires other != name
    ensures Find(Remove(items, name), other) == Find(items, other)
    decreases |items|
  {
    if items != [] {
      FindRemove(items[1..], name, other);
      if items[0].name != name {
        assert ([items[0]] + Remove(items[1..], name))[1..] == Remove(items[1..], name);
      }
    }
  }

  lemma {:induction false} FindAppend(items: seq<Secret>, s: Secret, name: string)
    ensures Find(items + [s], name) == if Has(items, name) then Find(items, name) else if s.name == name then Some(s) else None
    decreases |items|
  {
    if items != [] {
      assert (items + [s])[1..] == items[1..] + [s];
      FindAppend(items[1..], s, name);
    } else {
      assert [s][1..] == [];
    }
  }

  lemma {:induction false} RemoveUnique(items: seq<Secret>, name: string)
    requires UniqueNames(items)
    ensures UniqueNames(Remove(items, name))
    decreases |items|
  {
    if items != [] {
      RemoveUnique(items[1..], name);
      var rest := Remove(items[1..], name);
      if items[0].name != name {
        forall j | 0 <= j < |rest| ensures rest[j].name != items[0].name {
          assert rest[j] in items[1..];
        }
        assert UniqueNames([items[0]] + rest) by {
          forall i, j | 0 <= i < j < |[items[0]] + rest| ensures ([items[0]] + rest)[i].name != ([items[0]] + rest)[j].name {
            if i > 0 {
              assert ([items[0]] + rest)[i] == rest[i - 1];
            }
            assert ([items[0]] + rest)[j] == rest[j - 1];
          }
        }
      }
    }
  }

  /** The data map a read returns: every value without trailing newlines. */
  function View(s: Secret): (m: map<string, Bytes>)
    ensures m.Keys == s.data.Keys
    ensures forall k :: k in m ==> m[k] == TrimNewlines(s.data[k])
  {
    map k | k in s.data :: TrimNewlines(s.data[k])
  }

  /** A read gives back exactly the stored data iff no stored value ends
      in a newline. */
  lemma ViewIsData(s: Secret)
    ensures View(s) == s.data <==> forall k :: k in s.data ==> s.data[k] == [] || s.data[k][|s.data[k]| - 1] != Newline
  {
    if View(s) == s.data {
      forall k | k in s.data ensures s.data[k] == [] || s.data[k][|s.data[k]| - 1] != Newline {
        TrimNewlinesNoop(s.data[k]);
      }
    } else {
      var k :| k in s.data && View(s)[k] != s.data[k];
      TrimNewlinesNoop(s.data[k]);
    }
  }

  /** The outcome of `SecretWrite` on the list `items`: the existence
      check, then a delete if the name exists, then the create. A failed
      create after a successful delete leaves the secret deleted. */
  function WriteOutcome(items: seq<Secret>, failing: set<Call>, name: string, secretType: string, data: map<string, Bytes>)
    : (r: (Option<Error>, seq<Secret>))
  {
    if ListCall in failing then (Some(KubeError(name)), items)
    else if Has(items, name) && DeleteCall(name) in failing then (Some(KubeError(name)), items)
    else if CreateCall(name) in failing then (Some(KubeError(name)), Remove(items, name))
    else (None, Remove(items, name) + [Secret(name, secretType, data)])
  }

  /** After a successful write the store holds the name with exactly the
      given type and data, whether or not it existed before; every other
      name finds what it found before, and names stay unique. */
  lemma WriteOutcomeStores(items: seq<Secret>, failing: set<Call>, name: string, secretType: string, data: map<string, Bytes>)
    requires WriteOutcome(items, failing, name, secretType, data).0 == None
    ensures var after := WriteOutcome(items, failing, name, secretType, data).1;
            Find(after, name) == Some(Secret(name, secretType, data)) &&
            forall other :: other != name ==> Find(after, other) == Find(items, other)
    ensures UniqueNames(items) ==> UniqueNames(WriteOutcome(items, failing, name, secretType, data).1)
  {
    var s := Secret(name, secretType, data);
    var rest := Remove(items, name);
    FindAppend(rest, s, name);
    forall other | other != name ensures Find(rest + [s], other) == Find(items, other) {
      FindAppend(rest, s, other);
      FindRemove(items, name, other);
    }
    if UniqueNames(items) {
      RemoveUnique(items, name);
      forall i | 0 <= i < |rest| ensures rest[i].name != name {
        assert rest[i] in rest;
      }
      assert UniqueNames(rest + [s]) by {
        forall i, j | 0 <= i < j < |rest + [s]| ensures (rest + [s])[i].name != (rest + [s])[j].name {
          assert (rest + [s])[i] == rest[i];
          if j < |rest| {
            assert (rest + [s])[j] == rest[j];
          }
        }
      }
    }
  }

  class Kubernetes {
    /** The secrets of the namespace, in listing order. */
    var items: seq<Secret>
    const failing: set<Call>

    constructor (items: seq<Secret>, failing: set<Call>)
      ensures this.items == items && this.failing == failing
    {
      this.items := items;
      this.failing := failing;
    }

    /** `SecretExists`: a failed listing is an error reported as "not
        found"; otherwise the listing is searched for the exact name. */
    method SecretExists(name: string) returns (found: bool, err: Option<Error>)
      ensures ListCall in failing ==> err == Some(KubeError(name)) && !found
      ensures ListCall !in failing ==> err == None && (found <==> Has(items, name))
    {
      if ListCall in failing {
        return false, Some(KubeError(name));
      }
      var i := 0;
      while i < |items|
        invariant 0 <= i <= |items|
        invariant forall j :: 0 <= j < i ==> items[j].name != name
      {
        if items[i].name == name {
          return true, None;
        }
        i := i + 1;
      }
      return false, None;
    }

    /** `SecretRead`: the data of the named secret with trailing newlines
        trimmed from every value. */
    method SecretRead(name: string) returns (data: map<string, Bytes>, err: Option<Error>)
      ensures GetCall(name) in failing ==> err == Some(KubeError(name)) && data == map[]
      ensures GetCall(name) !in failing && !Has(items, name) ==> err == Some(SecretNotFound(name)) && data == map[]
      ensures GetCall(name) !in failing && Has(items, name) ==> err == None && data == View(Find(items, name).value)
    {
      data := map[];
      if GetCall(name) in failing {
        return data, Some(KubeError(name));
      }
      var found := Find(items, name);
      if found.None? {
        return data, Some(SecretNotFound(name));
      }
      var secret := found.value;
      var remaining := secret.data.Keys;
      while remaining != {}
        invariant remaining <= secret.data.Keys
        invariant data.Keys == secret.data.Keys - remaining
        invariant forall k :: k in data ==> data[k] == TrimNewlines(secret.data[k])
        decreases remaining
      {
        var k :| k in remaining;
        remaining := remaining - {k};
        data := data[k := TrimNewlines(secret.data[k])];
      }
      err := None;
    }

    /** `SecretDelete`. */
    method SecretDelete(name: string) returns (err: Option<Error>)
      modifies this
      ensures DeleteCall(name) in failing ==> err == Some(KubeError(name)) && items == old(items)
      ensures DeleteCall(name) !in failing && !Has(old(items), name) ==> err == Some(SecretNotFound(name)) && items == old(items)
      ensures DeleteCall(name) !in failing && Has(old(items), name) ==> err == None && items == Remove(old(items), name)
    {
      if DeleteCall(name) in failing {
        return Some(KubeError(name));
      }
      if !Has(items, name) {
        return Some(SecretNotFound(name));
      }
      items := Remove(items, name);
      err := None;
    }

    /** `SecretWrite`: check, delete when present, create. */
    method SecretWrite(name: string, secretType: string, data: map<string, Bytes>) returns (err: Option<Error>)
      modifies this
      ensures (err, items) == WriteOutcome(old(items), failing, name, secretType, data)
    {
      var present;
      present, err := SecretExists(name);
      if err.Some? {
        return;
      }
      if present {
        err := SecretDelete(name);
        if err.Some? {
          return;
        }
      } else {
        RemoveAbsent(items, name);
      }
      if CreateCall(name) in failing {
        return Some(KubeError(name));
      }
      items := items + [Secret(name, secretType, data)];
      err := None;
    }
  }

  /** Writing `{"test": "test"}` as secret `test` makes it exist, and
      reading it gives `test` back under key `test`. */
  lemma WriteThenReadExample(items: seq<Secret>)
    ensures var (err, after) := WriteOutcome(items, {}, "test", "", map["test" := CharsToBytes("test")]);
            err == None && Has(after, "test") && View(Find(after, "test").value) == map["test" := CharsToBytes("test")]
  {
    var data := map["test" := CharsToBytes("test")];
    WriteOutcomeStores(items, {}, "test", "", data);
    var s := Secret("test", "", data);
    assert CharsToBytes("test")[3] == 116;
    TrimNewlinesNoop(CharsToBytes("test"));
    assert View(s) == data;
  }
}
