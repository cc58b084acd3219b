/** The dot-env projection (dot_env.go): downloaded files become variables
    named after their group, entry name and extension; an existing `.env`
    in the output directory is merged in, and the result is written back as
    `NAME=quoted-value` lines. */
module DotEnvs {
  import opened Types
  import opened Fs
  import opened Files
  import opened Shell
  import Paths

  /** ASCII upper-casing of one character. */
  function Upper(c: char): (u: char)
    ensures 'a' <= c <= 'z' ==> u as int == c as int - 32
    ensures !('a' <= c <= 'z') ==> u == c
  {
    if 'a' <= c <= 'z' then (c as int - 32) as char else c
  }

  function ToUpper(s: string): (u: string)
    ensures |u| == |s|
    ensures forall i :: 0 <= i < |s| ==> u[i] == Upper(s[i])
  {
    seq(|s|, i requires 0 <= i < |s| => Upper(s[i]))
  }

  /** `envVarName`: group, entry name and extension joined by `_`, upper-cased. */
  function EnvVarName(e: Entry): (k: string)
    ensures |k| == |e.group| + |e.properties.name| + |e.properties.extension| + 2
    ensures k[|e.group|] == '_' && k[|e.group| + 1 + |e.properties.name|] == '_'
    ensures forall i :: 0 <= i < |e.group| ==> k[i] == Upper(e.group[i])
    ensures k == ToUpper(e.group) + "_" + ToUpper(e.properties.name) + "_" + ToUpper(e.properties.extension)
  {
    var g, n, x := e.group, e.properties.name, e.properties.extension;
    ToUpperConcat(g, "_");
    ToUpperConcat(g + "_", n);
    ToUpperConcat(g + "_" + n, "_");
    ToUpperConcat(g + "_" + n + "_", x);
    ToUpper(g + "_" + n + "_" + x)
  }

  /** The value a file contributes: its payload as a string. */
  function EnvValue(e: Entry): string {
    BytesToChars(e.payload)
  }

  /** The variables and the overwrite warnings after one `put`. */
  function PutOutcome(data: map<string, string>, warnings: seq<string>, k: string, v: string): (map<string, string>, seq<string>) {
    (data[k := v], if k in data then warnings + [k] else warnings)
  }

  /** The variables and warnings after putting every file's variable, in
      list order. */
  function Load(data: map<string, string>, warnings: seq<string>, es: seq<Entry>): (r: (map<string, string>, seq<string>))
    decreases |es|
  {
    if es == [] then (data, warnings)
    else
      var (d, w) := Load(data, warnings, es[..|es| - 1]);
      PutOutcome(d, w, EnvVarName(es[|es| - 1]), EnvValue(es[|es| - 1]))
  }

  /** The index of the last entry that produces variable `k`, or -1. */
  function LastWith(es: seq<Entry>, k: string): (i: int)
    ensures -1 <= i < |es|
    ensures i >= 0 ==> EnvVarName(es[i]) == k
    ensures forall j :: i < j < |es| ==> EnvVarName(es[j]) != k
    decreases |es|
  {
    if es == [] then -1
    else if EnvVarName(es[|es| - 1]) == k then |es| - 1
    else LastWith(es[..|es| - 1], k)
  }

  /** Later files override earlier ones: a variable ends up with the value
      of the last file producing it, or keeps its earlier value when no
      file produces it. */
  lemma {:induction false} LoadLastWins(data: map<string, string>, warnings: seq<string>, es: seq<Entry>, k: string)
    ensures k in Load(data, warnings, es).0 <==> k in data || LastWith(es, k) >= 0
    ensures LastWith(es, k) >= 0 ==> Load(data, warnings, es).0[k] == EnvValue(es[LastWith(es, k)])
    ensures LastWith(es, k) < 0 && k in data ==> Load(data, warnings, es).0[k] == data[k]
    decreases |es|
  {
    if es != [] {
      var init := es[..|es| - 1];
      LoadLastWins(data, warnings, init, k);
      if EnvVarName(es[|es| - 1]) != k {
        assert LastWith(es, k) == LastWith(init, k);
        if LastWith(init, k) >= 0 {
          assert es[LastWith(init, k)] == init[LastWith(init, k)];
        }
      }
    }
  }

  /** Loading only appends to the warning log, and every new warning names
      the variable of one of the loaded files. */
  lemma {:induction false} LoadWarnings(data: map<string, string>, warnings: seq<string>, es: seq<Entry>)
    ensures |Load(data, warnings, es).1| >= |warnings|
    ensures Load(data, warnings, es).1[..|warnings|] == warnings
    ensures forall i :: |warnings| <= i < |Load(data, warnings, es).1| ==>
              exists j :: 0 <= j < |es| && EnvVarName(es[j]) == Load(data, warnings, es).1[i]
    decreases |es|
  {
    if es != [] {
      var init := es[..|es| - 1];
      LoadWarnings(data, warnings, init);
      var (d, w) := Load(data, warnings, init);
      var r := Load(data, warnings, es).1;
      forall i | |warnings| <= i < |r| ensures exists j :: 0 <= j < |es| && EnvVarName(es[j]) == r[i] {
        if i < |w| {
          assert r[i] == w[i];
          var j :| 0 <= j < |init| && EnvVarName(init[j]) == w[i];
          assert es[j] == init[j];
        } else {
          assert EnvVarName(es[|es| - 1]) == r[i];
        }
      }
    }
  }

  /** The variables of an existing `.env`: the read error, a sourcing
      error, or the variables the file sets. */
  function Sourced(read: Result<Bytes>, path: string): (r: Result<map<string, string>>)
    ensures read.Err? ==> r == Err(read.error)
    ensures read.Ok? ==> (r.Ok? <==> Source(BytesToChars(read.value)).Some?)
    ensures read.Ok? && r.Err? ==> r.error == ShellError(path)
    ensures r.Ok? ==> Source(BytesToChars(read.value)) == Some(r.value)
  {
    if read.Err? then Err(read.error)
    else match Source(BytesToChars(read.value))
      case None => Err(ShellError(path))
      case Some(m) => Ok(m)
  }

  /** The file text `Write` produces for the keys visited in `order`. */
  function Rendered(data: map<string, string>, order: seq<string>): string
    requires forall i :: 0 <= i < |order| ==> order[i] in data
  {
    Concat(Lines(data, order))
  }

  class DotEnv {
    const fullPath: string
    const files: seq<File>
    var data: map<string, string>
    /** The keys reported as being overwritten, in reporting order. */
    var warnings: seq<string>

    /** `NewDotEnv`: the `.env` file of the output directory, no variable yet. */
    constructor (outputDir: string, files: seq<File>)
      ensures fullPath == Paths.Join(outputDir, ".env") && this.files == files
      ensures data == map[] && warnings == []
    {
      fullPath := Paths.Join(outputDir, ".env");
      this.files := files;
      data := map[];
      warnings := [];
    }

    /** `put`: the variable gets the value, every other one is kept, and a
        warning is logged when the variable was already set. */
    method Put(k: string, v: string)
      modifies this
      ensures data == old(data)[k := v]
      ensures k in old(data) ==> warnings == old(warnings) + [k]
      ensures k !in old(data) ==> warnings == old(warnings)
      ensures (data, warnings) == PutOutcome(old(data), old(warnings), k, v)
    {
      if k in data {
        warnings := warnings + [k];
      }
      data := data[k := v];
    }

    /** `loadFiles`: one `put` per file, in list order. */
    method LoadFiles()
      modifies this
      ensures (data, warnings) == Load(old(data), old(warnings), old(Snapshots(files)))
    {
      var es := Snapshots(files);
      ghost var d0, w0 := data, warnings;
      var i := 0;
      while i < |es|
        invariant 0 <= i <= |es|
        invariant (data, warnings) == Load(d0, w0, es[..i])
      {
        var e := es[i];
        Put(EnvVarName(e), EnvValue(e));
        LoadStep(d0, w0, es, i);
        i := i + 1;
      }
      assert es[..i] == es;
    }

    /** `readExisting`: the variables of the existing file are put on top
        of the current ones, in the map's (unspecified) order. */
    method ReadExisting(fs: FileSystem) returns (err: Option<Error>, ghost order: seq<string>)
      modifies this
      ensures var s := Sourced(fs.ReadFile(fullPath), fullPath);
              (s.Err? ==> err == Some(s.error) && data == old(data) && warnings == old(warnings)) &&
              (s.Ok? ==> err == None && Distinct(order) && (forall k :: k in order <==> k in s.value) &&
                         (data, warnings) == Merge(old(data), old(warnings), s.value, order) &&
                         data == old(data) + s.value)
    {
      order := [];
      var s := Sourced(fs.ReadFile(fullPath), fullPath);
      if s.Err? {
        return Some(s.error), order;
      }
      var existing := s.value;
      ghost var d0, w0 := data, warnings;
      var remaining := existing.Keys;
      while remaining != {}
        invariant remaining <= existing.Keys
        invariant Distinct(order)
        invariant forall k :: k in existing <==> k in order || k in remaining
        invariant forall k :: k in order ==> k !in remaining
        invariant (data, warnings) == Merge(d0, w0, existing, order)
        decreases |remaining|
      {
        var k :| k in remaining;
        Put(k, existing[k]);
        MergeStep(d0, w0, existing, order, k);
        DistinctSnoc(order, k);
        order := order + [k];
        remaining := remaining - {k};
      }
      MergeAll(d0, w0, existing, order);
      err := None;
    }

    /** `Prepare`: the files first, then the existing file when there is
        one, so on a shared name the existing file's value wins. Without a
        readable existing file the warnings are those of the load; with one,
        the load's warnings are followed by warnings naming exactly the
        loaded variables the existing file sets again. */
    method Prepare(fs: FileSystem) returns (err: Option<Error>)
      modifies this
      ensures var (loaded, lw) := Load(old(data), old(warnings), old(Snapshots(files)));
              var s := Sourced(fs.ReadFile(fullPath), fullPath);
              (!fs.Exists(fullPath) ==> err == None && data == loaded && warnings == lw) &&
              (fs.Exists(fullPath) && s.Err? ==> err == Some(s.error) && data == loaded && warnings == lw) &&
              (fs.Exists(fullPath) && s.Ok? ==>
                 err == None && data == loaded + s.value &&
                 |warnings| >= |lw| && warnings[..|lw|] == lw &&
                 forall k :: k in warnings[|lw|..] <==> k in loaded && k in s.value)
    {
      LoadFiles();
      if !fs.Exists(fullPath) {
        return None;
      }
      ghost var d1, w1 := data, warnings;
      ghost var order;
      err, order := ReadExisting(fs);
      if err == None {
        MergeSpec(d1, w1, Sourced(fs.ReadFile(fullPath), fullPath).value, order);
      }
    }

    /** The lines of `Write`, one per variable, visited in the map's order. */
    method Escape() returns (escaped: seq<string>, ghost order: seq<string>)
      ensures Distinct(order) && (forall k :: k in data <==> k in order)
      ensures escaped == Lines(data, order)
    {
      escaped := [];
      order := [];
      var remaining := data.Keys;
      while remaining != {}
        invariant remaining <= data.Keys
        invariant Distinct(order)
        invariant forall k :: k in data <==> k in order || k in remaining
        invariant forall k :: k in order ==> k !in remaining
        invariant escaped == Lines(data, order)
        decreases |remaining|
      {
        var k :| k in remaining;
        DistinctSnoc(order, k);
        LinesSnoc(data, order, k);
        order := order + [k];
        escaped := escaped + [Line(k, data[k])];
        remaining := remaining - {k};
      }
    }

    /** `Write`: the dry-run writes nothing; otherwise the lines are
        written at `fullPath` as a whole, replacing what was there, so a
        successful write sources back to exactly the data. */
    method Write(fs: FileSystem, dryRun: bool) returns (err: Option<Error>, ghost order: seq<string>)
      modifies fs
      ensures Distinct(order) && (forall k :: k in data <==> k in order)
      ensures dryRun ==> err == None && fs.files == old(fs.files)
      ensures !dryRun ==> (err, fs.files) == fs.Write(old(fs.files), fullPath, CharsToBytes(Rendered(data, order)))
      ensures !dryRun && err == None && (forall k :: k in data ==> ValidName(k) && Latin1(k) && Latin1(data[k])) ==>
                Sourced(fs.ReadFile(fullPath), fullPath) == Ok(data)
    {
      var escaped;
      escaped, order := Escape();
      if dryRun {
        return None, order;
      }
      var text := JoinLines(escaped);
      err := fs.WriteFile(fullPath, CharsToBytes(text));
      if forall k :: k in data ==> ValidName(k) && Latin1(k) && Latin1(data[k]) {
        WrittenSourcesBack(data, order, fullPath);
      }
    }
  }

  /** The lines written one after the other, as the write loop does. */
  method JoinLines(escaped: seq<string>) returns (text: string)
    ensures text == Concat(escaped)
  {
    text := [];
    var i := 0;
    while i < |escaped|
      invariant 0 <= i <= |escaped|
      invariant text == Concat(escaped[..i])
    {
      ConcatSnoc(escaped[..i], escaped[i]);
      assert escaped[..i + 1] == escaped[..i] + [escaped[i]];
      text := text + escaped[i];
      i := i + 1;
    }
    assert escaped[..i] == escaped;
  }

  lemma LinesSnoc(data: map<string, string>, order: seq<string>, k: string)
    requires forall i :: 0 <= i < |order| ==> order[i] in data
    requires k in data
    ensures Lines(data, order + [k]) == Lines(data, order) + [Line(k, data[k])]
  {
  }

  lemma LoadStep(d0: map<string, string>, w0: seq<string>, es: seq<Entry>, i: nat)
    requires i < |es|
    ensures Load(d0, w0, es[..i + 1]) ==
            PutOutcome(Load(d0, w0, es[..i]).0, Load(d0, w0, es[..i]).1, EnvVarName(es[i]), EnvValue(es[i]))
  {
    assert es[..i + 1][..i] == es[..i];
  }

  /** The variables and warnings after putting `m[k]` for each `k` of
      `order`, in turn. */
  function Merge(data: map<string, string>, warnings: seq<string>, m: map<string, string>, order: seq<string>): (map<string, string>, seq<string>)
    requires forall i :: 0 <= i < |order| ==> order[i] in m
    decreases |order|
  {
    if order == [] then (data, warnings)
    else
      var (d, w) := Merge(data, warnings, m, order[..|order| - 1]);
      PutOutcome(d, w, order[|order| - 1], m[order[|order| - 1]])
  }

  lemma MergeStep(d0: map<string, string>, w0: seq<string>, m: map<string, string>, order: seq<string>, k: string)
    requires forall i :: 0 <= i < |order| ==> order[i] in m
    requires k in m
    ensures Merge(d0, w0, m, order + [k]) == PutOutcome(Merge(d0, w0, m, order).0, Merge(d0, w0, m, order).1, k, m[k])
  {
    assert (order + [k])[..|order|] == order;
  }

  /** Putting the keys of `order` from `m`: the variables of `order` take
      their values from `m`, every other one is kept, and a warning is
      logged exactly for the keys of `order` that were already set. */
  lemma {:induction false} MergeSpec(d0: map<string, string>, w0: seq<string>, m: map<string, string>, order: seq<string>)
    requires forall i :: 0 <= i < |order| ==> order[i] in m
    requires Distinct(order)
    ensures forall k :: k in Merge(d0, w0, m, order).0 <==> k in d0 || k in order
    ensures forall k :: k in Merge(d0, w0, m, order).0 ==>
              Merge(d0, w0, m, order).0[k] == if k in order then m[k] else d0[k]
    ensures |Merge(d0, w0, m, order).1| >= |w0| && Merge(d0, w0, m, order).1[..|w0|] == w0
    ensures forall k :: k in Merge(d0, w0, m, order).1[|w0|..] <==> k in d0 && k in order
    decreases |order|
  {
    if order != [] {
      var init := order[..|order| - 1];
      var k := order[|order| - 1];
      assert order == init + [k];
      assert Distinct(init) && k !in init by {
        forall i, j | 0 <= i < j < |init| ensures init[i] != init[j] {
          assert init[i] == order[i] && init[j] == order[j];
        }
        forall i | 0 <= i < |init| ensures init[i] != k {
          assert init[i] == order[i];
        }
      }
      MergeSpec(d0, w0, m, init);
      var (d, w) := Merge(d0, w0, m, init);
      var r := Merge(d0, w0, m, order).1;
      // a key of init that was set before is still set when k comes
      assert k in d <==> k in d0;
      if k in d {
        assert r == w + [k];
        assert r[..|w0|] == w[..|w0|];
        assert r[|w0|..] == w[|w0|..] + [k];
      } else {
        assert r == w;
      }
    }
  }

  /** Putting every key of `m` gives the old variables overridden by `m`. */
  lemma MergeAll(d0: map<string, string>, w0: seq<string>, m: map<string, string>, order: seq<string>)
    requires Distinct(order) && (forall k :: k in order <==> k in m)
    ensures forall i :: 0 <= i < |order| ==> order[i] in m
    ensures Merge(d0, w0, m, order).0 == d0 + m
  {
    MergeSpec(d0, w0, m, order);
    var d := Merge(d0, w0, m, order).0;
    assert d.Keys == (d0 + m).Keys;
  }

  lemma {:induction false} EscapeLatin1(s: string)
    requires Latin1(s)
    ensures Latin1(EscapeQuotes(s))
    decreases |s|
  {
    if s != [] {
      EscapeLatin1(s[1..]);
      var h := if s[0] == '\'' then "'\"'\"'" else [s[0]];
      assert Latin1(h);
      var e := EscapeQuotes(s[1..]);
      assert forall i :: 0 <= i < |h + e| ==> (h + e)[i] == if i < |h| then h[i] else e[i - |h|];
    }
  }

  lemma Latin1Concat(a: string, b: string)
    requires Latin1(a) && Latin1(b)
    ensures Latin1(a + b)
  {
    assert forall i :: 0 <= i < |a + b| ==> (a + b)[i] == if i < |a| then a[i] else b[i - |a|];
  }

  lemma LineLatin1(k: string, v: string)
    requires Latin1(k) && Latin1(v)
    ensures Latin1(Line(k, v))
  {
    if v != [] && !AllSafe(v) {
      EscapeLatin1(v);
      Latin1Concat("'", EscapeQuotes(v));
      Latin1Concat("'" + EscapeQuotes(v), "'");
    }
    Latin1Concat(k, "=");
    Latin1Concat(k + "=", Quote(v));
    Latin1Concat(k + "=" + Quote(v), "\n");
  }

  lemma {:induction false} ConcatLatin1(ls: seq<string>)
    requires forall i :: 0 <= i < |ls| ==> Latin1(ls[i])
    ensures Latin1(Concat(ls))
    decreases |ls|
  {
    if ls != [] {
      ConcatLatin1(ls[1..]);
      Latin1Concat(ls[0], Concat(ls[1..]));
    }
  }

  /** Sourcing the file `Write` produces gives back every variable with its
      value, when every name is a shell variable name and every character
      fits in a byte. */
  lemma WrittenSourcesBack(data: map<string, string>, order: seq<string>, path: string)
    requires forall k :: k in data <==> k in order
    requires forall k :: k in data ==> ValidName(k) && Latin1(k) && Latin1(data[k])
    ensures Sourced(Ok(CharsToBytes(Rendered(data, order))), path) == Ok(data)
  {
    var ls := Lines(data, order);
    forall i | 0 <= i < |ls| ensures Latin1(ls[i]) {
      LineLatin1(order[i], data[order[i]]);
    }
    ConcatLatin1(ls);
    CharsBytesRoundTrip(Concat(ls));
    SourceLines(data, order);
  }

  /** What `os.OpenFile` with `O_CREATE|O_RDWR` but no `O_TRUNC`, followed
      by writing `written` from the start, leaves in a file that held
      `before`: the new bytes, then whatever of the old file lies past them. */
  function OverwriteInPlace(before: Bytes, written: Bytes): (r: Bytes)
    ensures |r| == if |written| < |before| then |before| else |written|
    ensures r[..|written|] == written
    ensures |written| < |before| ==> r[|written|..] == before[|written|..]
  {
    if |written| < |before| then written + before[|written|..] else written
  }

  lemma OverwriteChars(before: string, written: string)
    requires |written| < |before|
    ensures OverwriteInPlace(CharsToBytes(before), CharsToBytes(written)) == CharsToBytes(written + before[|written|..])
  {
  }

  /** The source writes without truncating: an existing `A="1"` is merged
      into `data` as `A` = `1`, written back as the shorter `A=1`, and the
      last two bytes of the old line stay behind; the file then no longer
      sources. */
  lemma ReopenLeavesStaleTail()
    ensures var before := CharsToBytes("A=\"1\"\n");
            var data := map["A" := "1"];
            Sourced(Ok(before), ".env") == Ok(data) &&
            Rendered(data, ["A"]) == "A=1\n" &&
            Sourced(Ok(OverwriteInPlace(before, CharsToBytes(Rendered(data, ["A"])))), ".env") == Err(ShellError(".env"))
  {
    ExistingSources();
    RenderedSingle();
    StaleSourced();
  }

  lemma ExistingSources()
    ensures Sourced(Ok(CharsToBytes("A=\"1\"\n")), ".env") == Ok(map["A" := "1"])
  {
    assert Latin1("A=\"1\"\n");
    CharsBytesRoundTrip("A=\"1\"\n");
    Shell.DoubleQuotedValue();
  }

  lemma StaleSourced()
    ensures Sourced(Ok(OverwriteInPlace(CharsToBytes("A=\"1\"\n"), CharsToBytes("A=1\n"))), ".env") == Err(ShellError(".env"))
  {
    var old_ := "A=\"1\"\n";
    var new_ := "A=1\n";
    OverwriteChars(old_, new_);
    assert new_ + old_[|new_|..] == "A=1\n\"\n";
    assert Latin1("A=1\n\"\n");
    CharsBytesRoundTrip("A=1\n\"\n");
    Shell.StrayQuoteRejected();
  }

  lemma RenderedSingle()
    ensures Rendered(map["A" := "1"], ["A"]) == "A=1\n"
  {
    assert AllSafe("1");
    assert Line("A", "1") == "A=1\n";
    assert Lines(map["A" := "1"], ["A"]) == ["A=1\n"];
    assert Concat(["A=1\n"]) == "A=1\n" + Concat([]);
  }

  /** Upper-casing works character by character, so it distributes over
      concatenation. */
  lemma ToUpperConcat(a: string, b: string)
    ensures ToUpper(a + b) == ToUpper(a) + ToUpper(b)
  {
  }

  /** Upper-cased text has no lower-case letters left: upper-casing it
      again changes nothing. */
  lemma ToUpperIdempotent(s: string)
    ensures forall i :: 0 <= i < |ToUpper(s)| ==> !('a' <= ToUpper(s)[i] <= 'z')
    ensures ToUpper(ToUpper(s)) == ToUpper(s)
  {
  }

  /** `envVarName` of the file `dotenv` / `dotenv` / `txt`. */
  lemma EnvVarNameExample(props: Manifests.SecretData, payload: Bytes)
    requires props.name == "dotenv" && props.extension == "txt"
    ensures EnvVarName(Entry("dotenv", "", props, payload)) == "DOTENV_DOTENV_TXT"
  {
    UpperWords();
  }

  /** The parts of that name, upper-cased. */
  lemma UpperWords()
    ensures ToUpper("dotenv") == "DOTENV" && ToUpper("txt") == "TXT" && ToUpper("_") == "_"
  {
  }
}
