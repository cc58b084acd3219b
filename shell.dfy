/** The two shell facilities the dot-env file relies on: the quoting of
    `shellescape.Quote`, and the sourcing of a file of `NAME=word` lines as
    `shell.SourceFile` does it, for the part of the shell language that
    quoting produces plus double-quoted words without expansions. */
module Shell {
  import opened Types

  /** The characters `shellescape.Quote` leaves unquoted: letters, digits
      and `_@%+=:,./-`. */
  predicate SafeChar(c: char) {
    ('a' <= c <= 'z') || ('A' <= c <= 'Z') || ('0' <= c <= '9') ||
    c == '_' || c == '@' || c == '%' || c == '+' || c == '=' || c == ':' || c == ',' || c == '.' || c == '/' || c == '-'
  }

  predicate AllSafe(s: string) {
    forall i :: 0 <= i < |s| ==> SafeChar(s[i])
  }

  /** Every single quote replaced by `'"'"'`: close the quoted run, a
      double-quoted single quote, open a new run. */
  function EscapeQuotes(s: string): (r: string)
    ensures |r| >= |s|
    decreases |s|
  {
    if s == [] then []
    else (if s[0] == '\'' then "'\"'\"'" else [s[0]]) + EscapeQuotes(s[1..])
  }

  /** `shellescape.Quote`: the empty string becomes `''`, a string of safe
      characters stays as it is, anything else is put in single quotes. */
  function Quote(s: string): (q: string)
    ensures q != []
    ensures s == [] ==> q == "''"
    ensures s != [] && AllSafe(s) ==> q == s
    ensures s != [] && !AllSafe(s) ==> q == "'" + EscapeQuotes(s) + "'"
  {
    if s == [] then "''"
    else if AllSafe(s) then s
    else "'" + EscapeQuotes(s) + "'"
  }

  /** A parse result with `p` put in front of the parsed value. */
  function Prepend(p: string, r: Option<(string, string)>): Option<(string, string)> {
    match r
    case None => None
    case Some((v, rest)) => Some((p + v, rest))
  }

  /** The text of a single-quoted run, up to its closing quote, and what
      follows the quote; no closing quote is a syntax error. */
  function SingleQuoted(s: string): (r: Option<(string, string)>)
    ensures r.Some? ==> |r.value.1| < |s|
    decreases |s|
  {
    if s == [] then None
    else if s[0] == '\'' then Some(([], s[1..]))
    else Prepend([s[0]], SingleQuoted(s[1..]))
  }

  /** The text of a double-quoted run without expansions or escapes; a
      backslash, dollar or backquote inside is outside the modelled part
      of the language, and so is a missing closing quote. */
  function DoubleQuoted(s: string): (r: Option<(string, string)>)
    ensures r.Some? ==> |r.value.1| < |s|
    decreases |s|
  {
    if s == [] || s[0] == '\\' || s[0] == '$' || s[0] == '`' then None
    else if s[0] == '"' then Some(([], s[1..]))
    else Prepend([s[0]], DoubleQuoted(s[1..]))
  }

  /** One shell word, up to the end of the line or of the input: runs of
      safe characters, single-quoted and double-quoted runs. */
  function ParseWord(s: string): (r: Option<(string, string)>)
    ensures r.Some? ==> |r.value.1| <= |s|
    ensures r.Some? ==> r.value.1 == [] || r.value.1[0] == '\n'
    decreases |s|
  {
    if s == [] || s[0] == '\n' then Some(([], s))
    else if SafeChar(s[0]) then Prepend([s[0]], ParseWord(s[1..]))
    else if s[0] == '\'' then
      match SingleQuoted(s[1..])
      case None => None
      case Some((v, rest)) => Prepend(v, ParseWord(rest))
    else if s[0] == '"' then
      match DoubleQuoted(s[1..])
      case None => None
      case Some((v, rest)) => Prepend(v, ParseWord(rest))
    else None
  }

  predicate NameChar(c: char) {
    ('a' <= c <= 'z') || ('A' <= c <= 'Z') || ('0' <= c <= '9') || c == '_'
  }

  /** A shell variable name: letters, digits and underscores, not starting
      with a digit. */
  predicate ValidName(s: string) {
    s != [] && !('0' <= s[0] <= '9') && forall i :: 0 <= i < |s| ==> NameChar(s[i])
  }

  /** The name in front of `=`, and what follows the `=`. */
  function ParseName(s: string): (r: Option<(string, string)>)
    ensures r.Some? ==> |r.value.1| < |s|
    decreases |s|
  {
    if s == [] then None
    else if s[0] == '=' then Some(([], s[1..]))
    else if NameChar(s[0]) then Prepend([s[0]], ParseName(s[1..]))
    else None
  }

  /** One `NAME=word` assignment: the name, the value, and the rest of the
      input starting at the end of the line. */
  function Assignment(s: string): (r: Option<(string, string, string)>)
    ensures r.Some? ==> |r.value.2| < |s|
    ensures r.Some? ==> r.value.2 == [] || r.value.2[0] == '\n'
  {
    match ParseName(s)
    case None => None
    case Some((k, rest)) =>
      if !ValidName(k) then None
      else match ParseWord(rest)
        case None => None
        case Some((v, tail)) => Some((k, v, tail))
  }

  /** The variables after running the assignments of `s` on top of `vars`,
      one per line, later ones overriding earlier ones; blank lines are
      skipped, and anything else is an error. */
  function SourceFrom(vars: map<string, string>, s: string): (r: Option<map<string, string>>)
    decreases |s|
  {
    if s == [] then Some(vars)
    else if s[0] == '\n' then SourceFrom(vars, s[1..])
    else
      match Assignment(s)
      case None => None
      case Some((k, v, tail)) =>
        if tail == [] then Some(vars[k := v]) else SourceFrom(vars[k := v], tail[1..])
  }

  /** `shell.SourceFile` on a file with contents `s`. */
  function Source(s: string): Option<map<string, string>> {
    SourceFrom(map[], s)
  }

  /** The line the dot-env writer emits for one variable. */
  function Line(k: string, v: string): string {
    k + "=" + Quote(v) + "\n"
  }

  /** The lines for the keys of `order`, in that order. */
  function Lines(data: map<string, string>, order: seq<string>): (ls: seq<string>)
    requires forall i :: 0 <= i < |order| ==> order[i] in data
    ensures |ls| == |order|
    ensures forall i :: 0 <= i < |order| ==> ls[i] == Line(order[i], data[order[i]])
  {
    seq(|order|, i requires 0 <= i < |order| => Line(order[i], data[order[i]]))
  }

  /** The strings written one after the other. */
  function Concat(ls: seq<string>): string
    decreases |ls|
  {
    if ls == [] then [] else ls[0] + Concat(ls[1..])
  }

  lemma {:induction false} ConcatSnoc(ls: seq<string>, s: string)
    ensures Concat(ls + [s]) == Concat(ls) + s
    decreases |ls|
  {
    if ls == [] {
      assert [s][1..] == [];
    } else {
      ConcatSnoc(ls[1..], s);
      assert (ls + [s])[1..] == ls[1..] + [s];
    }
  }

  /** The variables `vars` after the assignments of `order`, in turn. */
  function Assign(vars: map<string, string>, data: map<string, string>, order: seq<string>): map<string, string>
    requires forall i :: 0 <= i < |order| ==> order[i] in data
    decreases |order|
  {
    if order == [] then vars else Assign(vars[order[0] := data[order[0]]], data, order[1..])
  }

  /** After the assignments of `order`, a variable holds the value `data`
      gives it when `order` names it, and its old value otherwise. */
  lemma {:induction false} AssignAt(vars: map<string, string>, data: map<string, string>, order: seq<string>, k: string)
    requires forall i :: 0 <= i < |order| ==> order[i] in data
    ensures k in Assign(vars, data, order) <==> k in vars || k in order
    ensures k in Assign(vars, data, order) ==> Assign(vars, data, order)[k] == if k in order then data[k] else vars[k]
    decreases |order|
  {
    if order != [] {
      var rest := order[1..];
      assert order == [order[0]] + rest;
      AssignAt(vars[order[0] := data[order[0]]], data, rest, k);
    }
  }

  // The lemmas below show that sourcing undoes the writer's quoting.

  lemma {:induction false} SafeWord(v: string, tail: string)
    requires AllSafe(v)
    ensures ParseWord(v + tail) == Prepend(v, ParseWord(tail))
    decreases |v|
  {
    if v != [] {
      assert (v + tail)[1..] == v[1..] + tail;
      SafeWord(v[1..], tail);
      PrependTwice([v[0]], v[1..], ParseWord(tail));
      assert [v[0]] + v[1..] == v;
    } else {
      assert v + tail == tail;
      PrependNil(ParseWord(tail));
    }
  }

  lemma PrependNil(r: Option<(string, string)>)
    ensures Prepend([], r) == r
  {
    match r
    case None =>
    case Some((v, rest)) =>
      assert [] + v == v;
  }

  lemma {:induction false} SingleQuotedRun(p: string, tail: string)
    requires forall i :: 0 <= i < |p| ==> p[i] != '\''
    ensures SingleQuoted(p + "'" + tail) == Some((p, tail))
    decreases |p|
  {
    if p == [] {
      assert p + "'" + tail == "'" + tail;
    } else {
      assert (p + "'" + tail)[1..] == p[1..] + "'" + tail;
      SingleQuotedRun(p[1..], tail);
      assert [p[0]] + p[1..] == p;
    }
  }

  /** A quoted run `'p` followed by the escaped `v` and the closing quote
      reads as `p + v`. */
  lemma {:induction false} QuotedRun(p: string, v: string, tail: string)
    requires forall i :: 0 <= i < |p| ==> p[i] != '\''
    ensures ParseWord("'" + p + EscapeQuotes(v) + "'" + tail) == Prepend(p + v, ParseWord(tail))
    decreases |v|
  {
    if v == [] {
      ClosedRun(p, tail);
      assert p + v == p;
    } else if v[0] != '\'' {
      PlainShift(p, v, tail);
      QuotedRun(p + [v[0]], v[1..], tail);
    } else {
      var rest2 := "'" + EscapeQuotes(v[1..]) + "'" + tail;
      QuoteShift(p, v, tail);
      QuoteRejoin(p, v, tail);
      QuoteBreak(p, rest2);
      QuotedRun([], v[1..], tail);
      PrependTwice("'", v[1..], ParseWord(tail));
      PrependTwice(p, "'" + v[1..], ParseWord(tail));
    }
  }

  /** An ordinary character moves from the escaped part into the run. */
  lemma PlainShift(p: string, v: string, tail: string)
    requires v != [] && v[0] != '\''
    ensures "'" + p + EscapeQuotes(v) + "'" + tail == "'" + (p + [v[0]]) + EscapeQuotes(v[1..]) + "'" + tail
    ensures (p + [v[0]]) + v[1..] == p + v
  {
    var c, e := [v[0]], EscapeQuotes(v[1..]);
    assert EscapeQuotes(v) == c + e;
    Assoc("'" + p, c, e);
    Assoc("'", p, c);
    assert v == c + v[1..];
    Assoc(p, c, v[1..]);
  }

  lemma Assoc(a: string, b: string, c: string)
    ensures a + (b + c) == (a + b) + c
  {
  }

  /** An escaped single quote, seen as a closed run, a double-quoted
      quote and a new run. */
  lemma QuoteShift(p: string, v: string, tail: string)
    requires v != [] && v[0] == '\''
    ensures "'" + p + EscapeQuotes(v) + "'" + tail
         == "'" + p + "'" + ("\"'\"" + ("'" + EscapeQuotes(v[1..]) + "'" + tail))
  {
    assert EscapeQuotes(v) == "'\"'\"'" + EscapeQuotes(v[1..]);
  }

  lemma QuoteRejoin(p: string, v: string, tail: string)
    requires v != [] && v[0] == '\''
    ensures "'" + [] + EscapeQuotes(v[1..]) + "'" + tail == "'" + EscapeQuotes(v[1..]) + "'" + tail
    ensures [] + v[1..] == v[1..]
    ensures p + ("'" + v[1..]) == p + v
  {
    assert v == "'" + v[1..];
  }

  /** A single-quoted run closed right away. */
  lemma ClosedRun(p: string, tail: string)
    requires forall i :: 0 <= i < |p| ==> p[i] != '\''
    ensures ParseWord("'" + p + EscapeQuotes([]) + "'" + tail) == Prepend(p, ParseWord(tail))
  {
    var s := "'" + p + EscapeQuotes([]) + "'" + tail;
    assert s[1..] == p + "'" + tail;
    SingleQuotedRun(p, tail);
  }

  /** The run is closed, a double-quoted single quote follows, and then
      the word goes on. */
  lemma QuoteBreak(p: string, rest2: string)
    requires forall i :: 0 <= i < |p| ==> p[i] != '\''
    ensures ParseWord("'" + p + "'" + ("\"'\"" + rest2)) == Prepend(p, Prepend("'", ParseWord(rest2)))
  {
    SingleWord(p, "\"'\"" + rest2);
    DoubleWord(rest2);
  }

  /** A whole single-quoted run at the head of a word. */
  lemma SingleWord(p: string, x: string)
    requires forall i :: 0 <= i < |p| ==> p[i] != '\''
    ensures ParseWord("'" + p + "'" + x) == Prepend(p, ParseWord(x))
  {
    var s := "'" + p + "'" + x;
    assert s[1..] == p + "'" + x;
    SingleQuotedRun(p, x);
  }

  /** The double-quoted single quote `"'"` at the head of a word. */
  lemma DoubleWord(rest2: string)
    ensures ParseWord("\"'\"" + rest2) == Prepend("'", ParseWord(rest2))
  {
    var x := "\"'\"" + rest2;
    assert x[0] == '"' && x[1..] == "'\"" + rest2;
    DoubleSingle(rest2);
  }

  lemma DoubleSingle(rest2: string)
    ensures DoubleQuoted("'\"" + rest2) == Some(("'", rest2))
  {
    assert ("'\"" + rest2)[1..] == "\"" + rest2;
    assert ("\"" + rest2)[1..] == rest2;
    assert DoubleQuoted("\"" + rest2) == Some(([], rest2));
    assert "'" + [] == "'";
  }

  lemma PrependTwice(p: string, q: string, r: Option<(string, string)>)
    ensures Prepend(p, Prepend(q, r)) == Prepend(p + q, r)
  {
    match r
    case None =>
    case Some((v, rest)) =>
      assert p + (q + v) == (p + q) + v;
  }

  /** A quoted value read up to an end of line. */
  lemma QuoteWord(v: string, tail: string)
    requires ParseWord(tail) == Some(([], tail))
    ensures ParseWord(Quote(v) + tail) == Some((v, tail))
  {
    if v == [] {
      ClosedRun([], tail);
      assert "'" + [] + EscapeQuotes([]) + "'" + tail == Quote(v) + tail;
    } else if AllSafe(v) {
      SafeWord(v, tail);
      assert v + [] == v;
    } else {
      QuotedRun([], v, tail);
      assert "'" + [] + EscapeQuotes(v) + "'" + tail == Quote(v) + tail;
      assert [] + v + [] == v;
    }
  }

  /** A quoted value followed by the end of its line reads back as the
      value itself. */
  lemma QuoteRead(v: string, rest: string)
    ensures ParseWord(Quote(v) + "\n" + rest) == Some((v, "\n" + rest))
  {
    var tail := "\n" + rest;
    assert Quote(v) + "\n" + rest == Quote(v) + tail;
    QuoteWord(v, tail);
  }

  lemma {:induction false} NameRead(k: string, tail: string)
    requires forall i :: 0 <= i < |k| ==> NameChar(k[i])
    ensures ParseName(k + "=" + tail) == Some((k, tail))
    decreases |k|
  {
    if k == [] {
      assert k + "=" + tail == "=" + tail;
    } else {
      assert (k + "=" + tail)[1..] == k[1..] + "=" + tail;
      NameRead(k[1..], tail);
      assert [k[0]] + k[1..] == k;
    }
  }

  /** Sourcing one written line assigns its variable and goes on with the
      next line. */
  lemma LineRead(vars: map<string, string>, k: string, v: string, rest: string)
    requires ValidName(k)
    ensures SourceFrom(vars, Line(k, v) + rest) == SourceFrom(vars[k := v], rest)
  {
    var s := Line(k, v) + rest;
    assert s == k + "=" + (Quote(v) + "\n" + rest);
    NameRead(k, Quote(v) + "\n" + rest);
    QuoteRead(v, rest);
    assert Assignment(s) == Some((k, v, "\n" + rest));
    assert s != [] && s[0] == k[0];
    assert ("\n" + rest)[1..] == rest;
  }

  lemma {:induction false} LinesRead(vars: map<string, string>, data: map<string, string>, order: seq<string>)
    requires forall i :: 0 <= i < |order| ==> order[i] in data && ValidName(order[i])
    ensures SourceFrom(vars, Concat(Lines(data, order))) == Some(Assign(vars, data, order))
    decreases |order|
  {
    if order != [] {
      var ls := Lines(data, order);
      assert ls[1..] == Lines(data, order[1..]);
      LineRead(vars, order[0], data[order[0]], Concat(ls[1..]));
      LinesRead(vars[order[0] := data[order[0]]], data, order[1..]);
    }
  }

  /** Sourcing the written lines of every key gives back exactly the
      written map, provided every key is a shell variable name. */
  lemma SourceLines(data: map<string, string>, order: seq<string>)
    requires forall i :: 0 <= i < |order| ==> order[i] in data && ValidName(order[i])
    requires forall k :: k in data ==> k in order
    ensures Source(Concat(Lines(data, order))) == Some(data)
  {
    LinesRead(map[], data, order);
    AssignCovers(data, order);
  }

  /** Assigning every key of `order`, starting from no variables, gives
      back `data` when `order` lists all its keys. */
  lemma AssignCovers(data: map<string, string>, order: seq<string>)
    requires forall i :: 0 <= i < |order| ==> order[i] in data
    requires forall k :: k in data ==> k in order
    ensures Assign(map[], data, order) == data
  {
    var a := Assign(map[], data, order);
    forall k ensures (k in a <==> k in data) && (k in a ==> a[k] == data[k]) {
      AssignAt(map[], data, order, k);
      if k in order {
        var i :| 0 <= i < |order| && order[i] == k;
      }
    }
    assert a.Keys == data.Keys;
  }

  /** A line the sourcing cannot take: a stray double quote. */
  lemma StrayQuoteRejected()
    ensures Source("A=1\n\"\n") == None
  {
    var s := "A=1\n\"\n";
    assert s[1..] == "=1\n\"\n";
    assert ParseName(s[1..]) == Some(([], "1\n\"\n")) by {
      assert s[1..][1..] == "1\n\"\n";
    }
    assert ParseName(s) == Some(("A", "1\n\"\n")) by {
      assert ['A'] + [] == "A";
    }
    assert ValidName("A");
    assert "1\n\"\n"[1..] == "\n\"\n";
    assert ParseWord("\n\"\n") == Some(([], "\n\"\n"));
    assert ParseWord("1\n\"\n") == Some(("1", "\n\"\n")) by {
      assert ['1'] + [] == "1";
    }
    assert Assignment(s) == Some(("A", "1", "\n\"\n"));
    assert "\n\"\n"[1..] == "\"\n";
    assert ParseName("\"\n") == None;
    assert Assignment("\"\n") == None;
  }

  /** A double-quoted value reads as its text. */
  lemma DoubleQuotedValue()
    ensures Source("A=\"1\"\n") == Some(map["A" := "1"])
  {
    var t := "A=\"1\"\n";
    assert t[1..] == "=\"1\"\n" && t[1..][1..] == "\"1\"\n";
    assert ParseName(t) == Some(("A", "\"1\"\n")) by {
      assert ['A'] + [] == "A";
    }
    var w := "\"1\"\n";
    assert w[1..] == "1\"\n" && w[1..][1..] == "\"\n" && w[1..][1..][1..] == "\n";
    assert DoubleQuoted(w[1..]) == Some(("1", "\n")) by {
      assert ['1'] + [] == "1";
    }
    assert ParseWord("\n") == Some(([], "\n"));
    assert ParseWord(w) == Some(("1", "\n")) by {
      assert "1" + [] == "1";
    }
    assert Assignment(t) == Some(("A", "1", "\n"));
    assert "\n"[1..] == [];
  }
}
