/**
 * The script's own `.env` loader: a small line grammar (`KEY=VALUE`, blank
 * lines and `#` comments skipped, optional surrounding quotes) and the merge
 * of the parsed assignments into the process environment.
 */
module EnvFile {
  import opened Wrappers
  import opened Text

  /** An assignment read from one line: (key, value). */
  type Entry = (string, string)

  predicate IsQuote(c: char) {
    c == '"' || c == '\''
  }

  /**
   * Strips one pair of matching surrounding quotes. A value made of a single
   * quote character starts and ends with it, and so becomes empty.
   */
  function Unquote(v: string): string {
    var doubleQuoted := v != [] && v[0] == '"' && v[|v| - 1] == '"';
    var singleQuoted := v != [] && v[0] == '\'' && v[|v| - 1] == '\'';
    if doubleQuoted || singleQuoted then (if |v| >= 2 then v[1..|v| - 1] else "")
    else v
  }

  /**
   * A value that starts and ends with the same quote character loses exactly
   * those (one character in all when it is that character alone); any other
   * value is kept as it is.
   */
  lemma UnquoteSpec(v: string)
    ensures var r := Unquote(v);
      && (v != [] && IsQuote(v[0]) && v[|v| - 1] == v[0] ==>
            |r| == |v| - 1 - (if |v| >= 2 then 1 else 0) && r == v[1..1 + |r|])
      && (!(v != [] && IsQuote(v[0]) && v[|v| - 1] == v[0]) ==> r == v)
  {
  }

  /** Wrapping any text in one kind of quote and unquoting gives the text back. */
  lemma UnquoteQuoted(q: char, v: string)
    requires IsQuote(q)
    ensures Unquote([q] + v + [q]) == v
  {
    var w := [q] + v + [q];
    assert w[1..|w| - 1] == v;
  }

  /**
   * The grammar of one line: `None` for a line that is blank once stripped,
   * starts with `#`, or has no `=`; otherwise the stripped text before the
   * first `=` and the stripped, unquoted text after it.
   */
  function ParseLine(raw: string): Option<Entry> {
    var line := Strip(raw);
    var parts := SplitFirst(line, '=');
    if line == [] || line[0] == '#' || parts.None? then None
    else Some((Strip(parts.value.0), Unquote(Strip(parts.value.1))))
  }

  /**
   * Exactly the blank lines, the comments and the lines without `=` are
   * skipped; a key read from a line holds no `=` and no surrounding whitespace.
   */
  lemma ParseLineSkips(raw: string)
    ensures ParseLine(raw).None? <==> Strip(raw) == [] || Strip(raw)[0] == '#' || '=' !in raw
    ensures ParseLine(raw).Some? ==> '=' !in ParseLine(raw).value.0 && Trimmed(ParseLine(raw).value.0)
  {
    var line := Strip(raw);
    StripKeeps(raw, '=');
    SplitFirstSpec(line, '=');
    if ParseLine(raw).Some? {
      StripSpec(SplitFirst(line, '=').value.0);
    }
  }

  /** A key as it can be written on a line: non-empty, no surrounding whitespace, no `=`, not a comment. */
  predicate WritableKey(k: string) {
    k != [] && Trimmed(k) && '=' !in k && k[0] != '#'
  }

  /**
   * A line whose stripped form is `key=rest`, with no `=` in `key` and not
   * starting with `#`, parses to the stripped parts; `key` may be empty.
   */
  lemma ParseStrippedLine(raw: string, key: string, rest: string)
    requires Strip(raw) == key + "=" + rest && '=' !in key && (key == [] || key[0] != '#')
    ensures ParseLine(raw) == Some((Strip(key), Unquote(Strip(rest))))
  {
    assert key + "=" + rest == key + ['='] + rest;
    SplitFirstUnique(key, '=', rest);
  }

  /** The key part of `key<spaces>=`: the `=` is first, and stripping leaves the key. */
  lemma KeyPart(k: string, p2: string)
    requires WritableKey(k) && AllSpace(p2)
    ensures '=' !in k + p2 && (k + p2)[0] != '#' && Strip(k + p2) == k
  {
    assert !IsSpace('=');
    assert [] + k + p2 == k + p2;
    StripPadded([], k, p2);
  }

  /** The value part `<spaces>x`: stripping leaves `x`. */
  lemma ValuePart(p3: string, x: string)
    requires AllSpace(p3) && x != [] && Trimmed(x)
    ensures Strip(p3 + x) == x
  {
    assert p3 + x + [] == p3 + x;
    StripPadded(p3, x, []);
  }

  /**
   * Round trip for quoted values: whatever spacing surrounds the key, the `=`
   * and the quoted value, the line reads back as exactly (key, value); the
   * value may itself hold `=`, quotes or whitespace.
   */
  lemma ParseLineQuoted(p1: string, k: string, p2: string, p3: string, q: char, v: string, p4: string)
    requires AllSpace(p1) && AllSpace(p2) && AllSpace(p3) && AllSpace(p4)
    requires WritableKey(k) && IsQuote(q)
    ensures ParseLine(p1 + k + p2 + "=" + p3 + [q] + v + [q] + p4) == Some((k, v))
  {
    var quoted := [q] + v + [q];
    var raw := p1 + k + p2 + "=" + p3 + [q] + v + [q] + p4;
    var body := (k + p2) + "=" + (p3 + quoted);
    assert raw == p1 + body + p4;
    assert Trimmed(body) by {
      assert body[0] == k[0] && body[|body| - 1] == q;
    }
    StripPadded(p1, body, p4);
    KeyPart(k, p2);
    ParseStrippedLine(raw, k + p2, p3 + quoted);
    ValuePart(p3, quoted);
    UnquoteQuoted(q, v);
  }

  /**
   * Round trip for bare values: a non-empty value with no whitespace at its
   * ends and not wrapped in a matching pair of quotes reads back unchanged,
   * whatever spacing surrounds it; later `=` characters stay in the value.
   */
  lemma ParseLineBare(p1: string, k: string, p2: string, p3: string, v: string, p4: string)
    requires AllSpace(p1) && AllSpace(p2) && AllSpace(p3) && AllSpace(p4)
    requires WritableKey(k) && v != [] && Trimmed(v)
    requires !(IsQuote(v[0]) && v[|v| - 1] == v[0])
    ensures ParseLine(p1 + k + p2 + "=" + p3 + v + p4) == Some((k, v))
  {
    var raw := p1 + k + p2 + "=" + p3 + v + p4;
    var body := (k + p2) + "=" + (p3 + v);
    assert raw == p1 + body + p4;
    assert Trimmed(body) by {
      assert body[0] == k[0] && body[|body| - 1] == v[|v| - 1];
    }
    StripPadded(p1, body, p4);
    KeyPart(k, p2);
    ParseStrippedLine(raw, k + p2, p3 + v);
    ValuePart(p3, v);
  }

  /** Every line of a file run through the grammar, in line order. */
  function ParseAll(lines: seq<string>): seq<Option<Entry>> {
    seq(|lines|, i requires 0 <= i < |lines| => ParseLine(lines[i]))
  }

  /** The assignments among parsed lines, in order. */
  function Assignments(ps: seq<Option<Entry>>): seq<Entry> {
    if ps == [] then []
    else if ps[0].None? then Assignments(ps[1..])
    else [ps[0].value] + Assignments(ps[1..])
  }

  lemma {:induction false} AssignmentsAppend(a: seq<Option<Entry>>, b: seq<Option<Entry>>)
    ensures Assignments(a + b) == Assignments(a) + Assignments(b)
  {
    if a == [] {
      assert a + b == b;
    } else {
      assert (a + b)[1..] == a[1..] + b;
      AssignmentsAppend(a[1..], b);
    }
  }

  /** The assignments of a file, in line order. */
  function Entries(lines: seq<string>): seq<Entry> {
    Assignments(ParseAll(lines))
  }

  /** The environment after loading, and how many assignments were made. */
  datatype Loaded = Loaded(env: map<string, string>, count: nat)

  /**
   * Merges assignments one after the other: without `override` a key already
   * present (from the process or from an earlier line) is left alone; every
   * assignment actually made is counted.
   */
  function Assign(env: map<string, string>, entries: seq<Entry>, override: bool): Loaded
    decreases |entries|
  {
    if entries == [] then Loaded(env, 0)
    else
      var k := entries[0].0;
      var v := entries[0].1;
      if !override && k in env then Assign(env, entries[1..], override)
      else
        var rest := Assign(env[k := v], entries[1..], override);
        Loaded(rest.env, rest.count + 1)
  }

  /** What loading the lines of an existing file does to `env`. */
  function LoadLines(env: map<string, string>, lines: seq<string>, override: bool): Loaded {
    Assign(env, Entries(lines), override)
  }

  function KeysOf(entries: seq<Entry>): set<string> {
    set i | 0 <= i < |entries| :: entries[i].0
  }

  lemma KeysOfCons(entries: seq<Entry>)
    requires entries != []
    ensures KeysOf(entries) == {entries[0].0} + KeysOf(entries[1..])
  {
    forall k | k in KeysOf(entries) ensures k in {entries[0].0} + KeysOf(entries[1..]) {
      var i :| 0 <= i < |entries| && entries[i].0 == k;
      if i > 0 {
        assert entries[1..][i - 1].0 == k;
      }
    }
    forall k | k in KeysOf(entries[1..]) ensures k in KeysOf(entries) {
      var i :| 0 <= i < |entries[1..]| && entries[1..][i].0 == k;
      assert entries[i + 1].0 == k;
    }
  }

  /** The keys afterwards are those before plus every key of the file; nothing is removed. */
  lemma {:induction false} AssignKeys(env: map<string, string>, entries: seq<Entry>, override: bool)
    ensures Assign(env, entries, override).env.Keys == env.Keys + KeysOf(entries)
    decreases |entries|
  {
    if entries != [] {
      KeysOfCons(entries);
      var (k, v) := entries[0];
      if !override && k in env {
        AssignKeys(env, entries[1..], override);
      } else {
        AssignKeys(env[k := v], entries[1..], override);
      }
    }
  }

  /** A key that no line assigns keeps its presence and its value. */
  lemma {:induction false} AssignUntouched(env: map<string, string>, entries: seq<Entry>, override: bool, key: string)
    requires key !in KeysOf(entries)
    ensures var r := Assign(env, entries, override).env;
      (key in r <==> key in env) && (key in env ==> r[key] == env[key])
    decreases |entries|
  {
    if entries != [] {
      KeysOfCons(entries);
      var (k, v) := entries[0];
      if !override && k in env {
        AssignUntouched(env, entries[1..], override, key);
      } else {
        AssignUntouched(env[k := v], entries[1..], override, key);
      }
    }
  }

  /** Without `override`, a key already in the environment is never overwritten. */
  lemma {:induction false} AssignKeepsExisting(env: map<string, string>, entries: seq<Entry>, key: string)
    requires key in env
    ensures var r := Assign(env, entries, false).env; key in r && r[key] == env[key]
    decreases |entries|
  {
    if entries != [] {
      var (k, v) := entries[0];
      if k in env {
        AssignKeepsExisting(env, entries[1..], key);
      } else {
        AssignKeepsExisting(env[k := v], entries[1..], key);
      }
    }
  }

  /**
   * Without `override`, a key new to the environment takes the value of its
   * FIRST assignment in the file.
   */
  lemma {:induction false} AssignFirstWins(env: map<string, string>, entries: seq<Entry>, i: nat)
    requires i < |entries| && entries[i].0 !in env
    requires forall j :: 0 <= j < i ==> entries[j].0 != entries[i].0
    ensures var r := Assign(env, entries, false).env; entries[i].0 in r && r[entries[i].0] == entries[i].1
    decreases |entries|
  {
    var (k, v) := entries[0];
    if i == 0 {
      AssignKeepsExisting(env[k := v], entries[1..], k);
    } else {
      var env' := if k in env then env else env[k := v];
      assert entries[1..][i - 1] == entries[i];
      AssignFirstWins(env', entries[1..], i - 1);
    }
  }

  /** With `override`, every key of the file takes the value of its LAST assignment. */
  lemma {:induction false} AssignLastWins(env: map<string, string>, entries: seq<Entry>, i: nat)
    requires i < |entries|
    requires forall j :: i < j < |entries| ==> entries[j].0 != entries[i].0
    ensures var r := Assign(env, entries, true).env; entries[i].0 in r && r[entries[i].0] == entries[i].1
    decreases |entries|
  {
    var (k, v) := entries[0];
    if i == 0 {
      assert k !in KeysOf(entries[1..]) by {
        forall j | 0 <= j < |entries[1..]| ensures entries[1..][j].0 != k {
          assert entries[1..][j] == entries[j + 1];
        }
      }
      AssignUntouched(env[k := v], entries[1..], true, k);
    } else {
      assert entries[1..][i - 1] == entries[i];
      forall j | i - 1 < j < |entries[1..]| ensures entries[1..][j].0 != entries[i].0 {
        assert entries[1..][j] == entries[j + 1];
      }
      AssignLastWins(env[k := v], entries[1..], i - 1);
    }
  }

  /** With `override`, every assignment of the file is made and counted. */
  lemma {:induction false} AssignCountOverride(env: map<string, string>, entries: seq<Entry>)
    ensures Assign(env, entries, true).count == |entries|
    decreases |entries|
  {
    if entries != [] {
      var (k, v) := entries[0];
      AssignCountOverride(env[k := v], entries[1..]);
    }
  }

  /** The loader added keys to `env` and not removed any, and counted exactly the keys it added. */
  predicate CountsNewKeys(env: map<string, string>, r: Loaded) {
    env.Keys <= r.env.Keys && r.count == |r.env.Keys - env.Keys|
  }

  lemma KeysAfterUpdate(env: map<string, string>, k: string, v: string)
    ensures env[k := v].Keys == env.Keys + {k}
  {
  }

  lemma OneMoreElement<K>(before: set<K>, k: K, after: set<K>)
    requires k !in before && before + {k} <= after
    ensures |after - before| == |after - (before + {k})| + 1
  {
    var added := after - (before + {k});
    assert after - before == added + {k};
    assert k !in added;
  }

  /** A key added before the rest is one more key added in all. */
  lemma OneMoreKey(env: map<string, string>, k: string, v: string, r: Loaded)
    requires k !in env && CountsNewKeys(env[k := v], r)
    ensures CountsNewKeys(env, Loaded(r.env, r.count + 1))
  {
    KeysAfterUpdate(env, k, v);
    OneMoreElement(env.Keys, k, r.env.Keys);
  }

  /** Without `override`, the count is exactly the number of keys the file added. */
  lemma {:induction false} AssignCountNoOverride(env: map<string, string>, entries: seq<Entry>)
    ensures CountsNewKeys(env, Assign(env, entries, false))
    decreases |entries|
  {
    if entries == [] {
      assert env.Keys - env.Keys == {};
    } else {
      var k := entries[0].0;
      if k in env {
        AssignCountNoOverride(env, entries[1..]);
      } else {
        var env' := env[k := entries[0].1];
        AssignCountNoOverride(env', entries[1..]);
        OneMoreKey(env, k, entries[0].1, Assign(env', entries[1..], false));
      }
    }
  }

  /** A line the grammar skips changes neither the environment nor the count. */
  lemma SkippedLineIsInert(env: map<string, string>, lines: seq<string>, i: nat, override: bool)
    requires i < |lines| && ParseLine(lines[i]).None?
    ensures LoadLines(env, lines[..i] + lines[i + 1..], override) == LoadLines(env, lines, override)
  {
    var ps := ParseAll(lines);
    assert ParseAll(lines[..i] + lines[i + 1..]) == ps[..i] + ps[i + 1..];
    assert ps == ps[..i] + ([ps[i]] + ps[i + 1..]);
    AssignmentsAppend(ps[..i], [ps[i]] + ps[i + 1..]);
    AssignmentsAppend([ps[i]], ps[i + 1..]);
    AssignmentsAppend(ps[..i], ps[i + 1..]);
    assert [ps[i]][1..] == [];
  }

  /** The effect of the parsed lines from index `i` on. */
  function LoadFrom(env: map<string, string>, ps: seq<Option<Entry>>, i: nat, override: bool): Loaded
    requires i <= |ps|
  {
    Assign(env, Assignments(ps[i..]), override)
  }

  /** One parsed line's effect: the assignment it makes, if any, followed by the rest. */
  lemma LoadStep(env: map<string, string>, ps: seq<Option<Entry>>, i: nat, override: bool)
    requires i < |ps|
    ensures LoadFrom(env, ps, i, override) ==
      if ps[i].Some? && (override || ps[i].value.0 !in env) then
        var r := LoadFrom(env[ps[i].value.0 := ps[i].value.1], ps, i + 1, override); Loaded(r.env, r.count + 1)
      else LoadFrom(env, ps, i + 1, override)
  {
    var later := Assignments(ps[i + 1..]);
    assert ps[i..][1..] == ps[i + 1..];
    if ps[i].Some? {
      var e := ps[i].value;
      assert Assignments(ps[i..]) == [e] + later;
      assert ([e] + later)[0] == e && ([e] + later)[1..] == later;
    }
  }

  /** The process environment (`os.environ`), which the loader updates in place. */
  class Environ {
    var vars: map<string, string>

    constructor (initial: map<string, string>)
      ensures vars == initial
    {
      vars := initial;
    }

    /**
     * `load_env_file`: `file` is `None` when the path does not exist, and
     * otherwise the file's lines.
     */
    method LoadEnvFile(file: Option<seq<string>>, override: bool) returns (loaded: nat)
      modifies this
      ensures file.None? ==> loaded == 0 && vars == old(vars)
      ensures file.Some? ==> Loaded(vars, loaded) == LoadLines(old(vars), file.value, override)
    {
      loaded := 0;
      if file.None? {
        return;
      }
      var lines := file.value;
      ghost var goal := LoadLines(vars, lines, override);
      ghost var ps := ParseAll(lines);
      var i := 0;
      assert ps[i..] == ps;
      while i < |lines|
        invariant i <= |lines|
        invariant LoadFrom(vars, ps, i, override).env == goal.env
        invariant loaded + LoadFrom(vars, ps, i, override).count == goal.count
      {
        var parsed := ParseLine(lines[i]);
        LoadStep(vars, ps, i, override);
        if parsed.Some? {
          var (key, val) := parsed.value;
          if override || key !in vars {
            vars := vars[key := val];
            loaded := loaded + 1;
          }
        }
        i := i + 1;
      }
      assert ps[i..] == [];
    }
  }
}
