/**
 * The handful of Python `str` operations the script relies on: `strip()`,
 * `split("=", 1)`, `startswith`, `replace` and ASCII `lower()`.
 */
module Text {
  import opened Wrappers

  /** Python's `str.isspace()` for one character. */
  const Whitespace: set<char> := {'\t', '\n', '\U{B}', '\U{C}', '\r', '\U{1C}', '\U{1D}', '\U{1E}', '\U{1F}', ' ',
    '\U{85}', '\U{A0}', '\U{1680}', '\U{2000}', '\U{2001}', '\U{2002}', '\U{2003}', '\U{2004}', '\U{2005}',
    '\U{2006}', '\U{2007}', '\U{2008}', '\U{2009}', '\U{200A}', '\U{2028}', '\U{2029}', '\U{202F}', '\U{205F}', '\U{3000}'}

  predicate IsSpace(c: char) {
    c in Whitespace
  }

  predicate AllSpace(s: string) {
    forall i :: 0 <= i < |s| ==> IsSpace(s[i])
  }

  /** True when `s` has no whitespace at either end (what `strip()` leaves). */
  predicate Trimmed(s: string) {
    s == [] || (!IsSpace(s[0]) && !IsSpace(s[|s| - 1]))
  }

  /** `str.lstrip()`. */
  function StripStart(s: string): string {
    if s != [] && IsSpace(s[0]) then StripStart(s[1..]) else s
  }

  /** `str.rstrip()`. */
  function StripEnd(s: string): string {
    if s != [] && IsSpace(s[|s| - 1]) then StripEnd(s[..|s| - 1]) else s
  }

  /** `str.strip()`. */
  function Strip(s: string): string {
    StripEnd(StripStart(s))
  }

  /** `lstrip()` keeps a suffix, drops only whitespace, and stops at the first non-whitespace character. */
  lemma {:induction false} StripStartSpec(s: string)
    ensures var r := StripStart(s);
      && |r| <= |s| && r == s[|s| - |r|..]
      && (forall i :: 0 <= i < |s| - |r| ==> IsSpace(s[i]))
      && (r != [] ==> !IsSpace(r[0]))
  {
    if s != [] && IsSpace(s[0]) {
      StripStartSpec(s[1..]);
    }
  }

  /** `rstrip()` keeps a prefix, drops only whitespace, and stops at the last non-whitespace character. */
  lemma {:induction false} StripEndSpec(s: string)
    ensures var r := StripEnd(s);
      && |r| <= |s| && r == s[..|r|]
      && (forall i :: |r| <= i < |s| ==> IsSpace(s[i]))
      && (r != [] ==> !IsSpace(r[|r| - 1]))
  {
    if s != [] && IsSpace(s[|s| - 1]) {
      StripEndSpec(s[..|s| - 1]);
    }
  }

  /**
   * What `strip()` returns is a slice of its input with no whitespace at
   * either end, and only whitespace was cut off on either side.
   */
  lemma StripSpec(s: string)
    ensures Trimmed(Strip(s))
    ensures exists i, j :: 0 <= i <= j <= |s| && Strip(s) == s[i..j] && AllSpace(s[..i]) && AllSpace(s[j..])
  {
    var t := StripStart(s);
    var r := StripEnd(t);
    StripStartSpec(s);
    StripEndSpec(t);
    var i := |s| - |t|;
    assert r == s[i..i + |r|];
    assert AllSpace(s[..i]) && AllSpace(s[i + |r|..]);
  }

  lemma {:induction false} StripStartKeeps(s: string, c: char)
    requires !IsSpace(c)
    ensures c in s <==> c in StripStart(s)
  {
    if s != [] && IsSpace(s[0]) {
      assert s == [s[0]] + s[1..];
      StripStartKeeps(s[1..], c);
    }
  }

  lemma {:induction false} StripEndKeeps(s: string, c: char)
    requires !IsSpace(c)
    ensures c in s <==> c in StripEnd(s)
  {
    if s != [] && IsSpace(s[|s| - 1]) {
      assert s == s[..|s| - 1] + [s[|s| - 1]];
      StripEndKeeps(s[..|s| - 1], c);
    }
  }

  /** `strip()` removes no character other than whitespace. */
  lemma StripKeeps(s: string, c: char)
    requires !IsSpace(c)
    ensures c in s <==> c in Strip(s)
  {
    StripStartKeeps(s, c);
    StripEndKeeps(StripStart(s), c);
  }

  lemma {:induction false} StripStartPadded(pad: string, x: string)
    requires AllSpace(pad) && (x == [] || !IsSpace(x[0]))
    ensures StripStart(pad + x) == x
  {
    if pad != [] {
      assert (pad + x)[1..] == pad[1..] + x;
      StripStartPadded(pad[1..], x);
    } else {
      assert pad + x == x;
    }
  }

  lemma {:induction false} StripEndPadded(x: string, pad: string)
    requires AllSpace(pad) && (x == [] || !IsSpace(x[|x| - 1]))
    ensures StripEnd(x + pad) == x
  {
    if pad != [] {
      assert (x + pad)[..|x + pad| - 1] == x + pad[..|pad| - 1];
      StripEndPadded(x, pad[..|pad| - 1]);
    } else {
      assert x + pad == x;
    }
  }

  /** Whitespace around a text with no whitespace at its ends is exactly what `strip()` removes. */
  lemma StripPadded(left: string, x: string, right: string)
    requires AllSpace(left) && AllSpace(right) && x != [] && Trimmed(x)
    ensures Strip(left + x + right) == x
  {
    assert left + x + right == left + (x + right);
    StripStartPadded(left, x + right);
    StripEndPadded(x, right);
  }

  /** `strip()` is idempotent, and leaves an already trimmed text alone. */
  lemma StripOfTrimmed(s: string)
    requires Trimmed(s)
    ensures Strip(s) == s
  {
    if s != [] {
      assert [] + s + [] == s;
      StripPadded([], s, []);
    }
  }

  /**
   * `s.split(sep, 1)` when `sep in s`: the text before the first `sep` and the
   * text after it; `None` when `sep` does not occur.
   */
  function SplitFirst(s: string, sep: char): Option<(string, string)> {
    if s == [] then None
    else if s[0] == sep then Some(([], s[1..]))
    else
      var rest := SplitFirst(s[1..], sep);
      if rest.None? then None else Some(([s[0]] + rest.value.0, rest.value.1))
  }

  /** No split exactly when there is no separator; a split puts back together to `s`, at a first separator. */
  lemma {:induction false} SplitFirstSpec(s: string, sep: char)
    ensures SplitFirst(s, sep).None? <==> sep !in s
    ensures var r := SplitFirst(s, sep);
      r.Some? ==> s == r.value.0 + [sep] + r.value.1 && sep !in r.value.0
  {
    if s != [] && s[0] != sep {
      SplitFirstSpec(s[1..], sep);
      assert s == [s[0]] + s[1..];
    }
  }

  /** The split is at the FIRST separator: any decomposition with no separator before it is the one found. */
  lemma SplitFirstUnique(a: string, sep: char, b: string)
    requires sep !in a
    ensures SplitFirst(a + [sep] + b, sep) == Some((a, b))
  {
    var s := a + [sep] + b;
    var r := SplitFirst(s, sep);
    SplitFirstSpec(s, sep);
    assert s[|a|] == sep;
    var (a', b') := r.value;
    assert forall i :: 0 <= i < |a| ==> s[i] != sep;
    assert forall i :: 0 <= i < |a'| ==> s[i] != sep;
    assert s[|a'|] == sep;
    assert a' == s[..|a|] == a;
    assert b' == s[|a| + 1..] == b;
  }

  predicate StartsWith(s: string, prefix: string) {
    |prefix| <= |s| && s[..|prefix|] == prefix
  }

  /** `pat` occurs in `s` at index `i`. */
  predicate OccursAt(s: string, pat: string, i: int) {
    0 <= i && i + |pat| <= |s| && s[i..i + |pat|] == pat
  }

  /** Python's `pat in s`. */
  predicate Contains(s: string, pat: string) {
    exists i | 0 <= i <= |s| - |pat| :: OccursAt(s, pat, i)
  }

  /** `s.replace(pat, rep)`: every occurrence, leftmost first, without overlaps. */
  function ReplaceAll(s: string, pat: string, rep: string): string
    requires pat != []
    decreases |s|
  {
    if s == [] then []
    else if StartsWith(s, pat) then rep + ReplaceAll(s[|pat|..], pat, rep)
    else [s[0]] + ReplaceAll(s[1..], pat, rep)
  }

  /** Replacing by a text of the same length keeps the length. */
  lemma {:induction false} ReplaceAllLength(s: string, pat: string, rep: string)
    requires pat != [] && |rep| == |pat|
    ensures |ReplaceAll(s, pat, rep)| == |s|
    decreases |s|
  {
    if s == [] {
    } else if StartsWith(s, pat) {
      ReplaceAllLength(s[|pat|..], pat, rep);
    } else {
      ReplaceAllLength(s[1..], pat, rep);
    }
  }

  /** Without an occurrence of the pattern the text is returned unchanged. */
  lemma {:induction false} ReplaceAllAbsent(s: string, pat: string, rep: string)
    requires pat != [] && !Contains(s, pat)
    ensures ReplaceAll(s, pat, rep) == s
    decreases |s|
  {
    if s != [] {
      assert !OccursAt(s, pat, 0);
      forall i | OccursAt(s[1..], pat, i) ensures false {
        assert s[1..][i..i + |pat|] == s[i + 1..i + 1 + |pat|];
        assert OccursAt(s, pat, i + 1);
      }
      ReplaceAllAbsent(s[1..], pat, rep);
    }
  }

  /**
   * As long as the output shows no first character of the replacement, it is
   * a verbatim copy of the input.
   */
  lemma {:induction false} ReplaceAllPrefixCopied(t: string, pat: string, rep: string, k: nat)
    requires pat != [] && rep != []
    requires k <= |ReplaceAll(t, pat, rep)|
    requires forall j :: 0 <= j < k ==> ReplaceAll(t, pat, rep)[j] != rep[0]
    ensures k <= |t| && ReplaceAll(t, pat, rep)[..k] == t[..k]
    decreases |t|
  {
    var r := ReplaceAll(t, pat, rep);
    if k > 0 {
      assert r[0] != rep[0];
    }
    if t == [] || k == 0 {
    } else if !StartsWith(t, pat) {
      var r' := ReplaceAll(t[1..], pat, rep);
      assert r == [t[0]] + r';
      forall j | 0 <= j < k - 1 ensures r'[j] != rep[0] {
        assert r'[j] == r[j + 1];
      }
      ReplaceAllPrefixCopied(t[1..], pat, rep, k - 1);
      assert r[..k] == [t[0]] + r'[..k - 1];
      assert t[..k] == [t[0]] + t[1..][..k - 1];
    }
  }

  /**
   * When no occurrence of the pattern can start inside the replacement and
   * none can run into it, the result holds no occurrence of the pattern.
   */
  lemma {:induction false} ReplaceAllRemoves(s: string, pat: string, rep: string)
    requires pat != [] && rep != []
    requires pat[0] !in rep && rep[0] !in pat
    ensures !Contains(ReplaceAll(s, pat, rep), pat)
    decreases |s|
  {
    var r := ReplaceAll(s, pat, rep);
    if s == [] {
      assert r == [];
      forall i | OccursAt(r, pat, i) ensures false { }
    } else if StartsWith(s, pat) {
      var r' := ReplaceAll(s[|pat|..], pat, rep);
      assert r == rep + r';
      ReplaceAllRemoves(s[|pat|..], pat, rep);
      forall i | OccursAt(r, pat, i) ensures false {
        if |rep| <= i {
          assert r[i..i + |pat|] == r'[i - |rep|..i - |rep| + |pat|];
          assert OccursAt(r', pat, i - |rep|);
        }
      }
    } else {
      var r' := ReplaceAll(s[1..], pat, rep);
      assert r == [s[0]] + r';
      ReplaceAllRemoves(s[1..], pat, rep);
      forall i | OccursAt(r, pat, i) ensures false {
        if i == 0 {
          var k := |pat| - 1;
          assert r'[..k] == pat[1..] by {
            assert r[..|pat|] == pat;
            assert r[..|pat|] == [s[0]] + r'[..k];
          }
          forall j | 0 <= j < k ensures r'[j] != rep[0] {
            assert r'[j] == pat[1..][j] == pat[j + 1];
          }
          ReplaceAllPrefixCopied(s[1..], pat, rep, k);
        } else {
          assert r[i..i + |pat|] == r'[i - 1..i - 1 + |pat|];
          assert OccursAt(r', pat, i - 1);
        }
      }
    }
  }

  /** Python's `str.lower()` restricted to ASCII letters. */
  function LowerChar(c: char): char {
    if 'A' <= c <= 'Z' then (c as int + 32) as char else c
  }

  function Lower(s: string): (r: string)
    ensures |r| == |s|
  {
    seq(|s|, i requires 0 <= i < |s| => LowerChar(s[i]))
  }

  predicate IsLowerWord(w: string) {
    forall i :: 0 <= i < |w| ==> 'a' <= w[i] <= 'z'
  }

  /** `s` spells `w` with any mix of upper- and lower-case letters. */
  predicate SpellsIgnoringCase(s: string, w: string) {
    |s| == |w| && forall i :: 0 <= i < |s| ==> s[i] == w[i] || s[i] as int == w[i] as int - 32
  }

  /** Lowercasing yields a lower-case word exactly when the text spells it in any case. */
  lemma LowerEqualsIff(s: string, w: string)
    requires IsLowerWord(w)
    ensures Lower(s) == w <==> SpellsIgnoringCase(s, w)
  {
    if Lower(s) == w {
      forall i | 0 <= i < |s| ensures s[i] == w[i] || s[i] as int == w[i] as int - 32 {
        assert LowerChar(s[i]) == w[i];
      }
    }
    if SpellsIgnoringCase(s, w) {
      forall i | 0 <= i < |s| ensures Lower(s)[i] == w[i] {
        assert LowerChar(s[i]) == w[i];
      }
    }
  }
}
