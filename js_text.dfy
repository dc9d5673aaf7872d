/**
  The two string primitives the create-poll form relies on, as ECMAScript
  defines them: `String.prototype.trim` (the TrimString operation of
  ECMA-262, which strips WhiteSpace and LineTerminator code points from both
  ends) and `.length` (the number of UTF-16 code units).

  Strings are Dafny strings, i.e. sequences of Unicode scalar values.
 */
module JsText {

  /** A WhiteSpace or LineTerminator code point of ECMA-262: TAB, VT, FF,
      ZWNBSP, every code point of Unicode category Zs, LF, CR, LS and PS. */
  predicate IsTrimmable(c: char) {
    // WhiteSpace outside category Zs
    || c == '\t' || c == '\U{000B}' || c == '\U{000C}' || c == '\U{FEFF}'
    // category Zs (Space_Separator)
    || c == ' ' || c == '\U{00A0}' || c == '\U{1680}'
    || ('\U{2000}' <= c <= '\U{200A}')
    || c == '\U{202F}' || c == '\U{205F}' || c == '\U{3000}'
    // LineTerminator
    || c == '\n' || c == '\r' || c == '\U{2028}' || c == '\U{2029}'
  }

  /** Every code point of `s` would be stripped by trim. */
  predicate AllTrimmable(s: string) {
    forall i :: 0 <= i < |s| ==> IsTrimmable(s[i])
  }

  /** `s` neither starts nor ends with a trimmable code point. */
  predicate IsTrimmed(s: string) {
    s == [] || (!IsTrimmable(s[0]) && !IsTrimmable(s[|s| - 1]))
  }

  /** Drops the longest trimmable prefix. */
  function TrimStart(s: string): string {
    if s != [] && IsTrimmable(s[0]) then TrimStart(s[1..]) else s
  }

  /** Drops the longest trimmable suffix. */
  function TrimEnd(s: string): string {
    if s != [] && IsTrimmable(s[|s| - 1]) then TrimEnd(s[..|s| - 1]) else s
  }

  /** TrimStart keeps a suffix of `s`, cuts only trimmable code points, and
      stops at the first code point that is not trimmable. */
  lemma {:induction false} TrimStartSpec(s: string)
    ensures var r := TrimStart(s);
            && |r| <= |s| && r == s[|s| - |r|..]
            && AllTrimmable(s[..|s| - |r|])
            && (r == [] || !IsTrimmable(r[0]))
  {
    if s != [] && IsTrimmable(s[0]) {
      TrimStartSpec(s[1..]);
      var r := TrimStart(s);
      assert s[..|s| - |r|] == [s[0]] + s[1..][..|s| - 1 - |r|];
    }
  }

  /** TrimEnd keeps a prefix of `s`, cuts only trimmable code points, and
      stops at the last code point that is not trimmable. */
  lemma {:induction false} TrimEndSpec(s: string)
    ensures var r := TrimEnd(s);
            && |r| <= |s| && r == s[..|r|]
            && AllTrimmable(s[|r|..])
            && (r == [] || !IsTrimmable(r[|r| - 1]))
  {
    if s != [] && IsTrimmable(s[|s| - 1]) {
      var n := |s| - 1;
      TrimEndSpec(s[..n]);
      var r := TrimEnd(s);
      assert s[|r|..] == s[..n][|r|..] + [s[n]];
    }
  }

  /** `String.prototype.trim`: strips trimmable code points from both ends,
      so the result neither starts nor ends with one. */
  function Trim(s: string): (r: string)
    ensures IsTrimmed(r)
    ensures |r| <= |s|
  {
    TrimStartSpec(s);
    TrimEndSpec(TrimStart(s));
    TrimEnd(TrimStart(s))
  }

  /** What Trim removes: the result is a contiguous slice of `s`, and
      everything cut away on either side is trimmable. */
  lemma TrimIsSlice(s: string)
    ensures exists i :: 0 <= i <= |s| - |Trim(s)| && Trim(s) == s[i..i + |Trim(s)|]
                        && AllTrimmable(s[..i]) && AllTrimmable(s[i + |Trim(s)|..])
  {
    var t := TrimStart(s);
    var r := TrimEnd(t);
    TrimStartSpec(s);
    TrimEndSpec(t);
    var i := |s| - |t|;
    assert r == s[i..i + |r|];
    assert s[i + |r|..] == t[|r|..];
  }

  /** A trimmable prefix does not change what TrimStart leaves. */
  lemma {:induction false} TrimStartSkips(p: string, rest: string)
    requires AllTrimmable(p)
    ensures TrimStart(p + rest) == TrimStart(rest)
  {
    if p != [] {
      assert (p + rest)[0] == p[0];
      assert (p + rest)[1..] == p[1..] + rest;
      assert AllTrimmable(p[1..]) by {
        forall i | 0 <= i < |p| - 1 ensures IsTrimmable(p[1..][i]) {
          assert p[1..][i] == p[i + 1];
        }
      }
      TrimStartSkips(p[1..], rest);
    } else {
      assert p + rest == rest;
    }
  }

  /** A trimmable suffix does not change what TrimEnd leaves. */
  lemma {:induction false} TrimEndSkips(rest: string, q: string)
    requires AllTrimmable(q)
    ensures TrimEnd(rest + q) == TrimEnd(rest)
  {
    if q != [] {
      var n := |rest + q|;
      assert (rest + q)[n - 1] == q[|q| - 1];
      assert (rest + q)[..n - 1] == rest + q[..|q| - 1];
      assert AllTrimmable(q[..|q| - 1]) by {
        forall i | 0 <= i < |q| - 1 ensures IsTrimmable(q[i]) { }
      }
      TrimEndSkips(rest, q[..|q| - 1]);
    } else {
      assert rest + q == rest;
    }
  }

  /** Trim is determined by its contract: whenever `s` splits into a
      trimmable prefix, a trimmed middle and a trimmable suffix, trimming `s`
      yields exactly that middle. */
  lemma TrimUnique(p: string, t: string, q: string)
    requires AllTrimmable(p) && AllTrimmable(q) && IsTrimmed(t)
    ensures Trim(p + t + q) == t
  {
    assert p + t + q == p + (t + q);
    TrimStartSkips(p, t + q);
    if t == [] {
      assert t + q == q + [];
      TrimStartSkips(q, []);
      assert TrimStart(p + t + q) == [];
    } else {
      assert (t + q)[0] == t[0];
      assert TrimStart(p + t + q) == t + q;
      TrimEndSkips(t, q);
    }
  }

  /** A string without leading or trailing whitespace is its own trim. */
  lemma TrimOfTrimmed(s: string)
    requires IsTrimmed(s)
    ensures Trim(s) == s
  {
    // Neither end is trimmable, so both strip steps stop at once.
  }

  /** Trimming twice is trimming once. */
  lemma TrimIdempotent(s: string)
    ensures Trim(Trim(s)) == Trim(s)
  {
    TrimOfTrimmed(Trim(s));
  }

  /** Trim yields the empty string exactly for all-whitespace input. */
  lemma TrimEmptyIff(s: string)
    ensures Trim(s) == [] <==> AllTrimmable(s)
  {
    if AllTrimmable(s) {
      assert s + [] + [] == s;
      TrimUnique(s, [], []);
    }
    if Trim(s) == [] {
      TrimIsSlice(s);
      var i :| 0 <= i <= |s| && AllTrimmable(s[..i]) && AllTrimmable(s[i..]);
      forall k | 0 <= k < |s| ensures IsTrimmable(s[k]) {
        if k < i {
          assert s[..i][k] == s[k];
        } else {
          assert s[i..][k - i] == s[k];
        }
      }
    }
  }

  /** How many UTF-16 code units encode `c`: two for a supplementary code
      point, which JavaScript stores as a surrogate pair. */
  function CodeUnits(c: char): nat {
    if c as int < 0x1_0000 then 1 else 2
  }

  /** JavaScript's `.length` of a string: its UTF-16 code-unit count. A
      single code point counts one unit in the Basic Multilingual Plane and
      two (a surrogate pair) above it; together with JsLengthAppend this
      fixes the count of every string. */
  function JsLength(s: string): (n: nat)
    ensures |s| <= n <= 2 * |s|
    ensures |s| == 1 ==> n == (if s[0] as int < 0x1_0000 then 1 else 2)
    ensures (forall i :: 0 <= i < |s| ==> s[i] as int < 0x1_0000) ==> n == |s|
    ensures n == 0 <==> s == []
  {
    if s == [] then 0 else CodeUnits(s[0]) + JsLength(s[1..])
  }

  /** The code-unit count of a concatenation is the sum of the counts. */
  lemma {:induction false} JsLengthAppend(a: string, b: string)
    ensures JsLength(a + b) == JsLength(a) + JsLength(b)
  {
    if a != [] {
      assert (a + b)[0] == a[0];
      assert (a + b)[1..] == a[1..] + b;
      JsLengthAppend(a[1..], b);
    } else {
      assert a + b == b;
    }
  }

  /** Three supplementary code points are three characters but six code
      units, so `.length` sees a string long enough for a five-unit minimum. */
  lemma JsLengthSupplementaryExample()
    ensures JsLength("\U{1F600}\U{1F600}\U{1F600}") == 6
  {
    // Each of the three code points lies above U+FFFF and counts two units.
  }
}
