/** The JavaScript string operations the roster builder relies on, over
    `seq<char>`: case mapping (ASCII letters only), `trim`, `includes`, and a
    plain lexicographic comparison that stands in for `localeCompare`. */
module Strings {

  /** The ECMAScript WhiteSpace and LineTerminator code points: what `trim` removes. */
  predicate IsSpace(c: char) {
    || c == '\t' || c == '\n' || c == '\U{B}' || c == '\U{C}' || c == '\r' || c == ' '
    || c == '\U{A0}' || c == '\U{1680}' || '\U{2000}' <= c <= '\U{200A}'
    || c == '\U{2028}' || c == '\U{2029}' || c == '\U{202F}' || c == '\U{205F}'
    || c == '\U{3000}' || c == '\U{FEFF}'
  }

  predicate AllSpace(s: string) {
    forall i :: 0 <= i < |s| ==> IsSpace(s[i])
  }

  /** No whitespace at either end. */
  predicate IsTrimmed(s: string) {
    s == [] || (!IsSpace(s[0]) && !IsSpace(s[|s| - 1]))
  }

  function LowerChar(c: char): char {
    if 'A' <= c <= 'Z' then (c as int + 32) as char else c
  }

  function UpperChar(c: char): char {
    if 'a' <= c <= 'z' then (c as int - 32) as char else c
  }

  /** `toLowerCase`, on ASCII letters. */
  function Lower(s: string): (r: string)
    ensures |r| == |s|
    ensures forall i :: 0 <= i < |s| ==> r[i] == LowerChar(s[i])
  {
    if s == [] then [] else [LowerChar(s[0])] + Lower(s[1..])
  }

  /** `toUpperCase`, on ASCII letters. */
  function Upper(s: string): (r: string)
    ensures |r| == |s|
    ensures forall i :: 0 <= i < |s| ==> r[i] == UpperChar(s[i])
  {
    if s == [] then [] else [UpperChar(s[0])] + Upper(s[1..])
  }

  /** `t` occurs in `s` at offset `i`. */
  predicate OccursAt(s: string, t: string, i: int) {
    0 <= i <= |s| - |t| && s[i..i + |t|] == t
  }

  /** `s.includes(t)`: `t` occurs in `s` at some offset. */
  predicate Contains(s: string, t: string) {
    exists i | 0 <= i <= |s| - |t| :: OccursAt(s, t, i)
  }

  function TrimStart(s: string): string
    decreases |s|
  {
    if |s| > 0 && IsSpace(s[0]) then TrimStart(s[1..]) else s
  }

  function TrimEnd(s: string): string {
    if |s| > 0 && IsSpace(s[|s| - 1]) then TrimEnd(s[..|s| - 1]) else s
  }

  /** `trim`: drop leading and trailing whitespace (see TrimSpec). */
  function Trim(s: string): string {
    TrimEnd(TrimStart(s))
  }

  /** TrimStart drops exactly the leading whitespace. */
  lemma {:induction false} TrimStartSpec(s: string)
    ensures |TrimStart(s)| <= |s| && TrimStart(s) == s[|s| - |TrimStart(s)|..]
    ensures AllSpace(s[..|s| - |TrimStart(s)|])
    ensures TrimStart(s) == [] || !IsSpace(TrimStart(s)[0])
    decreases |s|
  {
    if |s| > 0 && IsSpace(s[0]) {
      TrimStartSpec(s[1..]);
      var r := TrimStart(s);
      assert s[..|s| - |r|] == [s[0]] + s[1..][..|s| - 1 - |r|];
    }
  }

  /** TrimEnd drops exactly the trailing whitespace. */
  lemma {:induction false} TrimEndSpec(s: string)
    ensures |TrimEnd(s)| <= |s| && TrimEnd(s) == s[..|TrimEnd(s)|]
    ensures AllSpace(s[|TrimEnd(s)|..])
    ensures TrimEnd(s) == [] || !IsSpace(TrimEnd(s)[|TrimEnd(s)| - 1])
  {
    if |s| > 0 && IsSpace(s[|s| - 1]) {
      TrimEndSpec(s[..|s| - 1]);
      var r := TrimEnd(s);
      assert s[|r|..] == s[..|s| - 1][|r|..] + [s[|s| - 1]];
    }
  }

  /** `r` sits at offset `i` of `s` with nothing but whitespace around it. */
  ghost predicate SpaceFramed(s: string, r: string, i: int) {
    OccursAt(s, r, i) && AllSpace(s[..i]) && AllSpace(s[i + |r|..])
  }

  /** The result of `trim` has no whitespace at its ends and is the infix of
      its argument left once the whitespace at both ends is dropped. */
  lemma TrimSpec(s: string)
    ensures IsTrimmed(Trim(s))
    ensures exists i :: SpaceFramed(s, Trim(s), i)
  {
    var t := TrimStart(s);
    var r := TrimEnd(t);
    TrimStartSpec(s);
    TrimEndSpec(t);
    var i := |s| - |t|;
    assert r == s[i..i + |r|];
    assert s[i + |r|..] == t[|r|..];
    assert SpaceFramed(s, r, i);
  }

  /** A string trims to nothing exactly when it is all whitespace. */
  lemma TrimEmpty(s: string)
    ensures Trim(s) == [] <==> AllSpace(s)
  {
    var t := TrimStart(s);
    TrimStartSpec(s);
    TrimEndSpec(t);
    if Trim(s) == [] {
      assert s == s[..|s| - |t|] + t;
      assert AllSpace(t[0..]);
    }
  }

  /** Trimming a string without whitespace at its ends changes nothing. */
  lemma TrimTrimmed(s: string)
    requires IsTrimmed(s)
    ensures Trim(s) == s
  {
    assert TrimStart(s) == s;
  }

  /** Upper-casing touches letters only, so it keeps a string trimmed. */
  lemma UpperKeepsTrimmed(s: string)
    requires IsTrimmed(s)
    ensures IsTrimmed(Upper(s))
  {
  }

  lemma UpperIdempotent(s: string)
    ensures Upper(Upper(s)) == Upper(s)
  {
  }

  predicate IsDigits(t: string) {
    forall i :: 0 <= i < |t| ==> '0' <= t[i] <= '9'
  }

  /** A needle made of digits occurs in the upper-cased string exactly where it
      occurs in the original one. */
  lemma {:induction false} UpperKeepsDigits(s: string, t: string)
    requires IsDigits(t)
    ensures Contains(Upper(s), t) <==> Contains(s, t)
  {
    var u := Upper(s);
    forall i | 0 <= i <= |s| - |t|
      ensures OccursAt(u, t, i) <==> OccursAt(s, t, i)
    {
      if OccursAt(u, t, i) {
        forall k | 0 <= k < |t| ensures s[i + k] == t[k] {
          assert u[i + k] == t[k];
        }
        assert s[i..i + |t|] == t;
      }
    }
  }

  /** Lexicographic order by code point, as -1, 0 or 1; the model's stand-in for
      `localeCompare`. */
  function LexCompare(a: string, b: string): (r: int)
    ensures -1 <= r <= 1
    ensures r == 0 <==> a == b
  {
    if a == [] then (if b == [] then 0 else -1)
    else if b == [] then 1
    else if a[0] < b[0] then -1
    else if a[0] > b[0] then 1
    else
      assert a == [a[0]] + a[1..] && b == [b[0]] + b[1..];
      LexCompare(a[1..], b[1..])
  }

  lemma {:induction false} LexCompareAntisymmetric(a: string, b: string)
    ensures LexCompare(a, b) == -LexCompare(b, a)
  {
    if a != [] && b != [] && a[0] == b[0] {
      LexCompareAntisymmetric(a[1..], b[1..]);
    }
  }

  lemma {:induction false} LexCompareTransitive(a: string, b: string, c: string)
    requires LexCompare(a, b) <= 0 && LexCompare(b, c) <= 0
    ensures LexCompare(a, c) <= 0
  {
    if a != [] && b != [] && c != [] && a[0] == b[0] == c[0] {
      LexCompareTransitive(a[1..], b[1..], c[1..]);
    }
  }

  predicate NoSpace(t: string) {
    forall k :: 0 <= k < |t| ==> !IsSpace(t[k])
  }

  /** A needle without whitespace cannot overlap the whitespace framing `v`
      inside `u`, so it occurs in `u` exactly when it occurs in `v`. */
  lemma {:induction false} ContainsFramed(u: string, v: string, i: int, t: string)
    requires SpaceFramed(u, v, i)
    requires t != [] && NoSpace(t)
    ensures Contains(u, t) <==> Contains(v, t)
  {
    if Contains(v, t) {
      var p :| 0 <= p <= |v| - |t| && OccursAt(v, t, p);
      assert v == u[i..i + |v|];
      forall k | 0 <= k < |t| ensures u[i + p + k] == t[k] {
        assert v[p + k] == t[k];
      }
      assert u[i + p..i + p + |t|] == t;
      assert OccursAt(u, t, i + p);
    }
    if Contains(u, t) {
      var p :| 0 <= p <= |u| - |t| && OccursAt(u, t, p);
      assert u[p] == t[0];
      assert u[p + |t| - 1] == t[|t| - 1];
      assert v == u[i..i + |v|];
      forall k | 0 <= k < |t| ensures v[p - i + k] == t[k] {
        assert u[p + k] == t[k];
      }
      assert v[p - i..p - i + |t|] == t;
      assert OccursAt(v, t, p - i);
    }
  }

  /** Upper-casing an infix framed by whitespace gives the same infix of the
      upper-cased string, still framed by whitespace. */
  lemma UpperFramed(s: string, r: string, i: int)
    requires SpaceFramed(s, r, i)
    ensures SpaceFramed(Upper(s), Upper(r), i)
  {
    var u := Upper(s);
    assert r == s[i..i + |r|];
    assert u[i..i + |r|] == Upper(r);
    forall k | 0 <= k < i ensures IsSpace(u[..i][k]) {
      assert s[..i][k] == s[k];
    }
    var w := u[i + |r|..];
    forall k | 0 <= k < |w| ensures IsSpace(w[k]) {
      assert s[i + |r|..][k] == s[i + |r| + k];
    }
  }
}
