/**
 * The pieces of Rust's `str`/`char` API the engine relies on, restricted to
 * ASCII: case tests and conversions, decimal digits, `format!("{}", n)` for
 * naturals and `str::replace`.
 */
module Text {

  predicate IsUpper(c: char) { 'A' <= c <= 'Z' }

  predicate IsLower(c: char) { 'a' <= c <= 'z' }

  predicate IsDigit(c: char) { '0' <= c <= '9' }

  function ToUpper(c: char): (u: char)
    ensures IsLower(c) ==> IsUpper(u) && ToLower(u) == c
    ensures !IsLower(c) ==> u == c
  {
    if IsLower(c) then (c as int - 32) as char else c
  }

  function ToLower(c: char): (l: char)
    ensures IsUpper(c) ==> IsLower(l)
    ensures !IsUpper(c) ==> l == c
  {
    if IsUpper(c) then (c as int + 32) as char else c
  }

  /** `str::to_uppercase` on ASCII text. */
  function UpperStr(s: string): (u: string)
    ensures |u| == |s|
    ensures forall i :: 0 <= i < |s| ==> u[i] == ToUpper(s[i])
  {
    seq(|s|, i requires 0 <= i < |s| => ToUpper(s[i]))
  }

  /** `str::to_lowercase` on ASCII text. */
  function LowerStr(s: string): (l: string)
    ensures |l| == |s|
    ensures forall i :: 0 <= i < |s| ==> l[i] == ToLower(s[i])
  {
    seq(|s|, i requires 0 <= i < |s| => ToLower(s[i]))
  }

  function DigitValue(c: char): (d: nat)
    requires IsDigit(c)
    ensures d < 10 && DigitChar(d) == c
  {
    c as int - '0' as int
  }

  function DigitChar(d: nat): (c: char)
    requires d < 10
    ensures IsDigit(c)
  {
    ('0' as int + d) as char
  }

  /** Decimal rendering of a natural number, as `format!("{}", n)` gives it. */
  function NatToString(n: nat): (s: string)
    ensures |s| > 0
    ensures forall i :: 0 <= i < |s| ==> IsDigit(s[i])
    decreases n
  {
    if n < 10 then [DigitChar(n)] else NatToString(n / 10) + [DigitChar(n % 10)]
  }

  /** Reads a string of decimal digits back as a number. */
  function ParseDigits(s: string): nat
    requires forall i :: 0 <= i < |s| ==> IsDigit(s[i])
  {
    if s == [] then 0 else 10 * ParseDigits(s[..|s| - 1]) + DigitValue(s[|s| - 1])
  }

  /** `NatToString` loses nothing: reading its digits back gives the number. */
  lemma {:induction false} ParseNatToString(n: nat)
    ensures ParseDigits(NatToString(n)) == n
    decreases n
  {
    var s := NatToString(n);
    if n >= 10 {
      ParseNatToString(n / 10);
      assert s[..|s| - 1] == NatToString(n / 10);
    }
  }

  lemma NatToStringInjective(m: nat, n: nat)
    requires NatToString(m) == NatToString(n)
    ensures m == n
  {
    ParseNatToString(m);
    ParseNatToString(n);
  }

  /** A slice of a slice is a slice of the original. */
  lemma SliceOfSlice(s: string, a: nat, b: nat, c: nat, d: nat)
    requires a <= b <= |s| && c <= d <= b - a
    ensures s[a..b][c..d] == s[a + c..a + d]
  {
    var t := s[a..b][c..d];
    forall j | 0 <= j < d - c ensures t[j] == s[a + c + j] {
      assert t[j] == s[a..b][c + j];
    }
  }

  lemma SliceSplit(s: string, a: nat, m: nat, b: nat)
    requires a <= m <= b <= |s|
    ensures s[a..b] == s[a..m] + s[m..b]
  {
  }

  predicate StartsWith(s: string, p: string) {
    |p| <= |s| && s[..|p|] == p
  }

  predicate OccursAt(s: string, p: string, i: nat) {
    i + |p| <= |s| && s[i..i + |p|] == p
  }

  predicate Contains(s: string, p: string) {
    exists i: nat | i <= |s| :: OccursAt(s, p, i)
  }

  /**
   * `str::replace(p, r)`: every occurrence of `p`, found left to right without
   * overlap, is replaced by `r`.
   */
  function ReplaceAll(s: string, p: string, r: string): string
    requires |p| > 0
    decreases |s|
  {
    if |s| < |p| then s
    else if s[..|p|] == p then r + ReplaceAll(s[|p|..], p, r)
    else [s[0]] + ReplaceAll(s[1..], p, r)
  }

  /** Text without an occurrence of the pattern is left as it is. */
  lemma {:induction false} ReplaceAbsent(s: string, p: string, r: string)
    requires |p| > 0
    requires !Contains(s, p)
    ensures ReplaceAll(s, p, r) == s
    decreases |s|
  {
    if |s| >= |p| {
      assert !OccursAt(s, p, 0);
      forall i: nat | i <= |s[1..]| ensures !OccursAt(s[1..], p, i) {
        if OccursAt(s[1..], p, i) {
          assert s[i + 1..i + 1 + |p|] == s[1..][i..i + |p|];
          assert OccursAt(s, p, i + 1);
        }
      }
      ReplaceAbsent(s[1..], p, r);
    }
  }

  /** An occurrence at the very start is the first one replaced. */
  lemma ReplaceAtFront(p: string, s: string, r: string)
    requires |p| > 0
    ensures ReplaceAll(p + s, p, r) == r + ReplaceAll(s, p, r)
  {
    assert (p + s)[..|p|] == p;
    assert (p + s)[|p|..] == s;
  }

  /** `s` has neither parenthesis. */
  predicate NoParens(s: string) {
    forall i :: 0 <= i < |s| ==> s[i] != '(' && s[i] != ')'
  }

  /** A text without `q` has no `q` in any suffix either. */
  lemma NotContainsSuffix(s: string, q: string, k: nat)
    requires k <= |s| && !Contains(s, q)
    ensures !Contains(s[k..], q)
  {
    forall i: nat | i <= |s[k..]| ensures !OccursAt(s[k..], q, i) {
      assert !OccursAt(s, q, i + k);
      if i + |q| <= |s[k..]| {
        assert s[k..][i..i + |q|] == s[i + k..i + k + |q|];
      }
    }
  }

  /**
   * When a replacement by the parenthesis-free `r` yields a text starting
   * with `w`, a word that ends in ")" and is no longer than `r`, the input
   * starts with `w` too: that ")" cannot come from `r`.
   */
  lemma {:induction false} ReplacedPrefix(t: string, p: string, r: string, w: string)
    requires |p| > 0 && NoParens(r) && 0 < |w| <= |r| && w[|w| - 1] == ')'
    ensures OccursAt(ReplaceAll(t, p, r), w, 0) ==> OccursAt(t, w, 0)
    decreases |t|
  {
    if |t| >= |p| {
      var out := ReplaceAll(t, p, r);
      if t[..|p|] == p {
        assert out == r + ReplaceAll(t[|p|..], p, r);
        assert out[|w| - 1] == r[|w| - 1] != ')';
      } else if |w| > 1 {
        var rest := ReplaceAll(t[1..], p, r);
        ReplacedPrefix(t[1..], p, r, w[1..]);
        assert out == [t[0]] + rest;
        OccursFront(t[0], rest, w);
        OccursFront(t[0], t[1..], w);
        assert t == [t[0]] + t[1..];
      }
    }
  }

  /** Past a prefix `h`, occurrences in `h + tail` are those of `tail`, shifted. */
  lemma OccursAfter(h: string, tail: string, q: string, i: nat)
    requires |h| <= i
    ensures OccursAt(h + tail, q, i) <==> OccursAt(tail, q, i - |h|)
  {
    if i + |q| <= |h + tail| {
      assert (h + tail)[i..i + |q|] == tail[i - |h|..i - |h| + |q|];
    }
  }

  /** `q` occurs at the front of `[c] + tail` iff it starts with `c` and `tail` starts with the rest of it. */
  lemma OccursFront(c: char, tail: string, q: string)
    requires |q| >= 1
    ensures OccursAt([c] + tail, q, 0) <==> c == q[0] && OccursAt(tail, q[1..], 0)
  {
    if |q| <= |[c] + tail| {
      assert ([c] + tail)[..|q|] == [c] + tail[..|q| - 1];
    }
  }

  /**
   * Replacing `p` by the parenthesis-free `r` brings in no occurrence of a
   * word `q` that opens with "(", closes with ")" and is at most one
   * character longer than `r`; when `q` is `p` itself, none is left.
   */
  lemma {:induction false} ReplaceLeavesNone(s: string, p: string, r: string, q: string)
    requires |p| > 0 && NoParens(r)
    requires 2 <= |q| <= |r| + 1 && q[0] == '(' && q[|q| - 1] == ')'
    requires q == p || !Contains(s, q)
    ensures !Contains(ReplaceAll(s, p, r), q)
    decreases |s|
  {
    var out := ReplaceAll(s, p, r);
    if |s| < |p| {
      forall i: nat | i <= |s| ensures !OccursAt(s, q, i) {
        if q != p {
          assert !OccursAt(s, q, i);
        }
      }
    } else if s[..|p|] == p {
      var rest := s[|p|..];
      if q != p {
        NotContainsSuffix(s, q, |p|);
      }
      ReplaceLeavesNone(rest, p, r, q);
      var tail := ReplaceAll(rest, p, r);
      assert out == r + tail;
      forall i: nat | i <= |out| ensures !OccursAt(out, q, i) {
        if i < |r| {
          assert out[i] == r[i];
        } else {
          OccursAfter(r, tail, q, i);
          assert !OccursAt(tail, q, i - |r|);
        }
      }
    } else {
      var rest := s[1..];
      if q != p {
        NotContainsSuffix(s, q, 1);
      }
      ReplaceLeavesNone(rest, p, r, q);
      var tail := ReplaceAll(rest, p, r);
      assert out == [s[0]] + tail;
      forall i: nat | i <= |out| ensures !OccursAt(out, q, i) {
        if i == 0 {
          OccursFront(s[0], tail, q);
          ReplacedPrefix(rest, p, r, q[1..]);
          OccursFront(s[0], rest, q);
          assert s == [s[0]] + rest;
          assert !OccursAt(s, q, 0);
        } else {
          OccursAfter([s[0]], tail, q, i);
          assert !OccursAt(tail, q, i - 1);
        }
      }
    }
  }

  /** `s` with every `c` taken out. */
  function RemoveChar(s: string, c: char): string {
    if s == [] then [] else (if s[0] == c then [] else [s[0]]) + RemoveChar(s[1..], c)
  }

  /** Replacing a one-character pattern by nothing removes that character. */
  lemma {:induction false} ReplaceSingleChar(s: string, c: char)
    ensures ReplaceAll(s, [c], "") == RemoveChar(s, c)
  {
    if s != [] {
      ReplaceSingleChar(s[1..], c);
    }
  }

  lemma {:induction false} RemoveCharAppend(a: string, b: string, c: char)
    ensures RemoveChar(a + b, c) == RemoveChar(a, c) + RemoveChar(b, c)
  {
    if a == [] {
      assert a + b == b;
    } else {
      assert (a + b)[1..] == a[1..] + b;
      RemoveCharAppend(a[1..], b, c);
    }
  }

  lemma {:induction false} RemoveCharAbsent(s: string, c: char)
    requires forall i :: 0 <= i < |s| ==> s[i] != c
    ensures RemoveChar(s, c) == s
  {
    if s != [] {
      RemoveCharAbsent(s[1..], c);
    }
  }

  /** `str::split(sep)`: the pieces between separators; no separator gives one piece. */
  function Split(s: string, sep: char): (parts: seq<string>)
    ensures |parts| >= 1
  {
    if s == [] then [[]]
    else if s[0] == sep then [[]] + Split(s[1..], sep)
    else
      var rest := Split(s[1..], sep);
      [[s[0]] + rest[0]] + rest[1..]
  }

  lemma {:induction false} SplitWithoutSeparator(s: string, sep: char)
    requires forall i :: 0 <= i < |s| ==> s[i] != sep
    ensures Split(s, sep) == [s]
  {
    if s != [] {
      SplitWithoutSeparator(s[1..], sep);
      assert [s[0]] + s[1..] == s;
    }
  }

  /** Two separator-free words joined by the separator split back into those words. */
  lemma {:induction false} SplitPair(a: string, b: string, sep: char)
    requires forall i :: 0 <= i < |a| ==> a[i] != sep
    requires forall i :: 0 <= i < |b| ==> b[i] != sep
    ensures Split(a + [sep] + b, sep) == [a, b]
  {
    if a == [] {
      assert a + [sep] + b == [sep] + b;
      assert ([sep] + b)[1..] == b;
      SplitWithoutSeparator(b, sep);
    } else {
      assert (a + [sep] + b)[1..] == a[1..] + [sep] + b;
      SplitPair(a[1..], b, sep);
      assert [a[0]] + a[1..] == a;
    }
  }
}
