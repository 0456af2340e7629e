/**
 * The string vocabulary the converter leans on: Python's `str.strip`, `str.split`,
 * `str.join`, substring search and `str(n)` for a natural number.
 */
module Text {
  import opened Wrappers

  /** The characters Python's `str.isspace()` accepts; `str.strip()` removes exactly these. */
  predicate IsSpace(c: char) {
    c == ' ' || c == '\t' || c == '\n' || c == '\r' || c == '\U{0B}' || c == '\U{0C}'
    || ('\U{1C}' <= c <= '\U{1F}') || c == '\U{85}' || c == '\U{A0}' || c == '\U{1680}'
    || ('\U{2000}' <= c <= '\U{200A}') || c == '\U{2028}' || c == '\U{2029}'
    || c == '\U{202F}' || c == '\U{205F}' || c == '\U{3000}'
  }

  predicate AllSpace(s: string) {
    forall i :: 0 <= i < |s| ==> IsSpace(s[i])
  }

  function StripLeft(s: string): (r: string)
    ensures |r| <= |s| && r == s[|s| - |r|..]
    ensures AllSpace(s[..|s| - |r|])
    ensures r == [] || !IsSpace(r[0])
  {
    if s != [] && IsSpace(s[0]) then
      var r := StripLeft(s[1..]);
      assert s[..|s| - |r|] == [s[0]] + s[1..][..|s| - 1 - |r|];
      r
    else s
  }

  function StripRight(s: string): (r: string)
    ensures |r| <= |s| && r == s[..|r|]
    ensures AllSpace(s[|r|..])
    ensures r == [] || !IsSpace(r[|r| - 1])
  {
    if s != [] && IsSpace(s[|s| - 1]) then
      var r := StripRight(s[..|s| - 1]);
      assert s[|r|..] == s[..|s| - 1][|r|..] + [s[|s| - 1]];
      r
    else s
  }

  /**
   * Python's `s.strip()`: the longest infix of `s` that neither begins nor ends with
   * whitespace, all of whose surroundings are whitespace.
   */
  function Strip(s: string): (r: string)
    ensures |r| <= |s|
    ensures r == [] || (!IsSpace(r[0]) && !IsSpace(r[|r| - 1]))
  {
    StripRight(StripLeft(s))
  }

  /** What `strip` removes from either end is whitespace, and what it keeps is an infix of `s`. */
  lemma StripInfix(s: string)
    ensures exists i, j :: 0 <= i <= j <= |s| && Strip(s) == s[i..j] && AllSpace(s[..i]) && AllSpace(s[j..])
  {
    var l := StripLeft(s);
    var r := StripRight(l);
    var i := |s| - |l|;
    assert r == s[i..i + |r|];
    assert s[i + |r|..] == l[|r|..];
  }

  /** A text that neither begins nor ends with whitespace is left alone by `strip`. */
  lemma StripTrimmed(s: string)
    requires s == [] || (!IsSpace(s[0]) && !IsSpace(s[|s| - 1]))
    ensures Strip(s) == s
  {
  }

  /** Two texts, the first trimmed and the second not ending in whitespace, stay trimmed together. */
  lemma StripTrimmedConcat(x: string, y: string)
    requires x != [] && !IsSpace(x[0]) && !IsSpace(x[|x| - 1])
    requires y == [] || !IsSpace(y[|y| - 1])
    ensures Strip(x + y) == x + y
  {
    var t := x + y;
    assert t[0] == x[0];
    if y == [] {
      assert t == x;
    } else {
      assert t[|t| - 1] == y[|y| - 1];
    }
    StripTrimmed(t);
  }

  /** Adjacent slices of `s` concatenate to the slice that spans both. */
  lemma SliceConcat(s: string, i: nat, j: nat, k: nat, x: string, y: string)
    requires i <= j <= k <= |s| && s[i..j] == x && s[j..k] == y
    ensures s[i..k] == x + y
  {
    assert s[i..k] == s[i..j] + s[j..k];
  }

  /** Putting a character in front of a concatenation. */
  lemma ConsConcat(c: char, x: string, y: string)
    ensures [c] + (x + y) == ([c] + x) + y
  {
  }

  lemma ConcatAssoc(x: string, y: string, z: string)
    ensures (x + y) + z == x + (y + z)
  {
  }

  /** `pat` occurs in `s` starting at index `i`. */
  predicate OccursAt(s: string, pat: string, i: int) {
    0 <= i && i + |pat| <= |s| && forall k :: 0 <= k < |pat| ==> s[i + k] == pat[k]
  }

  /** An occurrence is the slice of `s` at `i` being `pat`. */
  lemma OccursAtSlice(s: string, pat: string, i: int)
    ensures OccursAt(s, pat, i) <==> 0 <= i && i + |pat| <= |s| && s[i..i + |pat|] == pat
  {
    if 0 <= i && i + |pat| <= |s| && s[i..i + |pat|] == pat {
      forall k | 0 <= k < |pat| ensures s[i + k] == pat[k] {
        assert s[i..i + |pat|][k] == s[i + k];
      }
    }
  }

  /** Python's `pat in s`. */
  predicate Contains(s: string, pat: string) {
    exists i :: 0 <= i <= |s| - |pat| && OccursAt(s, pat, i)
  }

  predicate StartsWith(s: string, pat: string) {
    |pat| <= |s| && s[..|pat|] == pat
  }

  /** An occurrence inside a prefix of `s` is an occurrence in `s`. */
  lemma OccursInPrefix(s: string, pat: string, n: nat, i: int)
    requires n <= |s| && OccursAt(s[..n], pat, i)
    ensures OccursAt(s, pat, i)
  {
    if 0 <= i {
      forall k | 0 <= k < |pat| ensures s[i + k] == pat[k] {
        assert s[..n][i + k] == s[i + k];
      }
    }
  }

  /** An occurrence inside a slice is an occurrence in the slice, shifted by its start. */
  lemma OccursInSlice(s: string, pat: string, lo: nat, hi: nat, k: nat)
    requires lo <= k && k + |pat| <= hi <= |s| && OccursAt(s, pat, k)
    ensures OccursAt(s[lo..hi], pat, k - lo)
  {
    forall j | 0 <= j < |pat| ensures s[lo..hi][k - lo + j] == pat[j] {
      assert s[lo..hi][k - lo + j] == s[k + j];
    }
  }

  /** Where `p + q` occurs, `p` occurs. */
  lemma OccursPrefixOf(s: string, p: string, q: string, i: int)
    requires OccursAt(s, p + q, i)
    ensures OccursAt(s, p, i)
  {
    forall k | 0 <= k < |p| ensures s[i + k] == p[k] {
      assert (p + q)[k] == p[k];
    }
  }

  /** Occurrences in `s[1..]` are the occurrences in `s` shifted by one. */
  lemma OccursShift(s: string, pat: string, i: nat)
    requires s != []
    ensures OccursAt(s[1..], pat, i) <==> OccursAt(s, pat, i + 1)
  {
    if OccursAt(s[1..], pat, i) {
      forall k | 0 <= k < |pat| ensures s[i + 1 + k] == pat[k] {
        assert s[1..][i + k] == s[i + 1 + k];
      }
    }
    if OccursAt(s, pat, i + 1) {
      forall k | 0 <= k < |pat| ensures s[1..][i + k] == pat[k] {
        assert s[1..][i + k] == s[i + 1 + k];
      }
    }
  }

  /**
   * The first occurrence of `pat` in `s` at or after `from` (Python's `s.find(pat, from)`),
   * or None when there is none; `FindFromSpec` states this.
   */
  function FindFrom(s: string, pat: string, from: nat): (r: Option<nat>)
    decreases |s| - from
  {
    if from + |pat| > |s| then None
    else if OccursAt(s, pat, from) then Some(from)
    else FindFrom(s, pat, from + 1)
  }

  /** `FindFrom` reports the first occurrence at or after `from`, and None only when there is none. */
  lemma {:induction false} FindFromSpec(s: string, pat: string, from: nat)
    ensures var r := FindFrom(s, pat, from);
      && (r.Some? ==> from <= r.value && OccursAt(s, pat, r.value))
      && (r.Some? ==> forall k :: from <= k < r.value ==> !OccursAt(s, pat, k))
      && (r.None? ==> forall k :: from <= k ==> !OccursAt(s, pat, k))
    decreases |s| - from
  {
    if from + |pat| > |s| {
    } else if OccursAt(s, pat, from) {
    } else {
      FindFromSpec(s, pat, from + 1);
    }
  }

  /** What `FindFrom` reports is an occurrence at or after `from`. */
  lemma {:induction false} FindFromFound(s: string, pat: string, from: nat)
    requires FindFrom(s, pat, from).Some?
    ensures from <= FindFrom(s, pat, from).value && OccursAt(s, pat, FindFrom(s, pat, from).value)
    decreases |s| - from
  {
    if from + |pat| <= |s| && !OccursAt(s, pat, from) {
      FindFromFound(s, pat, from + 1);
    }
  }

  /** No occurrence lies between `from` and what `FindFrom` reports. */
  lemma FindFromFirst(s: string, pat: string, from: nat)
    requires FindFrom(s, pat, from).Some?
    ensures forall k :: from <= k < FindFrom(s, pat, from).value ==> !OccursAt(s, pat, k)
  {
    FindFromSpec(s, pat, from);
  }

  /** An occurrence at or after `from` means `FindFrom` reports one, no later than it. */
  lemma FindFromBefore(s: string, pat: string, from: nat, at: nat)
    requires from <= at && OccursAt(s, pat, at)
    ensures FindFrom(s, pat, from).Some? && FindFrom(s, pat, from).value <= at
  {
    FindFromSpec(s, pat, from);
  }

  /** An occurrence with none before it, from `from` on, is the one `FindFrom` reports. */
  lemma FindFromAt(s: string, pat: string, from: nat, at: nat)
    requires from <= at && OccursAt(s, pat, at)
    requires forall k :: from <= k < at ==> !OccursAt(s, pat, k)
    ensures FindFrom(s, pat, from) == Some(at)
  {
    FindFromSpec(s, pat, from);
  }

  /** Python's `sep.join(parts)`. */
  function Join(parts: seq<string>, sep: string): string {
    if parts == [] then []
    else if |parts| == 1 then parts[0]
    else parts[0] + sep + Join(parts[1..], sep)
  }

  /**
   * Python's `s.split(sep)` for a non-empty separator: cut at the leftmost occurrence,
   * then split what follows. The pieces join back to `s` and none contains `sep`.
   */
  function Split(s: string, sep: string): (r: seq<string>)
    requires sep != []
    ensures |r| >= 1
    ensures Join(r, sep) == s
    ensures forall k :: 0 <= k < |r| ==> !Contains(r[k], sep)
    decreases |s|
  {
    FindFromSpec(s, sep, 0);
    match FindFrom(s, sep, 0)
    case None => [s]
    case Some(i) =>
      var rest := Split(s[i + |sep|..], sep);
      assert s[..i] + sep + s[i + |sep|..] == s by {
        OccursAtSlice(s, sep, i);
      }
      forall j | OccursAt(s[..i], sep, j) ensures false {
        OccursInPrefix(s, sep, i, j);
      }
      [s[..i]] + rest
  }

  /**
   * A piece that `split` can produce before a separator: the first occurrence of `sep`
   * in `piece + sep` is the appended one.
   */
  predicate EndsAtSeparator(piece: string, sep: string) {
    forall j :: 0 <= j < |piece| ==> !OccursAt(piece + sep, sep, j)
  }

  /**
   * `split` is the only way to cut `s` into pieces that join back to `s`, none of which
   * contains the separator and each of which is cut at the first separator after it.
   */
  lemma {:induction false} SplitUnique(parts: seq<string>, sep: string)
    requires sep != [] && |parts| >= 1
    requires forall k :: 0 <= k < |parts| ==> !Contains(parts[k], sep)
    requires forall k :: 0 <= k < |parts| - 1 ==> EndsAtSeparator(parts[k], sep)
    ensures Split(Join(parts, sep), sep) == parts
  {
    var s := Join(parts, sep);
    if |parts| == 1 {
      FindFromSpec(s, sep, 0);
    } else {
      var p := parts[0];
      var rest := Join(parts[1..], sep);
      assert s == p + sep + rest;
      var ps := s[..|p| + |sep|];
      assert ps == p + sep;
      assert OccursAt(s, sep, |p|) by {
        OccursAtSlice(s, sep, |p|);
        assert s[|p|..|p| + |sep|] == sep;
      }
      forall j | 0 <= j < |p| ensures !OccursAt(s, sep, j) {
        if OccursAt(s, sep, j) {
          OccursInSlice(s, sep, 0, |p| + |sep|, j);
        }
      }
      FindFromAt(s, sep, 0, |p|);
      assert s[..|p|] == p;
      assert s[|p| + |sep|..] == rest;
      SplitUnique(parts[1..], sep);
    }
  }

  function Digit(d: nat): (c: char)
    requires d < 10
    ensures c as int - '0' as int == d
  {
    "0123456789"[d]
  }

  predicate IsDigit(c: char) {
    '0' <= c <= '9'
  }

  predicate AllDigits(s: string) {
    forall i :: 0 <= i < |s| ==> IsDigit(s[i])
  }

  /** Python's `str(n)` for a natural number: its decimal digits, most significant first. */
  function NatToString(n: nat): (r: string)
    ensures |r| >= 1 && AllDigits(r)
    ensures r[0] == '0' ==> n == 0
  {
    if n < 10 then [Digit(n)]
    else NatToString(n / 10) + [Digit(n % 10)]
  }

  /** Reads decimal digits back into a number. */
  function ParseNat(s: string): nat
    requires AllDigits(s)
  {
    if s == [] then 0
    else ParseNat(s[..|s| - 1]) * 10 + (s[|s| - 1] as int - '0' as int)
  }

  /** Reading back what `str(n)` wrote gives `n`. */
  lemma {:induction false} ParseNatToString(n: nat)
    ensures ParseNat(NatToString(n)) == n
  {
    var s := NatToString(n);
    if n >= 10 {
      ParseNatToString(n / 10);
      assert s[..|s| - 1] == NatToString(n / 10);
      assert s[|s| - 1] == Digit(n % 10);
    }
  }

  /** Python's `s[:n]`, which clamps at the end of `s`. */
  function Take(s: string, n: nat): (r: string)
    ensures |r| <= n && |r| <= |s| && r == s[..|r|]
    ensures |s| >= n ==> |r| == n
    ensures |s| <= n ==> r == s
  {
    if |s| <= n then s else s[..n]
  }

  /** Python's `c * n` for a one-character string `c`. */
  function Repeat(c: char, n: nat): (r: string)
    ensures |r| == n && forall i :: 0 <= i < n ==> r[i] == c
  {
    if n == 0 then [] else [c] + Repeat(c, n - 1)
  }

  /** `f` applied to every element, in order. */
  function MapSeq<T, U>(f: T -> U, s: seq<T>): (r: seq<U>)
    ensures |r| == |s|
    ensures forall i :: 0 <= i < |s| ==> r[i] == f(s[i])
  {
    if s == [] then [] else MapSeq(f, s[..|s| - 1]) + [f(s[|s| - 1])]
  }

  /** Mapping one element more appends its image. */
  lemma MapSeqSnoc<T, U>(f: T -> U, s: seq<T>, i: nat)
    requires i < |s|
    ensures MapSeq(f, s[..i + 1]) == MapSeq(f, s[..i]) + [f(s[i])]
  {
    assert s[..i + 1][..i] == s[..i];
  }
}
