/**
 * The parts of Python's `str` that the helpers rely on: whitespace as
 * `str.isspace()` (and the regular-expression class `\s`) define it,
 * `strip`, `in`, `partition`, `split` on one character, and ASCII case folding.
 */
module Text {
  import opened Wrappers

  /**
   * Python's whitespace: the characters `str.isspace()` accepts. The same
   * set is removed by `str.strip()` and matched by `\s` in a `str` pattern.
   * It includes the control characters U+001C..U+001F.
   */
  predicate IsSpace(c: char) {
    ('\t' <= c <= '\r') || ('\U{1C}' <= c <= ' ') || c == '\U{85}' || c == '\U{A0}'
    || c == '\U{1680}' || ('\U{2000}' <= c <= '\U{200A}') || c == '\U{2028}' || c == '\U{2029}'
    || c == '\U{202F}' || c == '\U{205F}' || c == '\U{3000}'
  }

  predicate AllSpace(s: string) {
    forall i :: 0 <= i < |s| ==> IsSpace(s[i])
  }

  predicate NoSpace(s: string) {
    forall i :: 0 <= i < |s| ==> !IsSpace(s[i])
  }

  /** Neither end of `s` is whitespace: what `strip()` leaves behind. */
  predicate Trimmed(s: string) {
    s == [] || (!IsSpace(s[0]) && !IsSpace(s[|s| - 1]))
  }

  /** `s.lstrip()`: the longest suffix of `s` that does not start with whitespace. */
  function LStrip(s: string): (r: string)
    ensures |r| <= |s| && r == s[|s| - |r|..]
    ensures r != [] ==> !IsSpace(r[0])
    decreases |s|
  {
    if s != [] && IsSpace(s[0]) then LStrip(s[1..]) else s
  }

  /** What `lstrip` removes is whitespace. */
  lemma {:induction false} LStripRemovesSpace(s: string)
    ensures AllSpace(s[..|s| - |LStrip(s)|])
    decreases |s|
  {
    if s != [] && IsSpace(s[0]) {
      var r := LStrip(s[1..]);
      LStripRemovesSpace(s[1..]);
      assert s[..|s| - |r|] == [s[0]] + s[1..][..|s| - 1 - |r|];
    }
  }

  /** `s.rstrip()`: the longest prefix of `s` that does not end with whitespace. */
  function RStrip(s: string): (r: string)
    ensures |r| <= |s| && r == s[..|r|]
    ensures r != [] ==> !IsSpace(r[|r| - 1])
    decreases |s|
  {
    if s != [] && IsSpace(s[|s| - 1]) then RStrip(s[..|s| - 1]) else s
  }

  /** What `rstrip` removes is whitespace. */
  lemma {:induction false} RStripRemovesSpace(s: string)
    ensures AllSpace(s[|RStrip(s)|..])
    decreases |s|
  {
    if s != [] && IsSpace(s[|s| - 1]) {
      var r := RStrip(s[..|s| - 1]);
      RStripRemovesSpace(s[..|s| - 1]);
      assert s[|r|..] == s[..|s| - 1][|r|..] + [s[|s| - 1]];
    }
  }

  /**
   * `s.strip()`: `s` without its leading and trailing whitespace. The result
   * is `Trimmed`.
   */
  function Strip(s: string): (r: string)
    ensures |r| <= |LStrip(s)| <= |s|
    ensures Trimmed(r)
  {
    RStrip(LStrip(s))
  }

  /** A string that is already trimmed comes back from `strip` unchanged. */
  lemma StripTrimmed(s: string)
    requires Trimmed(s)
    ensures Strip(s) == s
  {
  }

  lemma TakeOfDrop<T>(s: seq<T>, k: nat, n: nat)
    requires k + n <= |s|
    ensures s[k..][..n] == s[k..k + n]
  {
  }

  lemma DropOfDrop<T>(s: seq<T>, k: nat, n: nat)
    requires k + n <= |s|
    ensures s[k..][n..] == s[k + n..]
  {
  }

  lemma AllSpaceOfDrop(s: string, l: string, k: nat, n: nat)
    requires k + n <= |s| && l == s[k..] && AllSpace(l[n..])
    ensures AllSpace(s[k + n..])
  {
    DropOfDrop(s, k, n);
  }

  /** `strip` keeps a contiguous slice of `s`. */
  lemma StripIsSlice(s: string)
    ensures var k := |s| - |LStrip(s)|; var r := Strip(s);
      k + |r| <= |s| && r == s[k..k + |r|]
  {
    var l := LStrip(s);
    var k := |s| - |l|;
    TakeOfDrop(s, k, |Strip(s)|);
  }

  /** What `strip` removes from the end of `s` is whitespace. */
  lemma StripTrailingSpace(s: string)
    ensures AllSpace(s[|s| - |LStrip(s)| + |Strip(s)|..])
  {
    var l := LStrip(s);
    var r := RStrip(l);
    assert r == Strip(s);
    RStripRemovesSpace(l);
    AllSpaceOfDrop(s, l, |s| - |l|, |r|);
  }

  /** What `strip` removes from either end of `s` is whitespace only. */
  lemma StripRemovesOnlySpace(s: string)
    ensures AllSpace(s[..|s| - |LStrip(s)|])
    ensures AllSpace(s[|s| - |LStrip(s)| + |Strip(s)|..])
  {
    LStripRemovesSpace(s);
    StripTrailingSpace(s);
  }

  lemma StripIdempotent(s: string)
    ensures Strip(Strip(s)) == Strip(s)
  {
    StripTrimmed(Strip(s));
  }

  /** Leading whitespace is dropped by `lstrip` one character at a time. */
  lemma {:induction false} LStripSpacePrefix(p: string, y: string)
    requires AllSpace(p)
    requires y == [] || !IsSpace(y[0])
    ensures LStrip(p + y) == y
    decreases |p|
  {
    if p == [] {
      assert p + y == y;
    } else {
      assert (p + y)[1..] == p[1..] + y;
      LStripSpacePrefix(p[1..], y);
    }
  }

  /** Trailing whitespace is dropped by `rstrip` one character at a time. */
  lemma {:induction false} RStripSpaceSuffix(y: string, q: string)
    requires AllSpace(q)
    requires y == [] || !IsSpace(y[|y| - 1])
    ensures RStrip(y + q) == y
    decreases |q|
  {
    if q == [] {
      assert y + q == y;
    } else {
      assert (y + q)[..|y + q| - 1] == y + q[..|q| - 1];
      RStripSpaceSuffix(y, q[..|q| - 1]);
    }
  }

  /** `strip` undoes surrounding a trimmed string with whitespace. */
  lemma StripPadded(p: string, y: string, q: string)
    requires AllSpace(p) && AllSpace(q) && Trimmed(y)
    ensures Strip(p + y + q) == y
  {
    if y == [] {
      assert p + y + q == p + q;
      LStripSpacePrefix(p + q, []);
      assert p + q + [] == p + q;
    } else {
      assert p + y + q == p + (y + q);
      LStripSpacePrefix(p, y + q);
      RStripSpaceSuffix(y, q);
    }
  }

  /** `s.startswith(prefix)`. */
  predicate StartsWith(s: string, prefix: string) {
    |prefix| <= |s| && s[..|prefix|] == prefix
  }

  /** `pat` occurs in `s` starting at index `i`. */
  predicate OccursAt(s: string, pat: string, i: nat) {
    i + |pat| <= |s| && s[i..i + |pat|] == pat
  }

  /** The first occurrence of `pat` in `s` at or after index `from`. */
  function FindFrom(s: string, pat: string, from: nat): (r: Option<nat>)
    requires from <= |s|
    ensures r.Some? ==> from <= r.value && OccursAt(s, pat, r.value)
    ensures r.Some? ==> forall j :: from <= j < r.value ==> !OccursAt(s, pat, j)
    ensures r.None? ==> forall j :: from <= j ==> !OccursAt(s, pat, j)
    decreases |s| - from
  {
    if from + |pat| > |s| then None
    else if s[from..from + |pat|] == pat then Some(from)
    else if from == |s| then None
    else FindFrom(s, pat, from + 1)
  }

  /** `s.find(pat)` as an option: the index of the first occurrence, if any. */
  function Find(s: string, pat: string): (r: Option<nat>)
    ensures r.Some? ==> OccursAt(s, pat, r.value)
    ensures r.Some? ==> forall j :: 0 <= j < r.value ==> !OccursAt(s, pat, j)
    ensures r.None? ==> forall j :: 0 <= j ==> !OccursAt(s, pat, j)
  {
    FindFrom(s, pat, 0)
  }

  /** `pat in s`. */
  predicate Contains(s: string, pat: string) {
    Find(s, pat).Some?
  }

  /**
   * `s.partition(sep)` when `sep` occurs in `s`: the text before the first
   * occurrence and the text after it.
   */
  function Partition(s: string, sep: string): (r: (string, string))
    requires Contains(s, sep)
    ensures s == r.0 + sep + r.1
    ensures forall j :: 0 <= j < |r.0| ==> !OccursAt(s, sep, j)
  {
    var i := Find(s, sep).value;
    assert s == s[..i] + s[i..i + |sep|] + s[i + |sep|..];
    (s[..i], s[i + |sep|..])
  }

  /**
   * `"".join`-style inverse of `Split`: the parts with `sep` between each
   * neighbouring pair.
   */
  function Join(parts: seq<string>, sep: char): string
    decreases |parts|
  {
    if |parts| == 0 then ""
    else if |parts| == 1 then parts[0]
    else parts[0] + [sep] + Join(parts[1..], sep)
  }

  /**
   * `s.split(sep)` for a one-character separator: the pieces between the
   * separators, empty pieces included, so at least one piece. Joining them
   * gives back `s`, and no piece contains the separator.
   */
  function Split(s: string, sep: char): (parts: seq<string>)
    ensures |parts| >= 1
    ensures Join(parts, sep) == s
    ensures forall i :: 0 <= i < |parts| ==> sep !in parts[i]
    decreases |s|
  {
    match Find(s, [sep])
    case None =>
      assert forall j :: 0 <= j < |s| ==> s[j] != sep by {
        forall j | 0 <= j < |s| ensures s[j] != sep {
          assert !OccursAt(s, [sep], j);
          assert s[j..j + 1] == [s[j]];
        }
      }
      [s]
    case Some(i) =>
      assert s[i..i + 1] == [sep];
      assert forall j :: 0 <= j < i ==> s[j] != sep by {
        forall j | 0 <= j < i ensures s[j] != sep {
          assert !OccursAt(s, [sep], j);
          assert s[j..j + 1] == [s[j]];
        }
      }
      var rest := Split(s[i + 1..], sep);
      assert s == s[..i] + [sep] + s[i + 1..];
      [s[..i]] + rest
  }

  /** Splitting is the exact inverse of joining pieces free of the separator. */
  lemma {:induction false} SplitJoin(parts: seq<string>, sep: char)
    requires |parts| >= 1
    requires forall i :: 0 <= i < |parts| ==> sep !in parts[i]
    ensures Split(Join(parts, sep), sep) == parts
    decreases |parts|
  {
    var s := Join(parts, sep);
    var p := parts[0];
    if |parts| == 1 {
      assert forall j :: 0 <= j <= |s| ==> !OccursAt(s, [sep], j) by {
        forall j | 0 <= j <= |s| ensures !OccursAt(s, [sep], j) {
          if j < |s| { assert s[j..j + 1] == [s[j]]; }
        }
      }
      assert Find(s, [sep]) == None;
    } else {
      assert s == p + [sep] + Join(parts[1..], sep);
      assert OccursAt(s, [sep], |p|) by { assert s[|p|..|p| + 1] == [sep]; }
      assert forall j :: 0 <= j < |p| ==> !OccursAt(s, [sep], j) by {
        forall j | 0 <= j < |p| ensures !OccursAt(s, [sep], j) {
          assert s[j..j + 1] == [p[j]];
        }
      }
      assert Find(s, [sep]) == Some(|p|);
      assert s[..|p|] == p;
      assert s[|p| + 1..] == Join(parts[1..], sep);
      SplitJoin(parts[1..], sep);
      assert parts == [p] + parts[1..];
    }
  }

  /** ASCII case folding: `A`..`Z` to `a`..`z`, every other character unchanged. */
  function AsciiLower(c: char): (r: char)
    ensures 'A' <= c <= 'Z' ==> 'a' <= r <= 'z' && r as int - c as int == 32
    ensures !('A' <= c <= 'Z') ==> r == c
  {
    if 'A' <= c <= 'Z' then (c as int + 32) as char else c
  }

  /** Equality up to ASCII case. */
  predicate EqualsIgnoreCase(s: string, t: string) {
    |s| == |t| && forall i :: 0 <= i < |s| ==> AsciiLower(s[i]) == AsciiLower(t[i])
  }
}
