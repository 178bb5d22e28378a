/**
 * String operations the program relies on: `String.prototype.trim`, the search for a
 * literal pattern (what both the code-block regular expression and `split` do with
 * their fixed patterns), and the facts about occurrences that the proofs need.
 */
module Text {
  import opened Wrappers

  /** The WhiteSpace and LineTerminator code points of ECMAScript, which `trim` removes. */
  predicate IsWhitespace(c: char) {
    || c == '\t' || c == '\U{000B}' || c == '\U{000C}' || c == ' ' || c == '\U{00A0}'
    || c == '\U{FEFF}' || c == '\U{1680}' || ('\U{2000}' <= c <= '\U{200A}')
    || c == '\U{202F}' || c == '\U{205F}' || c == '\U{3000}'
    || c == '\n' || c == '\r' || c == '\U{2028}' || c == '\U{2029}'
  }

  ghost predicate AllWhitespace(s: string) {
    forall i :: 0 <= i < |s| ==> IsWhitespace(s[i])
  }

  /** The length of the run of white space that starts `s`. */
  function LeadingWhitespace(s: string): (n: nat)
    ensures n <= |s|
    ensures forall i :: 0 <= i < n ==> IsWhitespace(s[i])
    ensures n < |s| ==> !IsWhitespace(s[n])
  {
    if |s| > 0 && IsWhitespace(s[0]) then 1 + LeadingWhitespace(s[1..]) else 0
  }

  /** The length of the run of white space that ends `s`. */
  function TrailingWhitespace(s: string): (n: nat)
    ensures n <= |s|
    ensures forall i :: |s| - n <= i < |s| ==> IsWhitespace(s[i])
    ensures n < |s| ==> !IsWhitespace(s[|s| - n - 1])
  {
    if |s| > 0 && IsWhitespace(s[|s| - 1]) then 1 + TrailingWhitespace(s[..|s| - 1]) else 0
  }

  /** `s.trim()`: `s` without its leading and trailing white space. */
  function Trim(s: string): (r: string)
    ensures LeadingWhitespace(s) + |r| <= |s|
    ensures r == s[LeadingWhitespace(s)..LeadingWhitespace(s) + |r|]
    ensures forall i :: LeadingWhitespace(s) + |r| <= i < |s| ==> IsWhitespace(s[i])
    ensures r == [] || (!IsWhitespace(r[0]) && !IsWhitespace(r[|r| - 1]))
  {
    var t := s[LeadingWhitespace(s)..];
    t[..|t| - TrailingWhitespace(t)]
  }

  /** Trimming a string framed by white space gives back the frame's contents: together
      with the contract of `Trim` this says `Trim` is exactly the ECMAScript `trim`. */
  lemma TrimOfFramed(a: string, m: string, b: string)
    requires AllWhitespace(a) && AllWhitespace(b)
    requires m == [] || (!IsWhitespace(m[0]) && !IsWhitespace(m[|m| - 1]))
    ensures Trim(a + m + b) == m
  {
    var s := a + m + b;
    var n := LeadingWhitespace(s);
    if m == [] {
      assert s == a + b;
      assert AllWhitespace(s);
      assert n == |s|;
    } else {
      assert s[|a|] == m[0];
      assert n == |a|;
      var t := s[n..];
      assert t == m + b;
      var k := TrailingWhitespace(t);
      assert t[|m| - 1] == m[|m| - 1];
      assert k == |b|;
      assert t[..|t| - k] == m;
    }
  }

  lemma TrimIdempotent(s: string)
    ensures Trim(Trim(s)) == Trim(s)
  {
    var r := Trim(s);
    assert "" + r + "" == r;
    TrimOfFramed("", r, "");
  }

  /** A string trims to nothing exactly when it is all white space. */
  lemma TrimEmptyIff(s: string)
    ensures Trim(s) == [] <==> AllWhitespace(s)
  {
    if AllWhitespace(s) {
      assert s + "" + "" == s;
      TrimOfFramed(s, "", "");
    }
  }

  /** `p` occurs in `s` starting at index `i`. */
  predicate OccursAt(s: string, i: nat, p: string) {
    i + |p| <= |s| && s[i..i + |p|] == p
  }

  /** `p` occurs nowhere in `s`. */
  ghost predicate Absent(s: string, p: string) {
    forall i: nat :: !OccursAt(s, i, p)
  }

  /** The first index at or after `from` where `p` occurs in `s`, if there is one. */
  function FindFrom(s: string, p: string, from: nat): (r: Option<nat>)
    ensures r.Some? ==> from <= r.value && OccursAt(s, r.value, p)
    ensures forall i: nat :: from <= i && (r.None? || i < r.value) ==> !OccursAt(s, i, p)
    decreases |s| - from
  {
    if from + |p| > |s| then None
    else if s[from..from + |p|] == p then Some(from)
    else FindFrom(s, p, from + 1)
  }

  /** The contract of `FindFrom` determines its result. */
  lemma FindFromIs(s: string, p: string, from: nat, i: nat)
    requires from <= i && OccursAt(s, i, p)
    requires forall k: nat :: from <= k < i ==> !OccursAt(s, k, p)
    ensures FindFrom(s, p, from) == Some(i)
  {
  }

  lemma FindFromNone(s: string, p: string, from: nat)
    requires forall k: nat :: from <= k ==> !OccursAt(s, k, p)
    ensures FindFrom(s, p, from) == None
  {
  }

  /** An occurrence inside a slice is an occurrence in the whole string. */
  lemma OccursInSlice(s: string, lo: nat, hi: nat, i: nat, p: string)
    requires lo <= hi <= |s|
    ensures OccursAt(s[lo..hi], i, p) <==> (lo + i + |p| <= hi && OccursAt(s, lo + i, p))
  {
    if lo + i + |p| <= hi {
      var t := s[lo..hi];
      var u := t[i..i + |p|];
      assert forall k :: 0 <= k < |p| ==> u[k] == s[lo + i + k];
      assert u == s[lo + i..lo + i + |p|];
    }
  }

  /** One differing character rules out an occurrence. */
  lemma MismatchAt(s: string, i: nat, p: string, d: nat)
    requires d < |p| && i + d < |s| && s[i + d] != p[d]
    ensures !OccursAt(s, i, p)
  {
    if i + |p| <= |s| {
      assert s[i..i + |p|][d] == s[i + d];
    }
  }

  /** A string cut around two occurrences is put back together by concatenation. */
  lemma Reassemble(s: string, i: nat, p: string, j: nat, q: string)
    requires OccursAt(s, i, p) && i + |p| <= j && OccursAt(s, j, q)
    ensures s == s[..i] + p + s[i + |p|..j] + q + s[j + |q|..]
  {
    assert s == s[..i] + s[i..i + |p|] + s[i + |p|..j] + s[j..j + |q|] + s[j + |q|..];
  }

  lemma FirstCharacter(s: string)
    requires s != []
    ensures s[..1] == [s[0]]
  {
  }

  /** The middle piece of a concatenation is its slice at the running lengths. */
  lemma MiddleSlice(a: string, b: string, c: string)
    ensures (a + b + c)[|a|..|a| + |b|] == b
  {
    assert (a + b + c)[|a|..|a| + |b|] == (a + b)[|a|..];
  }

  /** The five pieces of a concatenation are its slices at the running lengths. */
  lemma SlicesOfFive(a: string, b: string, c: string, d: string, e: string)
    ensures var s, i, j, k := a + b + c + d + e, |a| + |b|, |a| + |b| + |c|, |a| + |b| + |c| + |d|;
      && s[..|a|] == a && OccursAt(s, |a|, b) && s[i..j] == c && OccursAt(s, j, d) && s[k..] == e
  {
    assert a + b + c + d + e == a + (b + c + d + e);
    MiddleSlice(a, b, c + d + e);
    MiddleSlice(a + b, c, d + e);
    MiddleSlice(a + b + c, d, e);
  }

  /** When the first character of `p` does not occur again in `p`, an occurrence at `c`
      with none wholly inside `s[from..c]` is the first one from `from` on. */
  lemma FirstAfterFreeStretch(s: string, p: string, from: nat, c: nat)
    requires |p| > 0 && forall d :: 0 < d < |p| ==> p[d] != p[0]
    requires from <= c && OccursAt(s, c, p) && Absent(s[from..c], p)
    ensures FindFrom(s, p, from) == Some(c)
  {
    forall k: nat | from <= k < c ensures !OccursAt(s, k, p) {
      if k + |p| <= c {
        OccursInSlice(s, from, c, k - from, p);
      } else {
        assert s[c] == p[0] by { assert s[c..c + |p|][0] == s[c]; }
        MismatchAt(s, k, p, c - k);
      }
    }
    FindFromIs(s, p, from, c);
  }
}
