/** Optional values, standing for Rust's `Option`. */
module Wrappers {
  datatype Option<+T> = None | Some(value: T)
}

/**
 * The string operations the middleware borrows from Rust's `str` and
 * `String`: substring search (`split_once`), leading trims
 * (`trim_start`, `trim_start_matches`) and a growable buffer
 * (`String::with_capacity`, `push_str`, `push`).
 * Strings are sequences of Unicode scalar values.
 */
module Text {
  import opened Wrappers

  /** `pat` occurs in `s` starting at index `i`. */
  predicate OccursAt(s: string, pat: string, i: nat) {
    i + |pat| <= |s| && s[i..i + |pat|] == pat
  }

  predicate Contains(s: string, pat: string) {
    exists i: nat :: i <= |s| && OccursAt(s, pat, i)
  }

  /** The first index at or after `from` where `pat` occurs, if there is one. */
  function FindFrom(s: string, pat: string, from: nat): (r: Option<nat>)
    requires from <= |s|
    ensures r.Some? ==> from <= r.value && OccursAt(s, pat, r.value)
    ensures r.Some? ==> forall j: nat :: from <= j < r.value ==> !OccursAt(s, pat, j)
    ensures r.None? ==> forall j: nat :: from <= j ==> !OccursAt(s, pat, j)
    decreases |s| - from
  {
    if OccursAt(s, pat, from) then Some(from)
    else if from == |s| then None
    else FindFrom(s, pat, from + 1)
  }

  /**
   * `str::split_once`: the text before and after the first occurrence
   * of `delim`, or nothing when `delim` does not occur.
   */
  function SplitOnce(s: string, delim: string): (r: Option<(string, string)>)
    ensures r.Some? <==> Contains(s, delim)
    ensures r.Some? ==> s == r.value.0 + delim + r.value.1
    ensures r.Some? ==> forall j: nat :: j < |r.value.0| ==> !OccursAt(s, delim, j)
    ensures r.Some? && delim != [] ==> !Contains(r.value.0, delim)
  {
    match FindFrom(s, delim, 0)
    case None => None
    case Some(i) =>
      var before, after := s[..i], s[i + |delim|..];
      assert s == before + delim + after by {
        assert s[i..i + |delim|] == delim;
        assert s == s[..i] + s[i..i + |delim|] + s[i + |delim|..];
      }
      assert forall j: nat :: OccursAt(before, delim, j) ==> OccursAt(s, delim, j) by {
        forall j: nat | OccursAt(before, delim, j) ensures OccursAt(s, delim, j) {
          assert before[j..j + |delim|] == s[j..j + |delim|];
        }
      }
      Some((before, after))
  }

  /** Rust's `char::is_whitespace`: the Unicode White_Space property, tested by ranges. */
  predicate IsWhitespace(c: char) {
    var n := c as int;
    (0x09 <= n <= 0x0D) || n == 0x20 || n == 0x85 || n == 0xA0 || n == 0x1680
    || (0x2000 <= n <= 0x200A) || n == 0x2028 || n == 0x2029 || n == 0x202F
    || n == 0x205F || n == 0x3000
  }

  /** The range test picks out exactly the 25 code points with the Unicode White_Space property. */
  lemma IsWhitespaceListed(c: char)
    ensures IsWhitespace(c) <==> c as int in {
      0x09, 0x0A, 0x0B, 0x0C, 0x0D, 0x20, 0x85, 0xA0, 0x1680,
      0x2000, 0x2001, 0x2002, 0x2003, 0x2004, 0x2005, 0x2006, 0x2007, 0x2008, 0x2009, 0x200A,
      0x2028, 0x2029, 0x202F, 0x205F, 0x3000
    }
  {
  }

  /** `str::trim_start`: drop every leading whitespace character. */
  function TrimStart(s: string): (r: string)
    ensures |r| <= |s| && r == s[|s| - |r|..]
    ensures forall i :: 0 <= i < |s| - |r| ==> IsWhitespace(s[i])
    ensures r != [] ==> !IsWhitespace(r[0])
  {
    if s != [] && IsWhitespace(s[0]) then TrimStart(s[1..]) else s
  }

  /** `str::trim_start_matches(c)` for a single character: drop every leading `c`. */
  function TrimStartMatches(s: string, c: char): (r: string)
    ensures |r| <= |s| && r == s[|s| - |r|..]
    ensures forall i :: 0 <= i < |s| - |r| ==> s[i] == c
    ensures r != [] ==> r[0] != c
  {
    if s != [] && s[0] == c then TrimStartMatches(s[1..], c) else s
  }

  /** `str::ends_with` for one character: `s` is some string followed by `c`. */
  predicate EndsWith(s: string, c: char)
    ensures EndsWith(s, c) <==> exists t :: t + [c] == s
  {
    if s != [] && s[|s| - 1] == c then assert s[..|s| - 1] + [c] == s; true else false
  }

  /**
   * Rust's growable `String`. The capacity given at creation only
   * reserves room; it never limits what can be pushed.
   */
  class StringBuf {
    var contents: string
    const capacity: nat

    constructor WithCapacity(n: nat)
      ensures contents == [] && capacity == n
    {
      contents := [];
      capacity := n;
    }

    /** `str::to_owned`: a buffer holding a copy of `s`. */
    constructor FromStr(s: string)
      ensures contents == s && capacity == |s|
    {
      contents := s;
      capacity := |s|;
    }

    method PushStr(s: string)
      modifies this
      ensures contents == old(contents) + s
    {
      contents := contents + s;
    }

    method Push(c: char)
      modifies this
      ensures contents == old(contents) + [c]
    {
      contents := contents + [c];
    }
  }
}
