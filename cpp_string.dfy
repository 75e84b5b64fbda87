/**
 * The parts of std::string and of C strings that the plug-in relies on:
 * find, find_last_of and substr over size_t positions (including npos and
 * its wrap-around), and the NUL-terminated strings built from char buffers.
 */
module CppString {
  import opened Basics

  /** size_t values are taken modulo 2^64 (a 64-bit target). */
  const SIZE_MOD: nat := 0x1_0000_0000_0000_0000

  /** std::string::npos, the largest size_t. */
  const NPOS: nat := SIZE_MOD - 1

  /** A std::string: its size never reaches npos (max_size() is smaller). */
  type Str = s: string | |s| < NPOS

  /** The exceptions the modelled code can raise. */
  datatype Exception =
    | OutOfRange       // std::out_of_range (substr, stoi)
    | InvalidArgument  // std::invalid_argument (stoi)

  /** size_t addition: wraps modulo 2^64, so npos + 1 == 0 and npos + 2 == 1. */
  function SizeAdd(a: nat, b: nat): nat
    requires a <= NPOS && b <= NPOS
  {
    if a + b < SIZE_MOD then a + b else a + b - SIZE_MOD
  }

  /** pat occurs in s starting at index i. */
  predicate OccursAt(s: string, pat: string, i: int)
  {
    0 <= i && i + |pat| <= |s| && s[i..i + |pat|] == pat
  }

  /** s.find(pat, from): the first occurrence at or after from, or npos. */
  function Find(s: Str, pat: string, from: nat): nat
    decreases |s| - from
  {
    if from + |pat| > |s| then NPOS
    else if s[from..from + |pat|] == pat then from
    else Find(s, pat, from + 1)
  }

  /** find gives npos or an occurrence at or after from, and no occurrence lies between from and it. */
  lemma {:induction false} FindFirst(s: Str, pat: string, from: nat)
    ensures var r := Find(s, pat, from);
            (r == NPOS || (from <= r && OccursAt(s, pat, r)))
            && forall i :: from <= i && (r == NPOS || i < r) ==> !OccursAt(s, pat, i)
    decreases |s| - from
  {
    if from + |pat| <= |s| && s[from..from + |pat|] != pat {
      FindFirst(s, pat, from + 1);
    }
  }

  /** The position just past a find result (npos + 1 wraps to 0) is never past the end. */
  lemma PastFind(s: Str, pat: string, from: nat)
    requires |pat| > 0
    ensures var r := Find(s, pat, from);
            r <= NPOS
            && SizeAdd(r, 1) <= |s|
            && (r == NPOS ==> SizeAdd(r, 1) == 0)
            && (r != NPOS ==> SizeAdd(r, 1) == r + 1)
  {
    FindFirst(s, pat, from);
  }

  /** s.find_last_of(c): the last index holding c, or npos. */
  function FindLastOf(s: Str, c: char): nat
  {
    if s == [] then NPOS
    else if s[|s| - 1] == c then |s| - 1
    else FindLastOf(s[..|s| - 1], c)
  }

  /** find_last_of gives npos or an index holding c, and no c lies after it. */
  lemma {:induction false} FindLast(s: Str, c: char)
    ensures var r := FindLastOf(s, c);
            (r == NPOS || (r < |s| && s[r] == c))
            && forall i :: 0 <= i < |s| && (r == NPOS || r < i) ==> s[i] != c
  {
    if s != [] && s[|s| - 1] != c {
      var t := s[..|s| - 1];
      FindLast(t, c);
      forall i | 0 <= i < |t|
        ensures s[i] == t[i]
      {
      }
    }
  }

  /**
   * s.substr(pos, count): throws std::out_of_range when pos > size(); otherwise
   * at most count characters starting at pos (count is a length, not an end).
   */
  function Substr(s: Str, pos: nat, count: nat): (r: Result<Str, Exception>)
    ensures r.Failure? <==> pos > |s|
    ensures r.Failure? ==> r.error == OutOfRange
    ensures r.Success? ==> |r.value| == Min(count, |s| - pos) && r.value == s[pos..pos + |r.value|]
  {
    if pos > |s| then Failure(OutOfRange)
    else Success(s[pos..pos + Min(count, |s| - pos)])
  }

  /** Index of the first NUL character of s, or |s| when there is none. */
  function NulIndex(s: string): (n: nat)
    ensures n <= |s|
    ensures forall k :: 0 <= k < n ==> s[k] != '\0'
    ensures n < |s| ==> s[n] == '\0'
  {
    if s == [] || s[0] == '\0' then 0 else 1 + NulIndex(s[1..])
  }

  /** A buffer with no NUL in it gives the whole buffer as a string. */
  lemma CStringWithoutNul(s: string)
    requires '\0' !in s
    ensures CString(s) == s
  {
  }

  /** The std::string built from a char buffer: everything before the first NUL. */
  function CString(s: string): (r: string)
    ensures '\0' !in r
    ensures r <= s
  {
    s[..NulIndex(s)]
  }
}
