/**
 The parts of std::basic_string that the string utilities rely on: a text
 value that is updated in place, the unsigned `size_t` positions with their
 `npos` sentinel, and the two searches `find_first_not_of` and
 `find_last_not_of`. Narrow and wide code units are both modelled as `char`.
 */
module StdString {

  /** `size_t` is an unsigned 64-bit integer: arithmetic on it wraps modulo this. */
  const SIZE_T_MOD: int := 0x1_0000_0000_0000_0000

  /** `basic_string::npos`, the largest `size_t`, returned by a failed search. */
  const NPOS: int := SIZE_T_MOD - 1

  predicate IsSizeT(n: int) {
    0 <= n < SIZE_T_MOD
  }

  function Min(a: int, b: int): (m: int)
    ensures m <= a && m <= b
    ensures m == a || m == b
  {
    if a <= b then a else b
  }

  /** A mutable string object, as passed by non-const reference. */
  class Str {
    var chars: seq<char>

    constructor (s: seq<char>)
      ensures chars == s
    {
      chars := s;
    }

    /** `operator=`: take a copy of another string's contents. */
    method Assign(s: seq<char>)
      modifies this
      ensures chars == s
    {
      chars := s;
    }

    /** `erase(pos, n)`: removes `min(n, size() - pos)` code units starting at `pos`.
        A position past the end throws `out_of_range`; every caller in the model
        passes one that is not. */
    method Erase(pos: int, n: int)
      requires 0 <= pos <= |chars|
      requires IsSizeT(n)
      modifies this
      ensures chars == old(chars)[..pos] + old(chars)[pos + Min(n, |old(chars)| - pos)..]
    {
      chars := chars[..pos] + chars[pos + Min(n, |chars| - pos)..];
    }

    /** `resize(n)`: truncates, or pads with value-initialised (NUL) code units. */
    method Resize(n: nat)
      modifies this
      ensures |chars| == n
      ensures n <= |old(chars)| ==> chars == old(chars)[..n]
      ensures n > |old(chars)| ==> chars == old(chars) + seq(n - |old(chars)|, _ => '\0')
    {
      if n <= |chars| {
        chars := chars[..n];
      } else {
        chars := chars + seq(n - |chars|, _ => '\0');
      }
    }

    /** `operator+=(c)`. */
    method Append(c: char)
      modifies this
      ensures chars == old(chars) + [c]
    {
      chars := chars + [c];
    }
  }

  /** `s.find_first_not_of(delims)`: the first position whose code unit is not in
      `delims`, or `npos` when there is none. */
  method FindFirstNotOf(s: seq<char>, delims: seq<char>) returns (p: int)
    requires |s| < NPOS
    ensures p == NPOS || (0 <= p < |s| && s[p] !in delims)
    ensures forall j :: 0 <= j < |s| && (p == NPOS || j < p) ==> s[j] in delims
  {
    var i := 0;
    while i < |s|
      invariant 0 <= i <= |s|
      invariant forall j :: 0 <= j < i ==> s[j] in delims
    {
      if s[i] !in delims {
        return i;
      }
      i := i + 1;
    }
    return NPOS;
  }

  /** `s.find_last_not_of(delims)`: the last position whose code unit is not in
      `delims`, or `npos` when there is none (in particular for an empty `s`). */
  method FindLastNotOf(s: seq<char>, delims: seq<char>) returns (p: int)
    requires |s| < NPOS
    ensures p == NPOS || (0 <= p < |s| && s[p] !in delims)
    ensures forall j :: 0 <= j < |s| && (p == NPOS || p < j) ==> s[j] in delims
  {
    var i := |s|;
    while i > 0
      invariant 0 <= i <= |s|
      invariant forall j :: i <= j < |s| ==> s[j] in delims
    {
      if s[i - 1] !in delims {
        return i - 1;
      }
      i := i - 1;
    }
    return NPOS;
  }
}
