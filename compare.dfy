/**
 The comparison family (StringCompareHelper): equality, prefix, suffix and
 substring tests over strings and over NUL-terminated C strings, either
 exact or case-insensitive. Case-insensitive means the two code units have
 the same upper-case image in the locale.
 */
module Compare {
  import opened CaseConv

  /** The code-unit comparator: `IsEqual` (`c1 == c2`) or, with `ignoreCase`,
      `IsIEqual` (`toupper(c1) == toupper(c2)` in the locale). */
  function CharEq(ignoreCase: bool, loc: Locale, c1: char, c2: char): (r: bool)
    ensures c1 == c2 ==> r
    ensures r ==> loc.toUpper(c1) == loc.toUpper(c2)
  {
    if ignoreCase then loc.toUpper(c1) == loc.toUpper(c2) else c1 == c2
  }

  /** `std::equal(a.begin(), a.end(), b.begin(), pred)`: the range `a` against
      the range of the same length at the start of `b`. */
  function RangeEqual(a: seq<char>, b: seq<char>, ignoreCase: bool, loc: Locale): (r: bool)
    requires |a| <= |b|
    ensures a == b[..|a|] ==> r
    ensures r ==> forall i :: 0 <= i < |a| ==> loc.toUpper(a[i]) == loc.toUpper(b[i])
  {
    forall i :: 0 <= i < |a| ==> CharEq(ignoreCase, loc, a[i], b[i])
  }

  /** The sequence seen through reverse iterators (`rbegin()` to `rend()`). */
  function Reversed(s: seq<char>): (r: seq<char>)
    ensures |r| == |s|
    ensures forall i :: 0 <= i < |s| ==> r[i] == s[|s| - 1 - i]
  {
    if s == [] then [] else Reversed(s[1..]) + [s[0]]
  }

  /** `equals(src, dst, ignoreCase)`. */
  function Equals(src: seq<char>, dst: seq<char>, ignoreCase: bool, loc: Locale): (r: bool)
    ensures r ==> |src| == |dst|
    ensures src == dst ==> r
  {
    if |src| != |dst| then false else RangeEqual(dst, src, ignoreCase, loc)
  }

  /** `starts_with(src, dst, ignoreCase)`. */
  function StartsWith(src: seq<char>, dst: seq<char>, ignoreCase: bool, loc: Locale): (r: bool)
    ensures r ==> |dst| <= |src|
    ensures dst == [] ==> r
    ensures |dst| <= |src| && src[..|dst|] == dst ==> r
  {
    if |src| < |dst| then false else RangeEqual(dst, src, ignoreCase, loc)
  }

  /** `ends_with(src, dst, ignoreCase)`: compares through reverse iterators. */
  function EndsWith(src: seq<char>, dst: seq<char>, ignoreCase: bool, loc: Locale): (r: bool)
    ensures r ==> |dst| <= |src|
    ensures dst == [] ==> r
  {
    if |src| < |dst| then false else RangeEqual(Reversed(dst), Reversed(src), ignoreCase, loc)
  }

  /** `dst` occurs in `src` at offset `k` under the comparator. */
  function MatchAt(src: seq<char>, dst: seq<char>, k: nat, ignoreCase: bool, loc: Locale): (r: bool)
    requires k + |dst| <= |src|
    ensures src[k..k + |dst|] == dst ==> r
    ensures dst == [] ==> r
  {
    forall j :: 0 <= j < |dst| ==> CharEq(ignoreCase, loc, src[k + j], dst[j])
  }

  /** `std::search` started at offset `i`: the first offset from `i` on where
      `dst` occurs, or `|src|` (the end iterator) when there is none. An empty
      `dst` occurs at `i` itself. */
  function SearchFrom(src: seq<char>, dst: seq<char>, i: nat, ignoreCase: bool, loc: Locale): (r: nat)
    requires i <= |src|
    ensures i <= r <= |src|
    ensures r + |dst| <= |src| ==> MatchAt(src, dst, r, ignoreCase, loc)
    ensures r < |src| ==> r + |dst| <= |src|
    ensures forall k :: i <= k < r && k + |dst| <= |src| ==> !MatchAt(src, dst, k, ignoreCase, loc)
    decreases |src| - i
  {
    if i + |dst| > |src| then |src|
    else if MatchAt(src, dst, i, ignoreCase, loc) then i
    else SearchFrom(src, dst, i + 1, ignoreCase, loc)
  }

  /** `contains(src, dst, ignoreCase)`: `std::search(...) != src.end()`. */
  function Contains(src: seq<char>, dst: seq<char>, ignoreCase: bool, loc: Locale): (r: bool)
    ensures r ==> src != [] && |dst| <= |src|
  {
    SearchFrom(src, dst, 0, ignoreCase, loc) != |src|
  }

  /** `contains` as its documentation describes it: true when `dst` occurs, or
      when `dst` is empty. */
  function ContainsIntended(src: seq<char>, dst: seq<char>, ignoreCase: bool, loc: Locale): (r: bool)
    ensures dst == [] ==> r
    ensures Contains(src, dst, ignoreCase, loc) ==> r
  {
    dst == [] || SearchFrom(src, dst, 0, ignoreCase, loc) != |src|
  }

  // ---------------------------------------------------------------------------
  // Properties of the string comparisons

  /** Exact `equals` is equality of the two strings. */
  lemma EqualsExact(src: seq<char>, dst: seq<char>, loc: Locale)
    ensures Equals(src, dst, false, loc) <==> src == dst
  {
    if Equals(src, dst, false, loc) {
      assert forall i :: 0 <= i < |src| ==> src[i] == dst[i] by {
        assert RangeEqual(dst, src, false, loc);
      }
    }
  }

  /** Case-insensitive `equals` is equality of the upper-cased strings. */
  lemma EqualsIgnoreCase(src: seq<char>, dst: seq<char>, loc: Locale)
    ensures Equals(src, dst, true, loc) <==> Mapped(src, loc.toUpper) == Mapped(dst, loc.toUpper)
  {
    var a, b := Mapped(src, loc.toUpper), Mapped(dst, loc.toUpper);
    if a == b {
      assert forall i :: 0 <= i < |dst| ==> loc.toUpper(dst[i]) == loc.toUpper(src[i]) by {
        forall i | 0 <= i < |dst| ensures loc.toUpper(dst[i]) == loc.toUpper(src[i]) {
          assert a[i] == b[i];
        }
      }
    }
  }

  /** Every string equals itself, under either comparator, and `equals` is symmetric. */
  lemma EqualsReflexiveSymmetric(a: seq<char>, b: seq<char>, ignoreCase: bool, loc: Locale)
    ensures Equals(a, a, ignoreCase, loc)
    ensures Equals(a, b, ignoreCase, loc) == Equals(b, a, ignoreCase, loc)
  {
    if Equals(a, b, ignoreCase, loc) {
      assert forall i :: 0 <= i < |a| ==> CharEq(ignoreCase, loc, a[i], b[i]) by {
        assert RangeEqual(b, a, ignoreCase, loc);
      }
    }
    if Equals(b, a, ignoreCase, loc) {
      assert forall i :: 0 <= i < |b| ==> CharEq(ignoreCase, loc, b[i], a[i]) by {
        assert RangeEqual(a, b, ignoreCase, loc);
      }
    }
  }

  /** `starts_with` holds exactly when `dst` is no longer than `src` and equals
      the first `|dst|` code units of `src`. */
  lemma StartsWithPrefix(src: seq<char>, dst: seq<char>, ignoreCase: bool, loc: Locale)
    ensures StartsWith(src, dst, ignoreCase, loc) <==>
      |dst| <= |src| && Equals(src[..|dst|], dst, ignoreCase, loc)
  {
  }

  /** `ends_with` holds exactly when `dst` is no longer than `src` and equals
      the last `|dst|` code units of `src`: the reverse iterators align the two
      strings at their ends. */
  lemma EndsWithSuffix(src: seq<char>, dst: seq<char>, ignoreCase: bool, loc: Locale)
    ensures EndsWith(src, dst, ignoreCase, loc) <==>
      |dst| <= |src| && Equals(src[|src| - |dst|..], dst, ignoreCase, loc)
  {
    if |dst| <= |src| {
      var rd, rs, tail := Reversed(dst), Reversed(src), src[|src| - |dst|..];
      if RangeEqual(rd, rs, ignoreCase, loc) {
        forall i | 0 <= i < |dst| ensures CharEq(ignoreCase, loc, dst[i], tail[i]) {
          var k := |dst| - 1 - i;
          assert rd[k] == dst[i];
          assert rs[k] == src[|src| - 1 - k];
        }
      }
      if RangeEqual(dst, tail, ignoreCase, loc) {
        forall k | 0 <= k < |dst| ensures CharEq(ignoreCase, loc, rd[k], rs[k]) {
          var i := |dst| - 1 - k;
          assert rd[k] == dst[i];
          assert rs[k] == tail[i];
        }
      }
    }
  }

  /** `contains` holds exactly when `dst` occurs at an offset that is a valid
      position of `src` (strictly before its end). */
  lemma ContainsOccurs(src: seq<char>, dst: seq<char>, ignoreCase: bool, loc: Locale)
    ensures Contains(src, dst, ignoreCase, loc) <==>
      exists k: nat :: k < |src| && k + |dst| <= |src| && MatchAt(src, dst, k, ignoreCase, loc)
  {
    var r := SearchFrom(src, dst, 0, ignoreCase, loc);
    if r != |src| {
      assert MatchAt(src, dst, r, ignoreCase, loc);
    }
  }

  /** An empty `dst` is a prefix and a suffix of every string, but `contains`
      finds it only in a non-empty `src`: `std::search` returns `begin()`, which is
      `end()` for an empty `src`. */
  lemma EmptyNeedle(src: seq<char>, ignoreCase: bool, loc: Locale)
    ensures StartsWith(src, [], ignoreCase, loc)
    ensures EndsWith(src, [], ignoreCase, loc)
    ensures Contains(src, [], ignoreCase, loc) <==> src != []
  {
    if src != [] {
      ContainsOccurs(src, [], ignoreCase, loc);
      assert MatchAt(src, [], 0, ignoreCase, loc);
    }
  }

  /** The documented and the coded `contains` disagree on `("", "")` only. */
  lemma ContainsEmptyInEmpty(ignoreCase: bool, loc: Locale)
    ensures !Contains([], [], ignoreCase, loc)
    ensures ContainsIntended([], [], ignoreCase, loc)
  {
  }

  /** The documented behaviour: an occurrence at any offset, the empty string
      occurring everywhere. */
  lemma ContainsIntendedOccurs(src: seq<char>, dst: seq<char>, ignoreCase: bool, loc: Locale)
    ensures ContainsIntended(src, dst, ignoreCase, loc) <==>
      exists k: nat :: k + |dst| <= |src| && MatchAt(src, dst, k, ignoreCase, loc)
    ensures ContainsIntended(src, [], ignoreCase, loc)
    ensures ContainsIntended(src, dst, ignoreCase, loc) <==>
      Contains(src, dst, ignoreCase, loc) || (src == [] && dst == [])
  {
    ContainsOccurs(src, dst, ignoreCase, loc);
    if dst == [] {
      assert MatchAt(src, dst, 0, ignoreCase, loc);
    }
  }

  /** Examples from the library's self-test, in the classic locale. */
  lemma CompareExamples()
    ensures Equals("AbC", "abc", true, Classic)
    ensures !Equals("ABC", "abc", false, Classic)
    ensures StartsWith("ABC", "a", true, Classic) && !StartsWith("ABC", "a", false, Classic)
    ensures EndsWith("ABC", "c", true, Classic) && !EndsWith("ABC", "c", false, Classic)
  {
    EndsWithSuffix("ABC", "c", true, Classic);
    EndsWithSuffix("ABC", "c", false, Classic);
    assert "ABC"[2..] == "C";
  }

  lemma ContainsExample()
    ensures Contains("ABC DEF", "c d", true, Classic)
    ensures !Contains("ABC", "C ", false, Classic)
  {
    assert MatchAt("ABC DEF", "c d", 2, true, Classic);
    ContainsOccurs("ABC DEF", "c d", true, Classic);
    ContainsOccurs("ABC", "C ", false, Classic);
    assert !CharEq(false, Classic, "ABC"[0 + 0], "C "[0]);
    assert !CharEq(false, Classic, "ABC"[1 + 0], "C "[0]);
  }

  // ---------------------------------------------------------------------------
  // C strings

  /** A `const char*`: null, or the memory from the pointer on. */
  datatype CharPtr = Null | Ptr(mem: seq<char>)

  /** A non-null pointer must point at a NUL-terminated string. */
  predicate Terminated(p: CharPtr) {
    p.Ptr? ==> '\0' in p.mem
  }

  /** `strlen`: the position of the first NUL. */
  function Strlen(mem: seq<char>): (n: nat)
    requires '\0' in mem
    ensures n < |mem| && mem[n] == '\0'
    ensures forall j :: 0 <= j < n ==> mem[j] != '\0'
  {
    if mem[0] == '\0' then 0 else 1 + Strlen(mem[1..])
  }

  /** The string a non-null pointer designates. */
  function CString(mem: seq<char>): (r: seq<char>)
    requires '\0' in mem
    ensures '\0' !in r
    ensures |r| < |mem| && mem[..|r|] == r && mem[|r|] == '\0'
  {
    mem[..Strlen(mem)]
  }

  /** `cstarts_with` (StartsWithC). */
  function CStartsWith(src: CharPtr, dst: CharPtr, ignoreCase: bool, loc: Locale): (r: bool)
    requires Terminated(src) && Terminated(dst)
    ensures r ==> src.Ptr? && dst.Ptr? && Strlen(dst.mem) <= Strlen(src.mem)
    ensures src.Ptr? && dst.Ptr? && Strlen(dst.mem) == 0 ==> r
  {
    if src.Null? || dst.Null? then false
    else
      var srcLen, dstLen := Strlen(src.mem), Strlen(dst.mem);
      if srcLen < dstLen then false
      else RangeEqual(dst.mem[..dstLen], src.mem, ignoreCase, loc)
  }

  /** `cends_with` (EndsWithC): compares the last `dstLen` code units of `src`
      forwards with `dst`. */
  function CEndsWith(src: CharPtr, dst: CharPtr, ignoreCase: bool, loc: Locale): (r: bool)
    requires Terminated(src) && Terminated(dst)
    ensures r ==> src.Ptr? && dst.Ptr? && Strlen(dst.mem) <= Strlen(src.mem)
    ensures src.Ptr? && dst.Ptr? && Strlen(dst.mem) == 0 ==> r
  {
    if src.Null? || dst.Null? then false
    else
      var srcLen, dstLen := Strlen(src.mem), Strlen(dst.mem);
      if srcLen < dstLen then false
      else RangeEqual(src.mem[srcLen - dstLen..srcLen], dst.mem, ignoreCase, loc)
  }

  /** `ccontains` (ContainsC). */
  function CContains(src: CharPtr, dst: CharPtr, ignoreCase: bool, loc: Locale): (r: bool)
    requires Terminated(src) && Terminated(dst)
    ensures r ==> src.Ptr? && dst.Ptr? && Strlen(dst.mem) <= Strlen(src.mem) && Strlen(src.mem) > 0
    ensures src.Ptr? && dst.Ptr? && Strlen(dst.mem) == 0 ==> (r <==> Strlen(src.mem) > 0)
  {
    if src.Null? || dst.Null? then false
    else
      var srcLen, dstLen := Strlen(src.mem), Strlen(dst.mem);
      if srcLen < dstLen then false
      else SearchFrom(src.mem[..srcLen], dst.mem[..dstLen], 0, ignoreCase, loc) != srcLen
  }

  /** A null pointer on either side makes every C-string test false. */
  lemma CNull(p: CharPtr, ignoreCase: bool, loc: Locale)
    requires Terminated(p)
    ensures !CStartsWith(Null, p, ignoreCase, loc) && !CStartsWith(p, Null, ignoreCase, loc)
    ensures !CEndsWith(Null, p, ignoreCase, loc) && !CEndsWith(p, Null, ignoreCase, loc)
    ensures !CContains(Null, p, ignoreCase, loc) && !CContains(p, Null, ignoreCase, loc)
  {
  }

  /** On non-null pointers `cstarts_with` agrees with `starts_with` on the
      strings the pointers designate. */
  lemma CStartsWithAgrees(src: seq<char>, dst: seq<char>, ignoreCase: bool, loc: Locale)
    requires '\0' in src && '\0' in dst
    ensures CStartsWith(Ptr(src), Ptr(dst), ignoreCase, loc) ==
      StartsWith(CString(src), CString(dst), ignoreCase, loc)
  {
  }

  /** On non-null pointers `cends_with` agrees with `ends_with`. */
  lemma CEndsWithAgrees(src: seq<char>, dst: seq<char>, ignoreCase: bool, loc: Locale)
    requires '\0' in src && '\0' in dst
    ensures CEndsWith(Ptr(src), Ptr(dst), ignoreCase, loc) ==
      EndsWith(CString(src), CString(dst), ignoreCase, loc)
  {
    var s, d := CString(src), CString(dst);
    EndsWithSuffix(s, d, ignoreCase, loc);
    if |d| <= |s| {
      var tail := src[|s| - |d|..|s|];
      assert tail == s[|s| - |d|..];
      if RangeEqual(tail, dst, ignoreCase, loc) {
        forall i | 0 <= i < |d| ensures CharEq(ignoreCase, loc, d[i], tail[i]) {
          assert d[i] == dst[i];
        }
      }
      if RangeEqual(d, tail, ignoreCase, loc) {
        forall i | 0 <= i < |d| ensures CharEq(ignoreCase, loc, tail[i], dst[i]) {
          assert d[i] == dst[i];
        }
      }
    }
  }

  /** On non-null pointers `ccontains` agrees with `contains`, including its
      answer false for two empty strings. */
  lemma CContainsAgrees(src: seq<char>, dst: seq<char>, ignoreCase: bool, loc: Locale)
    requires '\0' in src && '\0' in dst
    ensures CContains(Ptr(src), Ptr(dst), ignoreCase, loc) ==
      Contains(CString(src), CString(dst), ignoreCase, loc)
    ensures CString(src) == [] && CString(dst) == [] ==> !CContains(Ptr(src), Ptr(dst), ignoreCase, loc)
  {
    var s, d := CString(src), CString(dst);
    if |s| < |d| {
      ContainsOccurs(s, d, ignoreCase, loc);
    }
  }

  /** Examples from the library's self-test. */
  lemma CExamples()
    ensures CStartsWith(Ptr("ABC\0"), Ptr("\0"), false, Classic)
    ensures CStartsWith(Ptr("ABC\0"), Ptr("a\0"), true, Classic)
    ensures !CStartsWith(Ptr("ABC\0"), Ptr("a\0"), false, Classic)
    ensures CEndsWith(Ptr("ABC\0"), Ptr("c\0"), true, Classic)
  {
    assert Strlen("ABC\0") == 3;
    assert Strlen("a\0") == 1;
    assert Strlen("c\0") == 1;
  }
}
