/**
 The trim family (StringTrimHelper): remove the maximal leading and/or
 trailing run of code units that belong to a delimiter set. The set is a
 string whose code units are the candidates, one by one.
 */
module Trim {
  import opened StdString

  /** The default delimiter set: tab, newline, vertical tab, form feed,
      carriage return and space. */
  const TrimChars: seq<char> := "\t\n\U{B}\U{C}\r "

  /** The default set holds exactly these six code units. */
  lemma TrimCharsMembers(c: char)
    ensures c in TrimChars <==> c == '\t' || c == '\n' || c == '\U{B}' || c == '\U{C}' || c == '\r' || c == ' '
  {
  }

  /** What `trim_start` leaves: the suffix that starts at the first code unit
      not in `delims`. */
  function TrimStartOf(s: seq<char>, delims: seq<char>): (r: seq<char>)
    ensures |r| <= |s| && r == s[|s| - |r|..]
    ensures r != [] ==> r[0] !in delims
    ensures forall j :: 0 <= j < |s| - |r| ==> s[j] in delims
    decreases |s|
  {
    if s != [] && s[0] in delims then TrimStartOf(s[1..], delims) else s
  }

  /** What `trim_end` leaves: the prefix that ends at the last code unit not
      in `delims`. */
  function TrimEndOf(s: seq<char>, delims: seq<char>): (r: seq<char>)
    ensures |r| <= |s| && r == s[..|r|]
    ensures r != [] ==> r[|r| - 1] !in delims
    ensures forall j :: |r| <= j < |s| ==> s[j] in delims
    decreases |s|
  {
    if s != [] && s[|s| - 1] in delims then TrimEndOf(s[..|s| - 1], delims) else s
  }

  /** What `trim` leaves: `trim_start` followed by `trim_end`. */
  function TrimOf(s: seq<char>, delims: seq<char>): (r: seq<char>)
    ensures |r| <= |s|
    ensures r != [] ==> r[0] !in delims && r[|r| - 1] !in delims
  {
    TrimEndOf(TrimStartOf(s, delims), delims)
  }

  /** A suffix that starts at the first code unit not in `delims` is the trim_start result. */
  lemma TrimStartIs(s: seq<char>, delims: seq<char>, k: nat)
    requires k <= |s|
    requires forall j :: 0 <= j < k ==> s[j] in delims
    requires k == |s| || s[k] !in delims
    ensures TrimStartOf(s, delims) == s[k..]
  {
  }

  /** A prefix that ends at the last code unit not in `delims` is the trim_end result. */
  lemma TrimEndIs(s: seq<char>, delims: seq<char>, k: nat)
    requires k <= |s|
    requires forall j :: k <= j < |s| ==> s[j] in delims
    requires k == 0 || s[k - 1] !in delims
    ensures TrimEndOf(s, delims) == s[..k]
  {
  }

  /** `trim_start(s)`: `s.erase(0, s.find_first_not_of(delims))`; an erase count of
      `npos` removes everything. */
  method TrimStart(src: Str, delims: seq<char>)
    requires |src.chars| < NPOS
    modifies src
    ensures src.chars == TrimStartOf(old(src.chars), delims)
  {
    ghost var s := src.chars;
    var p := FindFirstNotOf(src.chars, delims);
    src.Erase(0, p);
    TrimStartIs(s, delims, if p == NPOS then |s| else p);
  }

  /** `trim_end(s)`: `s.erase(s.find_last_not_of(delims) + 1)`. When no code unit is
      kept the search returns `npos`, and `npos + 1` wraps around to 0, so the
      whole string is erased. */
  method TrimEnd(src: Str, delims: seq<char>)
    requires |src.chars| < NPOS
    modifies src
    ensures src.chars == TrimEndOf(old(src.chars), delims)
  {
    ghost var s := src.chars;
    var p := FindLastNotOf(src.chars, delims);
    var pos := (p + 1) % SIZE_T_MOD;
    assert p == NPOS ==> pos == 0;
    src.Erase(pos, NPOS);
    TrimEndIs(s, delims, pos);
  }

  /** `trim(s)`: `trim_start(s)` then `trim_end(s)`. */
  method Trim(src: Str, delims: seq<char>)
    requires |src.chars| < NPOS
    modifies src
    ensures src.chars == TrimOf(old(src.chars), delims)
  {
    TrimStart(src, delims);
    TrimEnd(src, delims);
  }

  /** `trim_start_copy(src, dst)`: `dst = src; trim_start(dst)`. */
  method TrimStartCopyTo(src: seq<char>, dst: Str, delims: seq<char>)
    requires |src| < NPOS
    modifies dst
    ensures dst.chars == TrimStartOf(src, delims)
  {
    dst.Assign(src);
    TrimStart(dst, delims);
  }

  /** `trim_end_copy(src, dst)`: `dst = src; trim_end(dst)`. */
  method TrimEndCopyTo(src: seq<char>, dst: Str, delims: seq<char>)
    requires |src| < NPOS
    modifies dst
    ensures dst.chars == TrimEndOf(src, delims)
  {
    dst.Assign(src);
    TrimEnd(dst, delims);
  }

  /** `trim_copy(src, dst)`: `dst = src; trim(dst)`. */
  method TrimCopyTo(src: seq<char>, dst: Str, delims: seq<char>)
    requires |src| < NPOS
    modifies dst
    ensures dst.chars == TrimOf(src, delims)
  {
    dst.Assign(src);
    Trim(dst, delims);
  }

  /** The value-returning `trim_start_copy(src)`. */
  method TrimStartCopy(src: seq<char>, delims: seq<char>) returns (r: seq<char>)
    requires |src| < NPOS
    ensures r == TrimStartOf(src, delims)
  {
    var dst := new Str([]);
    TrimStartCopyTo(src, dst, delims);
    r := dst.chars;
  }

  /** The value-returning `trim_end_copy(src)`. */
  method TrimEndCopy(src: seq<char>, delims: seq<char>) returns (r: seq<char>)
    requires |src| < NPOS
    ensures r == TrimEndOf(src, delims)
  {
    var dst := new Str([]);
    TrimEndCopyTo(src, dst, delims);
    r := dst.chars;
  }

  /** The value-returning `trim_copy(src)`. */
  method TrimCopy(src: seq<char>, delims: seq<char>) returns (r: seq<char>)
    requires |src| < NPOS
    ensures r == TrimOf(src, delims)
  {
    var dst := new Str([]);
    TrimCopyTo(src, dst, delims);
    r := dst.chars;
  }

  /** trim_end applied to the suffix that trim_start keeps. */
  lemma TrimEndOfSuffix(s: seq<char>, delims: seq<char>, i: nat, j: nat)
    requires i <= j < |s|
    requires s[j] !in delims
    requires forall k :: j < k < |s| ==> s[k] in delims
    ensures TrimEndOf(s[i..], delims) == s[i..j + 1]
  {
    var a := s[i..];
    assert forall k :: j + 1 - i <= k < |a| ==> a[k] == s[i + k];
    TrimEndIs(a, delims, j + 1 - i);
  }

  /** trim_start applied to the prefix that trim_end keeps. */
  lemma TrimStartOfPrefix(s: seq<char>, delims: seq<char>, i: nat, j: nat)
    requires i <= j < |s|
    requires s[i] !in delims
    requires forall k :: 0 <= k < i ==> s[k] in delims
    ensures TrimStartOf(s[..j + 1], delims) == s[i..j + 1]
  {
    var e := s[..j + 1];
    assert forall k :: 0 <= k < i ==> e[k] == s[k];
    TrimStartIs(e, delims, i);
  }

  /** `trim` keeps exactly the slice from the first to the last code unit not in
      the delimiter set, interior delimiters included. */
  lemma TrimKeepsInterior(s: seq<char>, delims: seq<char>, i: nat, j: nat)
    requires i <= j < |s|
    requires s[i] !in delims && s[j] !in delims
    requires forall k :: 0 <= k < i ==> s[k] in delims
    requires forall k :: j < k < |s| ==> s[k] in delims
    ensures TrimOf(s, delims) == s[i..j + 1]
  {
    TrimStartIs(s, delims, i);
    TrimEndOfSuffix(s, delims, i, j);
  }

  /** Trimming the end first gives the same result. */
  lemma TrimCommutes(s: seq<char>, delims: seq<char>)
    ensures TrimStartOf(TrimEndOf(s, delims), delims) == TrimOf(s, delims)
  {
    var a := TrimStartOf(s, delims);
    var e := TrimEndOf(s, delims);
    if e == [] {
      TrimAllDelimiters(s, delims);
    } else {
      var i := |s| - |a|;
      var j := |e| - 1;
      assert s[j] == e[j];
      assert i <= j;
      assert s[i] == a[0];
      TrimKeepsInterior(s, delims, i, j);
      TrimStartOfPrefix(s, delims, i, j);
    }
  }

  /** Trimming a trimmed string changes nothing. */
  lemma TrimIdempotent(s: seq<char>, delims: seq<char>)
    ensures TrimOf(TrimOf(s, delims), delims) == TrimOf(s, delims)
  {
    var t := TrimOf(s, delims);
    TrimStartIs(t, delims, 0);
    TrimEndIs(t, delims, |t|);
  }

  /** A string made only of delimiters (or empty) trims to empty, and only such a string. */
  lemma TrimAllDelimiters(s: seq<char>, delims: seq<char>)
    ensures TrimOf(s, delims) == [] <==> forall k :: 0 <= k < |s| ==> s[k] in delims
  {
    if forall k :: 0 <= k < |s| ==> s[k] in delims {
      TrimStartIs(s, delims, |s|);
    }
  }

  /** Every code unit that trimming keeps comes from the input. */
  lemma TrimSubset(s: seq<char>, delims: seq<char>)
    ensures forall c :: c in TrimOf(s, delims) ==> c in s
  {
    var a := TrimStartOf(s, delims);
    var t := TrimEndOf(a, delims);
    var off := |s| - |a|;
    assert t == s[off..off + |t|];
    SliceMembers(s, off, off + |t|);
  }

  /** Every code unit of a slice occurs in the whole. */
  lemma SliceMembers(s: seq<char>, i: nat, j: nat)
    requires i <= j <= |s|
    ensures forall c :: c in s[i..j] ==> c in s
  {
    forall c | c in s[i..j] ensures c in s {
      var k :| 0 <= k < j - i && s[i..j][k] == c;
      assert s[i + k] == c;
    }
  }

  /** Examples from the library's self-test (test.cpp). */
  lemma TrimExample()
    ensures TrimOf(" 1 \r\n\t1\r\n\t 1 ", TrimChars) == "1 \r\n\t1\r\n\t 1"
  {
    var s := " 1 \r\n\t1\r\n\t 1 ";
    assert s[0] in TrimChars && s[12] in TrimChars;
    TrimKeepsInterior(s, TrimChars, 1, 11);
  }

  lemma TrimStartExample()
    ensures TrimStartOf(" \r\n\t1\r\n\t ", TrimChars) == "1\r\n\t "
  {
    var s := " \r\n\t1\r\n\t ";
    assert s[0] in TrimChars && s[1] in TrimChars && s[2] in TrimChars && s[3] in TrimChars;
    TrimStartIs(s, TrimChars, 4);
  }

  lemma TrimEndExample()
    ensures TrimEndOf(" \r\n\t1\r\n\t ", TrimChars) == " \r\n\t1"
  {
    var s := " \r\n\t1\r\n\t ";
    assert s[5] in TrimChars && s[6] in TrimChars && s[7] in TrimChars && s[8] in TrimChars;
    TrimEndIs(s, TrimChars, 5);
  }

  lemma TrimOwnSetExample()
    ensures TrimOf(" a b ", " ") == "a b"
  {
    TrimKeepsInterior(" a b ", " ", 1, 3);
  }
}
