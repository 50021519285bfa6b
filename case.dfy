/**
 Case conversion (StringCaseHelper): every code unit is mapped on its own
 through the locale's lower- or upper-case function; the length never
 changes.
 */
module CaseConv {
  import opened StdString

  /** The single-code-unit case mappings of a `std::locale`
      (`std::tolower(c, loc)` and `std::toupper(c, loc)`). */
  datatype Locale = Locale(toLower: char -> char, toUpper: char -> char)

  /** `tolower` in the classic locale: only 'A'..'Z' change, each to its lower-case letter. */
  function ClassicLower(c: char): (r: char)
    ensures r != c <==> 'A' <= c <= 'Z'
    ensures r != c ==> 'a' <= r <= 'z' && r as int - c as int == 32
  {
    if 'A' <= c <= 'Z' then (c as int - 'A' as int + 'a' as int) as char else c
  }

  /** `toupper` in the classic locale: only 'a'..'z' change, each to its upper-case letter. */
  function ClassicUpper(c: char): (r: char)
    ensures r != c <==> 'a' <= c <= 'z'
    ensures r != c ==> 'A' <= r <= 'Z' && c as int - r as int == 32
  {
    if 'a' <= c <= 'z' then (c as int - 'a' as int + 'A' as int) as char else c
  }

  /** The classic "C" locale: only the ASCII letters change case. It is the
      global locale of a program that never installs another one. */
  const Classic: Locale := Locale(ClassicLower, ClassicUpper)

  /** The string with every code unit replaced by its image under `f`. */
  function Mapped(s: seq<char>, f: char -> char): (r: seq<char>)
    ensures |r| == |s|
    ensures forall i :: 0 <= i < |s| ==> r[i] == f(s[i])
  {
    if s == [] then [] else [f(s[0])] + Mapped(s[1..], f)
  }

  /** `std::transform(s.begin(), s.end(), s.begin(), f)`: overwrite each code
      unit in place. */
  method Transform(s: Str, f: char -> char)
    modifies s
    ensures s.chars == Mapped(old(s.chars), f)
  {
    ghost var orig := s.chars;
    var i := 0;
    while i < |s.chars|
      invariant |s.chars| == |orig|
      invariant 0 <= i <= |orig|
      invariant forall j :: 0 <= j < i ==> s.chars[j] == f(orig[j])
      invariant forall j :: i <= j < |orig| ==> s.chars[j] == orig[j]
    {
      s.chars := s.chars[i := f(s.chars[i])];
      i := i + 1;
    }
  }

  /** `dst.resize(src.size()); std::transform(src.begin(), src.end(), dst.begin(), f)`. */
  method TransformInto(src: seq<char>, dst: Str, f: char -> char)
    modifies dst
    ensures dst.chars == Mapped(src, f)
  {
    dst.Resize(|src|);
    var i := 0;
    while i < |src|
      invariant |dst.chars| == |src|
      invariant 0 <= i <= |src|
      invariant forall j :: 0 <= j < i ==> dst.chars[j] == f(src[j])
    {
      dst.chars := dst.chars[i := f(src[i])];
      i := i + 1;
    }
  }

  /** `to_lower(s)`, in place. */
  method ToLower(s: Str, loc: Locale)
    modifies s
    ensures s.chars == Mapped(old(s.chars), loc.toLower)
  {
    Transform(s, loc.toLower);
  }

  /** `to_upper(s)`, in place. */
  method ToUpper(s: Str, loc: Locale)
    modifies s
    ensures s.chars == Mapped(old(s.chars), loc.toUpper)
  {
    Transform(s, loc.toUpper);
  }

  /** `to_lower_copy(src, dst)`. */
  method ToLowerCopyTo(src: seq<char>, dst: Str, loc: Locale)
    modifies dst
    ensures dst.chars == Mapped(src, loc.toLower)
  {
    TransformInto(src, dst, loc.toLower);
  }

  /** `to_upper_copy(src, dst)`. */
  method ToUpperCopyTo(src: seq<char>, dst: Str, loc: Locale)
    modifies dst
    ensures dst.chars == Mapped(src, loc.toUpper)
  {
    TransformInto(src, dst, loc.toUpper);
  }

  /** The value-returning `to_lower_copy(src)`. */
  method ToLowerCopy(src: seq<char>, loc: Locale) returns (r: seq<char>)
    ensures |r| == |src|
    ensures forall i :: 0 <= i < |src| ==> r[i] == loc.toLower(src[i])
  {
    var dst := new Str([]);
    ToLowerCopyTo(src, dst, loc);
    r := dst.chars;
  }

  /** The value-returning `to_upper_copy(src)`. */
  method ToUpperCopy(src: seq<char>, loc: Locale) returns (r: seq<char>)
    ensures |r| == |src|
    ensures forall i :: 0 <= i < |src| ==> r[i] == loc.toUpper(src[i])
  {
    var dst := new Str([]);
    ToUpperCopyTo(src, dst, loc);
    r := dst.chars;
  }

  /** Mapping twice is mapping once by the composition. */
  lemma {:induction false} MappedCompose(s: seq<char>, f: char -> char, g: char -> char)
    ensures Mapped(Mapped(s, f), g) == Mapped(s, c => g(f(c)))
  {
    if s != [] {
      MappedCompose(s[1..], f, g);
      assert Mapped(s, f)[1..] == Mapped(s[1..], f);
    }
  }

  /** Lowering, raising and lowering again gives the lowered string back
      whenever the locale's mappings do so code unit by code unit. */
  lemma LowerUpperLower(s: seq<char>, loc: Locale)
    requires forall c :: loc.toLower(loc.toUpper(loc.toLower(c))) == loc.toLower(c)
    ensures Mapped(Mapped(Mapped(s, loc.toLower), loc.toUpper), loc.toLower) == Mapped(s, loc.toLower)
  {
  }

  /** The classic locale satisfies that law. */
  lemma ClassicLowerUpperLower(c: char)
    ensures ClassicLower(ClassicUpper(ClassicLower(c))) == ClassicLower(c)
  {
  }

  /** In the classic locale, lowering, raising and lowering a whole string
      gives the lowered string back. */
  lemma ClassicStringLowerUpperLower(s: seq<char>)
    ensures Mapped(Mapped(Mapped(s, Classic.toLower), Classic.toUpper), Classic.toLower) == Mapped(s, Classic.toLower)
  {
    forall c ensures Classic.toLower(Classic.toUpper(Classic.toLower(c))) == Classic.toLower(c) {
      ClassicLowerUpperLower(c);
    }
    LowerUpperLower(s, Classic);
  }

  /** Examples from the library's self-test, in the classic locale. */
  lemma ToLowerExample()
    ensures Mapped("ABC def", Classic.toLower) == "abc def"
  {
  }

  lemma ToUpperExample()
    ensures Mapped("ABc DEf", Classic.toUpper) == "ABC DEF"
  {
  }
}
