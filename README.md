# String utilities: trim, compare, case conversion and split

A Dafny model of the string-operation layer of the `cx` string utilities
(`stringutils.cpp`), with proofs of what each operation computes.

- **StdString** (`std_string.dfy`): the parts of `std::basic_string` that the
  utilities use. `Str` is a string object updated in place (`operator=`,
  `erase`, `resize`, `operator+=`). `size_t` is taken to be an unsigned 64-bit
  value (it is platform-dependent; nothing proved depends on the width) with
  the `npos` sentinel, and the searches `find_first_not_of` and
  `find_last_not_of` are loops proved against their specification.
- **Trim** (`trim.dfy`): `StringTrimHelper`. `trim_start`, `trim_end` and
  `trim` work in place, and their copy variants exist both with a destination
  parameter and returning a value. The default delimiter set is
  `"\t\n\v\f\r "`. `trim_end` relies on `npos + 1` wrapping to 0, and the
  model computes that wrap explicitly.
- **CaseConv** (`case.dfy`): `StringCaseHelper`. `to_lower` and `to_upper`
  work in place through `std::transform`, or into a resized destination, or
  into a returned copy. The locale is a pair of code-unit mappings, and
  `Classic` is the ASCII-only "C" locale.
- **Compare** (`compare.dfy`): `StringCompareHelper`. It covers `equals`,
  `starts_with`, `ends_with` and `contains`, each exact or case-insensitive
  (`IsIEqual`: equal upper-case images). It also covers the C-string variants
  `cstarts_with`, `cends_with` and `ccontains` over possibly-null,
  NUL-terminated pointers.
- **Split** (`split.dfy`): `split_str` and the `split` wrappers. The code is
  one left-to-right loop with an accumulator string, modelled as a method. It
  appends to an output list (`StrList`) and is proved equal to `SplitOf`.
  `SplitOf` is defined through the raw fields between separators, the
  empty-piece filter and the per-piece trim. The lemmas about `SplitOf` prove
  two things:
  - the pieces hold no separator;
  - with both flags off, the pieces and the separators glue back into the
    input, and conversely.

## Model

| member | source | states |
|---|---|---|
| StdString.Str.constructor | stringutils.cpp:55 | a new string holds the given contents |
| StdString.Str.Assign | stringutils.cpp:49 | `dst = src` replaces the whole contents by `src` |
| StdString.Str.Erase | stringutils.cpp:62 | `erase(pos, n)` removes `min(n, size - pos)` code units at `pos` and keeps the rest in order |
| StdString.Str.Resize | stringutils.cpp:237 | `resize(n)` truncates to `n`, or pads with NUL code units up to length `n` |
| StdString.Str.Append | stringutils.cpp:518 | `dst += c` appends exactly one code unit |
| StdString.FindFirstNotOf | stringutils.cpp:62 | returns the first position whose code unit is not in the set, or `npos` exactly when every code unit is in the set |
| StdString.FindLastNotOf | stringutils.cpp:80 | returns the last position whose code unit is not in the set, or `npos` exactly when every code unit is in the set (so always for an empty string) |
| Trim.TrimStartOf | stringutils.cpp:60-63 | the kept part is a suffix, it starts with a code unit outside the set (or is empty), and everything removed is in the set |
| Trim.TrimEndOf | stringutils.cpp:78-81 | the kept part is a prefix, it ends with a code unit outside the set (or is empty), and everything removed is in the set |
| Trim.TrimCharsMembers | stringutils.cpp:33-37 | the default delimiter set holds exactly tab, newline, vertical tab, form feed, carriage return and space |
| Trim.TrimOf | stringutils.cpp:41-45 | what trim keeps is no longer than the input and, when non-empty, starts and ends with a code unit outside the set |
| Trim.TrimStartIs | stringutils.cpp:60-63 | a suffix starting at the first code unit outside the set is exactly what trim_start keeps |
| Trim.TrimEndIs | stringutils.cpp:78-81 | a prefix ending at the last code unit outside the set is exactly what trim_end keeps |
| Trim.TrimStart | stringutils.cpp:60-63 | in place via `erase(0, find_first_not_of)`, with an erase count of `npos` removing everything; the result is TrimStartOf of the old contents |
| Trim.TrimEnd | stringutils.cpp:78-81 | in place via `erase(find_last_not_of + 1)`, where `npos + 1` wraps to 0 and empties an all-delimiter string; the result is TrimEndOf of the old contents |
| Trim.Trim | stringutils.cpp:41-45 | trim_start then trim_end in place; the result is TrimOf of the old contents |
| Trim.TrimStartCopyTo | stringutils.cpp:65-69 | the destination ends up holding TrimStartOf(src) |
| Trim.TrimEndCopyTo | stringutils.cpp:83-87 | the destination ends up holding TrimEndOf(src) |
| Trim.TrimCopyTo | stringutils.cpp:47-51 | the destination ends up holding TrimOf(src) |
| Trim.TrimStartCopy | stringutils.cpp:71-76 | returns TrimStartOf(src), the same as the in-place form |
| Trim.TrimEndCopy | stringutils.cpp:89-94 | returns TrimEndOf(src), the same as the in-place form |
| Trim.TrimCopy | stringutils.cpp:53-58 | returns TrimOf(src), the same as the in-place form |
| Trim.TrimEndOfSuffix | stringutils.cpp:78-81 | trim_end of a suffix cuts it right after its last code unit outside the set |
| Trim.TrimStartOfPrefix | stringutils.cpp:60-63 | trim_start of a prefix cuts it right before its first code unit outside the set |
| Trim.TrimKeepsInterior | stringutils.cpp:41-45 | trim keeps exactly the slice from the first to the last code unit outside the set, interior delimiters included |
| Trim.TrimCommutes | stringutils.cpp:41-45 | trim_end then trim_start gives the same result as trim |
| Trim.TrimIdempotent | stringutils.cpp:41-45 | trimming a trimmed string changes nothing |
| Trim.TrimAllDelimiters | stringutils.cpp:41-45 | trim yields empty if and only if every code unit is in the set (the empty string included) |
| Trim.TrimSubset | stringutils.cpp:41-45 | every code unit trim keeps comes from the input |
| Trim.TrimExample | test.cpp:19 | `" 1 \r\n\t1\r\n\t 1 "` trims to `"1 \r\n\t1\r\n\t 1"` with the default set |
| Trim.TrimStartExample | test.cpp:40 | `" \r\n\t1\r\n\t "` trim_starts to `"1\r\n\t "` |
| Trim.TrimEndExample | test.cpp:59 | `" \r\n\t1\r\n\t "` trim_ends to `" \r\n\t1"` |
| Trim.TrimOwnSetExample | test.cpp:33 | with a caller-supplied set `" "`, `" a b "` trims to `"a b"` |
| CaseConv.ClassicLower | stringutils.cpp:204-215 | classic `tolower` changes a code unit exactly when it is 'A' to 'Z', and then to the letter 32 code points higher |
| CaseConv.ClassicUpper | stringutils.cpp:217-228 | classic `toupper` changes a code unit exactly when it is 'a' to 'z', and then to the letter 32 code points lower |
| CaseConv.Mapped | stringutils.cpp:204-228 | the mapped string has the input's length, and position `i` holds `f(s[i])` |
| CaseConv.Transform | stringutils.cpp:232 | `std::transform` in place overwrites every code unit by its image, one at a time |
| CaseConv.TransformInto | stringutils.cpp:237-238 | resizing the destination and transforming into it leaves exactly the mapped source |
| CaseConv.ToLower | stringutils.cpp:230-233 | in place, the string becomes its lower-case mapping |
| CaseConv.ToUpper | stringutils.cpp:248-251 | in place, the string becomes its upper-case mapping |
| CaseConv.ToLowerCopyTo | stringutils.cpp:235-239 | the destination holds the lower-case mapping of the source, whatever it held before |
| CaseConv.ToUpperCopyTo | stringutils.cpp:253-257 | the destination holds the upper-case mapping of the source, whatever it held before |
| CaseConv.ToLowerCopy | stringutils.cpp:241-246 | the copy has the source's length, and position `i` is `toLower(src[i])` |
| CaseConv.ToUpperCopy | stringutils.cpp:259-264 | the copy has the source's length, and position `i` is `toUpper(src[i])` |
| CaseConv.MappedCompose | stringutils.cpp:230-264 | converting twice is converting once by the composed mapping |
| CaseConv.LowerUpperLower | stringutils.cpp:230-264 | lower, then upper, then lower equals lower whenever the locale's mappings satisfy that law per code unit |
| CaseConv.ClassicLowerUpperLower | stringutils.cpp:204-228 | the classic locale satisfies that law |
| CaseConv.ClassicStringLowerUpperLower | stringutils.cpp:230-251 | in the classic locale, to_lower of to_upper of to_lower of a string is its to_lower |
| CaseConv.ToLowerExample | test.cpp:159 | `"ABC def"` lowers to `"abc def"` |
| CaseConv.ToUpperExample | test.cpp:195 | `"ABc DEf"` raises to `"ABC DEF"` |
| Compare.CharEq | stringutils.cpp:99-118 | the comparator: code-unit equality (`IsEqual`) or equal upper-case images (`IsIEqual`); equal code units match under both, and a match under either means equal upper-case images |
| Compare.RangeEqual | stringutils.cpp:125-128 | `std::equal` of `a` against the start of `b`: true when `a` is literally that prefix, and a match means equal upper-case images position by position |
| Compare.Equals | stringutils.cpp:120-129 | `equals` implies equal lengths, and equal strings are `equals` under either comparator |
| Compare.StartsWith | stringutils.cpp:131-140 | `starts_with` implies `dst` is no longer than `src`; it holds for an empty `dst` and for a literal prefix |
| Compare.EndsWith | stringutils.cpp:155-164 | `ends_with` implies `dst` is no longer than `src`, and it holds for an empty `dst` |
| Compare.MatchAt | stringutils.cpp:182-185 | the needle matches at an offset when that slice equals it literally, and the empty needle matches everywhere |
| Compare.Contains | stringutils.cpp:179-186 | `contains` as coded implies a non-empty `src` no shorter than `dst` |
| Compare.ContainsIntended | stringutils.h:311-318 | the documented `contains` holds for an empty `dst` and whenever the coded one holds |
| Compare.Reversed | stringutils.cpp:159-163 | the reverse-iterator view has the same length, and position `i` is `s[size - 1 - i]` |
| Compare.SearchFrom | stringutils.cpp:179-186 | `std::search` returns the first offset at which the needle matches, or the end; no earlier offset matches |
| Compare.EqualsExact | stringutils.cpp:120-129 | exact `equals` holds if and only if the strings are equal |
| Compare.EqualsIgnoreCase | stringutils.cpp:107-129 | case-insensitive `equals` holds if and only if the upper-cased strings are equal |
| Compare.EqualsReflexiveSymmetric | stringutils.cpp:120-129 | `equals` is reflexive and symmetric under either comparator |
| Compare.StartsWithPrefix | stringutils.cpp:131-140 | `starts_with` holds if and only if `dst` is no longer than `src` and equals its first `dst.size()` code units |
| Compare.EndsWithSuffix | stringutils.cpp:155-164 | `ends_with` holds if and only if `dst` is no longer than `src` and equals its last `dst.size()` code units, aligned at the end |
| Compare.ContainsOccurs | stringutils.cpp:179-186 | `contains` holds if and only if `dst` matches at some offset strictly before the end of `src` |
| Compare.EmptyNeedle | stringutils.cpp:131-186 | the empty string is a prefix and a suffix of everything, but `contains` finds it only in a non-empty string |
| Compare.ContainsEmptyInEmpty | stringutils.cpp:179-186 | `contains("", "")` is false as coded but true as documented |
| Compare.ContainsIntendedOccurs | stringutils.h:311-318 | the documented `contains` holds if and only if `dst` matches at some offset, so always for an empty `dst`; it differs from the coded one only on `("", "")` |
| Compare.CompareExamples | test.cpp:67-121 | `equals("AbC","abc",true)`, `!equals("ABC","abc")`, and case-sensitive against case-insensitive `starts_with`/`ends_with` |
| Compare.ContainsExample | test.cpp:132-144 | `contains("ABC DEF","c d",true)` and `!contains("ABC","C ")` |
| Compare.Strlen | stringutils.cpp:145-146 | `strlen` is the position of the first NUL |
| Compare.CString | stringutils.cpp:145-146 | the string a pointer designates holds no NUL and is the memory up to the first NUL |
| Compare.CStartsWith | stringutils.cpp:142-153 | `cstarts_with` implies two non-null pointers with `strlen(dst) <= strlen(src)`, and holds on non-null pointers whenever `dst` is empty |
| Compare.CEndsWith | stringutils.cpp:166-177 | `cends_with` implies two non-null pointers with `strlen(dst) <= strlen(src)`, and holds on non-null pointers whenever `dst` is empty |
| Compare.CContains | stringutils.cpp:188-199 | `ccontains` implies two non-null pointers and a non-empty `src` no shorter than `dst`; with an empty `dst` it holds exactly when `src` is non-empty |
| Compare.CNull | stringutils.cpp:142-199 | a null pointer on either side makes `cstarts_with`, `cends_with` and `ccontains` false |
| Compare.CStartsWithAgrees | stringutils.cpp:142-153 | on non-null pointers `cstarts_with` agrees with `starts_with` on the designated strings |
| Compare.CEndsWithAgrees | stringutils.cpp:166-177 | on non-null pointers `cends_with` agrees with `ends_with` |
| Compare.CContainsAgrees | stringutils.cpp:188-199 | on non-null pointers `ccontains` agrees with `contains`, including false for two empty strings |
| Compare.CExamples | test.cpp:97-130 | `cstarts_with("ABC","")`, cases of `cstarts_with("ABC","a")`, and `cends_with("ABC","c",true)` |
| Split.StrList.constructor | test.cpp:198 | a newly declared container is empty |
| Split.StrList.Clear | stringutils.cpp:531 | `clear()` empties the container |
| Split.StrList.PushBack | stringutils.cpp:512 | storing through the back-insert iterator appends exactly one piece |
| Split.Emit | stringutils.cpp:509-513 | a finished piece gives at most one output, and none exactly when empty pieces are excluded and the untrimmed piece is empty |
| Split.EmitAll | stringutils.cpp:504-526 | the finished pieces give no more outputs than pieces, and exactly as many without excludeEmpty |
| Split.SplitOf | stringutils.cpp:496-527 | the specification of split: an empty `s` gives no piece, there are never more pieces than raw fields, and exactly as many without excludeEmpty |
| Split.Fields | stringutils.cpp:504-522 | there is always at least one raw field |
| Split.Extend | stringutils.cpp:506-522 | one more code unit keeps at least one field |
| Split.FieldsStep | stringutils.cpp:506-522 | a separator starts a new empty field, and any other code unit extends the current one |
| Split.EmitAllSnoc | stringutils.cpp:509-513 | emitting one more finished piece appends its emission |
| Split.EmitPiece | stringutils.cpp:509-513 | unless the untrimmed piece is empty and empty pieces are excluded, the piece is trimmed if asked, appended, and the accumulator is cleared inside the loop |
| Split.SplitStr | stringutils.cpp:496-527 | the loop appends exactly SplitOf(s) to what the container already held; an empty `s` appends nothing |
| Split.SplitOfFields | stringutils.cpp:522-526 | the pieces are the emissions of the finished fields followed by that of the last field |
| Split.Split | stringutils.cpp:529-551 | `split` clears the container and leaves exactly SplitOf(s) in it |
| Split.Separators | stringutils.cpp:506-507 | every collected separator is in the separator set |
| Split.NonEmpty | stringutils.cpp:509 | no kept piece is empty |
| Split.InterleaveExtendLast | stringutils.cpp:516-519 | appending to the last field appends to the joined string |
| Split.FieldsRoundTrip | stringutils.cpp:504-522 | there is one field more than separators, no field holds a separator, and joining them with the separators gives back `s` |
| Split.EmitAllKeeps | stringutils.cpp:509-513 | with both flags off every piece is emitted unchanged |
| Split.EmitAllExcludes | stringutils.cpp:509-513 | with excludeEmpty and no trim exactly the non-empty pieces are emitted, in order |
| Split.TrimmedPiecesAppend | stringutils.cpp:511 | piecewise trimming is preserved by concatenation |
| Split.EmitAllTrims | stringutils.cpp:509-513 | trimming changes each emitted piece into its trim and never changes which pieces are emitted |
| Split.TrimNoSeparator | stringutils.cpp:511 | trimming a piece cannot introduce a separator |
| Split.EmitAllNoSeparator | stringutils.cpp:509-526 | no emitted piece holds a separator when no field does |
| Split.SplitRoundTrip | stringutils.cpp:496-527 | for a non-empty `s` with both flags off, the pieces are the raw fields, one more than the separators, and they join back into `s` |
| Split.SplitCount | stringutils.cpp:496-527 | for a non-empty `s` without excludeEmpty there is one piece more than separators, trimmed or not |
| Split.SplitNoSeparator | stringutils.cpp:496-527 | no piece holds a separator code unit, for all flag settings |
| Split.SplitExcludeEmpty | stringutils.cpp:509 | with excludeEmpty and no trimming, the pieces of a non-empty `s` are its non-empty raw fields in order, and for every `s` none is empty |
| Split.SplitTrim | stringutils.cpp:511 | with trimStr the pieces are the untrimmed pieces, each trimmed, with the same count |
| Split.FieldsOfPlain | stringutils.cpp:516-519 | a string without separators is a single field |
| Split.ExtendAppend | stringutils.cpp:506-522 | extending only touches the last field |
| Split.SeparatorsAppend | stringutils.cpp:506-507 | the separators of a concatenation are the separators of each part |
| Split.FieldsAppendSep | stringutils.cpp:506-515 | a separator cuts the fields into those before it and those after it |
| Split.FieldsOfInterleave | stringutils.cpp:504-522 | converse round trip: splitting fields joined by separators gives back the fields |
| Split.FieldsCutLast | stringutils.cpp:506-522 | a separator followed by a plain piece adds exactly that piece as a field |
| Split.SeparatorsOfInterleave | stringutils.cpp:506-507 | converse round trip: the separators of the joined string are the ones joined in |
| Split.InterleaveSnoc | stringutils.cpp:504-522 | joining one more field appends the separator and the field |
| Split.InterleaveTwo | stringutils.cpp:504-522 | joining two fields |
| Split.InterleaveThree | stringutils.cpp:504-522 | joining three fields |
| Split.InterleaveFour | stringutils.cpp:504-522 | joining four fields |
| Split.InterleaveFive | stringutils.cpp:504-522 | joining five fields |
| Split.SplitFour | stringutils.cpp:496-527 | four plain pieces joined by a separator split back into those four |
| Split.SplitFive | stringutils.cpp:496-527 | five plain pieces joined by a separator split back into those five |
| Split.FieldsHead | stringutils.cpp:506-522 | a plain piece followed by a separator is the first field |
| Split.SplitExample | test.cpp:199-203 | `"1,2,3,4"` splits into `"1","2","3","4"` |
| Split.SplitSpaceKeptExample | test.cpp:205-206 | without trimming the second piece of `"1, 2,3,4"` keeps its space |
| Split.SplitUntrimmedExample | test.cpp:208 | before trimming, `"1, 2\r\n\t ,3,4"` splits into four pieces whose second keeps its whitespace |
| Split.TrimPieceExample | test.cpp:208-209 | that second piece trims to `"2"` |
| Split.SplitTrimAt | stringutils.cpp:511 | piece `i` of the trimmed split is the trim of piece `i` of the untrimmed split |
| Split.SplitTrimExample | test.cpp:208-209 | with trimming, `"1, 2\r\n\t ,3,4"` has four pieces, and the second is the trimmed `" 2\r\n\t "` |
| Split.SplitLeadingSeparatorExample | test.cpp:211-213 | a leading separator yields an empty first piece |
| Split.SplitEmptyFieldExample | test.cpp:215-216 | `"1,,2,3,4"` has an empty second piece |
| Split.NonEmptySnoc | stringutils.cpp:509 | filtering one more piece keeps it exactly when it is non-empty |
| Split.NonEmptyDropsSecond | stringutils.cpp:509 | with excludeEmpty, an empty second piece is dropped |
| Split.SplitExcludeEmptyExample | test.cpp:218-219 | with excludeEmpty, `"1,,2,3,4"` splits into `"1","2","3","4"` |
| Split.EmitAllAppend | stringutils.cpp:509-513 | emission distributes over concatenation of pieces |
| Split.BlankPieceKept | stringutils.cpp:509-511 | excludeEmpty is decided before trimming, so a blank non-empty piece is kept and emitted empty |
| Split.SplitBlankPieceExample | stringutils.cpp:509-511 | with both flags set, `" ,a"` still yields an empty first piece |

## Left out

- The `format`, `format_args` and `format_to_buffer` family (stringutils.cpp:553-615) is not modelled. It delegates to C varargs formatting into raw buffers.
- Locale case tables are not modelled. The locale is a pair of arbitrary code-unit mappings. Only the classic ASCII locale is spelled out, and it is used by the examples.
- Narrow and wide strings are not modelled separately. Both code-unit types are `char`, because the templates are identical. Dafny's `char` is a Unicode scalar value, so a wide string holding a lone UTF-16 surrogate cannot be represented; the operations treat code units opaquely, so nothing here depends on it.
- `size_t` is assumed to be 64 bits wide. The `npos + 1` wrap and the length bound behave the same at 32 bits.
- `std::vector` and `std::list` outputs are not modelled separately. Both are one `StrList`, because the four `split` wrappers differ only in the container type.
- The public overloads (stringutils.cpp:268-493) are not modelled as separate members. They only forward to the helpers, with the default delimiter set where none is given. The model's members take the delimiter set and locale as parameters. The redundant length check in the public `equals` does not change the result.
- Trim.TrimStart, Trim.TrimEnd, Split.SplitStr and the other methods over `Str` require a length below `npos`. A real string's `max_size()` is below `npos`. The model does not represent a `length_error` or `bad_alloc`.
- `erase` with a position past the end throws `out_of_range`. StdString.Str.Erase requires a valid position instead, and every caller passes one.
- Aliasing between a source `const` reference and the destination string is not modelled. Sources are values.
- The C-string tests read caller memory through `strlen`. A non-null pointer is required to reach a NUL. Behaviour on unterminated memory is undefined in the source and not modelled.
- The output iterator of `split_str` is modelled only as the back-insert iterator the wrappers pass in.

## Findings

| source | as written | input that shows it | evidently intended | confidence | as-written member | corrected member |
|---|---|---|---|---|---|---|
| stringutils.cpp:179-186 | `contains` compares the result of `std::search` with `src.end()`, and for an empty needle `std::search` returns `src.begin()` | `contains("", "")` is false | stringutils.h:316 documents true whenever the second string is empty | not executed | Compare.ContainsEmptyInEmpty | Compare.ContainsIntendedOccurs |
| stringutils.cpp:188-199 | `ccontains` compares the result of `std::search` with `src + srcLen` in the same way | `ccontains("", "")` is false | the same documented contract as `contains` | not executed | Compare.CContainsAgrees | Compare.ContainsIntendedOccurs |
