/**
 Splitting (split_str and the split wrappers): one left-to-right scan that
 cuts the input at every code unit belonging to the separator set, drops
 empty pieces if asked to (deciding on the untrimmed piece) and trims each
 emitted piece with the default delimiter set if asked to.
 */
module Split {
  import opened StdString
  import opened Trim

  /** The output container (`std::vector` or `std::list`), filled through a
      back-insert iterator. */
  class StrList {
    var items: seq<seq<char>>

    constructor ()
      ensures items == []
    {
      items := [];
    }

    /** `clear()`. */
    method Clear()
      modifies this
      ensures items == []
    {
      items := [];
    }

    /** `*iter = piece` on a `back_insert_iterator`: `push_back(piece)`. */
    method PushBack(piece: seq<char>)
      modifies this
      ensures items == old(items) + [piece]
    {
      items := items + [piece];
    }
  }

  /** The raw fields of `s`: the maximal runs between separator code units,
      one more than there are separators. */
  function Fields(s: seq<char>, sep: seq<char>): (r: seq<seq<char>>)
    ensures |r| >= 1
    decreases |s|
  {
    if s == [] then [[]] else Extend(Fields(s[..|s| - 1], sep), s[|s| - 1], sep)
  }

  /** The fields after one more code unit `c`: a separator opens a new, empty
      field; anything else is appended to the last field. */
  function Extend(f: seq<seq<char>>, c: char, sep: seq<char>): (r: seq<seq<char>>)
    requires |f| >= 1
    ensures |r| >= 1
  {
    if c in sep then f + [[]] else f[..|f| - 1] + [f[|f| - 1] + [c]]
  }

  /** What the loop emits for one finished piece. */
  function Emit(piece: seq<char>, excludeEmpty: bool, trimStr: bool): (r: seq<seq<char>>)
    ensures |r| <= 1
    ensures r == [] <==> excludeEmpty && piece == []
  {
    if !excludeEmpty || |piece| > 0 then [if trimStr then TrimOf(piece, TrimChars) else piece]
    else []
  }

  /** What the loop emits for a sequence of finished pieces, in order. */
  function EmitAll(pieces: seq<seq<char>>, excludeEmpty: bool, trimStr: bool): (r: seq<seq<char>>)
    ensures |r| <= |pieces|
    ensures !excludeEmpty ==> |r| == |pieces|
  {
    if pieces == [] then []
    else EmitAll(pieces[..|pieces| - 1], excludeEmpty, trimStr) + Emit(pieces[|pieces| - 1], excludeEmpty, trimStr)
  }

  /** The result of `split(s, sep, out, excludeEmpty, trimStr)`; an empty `s`
      never enters the loop and gives no piece at all. */
  function SplitOf(s: seq<char>, sep: seq<char>, excludeEmpty: bool, trimStr: bool): (r: seq<seq<char>>)
    ensures s == [] ==> r == []
    ensures s != [] && !excludeEmpty ==> |r| == |Fields(s, sep)|
    ensures |r| <= |Fields(s, sep)|
  {
    if s == [] then [] else EmitAll(Fields(s, sep), excludeEmpty, trimStr)
  }

  /** One more code unit: a separator starts a new field, anything else
      extends the last one. */
  lemma FieldsStep(s: seq<char>, sep: seq<char>, i: nat, done: seq<seq<char>>, last: seq<char>)
    requires i < |s|
    requires Fields(s[..i], sep) == done + [last]
    ensures s[i] in sep ==> Fields(s[..i + 1], sep) == done + [last] + [[]]
    ensures s[i] !in sep ==> Fields(s[..i + 1], sep) == done + [last + [s[i]]]
  {
    assert s[..i + 1][..i] == s[..i];
    var f := done + [last];
    assert f[..|f| - 1] == done;
  }

  /** Emitting one more finished piece. */
  lemma EmitAllSnoc(pieces: seq<seq<char>>, piece: seq<char>, excludeEmpty: bool, trimStr: bool)
    ensures EmitAll(pieces + [piece], excludeEmpty, trimStr) ==
      EmitAll(pieces, excludeEmpty, trimStr) + Emit(piece, excludeEmpty, trimStr)
  {
    assert (pieces + [piece])[..|pieces|] == pieces;
  }

  /** Concatenation regroups (the solver does not find this on its own for
      sequences of strings). */
  lemma Assoc<T>(a: seq<T>, b: seq<T>, c: seq<T>)
    ensures a + (b + c) == a + b + c
  {
  }

  /** The block split_str runs for a finished piece: unless it is empty and
      empty pieces are excluded, trim it if asked to, emit it and, inside the
      loop (`reset`), clear the accumulator. */
  method EmitPiece(dst: Str, out: StrList, excludeEmpty: bool, trimStr: bool, reset: bool)
    requires |dst.chars| < NPOS
    modifies dst, out
    ensures out.items == old(out.items) + Emit(old(dst.chars), excludeEmpty, trimStr)
    ensures reset ==> dst.chars == []
  {
    if !excludeEmpty || |dst.chars| > 0 {
      if trimStr {
        Trim.Trim(dst, TrimChars);
      }
      out.PushBack(dst.chars);
      if reset {
        dst.Resize(0);
      }
    }
  }

  /** `split_str(s, iter, sep, excludeEmpty, trimStr)`: appends the pieces to
      `out`. */
  method SplitStr(s: seq<char>, out: StrList, sep: seq<char>, excludeEmpty: bool, trimStr: bool)
    requires |s| < NPOS
    modifies out
    ensures out.items == old(out.items) + SplitOf(s, sep, excludeEmpty, trimStr)
  {
    var dst := new Str([]);
    if |s| == 0 {
      return;
    }
    ghost var done: seq<seq<char>> := [];
    var i := 0;
    assert s[..0] == [];
    while i < |s|
      invariant 0 <= i <= |s|
      invariant Fields(s[..i], sep) == done + [dst.chars]
      invariant |dst.chars| <= i
      invariant out.items == old(out.items) + EmitAll(done, excludeEmpty, trimStr)
    {
      ghost var last := dst.chars;
      FieldsStep(s, sep, i, done, last);
      if s[i] in sep {
        EmitAllSnoc(done, last, excludeEmpty, trimStr);
        Assoc(old(out.items), EmitAll(done, excludeEmpty, trimStr), Emit(last, excludeEmpty, trimStr));
        EmitPiece(dst, out, excludeEmpty, trimStr, true);
        done := done + [last];
      } else {
        dst.Append(s[i]);
      }
      i := i + 1;
    }
    assert s[..i] == s;
    SplitOfFields(s, sep, done, dst.chars, excludeEmpty, trimStr);
    Assoc(old(out.items), EmitAll(done, excludeEmpty, trimStr), Emit(dst.chars, excludeEmpty, trimStr));
    EmitPiece(dst, out, excludeEmpty, trimStr, false);
  }

  /** SplitOf in terms of the finished pieces and the last one. */
  lemma SplitOfFields(s: seq<char>, sep: seq<char>, done: seq<seq<char>>, last: seq<char>, excludeEmpty: bool, trimStr: bool)
    requires s != [] && Fields(s, sep) == done + [last]
    ensures SplitOf(s, sep, excludeEmpty, trimStr) == EmitAll(done, excludeEmpty, trimStr) + Emit(last, excludeEmpty, trimStr)
  {
    EmitAllSnoc(done, last, excludeEmpty, trimStr);
  }

  /** `split(s, sep, out, excludeEmpty, trimStr)`: clears `out`, then fills it. */
  method Split(s: seq<char>, sep: seq<char>, out: StrList, excludeEmpty: bool, trimStr: bool)
    requires |s| < NPOS
    modifies out
    ensures out.items == SplitOf(s, sep, excludeEmpty, trimStr)
  {
    out.Clear();
    SplitStr(s, out, sep, excludeEmpty, trimStr);
  }

  /** The separator code units of `s`, in order. */
  function Separators(s: seq<char>, sep: seq<char>): (r: seq<char>)
    ensures forall k :: 0 <= k < |r| ==> r[k] in sep
    decreases |s|
  {
    if s == [] then []
    else Separators(s[..|s| - 1], sep) + (if s[|s| - 1] in sep then [s[|s| - 1]] else [])
  }

  /** Fields glued back together, each separator between the two fields it
      ended and started. */
  function Interleave(fields: seq<seq<char>>, seps: seq<char>): (r: seq<char>)
    requires |fields| == |seps| + 1
    decreases |seps|
  {
    if seps == [] then fields[0]
    else Interleave(fields[..|fields| - 1], seps[..|seps| - 1]) + [seps[|seps| - 1]] + fields[|fields| - 1]
  }

  predicate NoSeparator(piece: seq<char>, sep: seq<char>) {
    forall j :: 0 <= j < |piece| ==> piece[j] !in sep
  }

  /** The non-empty pieces, in order. */
  function NonEmpty(pieces: seq<seq<char>>): (r: seq<seq<char>>)
    ensures forall i :: 0 <= i < |r| ==> r[i] != []
  {
    if pieces == [] then []
    else NonEmpty(pieces[..|pieces| - 1]) + (if pieces[|pieces| - 1] != [] then [pieces[|pieces| - 1]] else [])
  }

  /** Appending to the last field appends to the joined string. */
  lemma InterleaveExtendLast(fields: seq<seq<char>>, seps: seq<char>, c: char)
    requires |fields| == |seps| + 1
    ensures Interleave(fields[..|fields| - 1] + [fields[|fields| - 1] + [c]], seps) == Interleave(fields, seps) + [c]
  {
    var g := fields[..|fields| - 1] + [fields[|fields| - 1] + [c]];
    if seps != [] {
      assert g[..|g| - 1] == fields[..|fields| - 1];
    }
  }

  /** The fields of `s` are one more than its separators, none of them holds
      a separator, and putting the separators back between them gives `s`. */
  lemma {:induction false} FieldsRoundTrip(s: seq<char>, sep: seq<char>)
    ensures |Fields(s, sep)| == |Separators(s, sep)| + 1
    ensures Interleave(Fields(s, sep), Separators(s, sep)) == s
    ensures forall i :: 0 <= i < |Fields(s, sep)| ==> NoSeparator(Fields(s, sep)[i], sep)
    decreases |s|
  {
    if s != [] {
      var p := s[..|s| - 1];
      var c := s[|s| - 1];
      FieldsRoundTrip(p, sep);
      var f := Fields(p, sep);
      var q := Separators(p, sep);
      assert s == p + [c];
      if c in sep {
        assert Fields(s, sep) == f + [[]];
        assert Separators(s, sep) == q + [c];
        assert (f + [[]])[..|f|] == f;
        assert (q + [c])[..|q|] == q;
      } else {
        assert Fields(s, sep) == f[..|f| - 1] + [f[|f| - 1] + [c]];
        assert Separators(s, sep) == q;
        InterleaveExtendLast(f, q, c);
        assert NoSeparator(f[|f| - 1], sep);
      }
    }
  }

  /** Without either flag every field is emitted as it is. */
  lemma {:induction false} EmitAllKeeps(pieces: seq<seq<char>>)
    ensures EmitAll(pieces, false, false) == pieces
  {
    if pieces != [] {
      EmitAllKeeps(pieces[..|pieces| - 1]);
    }
  }

  /** Excluding empty pieces without trimming emits exactly the non-empty fields. */
  lemma {:induction false} EmitAllExcludes(pieces: seq<seq<char>>)
    ensures EmitAll(pieces, true, false) == NonEmpty(pieces)
  {
    if pieces != [] {
      EmitAllExcludes(pieces[..|pieces| - 1]);
    }
  }

  /** `t` is `u` with every piece trimmed by the default delimiters. */
  predicate TrimmedPieces(t: seq<seq<char>>, u: seq<seq<char>>) {
    |t| == |u| && forall i :: 0 <= i < |t| ==> t[i] == TrimOf(u[i], TrimChars)
  }

  lemma TrimmedPiecesAppend(t: seq<seq<char>>, u: seq<seq<char>>, t': seq<seq<char>>, u': seq<seq<char>>)
    requires TrimmedPieces(t, u) && TrimmedPieces(t', u')
    ensures TrimmedPieces(t + t', u + u')
  {
    forall i | 0 <= i < |t + t'|
      ensures (t + t')[i] == TrimOf((u + u')[i], TrimChars)
    {
      if i < |t| {
        assert (t + t')[i] == t[i] && (u + u')[i] == u[i];
      } else {
        assert (t + t')[i] == t'[i - |t|] && (u + u')[i] == u'[i - |t|];
      }
    }
  }

  /** Trimming changes each emitted piece and nothing else: the trimmed
      output is the untrimmed one with every piece trimmed. */
  lemma {:induction false} EmitAllTrims(pieces: seq<seq<char>>, excludeEmpty: bool)
    ensures TrimmedPieces(EmitAll(pieces, excludeEmpty, true), EmitAll(pieces, excludeEmpty, false))
  {
    if pieces != [] {
      var init := pieces[..|pieces| - 1];
      var last := pieces[|pieces| - 1];
      EmitAllTrims(init, excludeEmpty);
      assert TrimmedPieces(Emit(last, excludeEmpty, true), Emit(last, excludeEmpty, false));
      TrimmedPiecesAppend(EmitAll(init, excludeEmpty, true), EmitAll(init, excludeEmpty, false),
                          Emit(last, excludeEmpty, true), Emit(last, excludeEmpty, false));
    }
  }

  /** Trimming cannot bring in a separator. */
  lemma TrimNoSeparator(piece: seq<char>, sep: seq<char>)
    requires NoSeparator(piece, sep)
    ensures NoSeparator(TrimOf(piece, TrimChars), sep)
  {
    var t := TrimOf(piece, TrimChars);
    TrimSubset(piece, TrimChars);
    forall j | 0 <= j < |t| ensures t[j] !in sep {
      assert t[j] in t;
    }
  }

  /** Emitting cannot bring in a separator either. */
  lemma {:induction false} EmitAllNoSeparator(pieces: seq<seq<char>>, sep: seq<char>, excludeEmpty: bool, trimStr: bool)
    requires forall i :: 0 <= i < |pieces| ==> NoSeparator(pieces[i], sep)
    ensures forall i :: 0 <= i < |EmitAll(pieces, excludeEmpty, trimStr)| ==>
      NoSeparator(EmitAll(pieces, excludeEmpty, trimStr)[i], sep)
  {
    if pieces != [] {
      var last := pieces[|pieces| - 1];
      EmitAllNoSeparator(pieces[..|pieces| - 1], sep, excludeEmpty, trimStr);
      if trimStr {
        TrimNoSeparator(last, sep);
      }
    }
  }

  /** Without either flag the pieces are the fields: one more than the
      separators, and joining them with those separators gives the input back. */
  lemma SplitRoundTrip(s: seq<char>, sep: seq<char>)
    requires s != []
    ensures SplitOf(s, sep, false, false) == Fields(s, sep)
    ensures |SplitOf(s, sep, false, false)| == |Separators(s, sep)| + 1
    ensures Interleave(SplitOf(s, sep, false, false), Separators(s, sep)) == s
  {
    EmitAllKeeps(Fields(s, sep));
    FieldsRoundTrip(s, sep);
  }

  /** Unless empty pieces are excluded, a non-empty input gives one piece more
      than it has separators, trimmed or not. */
  lemma SplitCount(s: seq<char>, sep: seq<char>, trimStr: bool)
    requires s != []
    ensures |SplitOf(s, sep, false, trimStr)| == |Separators(s, sep)| + 1
  {
    SplitRoundTrip(s, sep);
    EmitAllTrims(Fields(s, sep), false);
  }

  /** No piece holds a separator, whatever the flags. */
  lemma SplitNoSeparator(s: seq<char>, sep: seq<char>, excludeEmpty: bool, trimStr: bool)
    ensures forall i :: 0 <= i < |SplitOf(s, sep, excludeEmpty, trimStr)| ==>
      NoSeparator(SplitOf(s, sep, excludeEmpty, trimStr)[i], sep)
  {
    if s != [] {
      FieldsRoundTrip(s, sep);
      EmitAllNoSeparator(Fields(s, sep), sep, excludeEmpty, trimStr);
    }
  }

  /** Excluding empty pieces without trimming keeps exactly the non-empty
      fields, in order; so no piece is empty. */
  lemma SplitExcludeEmpty(s: seq<char>, sep: seq<char>)
    ensures s != [] ==> SplitOf(s, sep, true, false) == NonEmpty(Fields(s, sep))
    ensures forall i :: 0 <= i < |SplitOf(s, sep, true, false)| ==> SplitOf(s, sep, true, false)[i] != []
  {
    if s != [] {
      EmitAllExcludes(Fields(s, sep));
    }
  }

  /** Trimming is applied piece by piece to what the split without trimming
      gives; in particular it never changes how many pieces there are. */
  lemma SplitTrim(s: seq<char>, sep: seq<char>, excludeEmpty: bool)
    ensures |SplitOf(s, sep, excludeEmpty, true)| == |SplitOf(s, sep, excludeEmpty, false)|
    ensures forall i :: 0 <= i < |SplitOf(s, sep, excludeEmpty, true)| ==>
      SplitOf(s, sep, excludeEmpty, true)[i] == TrimOf(SplitOf(s, sep, excludeEmpty, false)[i], TrimChars)
  {
    if s != [] {
      EmitAllTrims(Fields(s, sep), excludeEmpty);
    }
  }

  /** A string without separators is a single field. */
  lemma {:induction false} FieldsOfPlain(a: seq<char>, sep: seq<char>)
    requires NoSeparator(a, sep)
    ensures Fields(a, sep) == [a]
    ensures Separators(a, sep) == []
    decreases |a|
  {
    if a != [] {
      FieldsOfPlain(a[..|a| - 1], sep);
      assert a[..|a| - 1] + [a[|a| - 1]] == a;
    }
  }

  /** Extending never touches fields before the last one. */
  lemma ExtendAppend(fa: seq<seq<char>>, fb: seq<seq<char>>, c: char, sep: seq<char>)
    requires |fb| >= 1
    ensures Extend(fa + fb, c, sep) == fa + Extend(fb, c, sep)
  {
    var f := fa + fb;
    if c in sep {
      Assoc(fa, fb, [[]]);
    } else {
      assert f[..|f| - 1] == fa + fb[..|fb| - 1];
      Assoc(fa, fb[..|fb| - 1], [fb[|fb| - 1] + [c]]);
    }
  }

  /** The separators of a concatenation are those of its parts. */
  lemma {:induction false} SeparatorsAppend(x: seq<char>, y: seq<char>, sep: seq<char>)
    ensures Separators(x + y, sep) == Separators(x, sep) + Separators(y, sep)
    decreases |y|
  {
    if y == [] {
      assert x + y == x;
    } else {
      var y' := y[..|y| - 1];
      var w := x + y;
      SeparatorsAppend(x, y', sep);
      assert w[..|w| - 1] == x + y';
      Assoc(Separators(x, sep), Separators(y', sep), if y[|y| - 1] in sep then [y[|y| - 1]] else []);
    }
  }

  /** A separator between `a` and `b` is a cut: the fields of the whole are
      those of `a` followed by those of `b`. */
  lemma {:induction false} FieldsAppendSep(a: seq<char>, c: char, b: seq<char>, sep: seq<char>)
    requires c in sep
    ensures Fields(a + [c] + b, sep) == Fields(a, sep) + Fields(b, sep)
    decreases |b|
  {
    var w := a + [c] + b;
    if b == [] {
      assert w[..|w| - 1] == a;
      assert Fields(w, sep) == Extend(Fields(a, sep), c, sep);
    } else {
      var b' := b[..|b| - 1];
      var d := b[|b| - 1];
      FieldsAppendSep(a, c, b', sep);
      assert w[..|w| - 1] == a + [c] + b';
      assert w[|w| - 1] == d;
      assert Fields(w, sep) == Extend(Fields(a, sep) + Fields(b', sep), d, sep);
      assert Fields(b, sep) == Extend(Fields(b', sep), d, sep);
      ExtendAppend(Fields(a, sep), Fields(b', sep), d, sep);
    }
  }

  /** The converse round trip: fields free of separators, joined by
      separator code units, split back into exactly those fields. */
  lemma {:induction false} FieldsOfInterleave(fields: seq<seq<char>>, seps: seq<char>, sep: seq<char>)
    requires |fields| == |seps| + 1
    requires forall i :: 0 <= i < |fields| ==> NoSeparator(fields[i], sep)
    requires forall k :: 0 <= k < |seps| ==> seps[k] in sep
    ensures Fields(Interleave(fields, seps), sep) == fields
    decreases |seps|
  {
    if seps == [] {
      FieldsOfPlain(fields[0], sep);
    } else {
      var init := fields[..|fields| - 1];
      var last := fields[|fields| - 1];
      var x := Interleave(init, seps[..|seps| - 1]);
      FieldsOfInterleave(init, seps[..|seps| - 1], sep);
      FieldsCutLast(x, seps[|seps| - 1], last, init, sep);
      assert init + [last] == fields;
    }
  }

  /** The last step of FieldsOfInterleave. */
  lemma FieldsCutLast(x: seq<char>, c: char, last: seq<char>, init: seq<seq<char>>, sep: seq<char>)
    requires c in sep && NoSeparator(last, sep)
    requires Fields(x, sep) == init
    ensures Fields(x + [c] + last, sep) == init + [last]
  {
    FieldsAppendSep(x, c, last, sep);
    FieldsOfPlain(last, sep);
  }

  /** ... and the separators that split finds are exactly the ones put in. */
  lemma {:induction false} SeparatorsOfInterleave(fields: seq<seq<char>>, seps: seq<char>, sep: seq<char>)
    requires |fields| == |seps| + 1
    requires forall i :: 0 <= i < |fields| ==> NoSeparator(fields[i], sep)
    requires forall k :: 0 <= k < |seps| ==> seps[k] in sep
    ensures Separators(Interleave(fields, seps), sep) == seps
    decreases |seps|
  {
    if seps == [] {
      FieldsOfPlain(fields[0], sep);
    } else {
      var init := fields[..|fields| - 1];
      var last := fields[|fields| - 1];
      var c := seps[|seps| - 1];
      var x := Interleave(init, seps[..|seps| - 1]);
      SeparatorsOfInterleave(init, seps[..|seps| - 1], sep);
      assert Interleave(fields, seps) == x + [c] + last;
      SeparatorsAppend(x + [c], last, sep);
      SeparatorsAppend(x, [c], sep);
      assert [c][..0] == [];
      assert Separators([c], sep) == [c];
      FieldsOfPlain(last, sep);
      assert seps[..|seps| - 1] + [c] == seps;
    }
  }

  /** Joining one more field. */
  lemma InterleaveSnoc(fields: seq<seq<char>>, seps: seq<char>, c: char, p: seq<char>)
    requires |fields| == |seps| + 1
    ensures Interleave(fields + [p], seps + [c]) == Interleave(fields, seps) + [c] + p
  {
    assert (fields + [p])[..|fields|] == fields;
    assert (seps + [c])[..|seps|] == seps;
  }

  /** Two, three and four fields joined by the same separator. */
  lemma InterleaveTwo(a: seq<char>, b: seq<char>, x: char)
    ensures Interleave([a, b], [x]) == a + [x] + b
  {
    assert [a, b][..1] == [a] && [x][..0] == [];
  }

  lemma InterleaveThree(a: seq<char>, b: seq<char>, c: seq<char>, x: char)
    ensures Interleave([a, b, c], [x, x]) == a + [x] + b + [x] + c
  {
    InterleaveTwo(a, b, x);
    InterleaveSnoc([a, b], [x], x, c);
    assert [a, b] + [c] == [a, b, c] && [x] + [x] == [x, x];
  }

  lemma InterleaveFour(a: seq<char>, b: seq<char>, c: seq<char>, d: seq<char>, x: char)
    ensures Interleave([a, b, c, d], [x, x, x]) == a + [x] + b + [x] + c + [x] + d
  {
    InterleaveThree(a, b, c, x);
    InterleaveSnoc([a, b, c], [x, x], x, d);
    assert [a, b, c] + [d] == [a, b, c, d] && [x, x] + [x] == [x, x, x];
  }

  /** Five fields joined by the same separator. */
  lemma InterleaveFive(a: seq<char>, b: seq<char>, c: seq<char>, d: seq<char>, e: seq<char>, x: char)
    ensures Interleave([a, b, c, d, e], [x, x, x, x]) == a + [x] + b + [x] + c + [x] + d + [x] + e
  {
    InterleaveFour(a, b, c, d, x);
    InterleaveSnoc([a, b, c, d], [x, x, x], x, e);
    assert [a, b, c, d] + [e] == [a, b, c, d, e] && [x, x, x] + [x] == [x, x, x, x];
  }

  /** Four fields free of separators, joined by the separator `x`, split
      back into those four fields. */
  lemma SplitFour(a: seq<char>, b: seq<char>, c: seq<char>, d: seq<char>, x: char, sep: seq<char>)
    requires x in sep
    requires NoSeparator(a, sep) && NoSeparator(b, sep) && NoSeparator(c, sep) && NoSeparator(d, sep)
    ensures SplitOf(a + [x] + b + [x] + c + [x] + d, sep, false, false) == [a, b, c, d]
  {
    InterleaveFour(a, b, c, d, x);
    FieldsOfInterleave([a, b, c, d], [x, x, x], sep);
    SplitRoundTrip(a + [x] + b + [x] + c + [x] + d, sep);
  }

  /** Five fields free of separators, joined by the separator `x`. */
  lemma SplitFive(a: seq<char>, b: seq<char>, c: seq<char>, d: seq<char>, e: seq<char>, x: char, sep: seq<char>)
    requires x in sep
    requires NoSeparator(a, sep) && NoSeparator(b, sep) && NoSeparator(c, sep)
    requires NoSeparator(d, sep) && NoSeparator(e, sep)
    ensures SplitOf(a + [x] + b + [x] + c + [x] + d + [x] + e, sep, false, false) == [a, b, c, d, e]
  {
    InterleaveFive(a, b, c, d, e, x);
    FieldsOfInterleave([a, b, c, d, e], [x, x, x, x], sep);
    SplitRoundTrip(a + [x] + b + [x] + c + [x] + d + [x] + e, sep);
  }

  /** One field free of separators, a separator, and the rest. */
  lemma FieldsHead(a: seq<char>, x: char, rest: seq<char>, sep: seq<char>)
    requires x in sep && NoSeparator(a, sep)
    ensures Fields(a + [x] + rest, sep) == [a] + Fields(rest, sep)
  {
    FieldsAppendSep(a, x, rest, sep);
    FieldsOfPlain(a, sep);
  }

  /** Examples from the library's self-test (test.cpp). */
  lemma SplitExample()
    ensures SplitOf("1,2,3,4", ",", false, false) == ["1", "2", "3", "4"]
  {
    SplitFour("1", "2", "3", "4", ',', ",");
    assert "1,2,3,4" == "1" + [','] + "2" + [','] + "3" + [','] + "4";
  }

  lemma SplitSpaceKeptExample()
    ensures SplitOf("1, 2,3,4", ",", false, false)[1] == " 2"
  {
    SplitFour("1", " 2", "3", "4", ',', ",");
    assert "1, 2,3,4" == "1" + [','] + " 2" + [','] + "3" + [','] + "4";
  }

  lemma SplitUntrimmedExample()
    ensures SplitOf("1, 2\r\n\t ,3,4", ",", false, false) == ["1", " 2\r\n\t ", "3", "4"]
  {
    SplitFour("1", " 2\r\n\t ", "3", "4", ',', ",");
    assert "1, 2\r\n\t ,3,4" == "1" + [','] + " 2\r\n\t " + [','] + "3" + [','] + "4";
  }

  /** The second piece of the trimming self-test example. */
  lemma TrimPieceExample()
    ensures TrimOf(" 2\r\n\t ", TrimChars) == "2"
  {
    TrimKeepsInterior(" 2\r\n\t ", TrimChars, 1, 1);
  }

  /** One instance of SplitTrim. */
  lemma SplitTrimAt(s: seq<char>, sep: seq<char>, excludeEmpty: bool, i: nat)
    requires i < |SplitOf(s, sep, excludeEmpty, false)|
    ensures |SplitOf(s, sep, excludeEmpty, true)| == |SplitOf(s, sep, excludeEmpty, false)|
    ensures SplitOf(s, sep, excludeEmpty, true)[i] == TrimOf(SplitOf(s, sep, excludeEmpty, false)[i], TrimChars)
  {
    SplitTrim(s, sep, excludeEmpty);
  }

  /** With trimming, the second piece is the trimmed " 2\r\n\t ", which
      TrimPieceExample shows to be "2". */
  lemma SplitTrimExample()
    ensures |SplitOf("1, 2\r\n\t ,3,4", ",", false, true)| == 4
    ensures SplitOf("1, 2\r\n\t ,3,4", ",", false, true)[1] == TrimOf(" 2\r\n\t ", TrimChars)
  {
    SplitUntrimmedExample();
    SplitTrimAt("1, 2\r\n\t ,3,4", ",", false, 1);
  }

  lemma SplitLeadingSeparatorExample()
    ensures SplitOf(",1,2,3,4", ",", false, false) == ["", "1", "2", "3", "4"]
  {
    SplitFive("", "1", "2", "3", "4", ',', ",");
    assert ",1,2,3,4" == "" + [','] + "1" + [','] + "2" + [','] + "3" + [','] + "4";
  }

  lemma SplitEmptyFieldExample()
    ensures SplitOf("1,,2,3,4", ",", false, false) == ["1", "", "2", "3", "4"]
  {
    SplitFive("1", "", "2", "3", "4", ',', ",");
    assert "1,,2,3,4" == "1" + [','] + "" + [','] + "2" + [','] + "3" + [','] + "4";
  }

  /** Filtering one more piece. */
  lemma NonEmptySnoc(pieces: seq<seq<char>>, p: seq<char>)
    ensures NonEmpty(pieces + [p]) == NonEmpty(pieces) + (if p != [] then [p] else [])
  {
    assert (pieces + [p])[..|pieces|] == pieces;
  }

  /** An empty second field is the only one dropped. */
  lemma NonEmptyDropsSecond(a: seq<char>, c: seq<char>, d: seq<char>, e: seq<char>)
    requires a != [] && c != [] && d != [] && e != []
    ensures NonEmpty([a, [], c, d, e]) == [a, c, d, e]
  {
    NonEmptySnoc([], a);
    assert [] + [a] == [a];
    NonEmptySnoc([a], []);
    assert [a] + [[]] == [a, []];
    NonEmptySnoc([a, []], c);
    assert [a, []] + [c] == [a, [], c];
    NonEmptySnoc([a, [], c], d);
    assert [a, [], c] + [d] == [a, [], c, d];
    NonEmptySnoc([a, [], c, d], e);
    assert [a, [], c, d] + [e] == [a, [], c, d, e];
  }

  lemma SplitExcludeEmptyExample()
    ensures SplitOf("1,,2,3,4", ",", true, false) == ["1", "2", "3", "4"]
  {
    SplitEmptyFieldExample();
    SplitRoundTrip("1,,2,3,4", ",");
    SplitExcludeEmpty("1,,2,3,4", ",");
    NonEmptyDropsSecond("1", "2", "3", "4");
  }

  /** Emitting is done piece by piece. */
  lemma {:induction false} EmitAllAppend(p: seq<seq<char>>, q: seq<seq<char>>, excludeEmpty: bool, trimStr: bool)
    ensures EmitAll(p + q, excludeEmpty, trimStr) == EmitAll(p, excludeEmpty, trimStr) + EmitAll(q, excludeEmpty, trimStr)
    decreases |q|
  {
    if q == [] {
      assert p + q == p;
    } else {
      var q', last := q[..|q| - 1], q[|q| - 1];
      assert q == q' + [last];
      assert p + q == (p + q') + [last];
      EmitAllAppend(p, q', excludeEmpty, trimStr);
      EmitAllSnoc(p + q', last, excludeEmpty, trimStr);
      EmitAllSnoc(q', last, excludeEmpty, trimStr);
      Assoc(EmitAll(p, excludeEmpty, trimStr), EmitAll(q', excludeEmpty, trimStr), Emit(last, excludeEmpty, trimStr));
    }
  }

  /** Emptiness is decided before trimming: a leading piece made only of
      trim delimiters survives `excludeEmpty` and is then emitted empty. */
  lemma BlankPieceKept(s: seq<char>, b: seq<char>, x: char, rest: seq<char>, sep: seq<char>)
    requires s == b + [x] + rest
    requires x in sep && b != [] && NoSeparator(b, sep)
    requires forall k :: 0 <= k < |b| ==> b[k] in TrimChars
    ensures |SplitOf(s, sep, true, true)| >= 1
    ensures SplitOf(s, sep, true, true)[0] == []
  {
    FieldsHead(b, x, rest, sep);
    EmitAllAppend([b], Fields(rest, sep), true, true);
    assert [b][..0] == [];
    TrimAllDelimiters(b, TrimChars);
  }

  lemma SplitBlankPieceExample()
    ensures |SplitOf(" ,a", ",", true, true)| >= 1
    ensures SplitOf(" ,a", ",", true, true)[0] == []
  {
    var s, b := " ,a", " ";
    assert s == b + [','] + "a";
    assert NoSeparator(b, ",") && b[0] in TrimChars;
    BlankPieceKept(s, b, ',', "a", ",");
  }
}
