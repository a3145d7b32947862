/** The second half of the per-line pipeline: each space-separated word of the
    phonemized text is stripped, loses its stress marks unless they are kept,
    is rewritten with the SAMPA table, gets its phone separators, and the words
    are serialised with the word separator. */
module Words {
  import opened Wrappers
  import opened PyText
  import opened Sampa

  // ---------------------------------------------------------------------------
  // Stress marks (espeak.py lines 319-323).
  // ---------------------------------------------------------------------------

  const PrimaryStress: char := '\U{02C8}'
  const SecondaryStress: char := '\U{02CC}'

  /** The characters removed from a word when stress is not kept. */
  predicate IsStressMark(c: char)
  {
    c == PrimaryStress || c == SecondaryStress || c == '\'' || c == '-'
  }

  /** The reference for stress stripping: the characters of w that are not
      stress marks, in their order. */
  function DropMarks(w: string): (r: string)
    ensures forall i :: 0 <= i < |r| ==> !IsStressMark(r[i])
    ensures forall c :: multiset(r)[c] == if IsStressMark(c) then 0 else multiset(w)[c]
    decreases |w|
  {
    if |w| == 0 then ""
    else
      var t := DropMarks(w[1..]);
      assert w == [w[0]] + w[1..];
      if IsStressMark(w[0]) then t else [w[0]] + t
  }

  /** The four `str.replace(mark, '')` calls, in the order the backend makes them. */
  function StripStress(w: string): string
  {
    Replace(Replace(Replace(Replace(w, [PrimaryStress], ""), [SecondaryStress], ""), "'", ""), "-", "")
  }

  /** Replacing a one-character pattern by nothing deletes that character. */
  lemma {:induction false} ReplaceDeletes(s: string, c: char)
    ensures Replace(s, [c], "") == Without(s, c)
    decreases |s|
  {
    if |s| > 0 {
      ReplaceDeletes(s[1..], c);
      assert s[..1] == [s[0]];
    }
  }

  /** The four deletions one after the other, written with Without. */
  function WithoutMarks(w: string): string
  {
    Without(Without(Without(Without(w, PrimaryStress), SecondaryStress), '\''), '-')
  }

  lemma WithoutMarksConcat(p: string, q: string)
    ensures WithoutMarks(p + q) == WithoutMarks(p) + WithoutMarks(q)
  {
    WithoutConcat(p, q, PrimaryStress);
    var a1, a2 := Without(p, PrimaryStress), Without(q, PrimaryStress);
    WithoutConcat(a1, a2, SecondaryStress);
    var b1, b2 := Without(a1, SecondaryStress), Without(a2, SecondaryStress);
    WithoutConcat(b1, b2, '\'');
    var c1, c2 := Without(b1, '\''), Without(b2, '\'');
    WithoutConcat(c1, c2, '-');
  }

  lemma WithoutMarksChar(c: char)
    ensures WithoutMarks([c]) == if IsStressMark(c) then "" else [c]
  {
    WithoutOne(c, PrimaryStress);
    WithoutOne(c, SecondaryStress);
    WithoutOne(c, '\'');
    WithoutOne(c, '-');
  }

  lemma WithoutOne(c: char, x: char)
    ensures Without([c], x) == if c == x then "" else [c]
    ensures Without("", x) == ""
  {
    assert [c][1..] == "";
  }

  lemma {:induction false} WithoutMarksIsDropMarks(w: string)
    ensures WithoutMarks(w) == DropMarks(w)
    decreases |w|
  {
    if |w| > 0 {
      assert w == [w[0]] + w[1..];
      WithoutMarksConcat([w[0]], w[1..]);
      WithoutMarksChar(w[0]);
      WithoutMarksIsDropMarks(w[1..]);
    }
  }

  /** Stress stripping only deletes characters: it keeps exactly the
      characters of the word that are not stress marks, in order. */
  lemma StripStressIsDropMarks(w: string)
    ensures StripStress(w) == DropMarks(w)
  {
    var a := Replace(w, [PrimaryStress], "");
    var b := Replace(a, [SecondaryStress], "");
    var c := Replace(b, "'", "");
    assert "'" == ['\''] && "-" == ['-'];
    ReplaceDeletes(w, PrimaryStress);
    ReplaceDeletes(a, SecondaryStress);
    ReplaceDeletes(b, '\'');
    ReplaceDeletes(c, '-');
    WithoutMarksIsDropMarks(w);
  }

  /** A word without stress marks is left as it is by the reference. */
  lemma {:induction false} DropMarksUnmarked(w: string)
    requires forall i :: 0 <= i < |w| ==> !IsStressMark(w[i])
    ensures DropMarks(w) == w
    decreases |w|
  {
    if |w| > 0 {
      DropMarksUnmarked(w[1..]);
      assert w == [w[0]] + w[1..];
    }
  }

  /** Stripping stress marks twice is stripping them once. */
  lemma StripStressIdempotent(w: string)
    ensures StripStress(StripStress(w)) == StripStress(w)
  {
    StripStressIsDropMarks(w);
    StripStressIsDropMarks(DropMarks(w));
    DropMarksUnmarked(DropMarks(w));
  }

  /** The transformation of one word (espeak.py lines 316-329): `strip()`, then
      stress stripping unless stress is kept, then the SAMPA table. Without a
      table, a word whose stress is not kept has its surrounding whitespace and
      every stress mark removed and nothing else; one whose stress is kept is
      only stripped. */
  function TransformWord(word: string, withStress: bool, sampa: Option<Mapping>): (r: string)
    ensures sampa.None? && !withStress ==> r == DropMarks(Strip(word))
    ensures sampa.None? && !withStress ==> forall i :: 0 <= i < |r| ==> !IsStressMark(r[i])
    ensures sampa.None? && withStress ==> r == Strip(word)
    ensures sampa.Some? ==> r == Remap(if withStress then Strip(word) else DropMarks(Strip(word)), sampa.value)
  {
    var w := Strip(word);
    StripStressIsDropMarks(w);
    var w' := if withStress then w else StripStress(w);
    ApplySampa(w', sampa)
  }

  // ---------------------------------------------------------------------------
  // Separators and assembly (espeak.py lines 314-337).
  // ---------------------------------------------------------------------------

  /** The caller's separators: between the phones of a word, and between words. */
  datatype Separator = Separator(phone: string, word: string)

  /** A transformed word with its phone separators: the engine's `_` marks
      become the phone separator and, unless the line is stripped, one more
      phone separator ends the word. */
  function Phones(w: string, sep: Separator, strip: bool): (r: string)
    ensures r == Replace(w, "_", sep.phone) + (if strip then "" else sep.phone)
    ensures '_' !in sep.phone ==> '_' !in r
  {
    var r := Replace(if strip then w else w + "_", "_", sep.phone);
    ReplaceCharConcat(w, "_", '_', sep.phone);
    assert Replace("_", "_", sep.phone) == sep.phone by {
      assert "_"[..1] == "_" && "_"[1..] == "";
    }
    assert "_" == ['_'];
    ReplaceCharGoneWhen(if strip then w else w + "_", '_', sep.phone);
    r
  }

  lemma ReplaceCharGoneWhen(s: string, c: char, sub: string)
    ensures c !in sub ==> c !in Replace(s, [c], sub)
  {
    if c !in sub {
      ReplaceCharGone(s, c, sub);
    }
  }

  /** Every word of the phonemized text, transformed and given its phone separators. */
  function Pieces(words: seq<string>, withStress: bool, sampa: Option<Mapping>, sep: Separator, strip: bool): (r: seq<string>)
    ensures |r| == |words|
    ensures forall i :: 0 <= i < |r| ==> r[i] == Phones(TransformWord(words[i], withStress, sampa), sep, strip)
    decreases |words|
  {
    if |words| == 0 then []
    else [Phones(TransformWord(words[0], withStress, sampa), sep, strip)] + Pieces(words[1..], withStress, sampa, sep, strip)
  }

  /** `out_line += w + separator.word` over the pieces. */
  function Terminated(pieces: seq<string>, d: string): string
    decreases |pieces|
  {
    if |pieces| == 0 then "" else pieces[0] + d + Terminated(pieces[1..], d)
  }

  /** Appending the word separator after every piece is joining the pieces with
      it and adding one more at the end. */
  lemma {:induction false} TerminatedIsJoin(pieces: seq<string>, d: string)
    requires |pieces| > 0
    ensures Terminated(pieces, d) == Join(pieces, d) + d
    decreases |pieces|
  {
    if |pieces| > 1 {
      TerminatedIsJoin(pieces[1..], d);
    }
  }

  /** `out_line[:-len(separator.word)]` exactly as written: with an empty word
      separator the slice `[:-0]` is empty, so the whole line is lost. */
  function StripTrailingAsWritten(out: string, d: string): (r: string)
    ensures |d| == 0 ==> r == ""
    ensures 0 < |d| <= |out| ==> r == out[..|out| - |d|]
  {
    if |d| == 0 || |d| > |out| then "" else out[..|out| - |d|]
  }

  /** The trailing strip as intended: cut one word separator off the end, and
      keep the line when the separator is empty. */
  function StripTrailing(out: string, d: string): (r: string)
    ensures |d| <= |out| ==> |r| == |out| - |d| && r == out[..|r|]
    ensures EndsWith(out, d) ==> r + d == out
  {
    if |d| == 0 then out
    else if |d| > |out| then ""
    else out[..|out| - |d|]
  }

  /** The two trailing strips differ exactly when the word separator is empty
      and the line is not: then the line as written is erased. */
  lemma EmptyWordSeparatorErasesLine(out: string, d: string)
    ensures StripTrailingAsWritten(out, d) != StripTrailing(out, d) <==> |d| == 0 && |out| > 0
  {
  }

  /** The assembly of one phonemized text (espeak.py lines 314-337), as the
      code has it: the pieces joined by the word separator with one more word
      separator at the end; with strip that last separator is cut off again,
      except that an empty word separator erases the whole line. */
  function AssembleLine(text: string, withStress: bool, sampa: Option<Mapping>, sep: Separator, strip: bool): (r: string)
    ensures var pieces := Pieces(Split(text, " "), withStress, sampa, sep, strip);
      r == if !strip then Join(pieces, sep.word) + sep.word
           else if sep.word == "" then ""
           else Join(pieces, sep.word)
  {
    var pieces := Pieces(Split(text, " "), withStress, sampa, sep, strip);
    var out := Terminated(pieces, sep.word);
    TerminatedIsJoin(pieces, sep.word);
    assert (Join(pieces, sep.word) + sep.word)[..|Join(pieces, sep.word)|] == Join(pieces, sep.word);
    if strip then StripTrailingAsWritten(out, sep.word) else out
  }

  /** The assembly with the intended trailing strip: the pieces joined by the
      word separator, and one more word separator at the end unless the line
      is stripped. */
  function AssembleLineIntended(text: string, withStress: bool, sampa: Option<Mapping>, sep: Separator, strip: bool): (r: string)
    ensures var pieces := Pieces(Split(text, " "), withStress, sampa, sep, strip);
      r == Join(pieces, sep.word) + (if strip then "" else sep.word)
  {
    var pieces := Pieces(Split(text, " "), withStress, sampa, sep, strip);
    var out := Terminated(pieces, sep.word);
    TerminatedIsJoin(pieces, sep.word);
    assert (Join(pieces, sep.word) + sep.word)[..|Join(pieces, sep.word)|] == Join(pieces, sep.word);
    if strip then StripTrailing(out, sep.word) else out
  }

  /** The assembly as written and as intended agree on every line, except a
      stripped line with an empty word separator and something to show: the
      code then returns an empty line. */
  lemma AssemblyErasesOnlyThen(text: string, withStress: bool, sampa: Option<Mapping>, sep: Separator, strip: bool)
    ensures var written := AssembleLine(text, withStress, sampa, sep, strip);
      var intended := AssembleLineIntended(text, withStress, sampa, sep, strip);
      && (written != intended <==> strip && sep.word == "" && intended != "")
      && (written != intended ==> written == "")
  {
  }

  /** Without strip, every word of the line ends with the phone separator
      followed by the word separator, the line included. */
  lemma UnstrippedWordsEnd(text: string, withStress: bool, sampa: Option<Mapping>, sep: Separator)
    ensures var pieces := Pieces(Split(text, " "), withStress, sampa, sep, false);
      forall i :: 0 <= i < |pieces| ==> EndsWith(pieces[i] + sep.word, sep.phone + sep.word)
    ensures EndsWith(AssembleLine(text, withStress, sampa, sep, false), sep.phone + sep.word)
  {
    var words := Split(text, " ");
    var pieces := Pieces(words, withStress, sampa, sep, false);
    forall i | 0 <= i < |pieces| ensures EndsWith(pieces[i] + sep.word, sep.phone + sep.word) {
      PieceEnds(TransformWord(words[i], withStress, sampa), sep);
    }
    LastPieceEnds(pieces, sep.word, sep.phone + sep.word);
  }

  lemma LastPieceEnds(pieces: seq<string>, d: string, t: string)
    requires |pieces| > 0 && EndsWith(pieces[|pieces| - 1] + d, t)
    ensures EndsWith(Join(pieces, d) + d, t)
  {
    var n := |pieces| - 1;
    JoinLastPiece(pieces, d);
    var front := AssembleFront(pieces, d);
    assert Join(pieces, d) + d == front + (pieces[n] + d);
    SuffixOfSuffix(front, pieces[n] + d, t);
  }

  lemma PieceEnds(w: string, sep: Separator)
    ensures EndsWith(Phones(w, sep, false) + sep.word, sep.phone + sep.word)
  {
    var x := Replace(w, "_", sep.phone);
    assert Phones(w, sep, false) + sep.word == x + (sep.phone + sep.word);
  }

  lemma SuffixOfSuffix(a: string, b: string, t: string)
    requires EndsWith(b, t)
    ensures EndsWith(a + b, t)
  {
    assert (a + b)[|a + b| - |t|..] == b[|b| - |t|..];
  }

  /** Everything of a join before its last piece. */
  function AssembleFront(pieces: seq<string>, d: string): string
    requires |pieces| > 0
  {
    if |pieces| == 1 then "" else Join(pieces[..|pieces| - 1], d) + d
  }

  lemma JoinLastPiece(pieces: seq<string>, d: string)
    requires |pieces| > 0
    ensures Join(pieces, d) == AssembleFront(pieces, d) + pieces[|pieces| - 1]
  {
    if |pieces| > 1 {
      JoinLast(pieces, d);
    }
  }

  /** With strip and a non-empty word separator, exactly that separator is
      cut from the end of the unstripped serialisation; with an empty one the
      line as written is empty. */
  lemma StripCutsWordSeparator(text: string, withStress: bool, sampa: Option<Mapping>, sep: Separator)
    ensures var pieces := Pieces(Split(text, " "), withStress, sampa, sep, true);
      var out := Terminated(pieces, sep.word);
      var r := AssembleLine(text, withStress, sampa, sep, true);
      && (|sep.word| > 0 ==> |r| == |out| - |sep.word| && r + sep.word == out)
      && (|sep.word| == 0 ==> r == "")
  {
    var pieces := Pieces(Split(text, " "), withStress, sampa, sep, true);
    TerminatedIsJoin(pieces, sep.word);
  }

  /** When neither separator holds `_`, no engine phone mark survives assembly. */
  lemma NoEngineMarksLeft(text: string, withStress: bool, sampa: Option<Mapping>, sep: Separator, strip: bool)
    requires '_' !in sep.phone && '_' !in sep.word
    ensures '_' !in AssembleLine(text, withStress, sampa, sep, strip)
  {
    var pieces := Pieces(Split(text, " "), withStress, sampa, sep, strip);
    JoinAvoids(pieces, sep.word, '_');
  }
}
