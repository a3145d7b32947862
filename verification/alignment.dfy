/** The word-to-phoneme alignment that espeak's `-X` output carries in front
    of the phonemized text:
      `hello~|||~h@loU~|~|~ go on~|||~goU||0n~|~|~ həlˈoʊ ɡoʊ ɒn`
    Segments are separated by `~|~|~`; the last one is the phonemized text and
    every earlier one is `source~|||~phonemes`, where `||` joins the phonemes
    of the several words a source phrase expanded to. */
module Alignment {
  import opened Wrappers
  import opened PyText

  const GroupDelimiter: string := "~|~|~"
  const PairDelimiter: string := "~|||~"
  const WordJoin: string := "||"

  /** One alignment entry: the source phrase, its phonemes, and whatever
      further `~|||~` fields the segment had, kept untouched. */
  datatype Entry = Entry(source: string, phonemes: string, extra: seq<string>)

  /** The phonemized text of a line and its alignment table. */
  datatype Parsed = Parsed(text: string, table: seq<Entry>)

  /** src is f less at most one leading and at most one trailing space. */
  ghost predicate TrimmedOnce(f: string, src: string)
  {
    f == src || f == " " + src || f == src + " " || f == " " + src + " "
  }

  /** The trimming of the source phrase (espeak.py lines 304-307). Indexing
      `[0]` of an empty phrase, or `[-1]` of what is left of a single space,
      raises `IndexError`, modelled as `None`. */
  function TrimSource(f: string): (r: Option<string>)
    ensures r.None? <==> f == "" || f == " "
    ensures r.Some? ==> TrimmedOnce(f, r.value)
    ensures r.Some? && f[0] == ' ' ==> f[1..] == r.value || f[1..] == r.value + " "
    ensures r.Some? ==>
      |r.value| == |f| - (if f[0] == ' ' then 1 else 0) - (if |f| >= 2 && f[|f| - 1] == ' ' then 1 else 0)
  {
    if |f| == 0 then None
    else
      var g := if f[0] == ' ' then f[1..] else f;
      if |g| == 0 then None
      else
        var src := if g[|g| - 1] == ' ' then g[..|g| - 1] else g;
        TrimFacts(f, g, src);
        Some(src)
  }

  lemma TrimFacts(f: string, g: string, src: string)
    requires |f| > 0 && g == (if f[0] == ' ' then f[1..] else f) && |g| > 0
    requires src == if g[|g| - 1] == ' ' then g[..|g| - 1] else g
    ensures TrimmedOnce(f, src)
  {
    if g[|g| - 1] == ' ' {
      assert g == src + " ";
    }
    if f[0] == ' ' {
      assert f == " " + g;
      assert g == src ==> f == " " + src;
      assert g == src + " " ==> f == " " + src + " ";
    }
  }

  /** Replacing a doubled character by text without it leaves no doubled one. */
  lemma {:induction false} NoDoubleAfterReplace(s: string, c: char, sub: string)
    requires c !in sub
    ensures !Contains(Replace(s, [c, c], sub), [c, c])
    ensures |s| > 0 ==> |Replace(s, [c, c], sub) | > 0 || sub == ""
    ensures |s| > 0 && (|s| == 1 || s[1] != c) ==> Replace(s, [c, c], sub)[0] == s[0]
    decreases |s|
  {
    var r := Replace(s, [c, c], sub);
    if |s| < 2 {
    } else if s[..2] == [c, c] {
      NoDoubleAfterReplace(s[2..], c, sub);
      var t := Replace(s[2..], [c, c], sub);
      assert r == sub + t;
      NoDoubleJoin(sub, t, c);
    } else {
      NoDoubleAfterReplace(s[1..], c, sub);
      var t := Replace(s[1..], [c, c], sub);
      assert r == [s[0]] + t;
      assert r[1..] == t;
      assert s[..2] == [s[0], s[1]];
      if s[0] == c && |t| > 0 {
        assert s[1] != c;
        assert s[1..][0] == s[1];
        if |s[1..]| >= 2 {
          assert s[1..][..2][0] == s[1];
        }
        assert t[0] == s[1];
        assert r[..2] == [c, s[1]];
      }
    }
  }

  /** Text without c followed by text without a doubled c has no doubled c. */
  lemma {:induction false} NoDoubleJoin(a: string, t: string, c: char)
    requires c !in a && !Contains(t, [c, c])
    ensures !Contains(a + t, [c, c])
    decreases |a|
  {
    if |a| > 0 {
      NoDoubleJoin(a[1..], t, c);
      assert (a + t)[1..] == a[1..] + t;
      if |a + t| >= 2 {
        assert (a + t)[..2][0] == a[0];
      }
    } else {
      assert a + t == t;
    }
  }

  /** One alignment segment (espeak.py lines 290-309): split on `~|||~`,
      `||` in the phoneme field becomes a space, the source phrase loses at
      most one space at each end. A segment without `~|||~`, or whose source
      phrase is empty or a single space, raises `IndexError`; fields after the
      second are kept without complaint. */
  function ParseEntry(seg: string): (r: Option<Entry>)
    ensures var fields := Split(seg, PairDelimiter);
      r.Some? <==> Contains(seg, PairDelimiter) && fields[0] != "" && fields[0] != " "
    ensures r.Some? ==> !Contains(r.value.phonemes, WordJoin)
    ensures r.Some? ==> TrimmedOnce(Split(seg, PairDelimiter)[0], r.value.source)
    ensures r.Some? ==> TrimSource(Split(seg, PairDelimiter)[0]) == Some(r.value.source)
    ensures r.Some? ==> |r.value.extra| == Count(seg, PairDelimiter) - 1
    ensures r.Some? ==> |Split(seg, PairDelimiter)| >= 2 && r.value.extra == Split(seg, PairDelimiter)[2..]
  {
    var fields := Split(seg, PairDelimiter);
    SplitSingleIff(seg, PairDelimiter);
    SplitCount(seg, PairDelimiter);
    if |fields| < 2 then None
    else
      var phonemes := Replace(fields[1], WordJoin, " ");
      NoDoubleAfterReplace(fields[1], '|', " ");
      assert WordJoin == ['|', '|'];
      match TrimSource(fields[0])
      case None => None
      case Some(src) => Some(Entry(src, phonemes, fields[2..]))
  }

  /** The stored phonemes are the `||`-separated sub-words of the phoneme
      field joined with single spaces. */
  lemma PhonemesJoinSubwords(seg: string)
    requires ParseEntry(seg).Some?
    ensures ParseEntry(seg).value.phonemes == Join(Split(Split(seg, PairDelimiter)[1], WordJoin), " ")
  {
    SplitSingleIff(seg, PairDelimiter);
    SplitCount(seg, PairDelimiter);
    ReplaceIsSplitJoin(Split(seg, PairDelimiter)[1], WordJoin, " ");
  }

  /** The segment the engine writes for a source phrase whose phonemes are the
      given words: the phrase, padded with one space when it is not the
      first, then `~|||~`, then the words joined by `||`. */
  function EncodeEntry(source: string, words: seq<string>, padded: bool): string
  {
    (if padded then " " else "") + source + PairDelimiter + Join(words, WordJoin)
  }

  /** Parsing a segment written by the engine recovers the source phrase and
      the phoneme words, now joined by single spaces, provided the phrase has
      no `~` and no space at either end and the words have no `~` or `|`. */
  lemma EntryRoundTrip(source: string, words: seq<string>, padded: bool)
    requires |source| > 0 && source[0] != ' ' && source[|source| - 1] != ' ' && '~' !in source
    requires forall i :: 0 <= i < |words| ==> '~' !in words[i] && '|' !in words[i]
    ensures ParseEntry(EncodeEntry(source, words, padded)) == Some(Entry(source, Join(words, " "), []))
  {
    var head := (if padded then " " else "") + source;
    var body := Join(words, WordJoin);
    PadTrimmed(source, padded);
    BodyUnsplit(words);
    ReplaceJoin(words);
    SplitAround(head, PairDelimiter, body);
    ParseTwoFields(head + PairDelimiter + body, source);
  }

  /** A segment of exactly two fields whose first trims to src. */
  lemma ParseTwoFields(seg: string, src: string)
    requires |Split(seg, PairDelimiter)| == 2
    requires TrimSource(Split(seg, PairDelimiter)[0]) == Some(src)
    ensures ParseEntry(seg) == Some(Entry(src, Replace(Split(seg, PairDelimiter)[1], WordJoin, " "), []))
  {
    assert Split(seg, PairDelimiter)[2..] == [];
  }

  /** Words without `~` joined by `||` hold no `~|||~`. */
  lemma BodyUnsplit(words: seq<string>)
    requires forall i :: 0 <= i < |words| ==> '~' !in words[i]
    ensures Split(Join(words, WordJoin), PairDelimiter) == [Join(words, WordJoin)]
  {
    var body := Join(words, WordJoin);
    JoinAvoids(words, WordJoin, '~');
    NoFirstChar(body, PairDelimiter);
    SplitSingleIff(body, PairDelimiter);
    SplitJoin(body, PairDelimiter);
  }

  lemma PadTrimmed(source: string, padded: bool)
    requires |source| > 0 && source[0] != ' ' && source[|source| - 1] != ' ' && '~' !in source
    ensures TrimSource((if padded then " " else "") + source) == Some(source)
    ensures '~' !in (if padded then " " else "") + source
  {
    if padded {
      assert (" " + source)[1..] == source;
    } else {
      assert "" + source == source;
    }
  }

  /** Turning each `||` into a space rejoins `||`-joined words with spaces. */
  lemma {:induction false} ReplaceJoin(words: seq<string>)
    requires forall i :: 0 <= i < |words| ==> '|' !in words[i]
    ensures Replace(Join(words, WordJoin), WordJoin, " ") == Join(words, " ")
    decreases |words|
  {
    if |words| == 0 {
    } else if |words| == 1 {
      NoFirstChar(words[0], WordJoin);
      ReplaceAbsent(words[0], WordJoin, " ");
    } else {
      var w, rest := words[0], Join(words[1..], WordJoin);
      ReplaceLetters(w, WordJoin + rest, WordJoin, " ");
      assert w + WordJoin + rest == w + (WordJoin + rest);
      ReplaceHit(WordJoin + rest, WordJoin, " ");
      assert (WordJoin + rest)[2..] == rest;
      ReplaceJoin(words[1..]);
    }
  }

  /** All segments in order; the first malformed one aborts with that segment. */
  function ParseEntries(segs: seq<string>): (r: Result<seq<Entry>, string>)
    ensures r.Success? <==> forall i :: 0 <= i < |segs| ==> ParseEntry(segs[i]).Some?
    ensures r.Success? ==> |r.value| == |segs|
    ensures r.Success? ==> forall i :: 0 <= i < |segs| ==> ParseEntry(segs[i]) == Some(r.value[i])
    ensures r.Failure? ==> r.error in segs && ParseEntry(r.error).None?
  {
    if |segs| == 0 then Success([])
    else
      match ParseEntry(segs[0])
      case None => Failure(segs[0])
      case Some(e) =>
        match ParseEntries(segs[1..])
        case Failure(bad) =>
          EntriesTailFails(segs, bad);
          Failure(bad)
        case Success(es) =>
          EntriesCons(segs, e, es);
          Success([e] + es)
  }

  lemma EntriesCons(segs: seq<string>, e: Entry, es: seq<Entry>)
    requires |segs| > 0 && ParseEntry(segs[0]) == Some(e) && |es| == |segs| - 1
    requires forall i :: 0 <= i < |segs| - 1 ==> ParseEntry(segs[1..][i]) == Some(es[i])
    ensures forall i :: 0 <= i < |segs| ==> ParseEntry(segs[i]) == Some(([e] + es)[i])
  {
    ConsPointwise(segs, e, es, ParseEntry);
  }

  /** A pointwise match of the tail and the head is one of the whole. */
  lemma ConsPointwise<A, B>(xs: seq<A>, y: B, ys: seq<B>, f: A -> Option<B>)
    requires |xs| > 0 && f(xs[0]) == Some(y) && |ys| == |xs| - 1
    requires forall i :: 0 <= i < |xs| - 1 ==> f(xs[1..][i]) == Some(ys[i])
    ensures forall i :: 0 <= i < |xs| ==> f(xs[i]) == Some(([y] + ys)[i])
  {
    forall i | 0 <= i < |xs| ensures f(xs[i]) == Some(([y] + ys)[i]) {
      if i > 0 {
        assert xs[i] == xs[1..][i - 1];
      }
    }
  }

  lemma EntriesTailFails(segs: seq<string>, bad: string)
    requires |segs| > 0 && bad in segs[1..]
    requires !(forall i :: 0 <= i < |segs| - 1 ==> ParseEntry(segs[1..][i]).Some?)
    ensures bad in segs
    ensures !(forall i :: 0 <= i < |segs| ==> ParseEntry(segs[i]).Some?)
  {
    var j :| 0 <= j < |segs| - 1 && ParseEntry(segs[1..][j]).None?;
    assert segs[1..][j] == segs[j + 1];
  }

  /** The split of one engine line into phonemized text and alignment table
      (espeak.py lines 271-312). The text is the last field of the leftmost
      split on `~|~|~`, taken verbatim; the table has one entry per earlier segment,
      in order, so it is empty exactly when the line has no `~|~|~`; a
      malformed segment aborts with `IndexError` (the segment is returned). */
  function ParseLine(line: string): (r: Result<Parsed, string>)
    ensures var segs := Split(line, GroupDelimiter);
      r.Success? <==> forall i :: 0 <= i < |segs| - 1 ==> ParseEntry(segs[i]).Some?
    ensures r.Success? ==>
      r.value.text == Split(line, GroupDelimiter)[|Split(line, GroupDelimiter)| - 1]
    ensures r.Success? ==> !Contains(r.value.text, GroupDelimiter)
    ensures r.Success? ==>
      if Contains(line, GroupDelimiter) then EndsWith(line, GroupDelimiter + r.value.text)
      else r.value.text == line
    ensures r.Success? ==> |r.value.table| == Count(line, GroupDelimiter)
    ensures r.Success? ==> (r.value.table == [] <==> !Contains(line, GroupDelimiter))
    ensures r.Success? ==> forall i :: 0 <= i < |r.value.table| ==>
      i < |Split(line, GroupDelimiter)| && ParseEntry(Split(line, GroupDelimiter)[i]) == Some(r.value.table[i])
  {
    var segs := Split(line, GroupDelimiter);
    var text := segs[|segs| - 1];
    LastSegment(line);
    SplitCount(line, GroupDelimiter);
    CountZeroIff(line, GroupDelimiter);
    var entries := ParseEntries(segs[..|segs| - 1]);
    TableFacts(segs, entries);
    match entries
    case Failure(bad) => Failure(bad)
    case Success(table) => Success(Parsed(text, table))
  }

  /** The table parsed from all segments but the last, stated on the segments. */
  lemma TableFacts(segs: seq<string>, r: Result<seq<Entry>, string>)
    requires |segs| > 0 && r == ParseEntries(segs[..|segs| - 1])
    ensures r.Success? <==> forall i :: 0 <= i < |segs| - 1 ==> ParseEntry(segs[i]).Some?
    ensures r.Success? ==> |r.value| == |segs| - 1
    ensures r.Success? ==> forall i :: 0 <= i < |r.value| ==> ParseEntry(segs[i]) == Some(r.value[i])
  {
    assert forall i :: 0 <= i < |segs| - 1 ==> segs[..|segs| - 1][i] == segs[i];
  }

  /** The last field of the leftmost split is free of the separator, and ends
      the line right after an occurrence of it when there is one. */
  lemma LastSegment(line: string)
    ensures var segs := Split(line, GroupDelimiter); var text := segs[|segs| - 1];
      && !Contains(text, GroupDelimiter)
      && if Contains(line, GroupDelimiter) then EndsWith(line, GroupDelimiter + text) else text == line
  {
    LastSegmentFree(line);
    LastSegmentEnds(line);
  }

  lemma LastSegmentFree(line: string)
    ensures var segs := Split(line, GroupDelimiter); !Contains(segs[|segs| - 1], GroupDelimiter)
  {
    SplitFieldsFree(line, GroupDelimiter);
  }

  lemma LastSegmentEnds(line: string)
    ensures var segs := Split(line, GroupDelimiter); var text := segs[|segs| - 1];
      if Contains(line, GroupDelimiter) then EndsWith(line, GroupDelimiter + text) else text == line
  {
    var segs := Split(line, GroupDelimiter);
    SplitSingleIff(line, GroupDelimiter);
    SplitJoin(line, GroupDelimiter);
    if |segs| >= 2 {
      JoinedEndsWithLast(segs, GroupDelimiter);
    }
  }

  lemma JoinedEndsWithLast(parts: seq<string>, d: string)
    requires |parts| >= 2
    ensures EndsWith(Join(parts, d), d + parts[|parts| - 1])
  {
    JoinLast(parts, d);
    EndsWithSuffix(Join(parts[..|parts| - 1], d), d, parts[|parts| - 1]);
  }

  /** The multi-word join of the lunchroom example becomes a single space. */
  lemma LunchroomExample()
    ensures ParseEntry("lunchroom~|||~lVntS||ru:m") == Some(Entry("lunchroom", "lVntS ru:m", []))
  {
    var words := ["lVntS", "ru:m"];
    assert Join(words[1..], WordJoin) == "ru:m";
    assert Join(words[1..], " ") == "ru:m";
    assert Join(words, WordJoin) == "lVntS||ru:m";
    assert Join(words, " ") == "lVntS ru:m";
    assert EncodeEntry("lunchroom", words, false) == "lunchroom~|||~lVntS||ru:m";
    assert '~' !in "lunchroom";
    assert '~' !in words[0] && '|' !in words[0];
    assert '~' !in words[1] && '|' !in words[1];
    EntryRoundTrip("lunchroom", words, false);
  }
}
