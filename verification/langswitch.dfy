/** Language-switch handling: espeak marks a change of language inside an
    utterance with a flag such as `(fr)`; the backend finds those flags with
    the regular expression `\(.+?\)` and applies one of three policies. */
module LangSwitch {
  import opened Wrappers
  import opened PyText
  import opened Enumerations

  /** The three values accepted for the `language_switch` argument. */
  datatype Policy = KeepFlags | RemoveFlags | RemoveUtterance

  /** The spelling of a policy in the `language_switch` argument. */
  function PolicyName(p: Policy): string
  {
    match p
    case KeepFlags => "keep-flags"
    case RemoveFlags => "remove-flags"
    case RemoveUtterance => "remove-utterance"
  }

  /** Validation of `language_switch` at construction: one of the three names,
      or a `RuntimeError` naming the rejected value. */
  function ParsePolicy(name: string): (r: Result<Policy, Error>)
    ensures r.Success? <==> name in {"keep-flags", "remove-flags", "remove-utterance"}
    ensures r.Success? ==> PolicyName(r.value) == name
    ensures r.Failure? ==> r.error == InvalidLanguageSwitch(name)
  {
    if name == "keep-flags" then Success(KeepFlags)
    else if name == "remove-flags" then Success(RemoveFlags)
    else if name == "remove-utterance" then Success(RemoveUtterance)
    else Failure(InvalidLanguageSwitch(name))
  }

  /** Every policy survives being written out and validated again. */
  lemma PolicyRoundTrip(p: Policy)
    ensures ParsePolicy(PolicyName(p)) == Success(p)
  {
  }

  // ---------------------------------------------------------------------------
  // The `\(.+?\)` scanner.
  // ---------------------------------------------------------------------------

  /** `\(.+?\)` can match s[i..j+1]: an opening parenthesis at i, at least one
      character other than a line break, and a closing parenthesis at j. */
  ghost predicate FlagSpan(s: string, i: int, j: int)
  {
    0 <= i && i + 2 <= j < |s| && s[i] == '(' && s[j] == ')' && '\n' !in s[i + 1..j]
  }

  /** The regular expression finds a flag somewhere in s. */
  ghost predicate HasFlag(s: string)
  {
    exists i, j :: FlagSpan(s, i, j)
  }

  /** The lazy `.+?` stops at the first `)` at index i + 2 or later, and fails
      at the first line break met before one. */
  function CloseFrom(s: string, i: nat, k: nat): (r: Option<nat>)
    requires i < |s| && s[i] == '(' && i < k <= |s|
    requires '\n' !in s[i + 1..k]
    requires forall m :: i + 2 <= m < k ==> s[m] != ')'
    ensures r.Some? ==> FlagSpan(s, i, r.value) && forall m :: i + 2 <= m < r.value ==> s[m] != ')'
    ensures r.None? ==> forall j :: !FlagSpan(s, i, j)
    decreases |s| - k
  {
    if k == |s| then
      None
    else if s[k] == '\n' then
      LineBreakStops(s, i, k);
      None
    else if s[k] == ')' && k >= i + 2 then
      Some(k)
    else
      NoBreakExtends(s, i + 1, k);
      CloseFrom(s, i, k + 1)
  }

  lemma NoBreakExtends(s: string, a: nat, k: nat)
    requires a <= k < |s| && '\n' !in s[a..k] && s[k] != '\n'
    ensures '\n' !in s[a..k + 1]
  {
    assert s[a..k + 1] == s[a..k] + [s[k]];
  }

  lemma LineBreakStops(s: string, i: nat, k: nat)
    requires i < |s| && i < k < |s| && s[k] == '\n'
    requires forall m :: i + 2 <= m < k ==> s[m] != ')'
    ensures forall j :: !FlagSpan(s, i, j)
  {
  }

  /** The lazy match starting at i ends at j: a flag span, closed by the
      first `)` at i + 2 or later. */
  ghost predicate IsMatch(s: string, i: int, j: int)
  {
    FlagSpan(s, i, j) && forall m :: i + 2 <= m < j ==> s[m] != ')'
  }

  /** The match, if any, that the regular expression finds at position i: the
      shortest flag span that starts there. */
  function MatchAt(s: string, i: nat): (r: Option<nat>)
    requires i < |s|
    ensures r.Some? ==> IsMatch(s, i, r.value)
    ensures r.None? ==> forall j :: !FlagSpan(s, i, j)
  {
    if s[i] == '(' then CloseFrom(s, i, i + 1) else None
  }

  /** No flag span, and so no match, starts at any position from a up to, but
      excluding, b. */
  ghost predicate NoMatchIn(s: string, a: nat, b: nat)
  {
    forall m, j :: a <= m < b ==> !FlagSpan(s, m, j)
  }

  /** What a scan from position i must deliver: the match at the first
      position, at or after the end of the one before, where a match starts.
      So the matches are non-overlapping, in order, and none is skipped. */
  ghost predicate Scanned(s: string, i: nat, r: seq<(nat, nat)>)
  {
    && (forall k :: 0 <= k < |r| ==> IsMatch(s, r[k].0, r[k].1))
    && (|r| == 0 ==> NoMatchIn(s, i, |s|))
    && (|r| > 0 ==> i <= r[0].0 && NoMatchIn(s, i, r[0].0))
    && (forall k {:trigger Gap(s, r, k)} :: 0 < k < |r| ==> Gap(s, r, k))
    && (|r| > 0 ==> NoMatchIn(s, r[|r| - 1].1 + 1, |s|))
  }

  /** Span k starts after span k - 1 ends, and no match starts in between. */
  ghost predicate Gap(s: string, r: seq<(nat, nat)>, k: int)
  {
    0 < k < |r| && r[k - 1].1 < r[k].0 && NoMatchIn(s, r[k - 1].1 + 1, r[k].0)
  }

  /** The spans `(start, end)` of the matches `re.findall` finds scanning from
      position i: each one opens with `(` and closes with `)` at least two
      characters on. */
  function Matches(s: string, i: nat): (r: seq<(nat, nat)>)
    requires i <= |s|
    ensures forall k :: 0 <= k < |r| ==> i <= r[k].0 && r[k].0 + 2 <= r[k].1 < |s|
    decreases |s| - i
  {
    if i == |s| then []
    else
      match MatchAt(s, i)
      case Some(j) => [(i, j)] + Matches(s, j + 1)
      case None => Matches(s, i + 1)
  }

  /** The scan delivers the successive leftmost lazy matches: none skipped,
      none overlapping, in order. */
  lemma {:induction false} MatchesScanned(s: string, i: nat)
    requires i <= |s|
    ensures Scanned(s, i, Matches(s, i))
    decreases |s| - i
  {
    if i == |s| {
      NoMatchAtEnd(s);
    } else {
      var m := MatchStep(s, i);
      if m.Some? {
        var t := Matches(s, m.value + 1);
        MatchesScanned(s, m.value + 1);
        MatchesCons(s, i, m.value, t);
      } else {
        var t := Matches(s, i + 1);
        MatchesScanned(s, i + 1);
        MatchesSkip(s, i, t);
      }
    }
  }

  /** One step of the span scan from i. */
  lemma MatchStep(s: string, i: nat) returns (m: Option<nat>)
    requires i < |s|
    ensures m.Some? ==> && IsMatch(s, i, m.value) && m.value + 1 <= |s|
                        && Matches(s, i) == [(i, m.value)] + Matches(s, m.value + 1)
    ensures m.None? ==> (forall j :: !FlagSpan(s, i, j)) && Matches(s, i) == Matches(s, i + 1)
  {
    m := MatchAt(s, i);
  }

  lemma NoMatchAtEnd(s: string)
    ensures NoMatchIn(s, |s|, |s|)
  {
  }

  /** A match at i put in front of the matches scanned from its end. */
  lemma MatchesCons(s: string, i: nat, j: nat, t: seq<(nat, nat)>)
    requires IsMatch(s, i, j) && j + 1 <= |s| && Scanned(s, j + 1, t)
    ensures Scanned(s, i, [(i, j)] + t)
  {
    var r := [(i, j)] + t;
    assert NoMatchIn(s, i, i);
    forall k | 0 <= k < |r| ensures IsMatch(s, r[k].0, r[k].1) {
      if k > 0 {
        assert r[k] == t[k - 1];
      }
    }
    forall k | 0 < k < |r| ensures Gap(s, r, k) {
      if k > 1 {
        assert Gap(s, t, k - 1);
        assert r[k - 1] == t[k - 2] && r[k] == t[k - 1];
      }
    }
    if |t| > 0 {
      assert r[|r| - 1] == t[|t| - 1];
    }
  }

  /** A position where no match starts is passed over. */
  lemma MatchesSkip(s: string, i: nat, t: seq<(nat, nat)>)
    requires i < |s| && (forall j :: !FlagSpan(s, i, j)) && Scanned(s, i + 1, t)
    ensures Scanned(s, i, t)
  {
  }

  /** The texts of the spans ms of s, in order. */
  function Texts(s: string, ms: seq<(nat, nat)>): (r: seq<string>)
    requires forall k :: 0 <= k < |ms| ==> ms[k].0 + 2 <= ms[k].1 < |s|
    ensures |r| == |ms|
    ensures forall k :: 0 <= k < |r| ==> |r[k]| >= 3 && Contains(s, r[k])
    decreases |ms|
  {
    if |ms| == 0 then []
    else
      ContainsSlice(s, ms[0].0, ms[0].1 + 1);
      [s[ms[0].0..ms[0].1 + 1]] + Texts(s, ms[1..])
  }

  /** The k-th text is the slice the k-th span marks. */
  lemma {:induction false} TextsAt(s: string, ms: seq<(nat, nat)>, k: nat)
    requires forall k :: 0 <= k < |ms| ==> ms[k].0 + 2 <= ms[k].1 < |s|
    requires k < |ms|
    ensures Texts(s, ms)[k] == s[ms[k].0..ms[k].1 + 1]
    decreases k
  {
    if k > 0 {
      TextsAt(s, ms[1..], k - 1);
    }
  }

  /** `re.findall(r'\(.+?\)', s)`: the texts of the successive matches. */
  function FindFlags(s: string): seq<string>
  {
    Texts(s, Matches(s, 0))
  }

  /** The flags `findall` returns are the texts of the successive leftmost
      lazy matches, in order, none skipped. */
  lemma FindFlagsAreMatches(s: string)
    ensures var ms := Matches(s, 0);
      && |FindFlags(s)| == |ms|
      && forall k :: 0 <= k < |ms| ==> ms[k].1 < |s| && FindFlags(s)[k] == s[ms[k].0..ms[k].1 + 1]
  {
    var ms := Matches(s, 0);
    forall k | 0 <= k < |ms| ensures ms[k].1 < |s| && FindFlags(s)[k] == s[ms[k].0..ms[k].1 + 1] {
      TextsAt(s, ms, k);
    }
  }

  /** `findall` returns no flag exactly when the pattern matches nowhere. */
  lemma FindFlagsNonEmpty(s: string)
    ensures FindFlags(s) != [] <==> HasFlag(s)
  {
    var ms := Matches(s, 0);
    MatchesScanned(s, 0);
    if HasFlag(s) {
      var a, b :| FlagSpan(s, a, b);
      assert MatchAt(s, a).Some?;
    }
    if ms != [] {
      assert FlagSpan(s, ms[0].0, ms[0].1);
    }
  }

  // ---------------------------------------------------------------------------
  // Iterating `set(flags)`.
  // ---------------------------------------------------------------------------

  /** The order in which Python iterates `set(flags)`. It depends on the
      process's string-hash seed, so the caller supplies it. */
  type SetOrder = seq<string> -> seq<string>

  /** The iteration order used for `set(flags)`: the supplied one when it lists
      each distinct flag once, otherwise first-occurrence order. */
  function Iteration(order: SetOrder, flags: seq<string>): (r: seq<string>)
    ensures IsEnumeration(r, flags)
  {
    if IsEnumeration(order(flags), flags) then order(flags) else Distinct(flags)
  }

  // ---------------------------------------------------------------------------
  // Deleting the flags.
  // ---------------------------------------------------------------------------

  /** `for flag in fs: utt = utt.replace(flag, '')`. */
  function RemoveEach(utt: string, fs: seq<string>): string
    decreases |fs|
  {
    if |fs| == 0 then utt else RemoveEach(Replace(utt, fs[0], ""), fs[1..])
  }

  /** r is s with some occurrences of f cut out, and no f left inside any of
      the pieces that were kept between the cuts. */
  ghost predicate CutOut(s: string, r: string, f: string)
  {
    exists parts: seq<string> ::
      && s == Join(parts, f)
      && r == Join(parts, "")
      && forall k :: 0 <= k < |parts| ==> !Contains(parts[k], f)
  }

  /** r is obtained from s by cutting out fs[0], then fs[1], and so on. */
  ghost predicate CutOutInTurn(s: string, r: string, fs: seq<string>)
    decreases |fs|
  {
    if |fs| == 0 then r == s
    else exists mid :: CutOut(s, mid, fs[0]) && CutOutInTurn(mid, r, fs[1..])
  }

  /** Deleting non-empty patterns in turn only cuts their occurrences out. */
  lemma {:induction false} RemoveEachCutsOut(utt: string, fs: seq<string>)
    requires forall k :: 0 <= k < |fs| ==> |fs[k]| > 0
    ensures CutOutInTurn(utt, RemoveEach(utt, fs), fs)
    decreases |fs|
  {
    if |fs| > 0 {
      var f := fs[0];
      var mid := Replace(utt, f, "");
      var parts := Split(utt, f);
      SplitJoin(utt, f);
      ReplaceIsSplitJoin(utt, f, "");
      SplitFieldsFree(utt, f);
      assert CutOut(utt, mid, f);
      RemoveEachCutsOut(mid, fs[1..]);
    }
  }

  /** Deleting patterns never lengthens the text, and deleting one that occurs
      in it shortens it. */
  lemma {:induction false} RemoveEachShrinks(utt: string, fs: seq<string>)
    requires forall k :: 0 <= k < |fs| ==> |fs[k]| > 0
    ensures |RemoveEach(utt, fs)| <= |utt|
    ensures |fs| > 0 && Contains(utt, fs[0]) ==> |RemoveEach(utt, fs)| < |utt|
    decreases |fs|
  {
    if |fs| > 0 {
      ReplaceShrinks(utt, fs[0], "");
      RemoveEachShrinks(Replace(utt, fs[0], ""), fs[1..]);
    }
  }

  /** What `_process_lang_switch` reports for one line: whether a flag was
      found (the line number is then recorded), and the text kept for further
      processing, `None` when the utterance is dropped. */
  datatype Switch = Switch(detected: bool, kept: Option<string>)

  /** `_process_lang_switch` (espeak.py lines 202-226). Without a flag the line
      is passed on unchanged; with one, keep-flags passes it on unchanged,
      remove-utterance drops it, and remove-flags passes on a strictly shorter
      text obtained only by cutting the found flags out, one after the other in
      the iteration order of `set(flags)`. */
  function ProcessLangSwitch(policy: Policy, utt: string, order: SetOrder): (r: Switch)
    ensures r.detected <==> HasFlag(utt)
    ensures !r.detected ==> r.kept == Some(utt)
    ensures r.detected && policy == KeepFlags ==> r.kept == Some(utt)
    ensures r.detected && policy == RemoveUtterance ==> r.kept == None
    ensures r.detected && policy == RemoveFlags ==>
      && r.kept == Some(RemoveEach(utt, Iteration(order, FindFlags(utt))))
      && |r.kept.value| < |utt|
      && CutOutInTurn(utt, r.kept.value, Iteration(order, FindFlags(utt)))
  {
    var flags := FindFlags(utt);
    FindFlagsNonEmpty(utt);
    if |flags| == 0 then
      Switch(false, Some(utt))
    else
      match policy
      case KeepFlags => Switch(true, Some(utt))
      case RemoveUtterance => Switch(true, None)
      case RemoveFlags =>
        var fs := Iteration(order, flags);
        assert forall k :: 0 <= k < |fs| ==> fs[k] in flags;
        assert flags[0] in fs;
        assert fs[0] in flags;
        RemoveEachCutsOut(utt, fs);
        RemoveEachShrinks(utt, fs);
        Switch(true, Some(RemoveEach(utt, fs)))
  }

  /** The order in which remove-flags deletes the flags can change the result,
      which is why the iteration order of `set(flags)` is a parameter. */
  lemma RemovalOrderMatters()
    ensures FindFlags("(q)((q)q)") == ["(q)", "((q)"]
    ensures RemoveEach("(q)((q)q)", ["(q)", "((q)"]) == "(q)"
    ensures RemoveEach("(q)((q)q)", ["((q)", "(q)"]) == "q)"
  {
    FlagsOfExample();
    ShortFirst();
    LongFirst();
    assert Replace("(q)", "((q)", "") == "(q)";
  }

  lemma FlagsOfExample()
    ensures FindFlags("(q)((q)q)") == ["(q)", "((q)"]
  {
    ExampleMatches();
    ExampleTexts();
  }

  lemma ExampleMatches()
    ensures Matches("(q)((q)q)", 0) == [(0, 2), (3, 6)]
  {
    var s := "(q)((q)q)";
    assert CloseFrom(s, 0, 1) == Some(2);
    assert CloseFrom(s, 3, 4) == Some(6);
    assert MatchAt(s, 7) == None;
    assert MatchAt(s, 8) == None;
    assert Matches(s, 7) == [];
  }

  lemma ExampleTexts()
    ensures Texts("(q)((q)q)", [(0, 2), (3, 6)]) == ["(q)", "((q)"]
  {
    var s := "(q)((q)q)";
    var ms: seq<(nat, nat)> := [(0, 2), (3, 6)];
    assert ms[1..][1..] == [];
    assert s[0..3] == "(q)";
    assert s[3..7] == "((q)";
  }

  lemma ShortFirst()
    ensures Replace("(q)((q)q)", "(q)", "") == "(q)"
  {
    assert "(q)((q)q)"[..3] == "(q)" && "(q)((q)q)"[3..] == "((q)q)";
    assert "((q)q)"[..3] == "((q" && "((q)q)"[1..] == "(q)q)";
    assert "(q)q)"[..3] == "(q)" && "(q)q)"[3..] == "q)";
  }

  lemma LongFirst()
    ensures Replace("(q)((q)q)", "((q)", "") == "(q)q)"
    ensures Replace("(q)q)", "(q)", "") == "q)"
  {
    LongFirstHead();
    LongFirstTail();
    ShortAfterLong();
  }

  lemma LongFirstHead()
    ensures Replace("(q)((q)q)", "((q)", "") == "(q)" + Replace("((q)q)", "((q)", "")
  {
    assert "(q)((q)q)"[..4] != "((q)" && "(q)((q)q)"[1..] == "q)((q)q)";
    ReplaceMiss("(q)((q)q)", "((q)", "");
    assert "q)((q)q)"[..4] != "((q)" && "q)((q)q)"[1..] == ")((q)q)";
    ReplaceMiss("q)((q)q)", "((q)", "");
    assert ")((q)q)"[..4] != "((q)" && ")((q)q)"[1..] == "((q)q)";
    ReplaceMiss(")((q)q)", "((q)", "");
  }

  lemma LongFirstTail()
    ensures Replace("((q)q)", "((q)", "") == "q)"
  {
    assert "((q)q)"[..4] == "((q)" && "((q)q)"[4..] == "q)";
    ReplaceHit("((q)q)", "((q)", "");
    ReplaceShort("q)", "((q)", "");
  }

  lemma ShortAfterLong()
    ensures Replace("(q)q)", "(q)", "") == "q)"
  {
    assert "(q)q)"[..3] == "(q)" && "(q)q)"[3..] == "q)";
    ReplaceHit("(q)q)", "(q)", "");
    ReplaceShort("q)", "(q)", "");
  }
}
