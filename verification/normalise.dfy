/** Clean-up of one raw espeak output line before any parsing: strip it, join
    the engine's line breaks with spaces, halve double spaces, collapse runs of
    the `_` phone separator and drop a `_` left just before a word boundary. */
module Normalisation {
  import opened PyText

  /** `re.sub(r'_+', '_', s)`: every run of underscores becomes a single one. */
  function CollapseUnderscores(s: string): (r: string)
    ensures |r| <= |s|
    ensures |s| > 0 ==> |r| > 0 && r[0] == s[0] && r[|r| - 1] == s[|s| - 1]
    ensures !Contains(r, "__")
    ensures !Contains(s, "__") ==> r == s
    ensures forall c :: c in r ==> c in s
    ensures Without(r, '_') == Without(s, '_')
    ensures '_' in r <==> '_' in s
    decreases |s|
  {
    if |s| <= 1 then
      s
    else if s[0] == '_' && s[1] == '_' then
      assert s[1..][0] == '_';
      CollapseUnderscores(s[1..])
    else
      var t := CollapseUnderscores(s[1..]);
      CollapseStep(s, t);
      InCons(s, '_');
      [s[0]] + t
  }

  /** Putting back a first character that does not start `__`. */
  lemma CollapseStep(s: string, t: string)
    requires |s| >= 2 && !(s[0] == '_' && s[1] == '_')
    requires |t| > 0 && t[0] == s[1] && !Contains(t, "__")
    requires !Contains(s[1..], "__") ==> t == s[1..]
    ensures !Contains([s[0]] + t, "__")
    ensures !Contains(s, "__") ==> [s[0]] + t == s
    ensures Without([s[0]] + t, '_') == Without([s[0]], '_') + Without(t, '_')
    ensures '_' in [s[0]] + t <==> s[0] == '_' || '_' in t
  {
    var r := [s[0]] + t;
    assert r[1..] == t;
    InCons(r, '_');
    WithoutConcat([s[0]], t, '_');
    assert r[..2] == [s[0], s[1]];
    ContainsCons(r, "__");
    ContainsCons(s, "__");
    assert s == [s[0]] + s[1..];
  }

  lemma InCons(s: string, c: char)
    requires |s| > 0
    ensures c in s <==> s[0] == c || c in s[1..]
  {
    assert s == [s[0]] + s[1..];
  }

  /** Collapsing works run by run: cut where a `_` does not meet another `_`,
      the two sides collapse on their own. */
  lemma {:induction false} CollapseConcat(p: string, q: string)
    requires p == "" || q == "" || p[|p| - 1] != '_' || q[0] != '_'
    ensures CollapseUnderscores(p + q) == CollapseUnderscores(p) + CollapseUnderscores(q)
    decreases |p|
  {
    if |p| == 0 {
      assert p + q == q;
    } else if |q| == 0 {
      assert p + q == p;
    } else {
      var t := p[1..];
      assert p == [p[0]] + t;
      assert p + q == [p[0]] + (t + q);
      if |t| == 0 {
        assert p == [p[0]];
        CollapseCons(p[0], q);
      } else {
        CollapseConcat(t, q);
        CollapseCons(p[0], t + q);
        CollapseCons(p[0], t);
        ConsAssoc(p[0], CollapseUnderscores(t), CollapseUnderscores(q));
      }
    }
  }

  lemma ConsAssoc(c: char, a: string, b: string)
    ensures [c] + (a + b) == ([c] + a) + b
  {
  }

  /** One step of the collapse: c in front of a non-empty t. */
  lemma CollapseCons(c: char, t: string)
    requires |t| > 0
    ensures CollapseUnderscores([c] + t) ==
      if c == '_' && t[0] == '_' then CollapseUnderscores(t) else [c] + CollapseUnderscores(t)
  {
    assert ([c] + t)[1..] == t;
  }

  /** A run of one or more `_` collapses to a single `_`. */
  lemma {:induction false} CollapseRun(s: string)
    requires |s| > 0 && forall i :: 0 <= i < |s| ==> s[i] == '_'
    ensures CollapseUnderscores(s) == "_"
    decreases |s|
  {
    if |s| == 1 {
      assert s == [s[0]];
    } else {
      assert s[0] == '_' && s[1] == '_';
      assert forall i :: 0 <= i < |s| - 1 ==> s[1..][i] == s[i + 1];
      CollapseRun(s[1..]);
    }
  }

  /** `re.sub(r'_ ', ' ', s)` on text without `__`: the result has neither `__`
      nor `_ `, and keeps the first character of s, except that a leading
      `_ ` becomes a space. */
  lemma {:induction false} DropSeparatorBeforeSpace(s: string)
    requires !Contains(s, "__")
    ensures var r := Replace(s, "_ ", " ");
      && !Contains(r, "__") && !Contains(r, "_ ")
      && (|s| > 0 ==> |r| > 0 && r[0] == (if |s| >= 2 && s[..2] == "_ " then ' ' else s[0]))
    decreases |s|
  {
    var r := Replace(s, "_ ", " ");
    if |s| < 2 {
    } else if s[..2] == "_ " {
      assert !Contains(s[1..], "__");
      assert s[1..][1..] == s[2..];
      DropSeparatorBeforeSpace(s[2..]);
      var t := Replace(s[2..], "_ ", " ");
      assert r == " " + t;
      assert r[1..] == t;
      if |r| >= 2 {
        assert r[..2][0] == ' ';
      }
    } else {
      var t := Replace(s[1..], "_ ", " ");
      DropSeparatorBeforeSpace(s[1..]);
      assert r == [s[0]] + t;
      assert r[1..] == t;
      assert s[..2] == [s[0], s[1]];
      if s[0] == '_' {
        if |s[1..]| >= 2 {
          assert s[1..][..2][0] == s[1];
        }
        assert |t| > 0 && t[0] == s[1];
      }
      assert r[..2] == [s[0], t[0]];
    }
  }

  /** The text of s with every whitespace character and every `_` left out:
      what normalisation must hand on untouched. */
  function Solid(s: string): string
    decreases |s|
  {
    if |s| == 0 then "" else (if IsSpace(s[0]) || s[0] == '_' then "" else [s[0]]) + Solid(s[1..])
  }

  lemma {:induction false} SolidConcat(p: string, q: string)
    ensures Solid(p + q) == Solid(p) + Solid(q)
    decreases |p|
  {
    if |p| > 0 {
      assert (p + q)[0] == p[0];
      assert (p + q)[1..] == p[1..] + q;
      SolidConcat(p[1..], q);
    } else {
      assert p + q == q;
    }
  }

  lemma {:induction false} SolidOfSpace(s: string)
    requires AllSpace(s)
    ensures Solid(s) == ""
    decreases |s|
  {
    if |s| > 0 {
      assert IsSpace(s[0]);
      SolidOfSpace(s[1..]);
    }
  }

  /** Stripping drops only whitespace. */
  lemma StripKeepsSolid(s: string)
    ensures Solid(Strip(s)) == Solid(s)
  {
    LStripKeepsSolid(s);
    RStripKeepsSolid(LStrip(s));
  }

  lemma LStripKeepsSolid(s: string)
    ensures Solid(LStrip(s)) == Solid(s)
  {
    var l := LStrip(s);
    var k := |s| - |l|;
    assert s == s[..k] + l;
    assert AllSpace(s[..k]);
    SpaceThenSolid(s[..k], l);
  }

  lemma RStripKeepsSolid(s: string)
    ensures Solid(RStrip(s)) == Solid(s)
  {
    var r := RStrip(s);
    assert s == r + s[|r|..];
    SolidThenSpace(r, s[|r|..]);
  }

  lemma SpaceThenSolid(p: string, q: string)
    requires AllSpace(p)
    ensures Solid(p + q) == Solid(q)
  {
    SolidConcat(p, q);
    SolidOfSpace(p);
  }

  lemma SolidThenSpace(p: string, q: string)
    requires AllSpace(q)
    ensures Solid(p + q) == Solid(p)
  {
    SolidConcat(p, q);
    SolidOfSpace(q);
  }

  /** Replacing a pattern made only of whitespace and `_` by another such text
      keeps every other character, in order. */
  lemma {:induction false} ReplaceKeepsSolid(s: string, pat: string, sub: string)
    requires |pat| > 0 && Solid(pat) == "" && Solid(sub) == ""
    ensures Solid(Replace(s, pat, sub)) == Solid(s)
    decreases |s|
  {
    if |s| < |pat| {
      ReplaceShort(s, pat, sub);
    } else if s[..|pat|] == pat {
      ReplaceHit(s, pat, sub);
      ReplaceKeepsSolid(s[|pat|..], pat, sub);
      SolidConcat(sub, Replace(s[|pat|..], pat, sub));
      assert s == s[..|pat|] + s[|pat|..];
      SolidConcat(s[..|pat|], s[|pat|..]);
    } else {
      ReplaceMiss(s, pat, sub);
      ReplaceKeepsSolid(s[1..], pat, sub);
      assert ([s[0]] + Replace(s[1..], pat, sub))[1..] == Replace(s[1..], pat, sub);
    }
  }

  /** Collapsing runs of `_` keeps every other character, in order. */
  lemma {:induction false} CollapseKeepsSolid(s: string)
    ensures Solid(CollapseUnderscores(s)) == Solid(s)
    decreases |s|
  {
    if |s| <= 1 {
    } else if s[0] == '_' && s[1] == '_' {
      CollapseKeepsSolid(s[1..]);
      assert Solid(s) == Solid(s[1..]);
    } else {
      var t := CollapseUnderscores(s[1..]);
      CollapseKeepsSolid(s[1..]);
      assert CollapseUnderscores(s) == [s[0]] + t;
      assert ([s[0]] + t)[0] == s[0] && ([s[0]] + t)[1..] == t;
    }
  }

  lemma SolidOfSeparators()
    ensures Solid("\n") == "" && Solid(" ") == "" && Solid("  ") == "" && Solid("_ ") == ""
  {
    assert IsSpace('\n') && IsSpace(' ');
    assert "  "[1..] == " " && "_ "[1..] == " " && " "[1..] == "" && "\n"[1..] == "";
  }

  /** The normalisation of one raw engine line (espeak.py lines 256, 261-262).
      The result keeps no line break, no `__` and no `_ `; it never ends in
      whitespace; it can start with whitespace only as a space that replaced
      a leading `_ `; and it is empty exactly when the raw line was blank. */
  function Normalise(raw: string): (r: string)
    ensures '\n' !in r
    ensures !Contains(r, "__") && !Contains(r, "_ ")
    ensures |r| > 0 ==> !IsSpace(r[|r| - 1])
    ensures |r| > 0 && IsSpace(r[0]) ==> r[0] == ' '
    ensures r == "" <==> AllSpace(raw)
    ensures Solid(r) == Solid(raw)
  {
    var a := Strip(raw);
    var b := Replace(a, "\n", " ");
    var c := Replace(b, "  ", " ");
    var d := CollapseUnderscores(c);
    var r := Replace(d, "_ ", " ");
    NormaliseFacts(a, b, c, d, r);
    NormaliseKeepsSolid(raw, a, b, c, d, r);
    r
  }

  /** Normalisation keeps the words: once every `_` is deleted, the raw line
      and the normalised one split on whitespace into the same fields. */
  lemma NormaliseKeepsWords(raw: string)
    ensures SplitWhitespace(Without(Normalise(raw), '_')) == SplitWhitespace(Without(raw, '_'))
  {
    var a := Strip(raw);
    var b := Replace(a, "\n", " ");
    var c := Replace(b, "  ", " ");
    var d := CollapseUnderscores(c);
    StepsKeepWords(raw, a, b, c, d, Replace(d, "_ ", " "));
  }

  lemma StepsKeepWords(raw: string, a: string, b: string, c: string, d: string, r: string)
    requires a == Strip(raw) && b == Replace(a, "\n", " ") && c == Replace(b, "  ", " ")
    requires d == CollapseUnderscores(c) && r == Replace(d, "_ ", " ")
    ensures SplitWhitespace(Without(r, '_')) == SplitWhitespace(Without(raw, '_'))
  {
    StripKeepsWords(raw);
    SeparatorsWithout();
    ReplaceSpaceKeepsWords(a, "\n", " ", '_');
    ReplaceSpaceKeepsWords(b, "  ", " ", '_');
    ReplaceKeepsWithout(d, "_ ", " ", '_');
  }

  lemma SeparatorsWithout()
    ensures AllSpace("\n") && AllSpace(" ") && AllSpace("  ") && !IsSpace('_')
    ensures Without("_ ", '_') == Without(" ", '_')
  {
    assert "_ "[1..] == " " && " "[1..] == "";
  }

  /** Stripping keeps the fields of the text once `_` is deleted. */
  lemma StripKeepsWords(s: string)
    ensures SplitWhitespace(Without(Strip(s), '_')) == SplitWhitespace(Without(s, '_'))
  {
    LStripKeepsWords(s);
    RStripKeepsWords(LStrip(s));
  }

  lemma LStripKeepsWords(s: string)
    ensures SplitWhitespace(Without(LStrip(s), '_')) == SplitWhitespace(Without(s, '_'))
  {
    var l := LStrip(s);
    var k := |s| - |l|;
    assert s == s[..k] + l;
    assert AllSpace(s[..k]);
    WithoutConcat(s[..k], l, '_');
    WithoutAbsent(s[..k], '_');
    SpacePrefixWords(s[..k], Without(l, '_'));
  }

  lemma RStripKeepsWords(s: string)
    ensures SplitWhitespace(Without(RStrip(s), '_')) == SplitWhitespace(Without(s, '_'))
  {
    var r := RStrip(s);
    var w := s[|r|..];
    assert s == r + w;
    assert AllSpace(w);
    WithoutConcat(r, w, '_');
    WithoutAbsent(w, '_');
    SpaceSuffixWords(Without(r, '_'), w);
  }

  lemma NormaliseKeepsSolid(raw: string, a: string, b: string, c: string, d: string, r: string)
    requires a == Strip(raw) && b == Replace(a, "\n", " ") && c == Replace(b, "  ", " ")
    requires d == CollapseUnderscores(c) && r == Replace(d, "_ ", " ")
    ensures Solid(r) == Solid(raw)
  {
    SolidOfSeparators();
    StripKeepsSolid(raw);
    ReplaceKeepsSolid(a, "\n", " ");
    ReplaceKeepsSolid(b, "  ", " ");
    CollapseKeepsSolid(c);
    ReplaceKeepsSolid(d, "_ ", " ");
  }

  lemma NormaliseFacts(a: string, b: string, c: string, d: string, r: string)
    requires |a| > 0 ==> !IsSpace(a[0]) && !IsSpace(a[|a| - 1])
    requires b == Replace(a, "\n", " ") && c == Replace(b, "  ", " ")
    requires d == CollapseUnderscores(c) && r == Replace(d, "_ ", " ")
    ensures '\n' !in r
    ensures !Contains(r, "__") && !Contains(r, "_ ")
    ensures |r| > 0 ==> !IsSpace(r[|r| - 1])
    ensures |r| > 0 && IsSpace(r[0]) ==> r[0] == ' '
    ensures r == "" <==> a == ""
  {
    NoLineBreak(a, b, c, d, r);
    DropSeparatorBeforeSpace(d);
    if |a| > 0 {
      EndsKept(a, b, c, d, r);
    }
  }

  lemma NoLineBreak(a: string, b: string, c: string, d: string, r: string)
    requires b == Replace(a, "\n", " ") && c == Replace(b, "  ", " ")
    requires d == CollapseUnderscores(c) && r == Replace(d, "_ ", " ")
    ensures '\n' !in r
  {
    ReplaceCharGone(a, '\n', " ");
    if '\n' in c { ReplaceChars(b, "  ", " ", '\n'); }
    if '\n' in r { ReplaceChars(d, "_ ", " ", '\n'); }
  }

  lemma EndsKept(a: string, b: string, c: string, d: string, r: string)
    requires |a| > 0 && !IsSpace(a[0]) && !IsSpace(a[|a| - 1])
    requires b == Replace(a, "\n", " ") && c == Replace(b, "  ", " ")
    requires d == CollapseUnderscores(c) && r == Replace(d, "_ ", " ")
    requires !Contains(d, "__")
    ensures |r| > 0 && r[|r| - 1] == a[|a| - 1]
    ensures IsSpace(r[0]) ==> r[0] == ' '
  {
    assert IsSpace(' ') && IsSpace('\n');
    ReplaceKeepsLast(a, "\n", " ");
    ReplaceKeepsLast(b, "  ", " ");
    ReplaceKeepsLast(d, "_ ", " ");
    ReplaceKeepsFirst(a, "\n", " ");
    ReplaceKeepsFirst(b, "  ", " ");
    DropSeparatorBeforeSpace(d);
  }

  /** A line that starts with `_ ` keeps a leading space after normalisation,
      so normalised text is not free of leading whitespace. */
  lemma LeadingSeparatorLeavesSpace()
    ensures Normalise("_ a") == " a"
  {
    var s := "_ a";
    assert !IsSpace('_') && !IsSpace('a');
    assert Strip(s) == s;
    UntouchedByLineBreaks();
    UntouchedByDoubleSpaces();
    assert CollapseUnderscores(s) == s by {
      assert s[..2] == "_ " && s[1..] == " a";
      assert " a"[..2] == " a";
    }
    assert Replace(s, "_ ", " ") == " a" by {
      assert s[..2] == "_ " && s[2..] == "a";
    }
  }

  lemma UntouchedByLineBreaks()
    ensures Replace("_ a", "\n", " ") == "_ a"
  {
    var s := "_ a";
    assert s[..1] == "_" && s[1..] == " a";
    assert " a"[..1] == " " && " a"[1..] == "a";
    assert "a"[..1] == "a" && "a"[1..] == "";
    assert Replace("a", "\n", " ") == "a";
    assert Replace(" a", "\n", " ") == " a";
  }

  lemma UntouchedByDoubleSpaces()
    ensures Replace("_ a", "  ", " ") == "_ a"
  {
    var s := "_ a";
    assert s[..2] == "_ " && s[1..] == " a";
    assert " a"[..2] == " a" && " a"[1..] == "a";
    assert Replace(" a", "  ", " ") == " a";
  }
}
