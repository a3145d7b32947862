/** The Python `str` operations the espeak backend relies on, written out so
    that their leftmost, non-overlapping scanning is explicit: `in`, `count`,
    `replace`, `split(sep)`, `split()`, `strip()` and `join`. */
module PyText {

  /** Python's `str.isspace` for one code point. */
  predicate IsSpace(c: char) {
    var k := c as int;
    || k == 0x20 || 0x09 <= k <= 0x0D || 0x1C <= k <= 0x1F || k == 0x85 || k == 0xA0
    || k == 0x1680 || 0x2000 <= k <= 0x200A || k == 0x2028 || k == 0x2029
    || k == 0x202F || k == 0x205F || k == 0x3000
  }

  predicate AllSpace(s: string) {
    forall i :: 0 <= i < |s| ==> IsSpace(s[i])
  }

  /** `t in s`: t occurs somewhere in s as a contiguous block. */
  predicate Contains(s: string, t: string)
    decreases |s|
  {
    if |s| < |t| then false
    else s[..|t|] == t || (|s| > 0 && Contains(s[1..], t))
  }

  /** `s.count(d)`: occurrences of d found by a leftmost, non-overlapping scan. */
  function Count(s: string, d: string): nat
    requires |d| > 0
    decreases |s|
  {
    if |s| < |d| then 0
    else if s[..|d|] == d then 1 + Count(s[|d|..], d)
    else Count(s[1..], d)
  }

  /** `d.join(parts)`. */
  function Join(parts: seq<string>, d: string): string
  {
    if |parts| == 0 then ""
    else if |parts| == 1 then parts[0]
    else parts[0] + d + Join(parts[1..], d)
  }

  /** `s.split(d)` with an explicit separator: the text between successive
      leftmost non-overlapping occurrences of d; consecutive separators give
      empty fields. */
  function Split(s: string, d: string): (r: seq<string>)
    requires |d| > 0
    ensures |r| >= 1
    decreases |s|
  {
    if |s| < |d| then [s]
    else if s[..|d|] == d then [""] + Split(s[|d|..], d)
    else
      var t := Split(s[1..], d);
      [[s[0]] + t[0]] + t[1..]
  }

  /** `s.replace(pat, sub)`: every leftmost non-overlapping occurrence of pat is
      replaced; an empty pat inserts sub around every character, as Python does. */
  function Replace(s: string, pat: string, sub: string): string
    decreases |s|
  {
    if |pat| == 0 then
      if |s| == 0 then sub else sub + [s[0]] + Replace(s[1..], pat, sub)
    else if |s| < |pat| then s
    else if s[..|pat|] == pat then sub + Replace(s[|pat|..], pat, sub)
    else [s[0]] + Replace(s[1..], pat, sub)
  }

  /** `s.lstrip()`: drops exactly the leading run of whitespace. */
  function LStrip(s: string): (r: string)
    ensures |r| <= |s| && r == s[|s| - |r|..]
    ensures AllSpace(s[..|s| - |r|])
    ensures |r| > 0 ==> !IsSpace(r[0])
    decreases |s|
  {
    if |s| > 0 && IsSpace(s[0]) then LStrip(s[1..]) else s
  }

  /** `s.rstrip()`: drops exactly the trailing run of whitespace. */
  function RStrip(s: string): (r: string)
    ensures |r| <= |s| && r == s[..|r|]
    ensures AllSpace(s[|r|..])
    ensures |r| > 0 ==> !IsSpace(r[|r| - 1])
    decreases |s|
  {
    if |s| > 0 && IsSpace(s[|s| - 1]) then RStrip(s[..|s| - 1]) else s
  }

  /** `s.strip()`: the block of s left once the leading and the trailing
      whitespace are gone. */
  function Strip(s: string): (r: string)
    ensures |r| > 0 ==> !IsSpace(r[0]) && !IsSpace(r[|r| - 1])
    ensures r == "" <==> AllSpace(s)
  {
    StripEnds(s);
    RStrip(LStrip(s))
  }

  lemma StripEnds(s: string)
    ensures var r := RStrip(LStrip(s));
      && (|r| > 0 ==> !IsSpace(r[0]) && !IsSpace(r[|r| - 1]))
      && (r == "" <==> AllSpace(s))
  {
    var l := LStrip(s);
    var r := RStrip(l);
    StripBlock(s, l, r);
    if |r| > 0 {
      assert r[0] == l[0];
    }
  }

  /** r sits in s at position i with only whitespace on either side. */
  predicate IsBlockOf(r: string, s: string, i: int)
  {
    0 <= i <= |s| - |r| && r == s[i..i + |r|] && AllSpace(s[..i]) && AllSpace(s[i + |r|..])
  }

  /** What `strip` keeps is one contiguous block of s, and everything it drops
      on either side is whitespace. */
  lemma StripKeepsBlock(s: string)
    ensures exists i :: IsBlockOf(Strip(s), s, i)
  {
    var l := LStrip(s);
    StripBlock(s, l, RStrip(l));
    assert IsBlockOf(Strip(s), s, |s| - |l|);
  }

  lemma StripBlock(s: string, l: string, r: string)
    requires |l| <= |s| && l == s[|s| - |l|..] && AllSpace(s[..|s| - |l|])
    requires |l| > 0 ==> !IsSpace(l[0])
    requires |r| <= |l| && r == l[..|r|] && AllSpace(l[|r|..])
    ensures IsBlockOf(r, s, |s| - |l|)
    ensures r == "" <==> AllSpace(s)
  {
    var i := |s| - |l|;
    assert s[i..][..|r|] == s[i..i + |r|];
    assert s[i..][|r|..] == s[i + |r|..];
    if r == "" {
      assert |l| == 0;
      assert s[..i] == s;
    }
  }

  /** Length of the run of non-whitespace characters that starts s. */
  function WordEnd(s: string): (k: nat)
    ensures k <= |s|
    ensures forall i :: 0 <= i < k ==> !IsSpace(s[i])
    ensures k < |s| ==> IsSpace(s[k])
    decreases |s|
  {
    if |s| == 0 || IsSpace(s[0]) then 0 else 1 + WordEnd(s[1..])
  }

  /** `s.split()` without a separator: the maximal runs of non-whitespace
      characters, so blank text gives no field at all. */
  function SplitWhitespace(s: string): (r: seq<string>)
    ensures forall i :: 0 <= i < |r| ==> |r[i]| > 0 && !exists j :: 0 <= j < |r[i]| && IsSpace(r[i][j])
    ensures r == [] <==> AllSpace(s)
    decreases |s|
  {
    if |s| == 0 then []
    else if IsSpace(s[0]) then
      var t := SplitWhitespace(s[1..]);
      assert AllSpace(s[1..]) ==> AllSpace(s) by {
        if AllSpace(s[1..]) {
          forall i | 0 <= i < |s| ensures IsSpace(s[i]) {
            if i > 0 { assert s[i] == s[1..][i - 1]; }
          }
        }
      }
      t
    else
      var k := WordEnd(s);
      [s[..k]] + SplitWhitespace(s[k..])
  }

  // ---------------------------------------------------------------------------
  // Lemmas relating the helpers to each other.
  // ---------------------------------------------------------------------------

  /** Joining a first field in front of at least one more. */
  lemma JoinCons(h: string, t: seq<string>, d: string)
    requires |t| > 0
    ensures Join([h] + t, d) == h + d + Join(t, d)
  {
    assert ([h] + t)[1..] == t;
  }

  /** Growing the first field by one character in front grows the join by it. */
  lemma JoinGrowFirst(c: char, t: seq<string>, d: string)
    requires |t| > 0
    ensures Join([[c] + t[0]] + t[1..], d) == [c] + Join(t, d)
  {
    if |t| > 1 {
      JoinCons([c] + t[0], t[1..], d);
      JoinCons(t[0], t[1..], d);
      assert [t[0]] + t[1..] == t;
    }
  }

  /** One step of a split where the text starts with the separator. */
  lemma SplitHit(s: string, d: string)
    requires 0 < |d| <= |s| && s[..|d|] == d
    ensures Split(s, d) == [""] + Split(s[|d|..], d)
  {
  }

  /** One step of a split where the text does not start with the separator. */
  lemma SplitMiss(s: string, d: string)
    requires 0 < |d| <= |s| && s[..|d|] != d
    ensures var t := Split(s[1..], d); Split(s, d) == [[s[0]] + t[0]] + t[1..]
  {
  }

  /** Splitting and joining with the same separator gives the text back. */
  lemma {:induction false} SplitJoin(s: string, d: string)
    requires |d| > 0
    ensures Join(Split(s, d), d) == s
    decreases |s|
  {
    if |s| < |d| {
    } else if s[..|d|] == d {
      SplitHit(s, d);
      SplitJoin(s[|d|..], d);
      JoinCons("", Split(s[|d|..], d), d);
      assert s == s[..|d|] + s[|d|..];
    } else {
      SplitMiss(s, d);
      SplitJoin(s[1..], d);
      JoinGrowFirst(s[0], Split(s[1..], d), d);
      assert s == [s[0]] + s[1..];
    }
  }

  /** `len(s.split(d)) == s.count(d) + 1`. */
  lemma {:induction false} SplitCount(s: string, d: string)
    requires |d| > 0
    ensures |Split(s, d)| == Count(s, d) + 1
    decreases |s|
  {
    if |s| < |d| {
    } else if s[..|d|] == d {
      SplitCount(s[|d|..], d);
    } else {
      SplitCount(s[1..], d);
    }
  }

  /** The leftmost scan counts nothing exactly when the pattern does not occur. */
  lemma {:induction false} CountZeroIff(s: string, d: string)
    requires |d| > 0
    ensures Count(s, d) == 0 <==> !Contains(s, d)
    decreases |s|
  {
    if |s| < |d| {
    } else if s[..|d|] == d {
    } else {
      CountZeroIff(s[1..], d);
    }
  }

  /** A split yields more than one field exactly when the separator occurs. */
  lemma SplitSingleIff(s: string, d: string)
    requires |d| > 0
    ensures |Split(s, d)| == 1 <==> !Contains(s, d)
  {
    SplitCount(s, d);
    CountZeroIff(s, d);
  }

  /** The first field of a split is a prefix of the text. */
  lemma SplitFirstIsPrefix(s: string, d: string)
    requires |d| > 0
    ensures |Split(s, d)[0]| <= |s| && s[..|Split(s, d)[0]|] == Split(s, d)[0]
  {
    var parts := Split(s, d);
    SplitJoin(s, d);
    if |parts| > 1 {
      assert s == parts[0] + (d + Join(parts[1..], d));
    }
  }

  /** No field of a split contains the separator. */
  lemma {:induction false} SplitFieldsFree(s: string, d: string)
    requires |d| > 0
    ensures forall i :: 0 <= i < |Split(s, d)| ==> !Contains(Split(s, d)[i], d)
    decreases |s|
  {
    if |s| < |d| {
      assert !Contains(s, d);
    } else if s[..|d|] == d {
      SplitHit(s, d);
      SplitFieldsFree(s[|d|..], d);
      assert !Contains("", d);
      FreeCons("", Split(s[|d|..], d), d);
    } else {
      var t := Split(s[1..], d);
      SplitMiss(s, d);
      SplitFieldsFree(s[1..], d);
      FirstFieldGrows(s, d);
      FreeCons([s[0]] + t[0], t[1..], d);
    }
  }

  /** A field free of the separator in front of fields free of it. */
  lemma FreeCons(h: string, t: seq<string>, d: string)
    requires !Contains(h, d)
    requires forall i :: 0 <= i < |t| ==> !Contains(t[i], d)
    ensures forall i :: 0 <= i < |[h] + t| ==> !Contains(([h] + t)[i], d)
  {
    assert forall i :: 1 <= i < |[h] + t| ==> ([h] + t)[i] == t[i - 1];
  }

  /** Putting the first character back in front of the first field of the
      rest still leaves no separator, when the text does not start with it. */
  lemma FirstFieldGrows(s: string, d: string)
    requires 0 < |d| <= |s| && s[..|d|] != d
    requires !Contains(Split(s[1..], d)[0], d)
    ensures !Contains([s[0]] + Split(s[1..], d)[0], d)
  {
    SplitFirstIsPrefix(s[1..], d);
    PrefixGrows(s, d, Split(s[1..], d)[0]);
  }

  lemma PrefixGrows(s: string, d: string, p: string)
    requires 0 < |d| <= |s| && s[..|d|] != d
    requires |p| <= |s| - 1 && s[1..][..|p|] == p && !Contains(p, d)
    ensures !Contains([s[0]] + p, d)
  {
    var h := [s[0]] + p;
    assert h == s[..|h|];
    assert h[1..] == p;
    ContainsCons(h, d);
    if |h| >= |d| {
      assert h[..|d|] == s[..|d|];
    }
  }

  /** One step of `in`: an occurrence is at the front or further on. */
  lemma ContainsCons(h: string, d: string)
    requires |h| > 0
    ensures Contains(h, d) <==> (|h| >= |d| && h[..|d|] == d) || Contains(h[1..], d)
  {
  }

  /** Joining at least two fields: everything but the last, the separator, the last. */
  lemma {:induction false} JoinLast(parts: seq<string>, d: string)
    requires |parts| >= 2
    ensures Join(parts, d) == Join(parts[..|parts| - 1], d) + d + parts[|parts| - 1]
    decreases |parts|
  {
    if |parts| > 2 {
      JoinLast(parts[1..], d);
      assert parts[1..][..|parts| - 2] == parts[1..|parts| - 1];
      assert parts[..|parts| - 1][1..] == parts[1..|parts| - 1];
    } else {
      assert parts[..1] == [parts[0]];
    }
  }

  /** `replace` is `split` followed by `join` with the replacement. */
  lemma {:induction false} ReplaceIsSplitJoin(s: string, pat: string, sub: string)
    requires |pat| > 0
    ensures Replace(s, pat, sub) == Join(Split(s, pat), sub)
    decreases |s|
  {
    if |s| < |pat| {
    } else if s[..|pat|] == pat {
      SplitHit(s, pat);
      ReplaceIsSplitJoin(s[|pat|..], pat, sub);
      JoinCons("", Split(s[|pat|..], pat), sub);
      assert "" + sub == sub;
    } else {
      SplitMiss(s, pat);
      ReplaceMiss(s, pat, sub);
      ReplaceIsSplitJoin(s[1..], pat, sub);
      JoinGrowFirst(s[0], Split(s[1..], pat), sub);
    }
  }

  /** A pattern that does not occur is not replaced. */
  lemma ReplaceAbsent(s: string, pat: string, sub: string)
    requires |pat| > 0 && !Contains(s, pat)
    ensures Replace(s, pat, sub) == s
  {
    ReplaceIsSplitJoin(s, pat, sub);
    SplitSingleIff(s, pat);
    SplitJoin(s, pat);
  }

  /** Every character of a replacement result comes from the text or from sub. */
  lemma {:induction false} ReplaceChars(s: string, pat: string, sub: string, c: char)
    requires c in Replace(s, pat, sub)
    ensures c in s || c in sub
    decreases |s|
  {
    if |pat| == 0 {
      if |s| > 0 && c !in sub && c != s[0] {
        ReplaceChars(s[1..], pat, sub, c);
      }
    } else if |s| < |pat| {
    } else if s[..|pat|] == pat {
      if c !in sub {
        ReplaceChars(s[|pat|..], pat, sub, c);
      }
    } else {
      if c != s[0] {
        ReplaceChars(s[1..], pat, sub, c);
      }
    }
  }

  /** Replacing every c by text without c leaves no c. */
  lemma {:induction false} ReplaceCharGone(s: string, c: char, sub: string)
    requires c !in sub
    ensures c !in Replace(s, [c], sub)
    decreases |s|
  {
    if |s| >= 1 {
      ReplaceCharGone(s[1..], c, sub);
      if s[..1] != [c] {
        assert s[0] != c;
      }
    }
  }

  /** A replacement by something no longer never lengthens the text, and a
      deletion of a pattern that occurs strictly shortens it. */
  lemma {:induction false} ReplaceShrinks(s: string, pat: string, sub: string)
    requires |pat| > 0 && |sub| <= |pat|
    ensures |Replace(s, pat, sub)| <= |s|
    ensures |sub| < |pat| && Contains(s, pat) ==> |Replace(s, pat, sub)| < |s|
    decreases |s|
  {
    if |s| < |pat| {
    } else if s[..|pat|] == pat {
      ReplaceShrinks(s[|pat|..], pat, sub);
    } else {
      ReplaceShrinks(s[1..], pat, sub);
    }
  }

  /** A last character that cannot end an occurrence of pat survives. */
  lemma {:induction false} ReplaceKeepsLast(s: string, pat: string, sub: string)
    requires |pat| > 0 && |s| > 0 && s[|s| - 1] != pat[|pat| - 1]
    ensures var r := Replace(s, pat, sub); |r| > 0 && r[|r| - 1] == s[|s| - 1]
    decreases |s|
  {
    if |s| < |pat| {
    } else if s[..|pat|] == pat {
      if |s| == |pat| {
        assert false;
      } else {
        ReplaceHit(s, pat, sub);
        ReplaceKeepsLast(s[|pat|..], pat, sub);
      }
    } else {
      ReplaceMiss(s, pat, sub);
      if |s| > 1 {
        ReplaceKeepsLast(s[1..], pat, sub);
      } else {
        ReplaceShort(s[1..], pat, sub);
      }
    }
  }

  /** A first character that cannot start an occurrence of pat survives. */
  lemma ReplaceKeepsFirst(s: string, pat: string, sub: string)
    requires |pat| > 0 && |s| > 0 && s[0] != pat[0]
    ensures var r := Replace(s, pat, sub); |r| > 0 && r[0] == s[0]
  {
    if |s| >= |pat| {
      assert s[..|pat|][0] == s[0];
    }
  }

  /** Replacing a single character distributes over concatenation. */
  lemma {:induction false} ReplaceCharConcat(a: string, b: string, c: char, sub: string)
    ensures Replace(a + b, [c], sub) == Replace(a, [c], sub) + Replace(b, [c], sub)
    decreases |a|
  {
    if |a| > 0 {
      ReplaceCharConcat(a[1..], b, c, sub);
      assert (a + b)[1..] == a[1..] + b;
      assert (a + b)[..1] == a[..1];
    } else {
      assert a + b == b;
    }
  }

  /** Splitting on one character gives one field more than the text has
      occurrences of it. */
  lemma SplitCharCount(s: string, c: char)
    ensures |Split(s, [c])| == multiset(s)[c] + 1
  {
    SplitCount(s, [c]);
    CountChar(s, c);
  }

  /** The leftmost count of a one-character pattern is its number of occurrences. */
  lemma {:induction false} CountChar(s: string, c: char)
    ensures Count(s, [c]) == multiset(s)[c]
    decreases |s|
  {
    if |s| > 0 {
      CountChar(s[1..], c);
      assert s == [s[0]] + s[1..];
      assert multiset(s) == multiset{s[0]} + multiset(s[1..]);
      if s[..1] == [c] {
        assert s[0] == c;
      } else {
        assert s[0] != c;
      }
    }
  }

  /** Every contiguous block of a text occurs in it. */
  lemma {:induction false} ContainsSlice(s: string, i: nat, j: nat)
    requires i <= j <= |s|
    ensures Contains(s, s[i..j])
    decreases i
  {
    if i == 0 {
      assert s[..j - i] == s[i..j];
    } else {
      var t := s[1..];
      ContainsSlice(t, i - 1, j - 1);
      assert t[i - 1..j - 1] == s[i..j] by {
        forall k | 0 <= k < j - i ensures t[i - 1..j - 1][k] == s[i..j][k] {
          assert t[i - 1 + k] == s[i + k];
        }
      }
    }
  }

  /** A character in none of the pieces and not in the separator is not in the join. */
  lemma {:induction false} JoinAvoids(parts: seq<string>, d: string, c: char)
    requires forall i :: 0 <= i < |parts| ==> c !in parts[i]
    requires c !in d
    ensures c !in Join(parts, d)
    decreases |parts|
  {
    if |parts| > 1 {
      JoinAvoids(parts[1..], d, c);
    }
  }

  /** `s.endswith(t)`. */
  predicate EndsWith(s: string, t: string)
  {
    |t| <= |s| && s[|s| - |t|..] == t
  }

  lemma EndsWithSuffix(s: string, d: string, t: string)
    ensures EndsWith(s + d + t, d + t)
  {
    assert (s + d + t)[|s|..] == d + t;
  }

  /** A separator occurring once, after text that cannot start it, splits in two. */
  lemma SplitAround(a: string, d: string, b: string)
    requires |d| > 0 && d[0] !in a && Split(b, d) == [b]
    ensures Split(a + d + b, d) == [a, b]
  {
    SplitLeading(d, b);
    SplitLetters(a, d + b, d);
    assert a + d + b == a + (d + b);
    assert a + "" == a;
  }

  lemma SplitLeading(d: string, b: string)
    requires |d| > 0 && Split(b, d) == [b]
    ensures Split(d + b, d) == ["", b]
  {
    assert (d + b)[..|d|] == d && (d + b)[|d|..] == b;
  }

  /** A pattern whose first character never appears does not occur. */
  lemma {:induction false} NoFirstChar(s: string, t: string)
    requires |t| > 0 && t[0] !in s
    ensures !Contains(s, t)
    decreases |s|
  {
    if |s| >= |t| {
      assert s[..|t|][0] == s[0];
      assert s[0] in s;
      NoFirstChar(s[1..], t);
    }
  }

  /** A split passes over leading text that cannot start the separator. */
  lemma {:induction false} SplitLetters(a: string, b: string, d: string)
    requires |d| > 0 && d[0] !in a
    ensures var u := Split(b, d); Split(a + b, d) == [a + u[0]] + u[1..]
    decreases |a|
  {
    var u := Split(b, d);
    if |a| == 0 {
      assert a + b == b && a + u[0] == u[0];
    } else {
      var s := a + b;
      assert a == [a[0]] + a[1..];
      assert s[0] == a[0] && s[1..] == a[1..] + b;
      SplitLetters(a[1..], b, d);
      if |s| < |d| {
        assert u == [b];
      } else {
        SplitMissFirst(s, d);
        ConsFirst(a[0], a[1..], u, Split(s[1..], d));
      }
    }
  }

  /** A split passes over a first character that cannot start the separator. */
  lemma SplitMissFirst(s: string, d: string)
    requires 0 < |d| <= |s| && s[0] != d[0]
    ensures var t := Split(s[1..], d); Split(s, d) == [[s[0]] + t[0]] + t[1..]
  {
    assert s[..|d|][0] == s[0];
  }

  /** Rebuilding a split one character longer at the front. */
  lemma ConsFirst(c: char, p: string, u: seq<string>, t: seq<string>)
    requires |u| > 0 && t == [p + u[0]] + u[1..]
    ensures [[c] + t[0]] + t[1..] == [([c] + p) + u[0]] + u[1..]
  {
    assert t[1..] == u[1..];
    assert [c] + t[0] == ([c] + p) + u[0];
  }

  /** A replacement passes over leading text that cannot start the pattern. */
  lemma {:induction false} ReplaceLetters(a: string, b: string, pat: string, sub: string)
    requires |pat| > 0 && pat[0] !in a
    ensures Replace(a + b, pat, sub) == a + Replace(b, pat, sub)
    decreases |a|
  {
    if |a| == 0 {
      assert a + b == b;
    } else {
      var s := a + b;
      assert a == [a[0]] + a[1..];
      assert s[0] == a[0] && s[1..] == a[1..] + b;
      ReplaceLetters(a[1..], b, pat, sub);
      if |s| < |pat| {
        ReplaceShort(s, pat, sub);
        ReplaceShort(b, pat, sub);
      } else {
        assert s[0] != pat[0];
        ReplaceMissFirst(s, pat, sub);
        assert Replace(s, pat, sub) == [a[0]] + (a[1..] + Replace(b, pat, sub));
        assert [a[0]] + (a[1..] + Replace(b, pat, sub)) == a + Replace(b, pat, sub);
      }
    }
  }

  /** A replacement passes over a first character that cannot start the pattern. */
  lemma ReplaceMissFirst(s: string, pat: string, sub: string)
    requires 0 < |pat| <= |s| && s[0] != pat[0]
    ensures Replace(s, pat, sub) == [s[0]] + Replace(s[1..], pat, sub)
  {
    assert s[..|pat|][0] == s[0];
    ReplaceMiss(s, pat, sub);
  }

  /** One step of a replacement where the text starts with the pattern. */
  lemma ReplaceHit(s: string, pat: string, sub: string)
    requires 0 < |pat| <= |s| && s[..|pat|] == pat
    ensures Replace(s, pat, sub) == sub + Replace(s[|pat|..], pat, sub)
  {
  }

  /** One step of a replacement where the text does not start with the pattern. */
  lemma ReplaceMiss(s: string, pat: string, sub: string)
    requires 0 < |pat| <= |s| && s[..|pat|] != pat
    ensures Replace(s, pat, sub) == [s[0]] + Replace(s[1..], pat, sub)
  {
  }

  lemma ReplaceShort(s: string, pat: string, sub: string)
    requires 0 < |pat| && |s| < |pat|
    ensures Replace(s, pat, sub) == s
  {
  }

  /** s with every occurrence of c deleted. */
  function Without(s: string, c: char): string
    decreases |s|
  {
    if |s| == 0 then "" else (if s[0] == c then "" else [s[0]]) + Without(s[1..], c)
  }

  lemma {:induction false} WithoutConcat(p: string, q: string, c: char)
    ensures Without(p + q, c) == Without(p, c) + Without(q, c)
    decreases |p|
  {
    if |p| > 0 {
      assert (p + q)[0] == p[0];
      assert (p + q)[1..] == p[1..] + q;
      WithoutConcat(p[1..], q, c);
    } else {
      assert p + q == q;
    }
  }

  /** Deleting c from a text that does not hold it changes nothing. */
  lemma {:induction false} WithoutAbsent(s: string, c: char)
    requires forall i :: 0 <= i < |s| ==> s[i] != c
    ensures Without(s, c) == s
    decreases |s|
  {
    if |s| > 0 {
      assert forall i :: 0 <= i < |s| - 1 ==> s[1..][i] == s[i + 1];
      WithoutAbsent(s[1..], c);
      assert s == [s[0]] + s[1..];
    }
  }

  /** A replacement whose pattern and substitute agree once c is deleted
      leaves the text the same once c is deleted. */
  lemma {:induction false} ReplaceKeepsWithout(s: string, pat: string, sub: string, c: char)
    requires |pat| > 0 && Without(pat, c) == Without(sub, c)
    ensures Without(Replace(s, pat, sub), c) == Without(s, c)
    decreases |s|
  {
    if |s| < |pat| {
      ReplaceShort(s, pat, sub);
    } else if s[..|pat|] == pat {
      var rest := s[|pat|..];
      ReplaceHit(s, pat, sub);
      ReplaceKeepsWithout(rest, pat, sub, c);
      assert s == pat + rest;
      WithoutConcat(sub, Replace(rest, pat, sub), c);
      WithoutConcat(pat, rest, c);
    } else {
      ReplaceMiss(s, pat, sub);
      ReplaceKeepsWithout(s[1..], pat, sub, c);
      assert s == [s[0]] + s[1..];
      WithoutConcat([s[0]], Replace(s[1..], pat, sub), c);
      WithoutConcat([s[0]], s[1..], c);
    }
  }

  // ---------------------------------------------------------------------------
  // Whitespace-separated fields under edits of the whitespace.
  // ---------------------------------------------------------------------------

  /** s starts with a character that is not whitespace, so a word put in
      front of s runs on into its first field. */
  predicate StartsWord(s: string) {
    |s| > 0 && !IsSpace(s[0])
  }

  /** x and y split into the same fields, and a word put in front of either
      runs on into both or into neither. */
  predicate SameWords(x: string, y: string) {
    SplitWhitespace(x) == SplitWhitespace(y) && (StartsWord(x) <==> StartsWord(y))
  }

  lemma SplitSpaceCons(c: char, x: string)
    requires IsSpace(c)
    ensures SplitWhitespace([c] + x) == SplitWhitespace(x)
  {
    assert ([c] + x)[1..] == x;
  }

  lemma WordEndCons(c: char, x: string)
    requires !IsSpace(c)
    ensures WordEnd([c] + x) == 1 + WordEnd(x)
  {
    assert ([c] + x)[1..] == x;
  }

  /** A character that is not whitespace put in front of x joins the first
      field of x when x starts with a word, and is a field of its own
      otherwise. */
  lemma SplitWordCons(c: char, x: string)
    requires !IsSpace(c)
    ensures SplitWhitespace([c] + x) ==
      if StartsWord(x) then [[c] + SplitWhitespace(x)[0]] + SplitWhitespace(x)[1..]
      else [[c]] + SplitWhitespace(x)
  {
    var s := [c] + x;
    var k := WordEnd(x);
    WordEndCons(c, x);
    assert s[..k + 1] == [c] + x[..k];
    assert s[k + 1..] == x[k..];
    if StartsWord(x) {
      var t := SplitWhitespace(x[k..]);
      assert SplitWhitespace(x) == [x[..k]] + t;
      assert ([x[..k]] + t)[1..] == t;
    } else {
      assert x[k..] == x;
    }
  }

  lemma SameWordsCons(c: char, x: string, y: string)
    requires SameWords(x, y)
    ensures SameWords([c] + x, [c] + y)
  {
    if IsSpace(c) {
      SplitSpaceCons(c, x);
      SplitSpaceCons(c, y);
    } else {
      SplitWordCons(c, x);
      SplitWordCons(c, y);
    }
  }

  /** Whitespace in front of a text adds no field and starts no word. */
  lemma {:induction false} SpacePrefixWords(w: string, x: string)
    requires AllSpace(w)
    ensures SplitWhitespace(w + x) == SplitWhitespace(x)
    ensures |w| > 0 ==> !StartsWord(w + x)
    decreases |w|
  {
    if |w| > 0 {
      assert w + x == [w[0]] + (w[1..] + x);
      assert forall i :: 0 <= i < |w| - 1 ==> w[1..][i] == w[i + 1];
      SpacePrefixWords(w[1..], x);
      SplitSpaceCons(w[0], w[1..] + x);
    } else {
      assert w + x == x;
    }
  }

  /** Whitespace after a text adds no field. */
  lemma {:induction false} SpaceSuffixWords(x: string, w: string)
    requires AllSpace(w)
    ensures SameWords(x + w, x)
    decreases |x|
  {
    if |x| == 0 {
      assert x + w == w;
    } else {
      assert x + w == [x[0]] + (x[1..] + w);
      assert x == [x[0]] + x[1..];
      SpaceSuffixWords(x[1..], w);
      SameWordsCons(x[0], x[1..] + w, x[1..]);
    }
  }

  /** Replacing a block of whitespace by another non-empty block of
      whitespace keeps the fields of the text once c is deleted, for any c
      that is not whitespace. */
  lemma {:induction false} ReplaceSpaceKeepsWords(s: string, pat: string, sub: string, c: char)
    requires |pat| > 0 && |sub| > 0 && AllSpace(pat) && AllSpace(sub) && !IsSpace(c)
    ensures SameWords(Without(Replace(s, pat, sub), c), Without(s, c))
    decreases |s|
  {
    if |s| < |pat| {
      ReplaceShort(s, pat, sub);
    } else if s[..|pat|] == pat {
      var rest := s[|pat|..];
      ReplaceHit(s, pat, sub);
      ReplaceSpaceKeepsWords(rest, pat, sub, c);
      assert s == pat + rest;
      SpaceBlocksKeepWords(pat, sub, Replace(rest, pat, sub), rest, c);
    } else {
      ReplaceMiss(s, pat, sub);
      ReplaceSpaceKeepsWords(s[1..], pat, sub, c);
      assert s == [s[0]] + s[1..];
      SameCharKeepsWords(s[0], Replace(s[1..], pat, sub), s[1..], c);
    }
  }

  /** Two non-empty blocks of whitespace in front of texts with the same
      fields once c is deleted. */
  lemma SpaceBlocksKeepWords(pat: string, sub: string, x: string, y: string, c: char)
    requires |pat| > 0 && |sub| > 0 && AllSpace(pat) && AllSpace(sub) && !IsSpace(c)
    requires SameWords(Without(x, c), Without(y, c))
    ensures SameWords(Without(sub + x, c), Without(pat + y, c))
  {
    WithoutConcat(sub, x, c);
    WithoutConcat(pat, y, c);
    WithoutAbsent(sub, c);
    WithoutAbsent(pat, c);
    SpacePrefixWords(sub, Without(x, c));
    SpacePrefixWords(pat, Without(y, c));
  }

  /** One character in front of texts with the same fields once c is deleted. */
  lemma SameCharKeepsWords(h: char, x: string, y: string, c: char)
    requires SameWords(Without(x, c), Without(y, c))
    ensures SameWords(Without([h] + x, c), Without([h] + y, c))
  {
    WithoutConcat([h], x, c);
    WithoutConcat([h], y, c);
    assert [h][1..] == [];
    if h == c {
      assert Without([h], c) == [];
      assert [] + Without(x, c) == Without(x, c) && [] + Without(y, c) == Without(y, c);
    } else {
      assert Without([h], c) == [h];
      SameWordsCons(h, Without(x, c), Without(y, c));
    }
  }
}
