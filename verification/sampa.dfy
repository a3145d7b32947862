/** The SAMPA symbol table of the espeak backend: loading it from the lines of
    a `sampa_<language>.txt` file into an insertion-ordered dictionary, and
    rewriting a word with it, one `str.replace` per entry in dictionary order. */
module Sampa {
  import opened Wrappers
  import opened PyText
  import opened Enumerations

  /** A Python `dict` from espeak symbol to standard SAMPA symbol: its items in
      iteration (first-insertion) order. */
  type Mapping = seq<(string, string)>

  /** The keys of the items, in order. */
  function Keys(m: Mapping): seq<string>
    decreases |m|
  {
    if |m| == 0 then [] else [m[0].0] + Keys(m[1..])
  }

  /** `m.get(k)`: the value of the first item whose key is k. */
  function Lookup(m: Mapping, k: string): Option<string>
    decreases |m|
  {
    if |m| == 0 then None
    else if m[0].0 == k then Some(m[0].1)
    else Lookup(m[1..], k)
  }

  /** `m[k] = v`: an existing key keeps its position and takes the new value; a
      new key goes last; every other key keeps its value. */
  function Put(m: Mapping, k: string, v: string): (r: Mapping)
    ensures Keys(r) == if k in Keys(m) then Keys(m) else Keys(m) + [k]
    ensures Lookup(r, k) == Some(v)
    ensures forall j :: j != k ==> Lookup(r, j) == Lookup(m, j)
    decreases |m|
  {
    if |m| == 0 then
      [(k, v)]
    else if m[0].0 == k then
      var r := [(k, v)] + m[1..];
      assert r[1..] == m[1..];
      r
    else
      var t := Put(m[1..], k, v);
      var r := [m[0]] + t;
      assert r[1..] == t;
      r
  }

  lemma {:induction false} KeysAppend(m: Mapping, e: (string, string))
    ensures Keys(m + [e]) == Keys(m) + [e.0]
    decreases |m|
  {
    if |m| > 0 {
      assert (m + [e])[1..] == m[1..] + [e];
      KeysAppend(m[1..], e);
    }
  }

  // ---------------------------------------------------------------------------
  // Loading the table (espeak.py lines 192-200).
  // ---------------------------------------------------------------------------

  /** `line.strip().split()`. */
  function Fields(line: string): seq<string>
  {
    SplitWhitespace(Strip(line))
  }

  /** A table line holds exactly two whitespace-separated symbols. */
  predicate WellFormed(line: string)
  {
    |Fields(line)| == 2
  }

  predicate AllWellFormed(lines: seq<string>)
  {
    forall i :: 0 <= i < |lines| ==> WellFormed(lines[i])
  }

  /** The (key, value) pair that a well-formed line assigns. */
  function Assignment(line: string): (string, string)
    requires WellFormed(line)
  {
    (Fields(line)[0], Fields(line)[1])
  }

  /** Every assignment made by a well-formed table, in file order, repeats
      included: the reference against which the dictionary is described. */
  function Assignments(lines: seq<string>): (r: seq<(string, string)>)
    requires AllWellFormed(lines)
    ensures |r| == |lines|
  {
    if |lines| == 0 then []
    else Assignments(lines[..|lines| - 1]) + [Assignment(lines[|lines| - 1])]
  }

  /** The value of the last assignment to k, if any. */
  function Latest(ps: seq<(string, string)>, k: string): Option<string>
  {
    if |ps| == 0 then None
    else if ps[|ps| - 1].0 == k then Some(ps[|ps| - 1].1)
    else Latest(ps[..|ps| - 1], k)
  }

  /** `_load_sampa_mapping` after the file is opened: the lines are read in
      order and each one assigns its first symbol to its second. The first
      line that is not exactly two symbols (a blank line included) raises the
      `ValueError`, reported with its 0-based index. Otherwise the keys are the
      distinct first symbols in order of first appearance, without repeats,
      and each is bound to the value of its last assignment. */
  function LoadSampa(lines: seq<string>): (r: Result<Mapping, Error>)
    ensures r.Success? <==> AllWellFormed(lines)
    ensures r.Failure? ==> && r.error.BadSampaLine?
                           && r.error.index < |lines|
                           && r.error.line == lines[r.error.index]
                           && !WellFormed(lines[r.error.index])
                           && AllWellFormed(lines[..r.error.index])
    ensures r.Success? ==> Keys(r.value) == Distinct(Keys(Assignments(lines)))
    ensures r.Success? ==> NoDuplicates(Keys(r.value))
    ensures r.Success? ==> forall k :: Lookup(r.value, k) == Latest(Assignments(lines), k)
  {
    if |lines| == 0 then
      Success([])
    else
      var n := |lines| - 1;
      var front := lines[..n];
      match LoadSampa(front)
      case Failure(e) =>
        FailureCarries(lines, e);
        Failure(e)
      case Success(m) =>
        if !WellFormed(lines[n]) then
          assert lines[..n] == front;
          Failure(BadSampaLine(n, lines[n]))
        else
          var (k, v) := Assignment(lines[n]);
          PrefixWellFormed(lines);
          LoadStep(lines, m, k, v);
          Success(Put(m, k, v))
  }

  /** A well-formed prefix followed by a well-formed line is a well-formed table. */
  lemma PrefixWellFormed(lines: seq<string>)
    requires |lines| > 0 && AllWellFormed(lines[..|lines| - 1]) && WellFormed(lines[|lines| - 1])
    ensures AllWellFormed(lines)
  {
    forall i | 0 <= i < |lines| ensures WellFormed(lines[i]) {
      if i < |lines| - 1 {
        assert lines[..|lines| - 1][i] == lines[i];
      }
    }
  }

  /** A table cannot be well formed when a prefix of it is not. */
  lemma FailureCarries(lines: seq<string>, e: Error)
    requires |lines| > 0
    requires e.BadSampaLine? && e.index < |lines| - 1
    requires e.line == lines[..|lines| - 1][e.index] && !WellFormed(e.line)
    requires AllWellFormed(lines[..|lines| - 1][..e.index])
    ensures e.line == lines[e.index] && !AllWellFormed(lines)
    ensures AllWellFormed(lines[..e.index])
  {
    BadLineCarries(lines, e.index);
    assert lines[..|lines| - 1][..e.index] == lines[..e.index];
  }

  lemma BadLineCarries(lines: seq<string>, i: nat)
    requires i < |lines| - 1 && !WellFormed(lines[..|lines| - 1][i])
    ensures lines[..|lines| - 1][i] == lines[i] && !AllWellFormed(lines)
  {
    assert lines[..|lines| - 1][i] == lines[i];
  }

  lemma LoadStep(lines: seq<string>, m: Mapping, k: string, v: string)
    requires |lines| > 0 && AllWellFormed(lines)
    requires (k, v) == Assignment(lines[|lines| - 1])
    requires Keys(m) == Distinct(Keys(Assignments(lines[..|lines| - 1])))
    requires forall j :: Lookup(m, j) == Latest(Assignments(lines[..|lines| - 1]), j)
    ensures Keys(Put(m, k, v)) == Distinct(Keys(Assignments(lines)))
    ensures forall j :: Lookup(Put(m, k, v), j) == Latest(Assignments(lines), j)
  {
    var front := Assignments(lines[..|lines| - 1]);
    assert Assignments(lines) == front + [(k, v)];
    KeysStep(m, front, k, v);
    LookupStep(m, front, k, v);
  }

  /** Putting the next assignment keeps the keys the distinct assigned keys. */
  lemma KeysStep(m: Mapping, front: seq<(string, string)>, k: string, v: string)
    requires Keys(m) == Distinct(Keys(front))
    ensures Keys(Put(m, k, v)) == Distinct(Keys(front + [(k, v)]))
  {
    KeysAppend(front, (k, v));
    var xs := Keys(front + [(k, v)]);
    assert xs == Keys(front) + [k];
    assert xs[..|xs| - 1] == Keys(front);
    assert xs[|xs| - 1] == k;
  }

  /** Putting the next assignment keeps every key bound to its latest value. */
  lemma LookupStep(m: Mapping, front: seq<(string, string)>, k: string, v: string)
    requires forall j :: Lookup(m, j) == Latest(front, j)
    ensures forall j :: Lookup(Put(m, k, v), j) == Latest(front + [(k, v)], j)
  {
    var ps := front + [(k, v)];
    assert ps[..|ps| - 1] == front;
    assert ps[|ps| - 1] == (k, v);
  }

  // ---------------------------------------------------------------------------
  // Rewriting a word (espeak.py lines 327-329).
  // ---------------------------------------------------------------------------

  /** `for k, v in m.items(): w = w.replace(k, v)`. */
  function Remap(w: string, m: Mapping): string
    decreases |m|
  {
    if |m| == 0 then w else Remap(Replace(w, m[0].0, m[0].1), m[1..])
  }

  /** The SAMPA step of the word transform: the table is applied only when it
      is loaded and non-empty (`if self.sampa_mapping:`), and then rewrites the
      word exactly as its items do one after the other. */
  function ApplySampa(w: string, mapping: Option<Mapping>): (r: string)
    ensures mapping.None? ==> r == w
    ensures mapping.Some? ==> r == Remap(w, mapping.value)
  {
    if mapping.Some? && |mapping.value| > 0 then Remap(w, mapping.value) else w
  }

  /** Rewriting with a table made of two parts is rewriting with the first part,
      then with the second. */
  lemma {:induction false} RemapAppend(w: string, a: Mapping, b: Mapping)
    ensures Remap(w, a + b) == Remap(Remap(w, a), b)
    decreases |a|
  {
    if |a| > 0 {
      assert (a + b)[0] == a[0];
      assert (a + b)[1..] == a[1..] + b;
      RemapAppend(Replace(w, a[0].0, a[0].1), a[1..], b);
    } else {
      assert a + b == b;
    }
  }

  /** A word in which no key of a loaded table occurs is left unchanged. */
  lemma {:induction false} RemapAbsentKeys(w: string, m: Mapping)
    requires forall i :: 0 <= i < |m| ==> |m[i].0| > 0 && !Contains(w, m[i].0)
    ensures Remap(w, m) == w
    decreases |m|
  {
    if |m| > 0 {
      ReplaceAbsent(w, m[0].0, m[0].1);
      assert forall i :: 0 <= i < |m[1..]| ==> m[1..][i] == m[i + 1];
      RemapAbsentKeys(w, m[1..]);
    }
  }

  /** Keys of a loaded table are never empty, so every rewrite in it is a plain
      substring replacement. */
  lemma {:induction false} LoadedKeysNonEmpty(lines: seq<string>)
    requires AllWellFormed(lines)
    ensures forall i :: 0 <= i < |Assignments(lines)| ==> |Assignments(lines)[i].0| > 0
    decreases |lines|
  {
    if |lines| > 0 {
      var n := |lines| - 1;
      var front := lines[..n];
      WellFormedPrefix(lines, n);
      LoadedKeysNonEmpty(front);
      AssignmentKeyNonEmpty(lines[n]);
      NonEmptyKeysSnoc(Assignments(front), Assignment(lines[n]));
    }
  }

  lemma AssignmentKeyNonEmpty(line: string)
    requires WellFormed(line)
    ensures |Assignment(line).0| > 0
  {
  }

  lemma NonEmptyKeysSnoc(ps: seq<(string, string)>, e: (string, string))
    requires forall i :: 0 <= i < |ps| ==> |ps[i].0| > 0
    requires |e.0| > 0
    ensures forall i :: 0 <= i < |ps + [e]| ==> |(ps + [e])[i].0| > 0
  {
  }

  lemma WellFormedPrefix(lines: seq<string>, n: nat)
    requires AllWellFormed(lines) && n <= |lines|
    ensures AllWellFormed(lines[..n])
  {
    forall j | 0 <= j < n ensures WellFormed(lines[..n][j]) {
      assert lines[..n][j] == lines[j];
    }
  }

  /** The order of the items matters: a later item rewrites what an earlier one
      produced, so the insertion order of the file is part of the result. */
  lemma RemapOrderMatters()
    ensures Remap("a", [("a", "b"), ("b", "c")]) == "c"
    ensures Remap("a", [("b", "c"), ("a", "b")]) == "b"
  {
    assert "a"[..1] == "a" && "a"[1..] == "";
    assert "b"[..1] == "b" && "b"[1..] == "";
    assert Replace("a", "a", "b") == "b";
    assert Replace("b", "b", "c") == "c";
    assert Replace("a", "b", "c") == "a";
    assert Replace("b", "a", "b") == "b";
    assert Remap("c", []) == "c";
    assert Remap("b", []) == "b";
  }

  /** Rewriting is not idempotent: applying the table `xy -> y` twice to `xxy`
      gives `y`, not the `xy` that one application gives. */
  lemma RemapNotIdempotent()
    ensures Remap("xxy", [("xy", "y")]) == "xy"
    ensures Remap(Remap("xxy", [("xy", "y")]), [("xy", "y")]) == "y"
  {
    var s := "xxy";
    assert s[..2] == "xx" && s[1..] == "xy";
    assert "xy"[..2] == "xy" && "xy"[2..] == "";
    assert Replace("xy", "xy", "y") == "y";
    assert Replace(s, "xy", "y") == "xy";
  }
}
