# phonemizer espeak backend: post-processing model

This project models the text-processing core of phonemizer's espeak backend
(`phonemizer/backend/espeak.py`): everything that happens to the raw output
of the espeak engine before phonemizer returns it. That covers:

- normalising the raw line;
- applying the language-switch policy (`keep-flags`, `remove-flags` or
  `remove-utterance`) to the `(lang)` flags found by `\(.+?\)`;
- splitting the `-X` output into the word-to-phoneme alignment table
  (`~|~|~` between segments, `~|||~` inside them, `||` between sub-words)
  and the phonemized text;
- for each word: `strip()`, stress-mark removal and the SAMPA table rewrite;
- assembling the line with the caller's phone and word separators, and the
  optional trailing strip;
- folding that over the lines of a text while the language-switch report
  carries over from earlier calls;
- the warnings logged at the end of a run, and backend construction (SAMPA
  table loading, `language_switch` validation).

Python's string operations are written out in `PyText`, with the leftmost,
non-overlapping scan Python uses: `split`, `replace`, `count`, `in`,
`strip`, `split()` and `join`. `str.isspace` is the concrete set of code
points Python treats as whitespace.

Modules: `Wrappers` (Option, Result, the raised exceptions as data),
`PyText`, `Enumerations`, `Normalisation`, `LangSwitch`, `Alignment`,
`Sampa`, `Words` and `Phonemize`.

Points where the code behaves differently from what a reader might expect,
followed here as the code has it:

- Normalisation does not always remove leading whitespace: a line starting
  with `_ ` keeps a leading space (`Normalisation.LeadingSeparatorLeavesSpace`).
- The phonemized text, the last field of the split on `~|~|~`, keeps its
  leading space, so its first word is empty.
- A line that the policy drops, or that is empty, adds neither an output line
  nor an alignment table. The two lists stay the same length but can be
  shorter than the input.
- Rewriting with a SAMPA table is not idempotent, even when no value contains
  a key (`Sampa.RemapNotIdempotent`).
- With `strip` set and an empty word separator, every line comes out empty:
  `out_line[:-0]` is the empty slice. The pipeline follows the code here
  (`Words.AssembleLine`); the intended assembly is modelled next to it
  (`Words.AssembleLineIntended`, see "Findings").
- The order in which `remove-flags` deletes flags is the iteration order of a
  Python `set`, which depends on string hashing. It is a parameter here, and
  it can change the result (`LangSwitch.RemovalOrderMatters`).

## Model

| member | source | states |
|---|---|---|
| Normalisation.CollapseUnderscores | phonemizer/backend/espeak.py:261 | no `__` is left, text without `__` is unchanged, the length never grows, the first and last characters are kept, no new character appears, deleting every `_` from the result and from the input gives the same text, and the result holds a `_` exactly when the input does |
| Normalisation.CollapseConcat | phonemizer/backend/espeak.py:261 | the collapse works run by run: cut a text where no `_` meets another `_`, and the result is the two sides collapsed on their own |
| Normalisation.CollapseRun | phonemizer/backend/espeak.py:261 | a run of one or more `_` collapses to exactly one `_` |
| Normalisation.DropSeparatorBeforeSpace | phonemizer/backend/espeak.py:262 | on text without `__`, removing `_ ` leaves neither `__` nor `_ `; the first character is kept, except that a text starting with `_ ` starts with a space instead |
| Normalisation.Normalise | phonemizer/backend/espeak.py:256-262 | the normalised line has no line break, no `__`, no `_ `, no trailing whitespace, a leading whitespace character only if it is a plain space, and is empty exactly when the raw line was blank; its characters other than whitespace and `_` are exactly those of the raw line, in order |
| Normalisation.NormaliseKeepsWords | phonemizer/backend/espeak.py:256-262 | once every `_` is deleted, the normalised line and the raw line split on whitespace into the same words, so no word boundary is lost or added |
| Normalisation.StripKeepsWords | phonemizer/backend/espeak.py:256 | `strip()` keeps the whitespace-separated words of the text, once `_` is deleted |
| PyText.ReplaceSpaceKeepsWords | phonemizer/backend/espeak.py:256 | replacing a block of whitespace by another non-empty block of whitespace keeps the words, and whether the text starts with a word, once a non-whitespace character is deleted |
| PyText.ReplaceKeepsWithout | phonemizer/backend/espeak.py:262 | a replacement whose pattern and substitute are equal once a character is deleted leaves the text equal once that character is deleted |
| Normalisation.StripKeepsSolid | phonemizer/backend/espeak.py:256 | `strip()` removes only whitespace: the other characters are kept, in order |
| Normalisation.ReplaceKeepsSolid | phonemizer/backend/espeak.py:256 | replacing a pattern of whitespace and `_` by another such text keeps every other character, in order |
| Normalisation.CollapseKeepsSolid | phonemizer/backend/espeak.py:261 | collapsing runs of `_` keeps every character other than whitespace and `_`, in order |
| Normalisation.LeadingSeparatorLeavesSpace | phonemizer/backend/espeak.py:256-262 | the line `_ a` normalises to ` a`, so leading whitespace can survive |
| LangSwitch.ParsePolicy | phonemizer/backend/espeak.py:79-85 | the argument is accepted exactly when it is one of the three policy names, and the rejection carries the offending value |
| LangSwitch.PolicyRoundTrip | phonemizer/backend/espeak.py:79-85 | every policy's name is accepted back as that policy |
| LangSwitch.CloseFrom | phonemizer/backend/espeak.py:34 | the lazy scan from `(` stops at the first `)` at least two characters on, and fails exactly when a line break or the end comes first |
| LangSwitch.MatchAt | phonemizer/backend/espeak.py:34 | a match found at a position is the shortest flag span there, closed by the first `)` at least two characters on; none found means no flag span starts there |
| LangSwitch.MatchesScanned | phonemizer/backend/espeak.py:204 | the spans the scan finds are the successive leftmost lazy matches: each is such a match, they are in order and do not overlap, and no match starts before the first, between two of them or after the last |
| LangSwitch.Texts | phonemizer/backend/espeak.py:204 | one text per span, each at least three characters long and occurring in the line |
| LangSwitch.FindFlagsAreMatches | phonemizer/backend/espeak.py:204 | `findall` returns one flag per scanned span, in order, each the text of its span |
| LangSwitch.FindFlagsNonEmpty | phonemizer/backend/espeak.py:204-208 | `findall` finds something exactly when the text holds a flag span |
| LangSwitch.Iteration | phonemizer/backend/espeak.py:219 | the flags are visited as an enumeration of the distinct flags found: each once, nothing else |
| LangSwitch.RemoveEachCutsOut | phonemizer/backend/espeak.py:219-220 | deleting the flags one after the other only cuts their occurrences out, with no occurrence left in the pieces that are kept |
| LangSwitch.RemoveEachShrinks | phonemizer/backend/espeak.py:219-220 | deleting never lengthens the text, and deleting a flag that occurs shortens it |
| LangSwitch.ProcessLangSwitch | phonemizer/backend/espeak.py:202-226 | a switch is reported exactly when a flag is present; without one, and under keep-flags, the text is passed on unchanged; remove-utterance drops it; remove-flags passes on exactly what deleting the found flags in set order leaves, which is strictly shorter and made only by cutting those flags out |
| LangSwitch.RemovalOrderMatters | phonemizer/backend/espeak.py:219-220 | for `(q)((q)q)` the flags are `(q)` and `((q)`, and the two deletion orders give `(q)` and `q)` |
| Alignment.TrimSource | phonemizer/backend/espeak.py:304-307 | the source phrase loses exactly one character for each end that is a space and nothing inside; an empty phrase or a single space raises |
| Alignment.ParseEntry | phonemizer/backend/espeak.py:290-309 | a segment parses exactly when it holds `~\|\|\|~` and its phrase is neither empty nor one space; the phonemes then hold no `\|\|`, the phrase is the first field trimmed once, and the extra fields are all kept |
| Alignment.PhonemesJoinSubwords | phonemizer/backend/espeak.py:302 | the stored phonemes are the `\|\|`-separated sub-words joined with single spaces |
| Alignment.EntryRoundTrip | phonemizer/backend/espeak.py:290-309 | a segment written as phrase, `~\|\|\|~` and `\|\|`-joined words, padded or not, parses back to the phrase and the words joined by spaces |
| Alignment.ReplaceJoin | phonemizer/backend/espeak.py:302 | replacing `\|\|` by a space turns `\|\|`-joined words without `\|` into space-joined words |
| Alignment.LunchroomExample | phonemizer/backend/espeak.py:292-302 | `lunchroom~\|\|\|~lVntS\|\|ru:m` gives the entry `lunchroom` with phonemes `lVntS ru:m` |
| Alignment.ParseEntries | phonemizer/backend/espeak.py:288-309 | the segments parse exactly when each does; the entries are in segment order, and a failure names a segment that does not parse |
| Alignment.ParseLine | phonemizer/backend/espeak.py:271-312 | the text is exactly the last field of the leftmost split on `~\|~\|~`, holds no `~\|~\|~`, and ends the line right after one when the line has one; the table has one entry per earlier segment, in order, and is empty exactly when the line has no `~\|~\|~` |
| Alignment.LastSegment | phonemizer/backend/espeak.py:271-275 | the last field of the leftmost split holds no delimiter and, when the line has one, ends the line right after an occurrence of it |
| Sampa.Put | phonemizer/backend/espeak.py:199 | assigning keeps an existing key in its place with the new value, appends a new key, and leaves every other key's value alone |
| Sampa.LoadSampa | phonemizer/backend/espeak.py:192-200 | the table loads exactly when every line has two symbols; otherwise the first bad line, blank ones included, is reported; the keys are the distinct first symbols in order of first appearance, without repeats, each bound to its last value |
| Sampa.LoadedKeysNonEmpty | phonemizer/backend/espeak.py:194-199 | every key assigned by a well-formed table is non-empty |
| Sampa.ApplySampa | phonemizer/backend/espeak.py:327-329 | no table leaves the word alone; a table, empty or not, rewrites it as its items do in insertion order |
| Sampa.RemapAppend | phonemizer/backend/espeak.py:328-329 | rewriting with two runs of items is rewriting with the first run, then the second |
| Sampa.RemapAbsentKeys | phonemizer/backend/espeak.py:328-329 | a word in which no key occurs is unchanged |
| Sampa.RemapOrderMatters | phonemizer/backend/espeak.py:328-329 | with `a→b` then `b→c`, `a` becomes `c`; in the other order it becomes `b` |
| Sampa.RemapNotIdempotent | phonemizer/backend/espeak.py:328-329 | rewriting `xxy` with `xy→y` gives `xy`, and rewriting again gives `y` |
| Words.DropMarks | phonemizer/backend/espeak.py:319-323 | the reference filter keeps no stress mark and every other character with its multiplicity |
| Words.StripStressIsDropMarks | phonemizer/backend/espeak.py:319-323 | the four deletions `ˈ`, `ˌ`, `'`, `-` equal the filter that keeps every non-mark character in order: stress stripping only deletes |
| Words.StripStressIdempotent | phonemizer/backend/espeak.py:319-323 | stripping stress twice is stripping it once |
| Words.TransformWord | phonemizer/backend/espeak.py:316-329 | without a table, a word whose stress is dropped is its stripped form with every mark removed and nothing else; one whose stress is kept is only stripped; with a table, that form is then rewritten by it |
| Words.Phones | phonemizer/backend/espeak.py:331-333 | the engine's `_` become the phone separator, one more ends the word unless the line is stripped, and no `_` is left when the phone separator has none |
| Words.TerminatedIsJoin | phonemizer/backend/espeak.py:314-334 | appending the word separator after every word is joining the words with it plus one trailing separator |
| Words.AssembleLine | phonemizer/backend/espeak.py:314-337 | as the code has it: the finished words joined by the word separator and one more word separator; with strip, the words joined without it, except that an empty word separator gives the empty line |
| Words.AssembleLineIntended | phonemizer/backend/espeak.py:314-337 | the intended assembly: the finished words joined by the word separator, followed by one more unless the line is stripped |
| Words.AssemblyErasesOnlyThen | phonemizer/backend/espeak.py:336-337 | the code and the intended assembly differ exactly when strip is set, the word separator is empty and the intended line is not empty, and the code then gives the empty line |
| Words.UnstrippedWordsEnd | phonemizer/backend/espeak.py:331-334 | without strip, every word and the whole line end with the phone separator followed by the word separator |
| Words.StripCutsWordSeparator | phonemizer/backend/espeak.py:336-337 | with strip and a non-empty word separator, exactly that separator is cut from the end of the unstripped line; with an empty one the line is emptied |
| Words.NoEngineMarksLeft | phonemizer/backend/espeak.py:331-334 | when neither separator contains `_`, no `_` is left in the line |
| Words.StripTrailingAsWritten | phonemizer/backend/espeak.py:336-337 | the slice `[:-len(word)]` as written: an empty word separator empties the line |
| Words.StripTrailing | phonemizer/backend/espeak.py:336-337 | the intended strip cuts exactly one trailing word separator and leaves the rest of the line intact |
| Words.EmptyWordSeparatorErasesLine | phonemizer/backend/espeak.py:336-337 | the two strips differ exactly when the word separator is empty and the line is not |
| Phonemize.NewBackend | phonemizer/backend/espeak.py:63-86 | construction succeeds exactly when the SAMPA table, if read, is well formed and the policy name is valid; a table error is reported first, as the loader gave it; the backend keeps the loaded table, the policy and the settings it was given |
| Phonemize.Kept | phonemizer/backend/espeak.py:256-266 | what passes the policy is never empty; under keep-flags a line is lost only when it is blank; under remove-utterance also when it holds a flag; under remove-flags a line without a flag passes normalised, and one with flags passes what deleting them in set order leaves, strictly shorter and cut only at the flags, unless nothing is left |
| Phonemize.ProcessLine | phonemizer/backend/espeak.py:256-338 | the line number is recorded exactly when the normalised line holds a flag; a line adds nothing exactly when the policy leaves nothing; it raises exactly when the alignment split of what the policy passed on fails, with an `IndexError` naming this line and the failing segment; otherwise the table and the assembled text come from the alignment split of what the policy passed on |
| Phonemize.Advance | phonemizer/backend/espeak.py:312-338 | one line grows the output and the table lists together, by one or by nothing, and its number joins the report when a switch was found |
| Phonemize.Go | phonemizer/backend/espeak.py:231-338 | the output and table lists have equal length, at most the number of lines; the report gains exactly the flagged line numbers in order, up to the line that raised; under keep-flags one output per non-blank line; under remove-utterance flagged lines give none |
| Phonemize.StepsAt | phonemizer/backend/espeak.py:231 | the reference run: step i is line i + 1 processed on its own |
| Phonemize.GoFollowsSteps | phonemizer/backend/espeak.py:231-338 | the run stops exactly when some line raises, with the error of the first such line; otherwise its output lines and tables are exactly those the lines emitted, in order |
| Phonemize.SwitchLinesExact | phonemizer/backend/espeak.py:209-211 | the report gains exactly the numbers of the lines whose normalised text holds a flag, each once, in increasing order |
| Phonemize.MarkedIncreasing | phonemizer/backend/espeak.py:210-211 | the recorded line numbers strictly increase and lie between 1 and the number of lines processed |
| Phonemize.Summary | phonemizer/backend/espeak.py:340-362 | no warning without a recorded switch; under remove-utterance one warning with the count; otherwise three, the count with the lines, the phone-set caution for the language, and the policy applied |
| Phonemize.PhonemizeAux | phonemizer/backend/espeak.py:228-364 | the call raises exactly when some line of the engine output does, with the first such line's error and the report up to that line; otherwise it returns the lines and tables the lines emitted, in order, at most one per line of the text, the report extended by exactly the flagged lines, and the warnings summarising that report |
| Phonemize.WarningsListSwitchLines | phonemizer/backend/espeak.py:340-362 | on a fresh backend the report lists exactly the lines whose engine output holds a flag, in increasing order, and the warnings count them (and list them, unless under remove-utterance) |
| PyText.SplitCharCount | phonemizer/backend/espeak.py:231 | cutting on a one-character separator gives one field more than the separator occurs: one line more than the text has line breaks, one word more than a line has spaces |

## Left out

- Engine discovery, version and voice queries (`espeak_path`, `set_espeak_path`, `is_available`, `long_version`, `is_espeak_ng`, `version`, `supported_languages`): they read the environment and the filesystem, run subprocesses and memoise with `lru_cache`.
- Writing the temporary file and calling `subprocess.check_output` (lines 232-252): the engine is the function parameter `Phonemize.Engine`, which gives the raw output for one input line.
- The version-dependent choice of command-line flags (lines 66-76): it depends on an external version string and only builds command text.
- Opening the SAMPA file and `get_package_resource`: `Phonemize.NewBackend` takes the file's lines, or `None` when the file does not exist.
- Logger calls: the closing warnings are returned as `Phonemize.Warning` data, and the debug messages are dropped. Their text formatting (`', '.join(str(l) ...)`) is not modelled.
- `BaseBackend`, punctuation handling and the other backends are not part of this model.
- The iteration order of a Python `set` depends on string hashing, so it is the parameter `LangSwitch.SetOrder`. An order that does not list each distinct flag exactly once is replaced by first-occurrence order.
- Phonemize.Go: under remove-utterance the number of outputs is only bounded above, by the lines without a flag. Under remove-flags it is not characterised beyond the general bound, because a line can become empty once its flags are cut out.
- Alignment.ParseLine: nothing is claimed about the source phrases of a line reassembling the input utterance; that depends on what the engine writes.
- Normalisation.Normalise: states that leading whitespace can only be a single plain space, not that there is none, which does not hold.

## Findings

| source | as written | input that shows it | evidently intended | confidence | as-written member | corrected member |
|---|---|---|---|---|---|---|
| phonemizer/backend/espeak.py:336-337 | with `strip`, the line becomes `out_line[:-len(separator.word)]`, and `[:-0]` is the empty slice | word separator `''` with `strip=True`: every non-empty line, such as `a_`, comes out as `''` | remove one trailing word separator, so an empty separator leaves the line as it is | high, not executed | Words.AssembleLine (through Words.StripTrailingAsWritten; shown by Words.EmptyWordSeparatorErasesLine and Words.AssemblyErasesOnlyThen) | Words.AssembleLineIntended (through Words.StripTrailing) |

The line assembly used by `Phonemize.ProcessLine` is the as-written one, so
the pipeline gives what the code gives; the corrected assembly is stated
beside it and compared with it by `Words.AssemblyErasesOnlyThen`.
