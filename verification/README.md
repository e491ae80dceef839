# genstrings_swift in Dafny

`genstrings_swift.py` builds a `.strings` localisation table from Swift sources. It
finds every `NSLocalizedString(...)` call with a regular expression and reads a key,
a value and a comment out of each call's argument text. It renumbers `printf`-style
placeholders in the value (`%@ %d` becomes `%1$@ %2$d`). Then it writes one
`/* comment */ "key" = "value";` block per call.

This project models that core:

- `outcome.dfy`: `Option` and `Result`.
- `text.dfy` (module `Text`): the parts of Python's `str` the program relies on:
  - `\s` as `str.isspace` defines it;
  - `'{}'.format(n)` for a number;
  - `str.replace(old, new, 1)`;
  - counting a character.
- `patterns.dfy` (module `Patterns`): the six fixed regular expressions as
  hand-written scanners. Each pattern comes with a ghost predicate that states every
  way Python's `re` could match at a place. Each scanner is proved to return the match
  `re` reports:
  - the leftmost one;
  - at its start, the one greedy backtracking tries first.

  `finditer` is a list of non-overlapping matches, proved sound, complete and in
  order.
- `renumber.dfy` (module `Renumber`): `replace_vars`. It is written twice:
  - a method with the source's loop;
  - a function, `ReplacedVars`, that the method is proved to compute.

  A reference rewriting, `Positional`, renumbers every match where it stands. The two
  are proved equal on values with two or more matches in which no `%` is followed by
  `%` or a digit. Outside that case they can differ: on `%%d %d` they do.
- `extract.dfy` (module `Extract`): `generate_string`, with the key, value and comment
  rules and the two call styles.
- `genstrings.dfy` (module `GenStrings`): `grep_file` as loops over the files and over
  the matches in each file, and the output format of `save_strings`. A reader for the
  table, `ParseTable`, is written for the proof; it is not part of the program. It
  shows that the written table reads back as the collected entries.

A call whose arguments hold neither `key:"…"` nor a leading quoted string is handled
as the code runs, not as it looks meant to run. Line 52 sets `key` to `''` and line
62 prints a warning, so the code looks meant to go on with an empty key. But the `%`
expression on line 62 calls `.group(0)` on `None` and raises `AttributeError` first,
which ends the run. The model returns
`Failure(Unresolved(params))` from `GenerateString`, and `GrepFiles` stops there with
that failure and no entries.

## Model

| member | source | states |
|---|---|---|
| Text.DecimalRoundTrip | genstrings_swift.py:48 | the decimal text that `'{}'.format(idx + 1)` produces reads back as the same number |
| Text.Find | genstrings_swift.py:48 | the occurrence found is the leftmost at or after the start, and None means the pattern occurs nowhere |
| Text.ReplaceFirstAt | genstrings_swift.py:48 | `replace(old, new, 1)` rewrites exactly the leftmost occurrence and keeps the text around it |
| Text.ReplaceFirstAbsent | genstrings_swift.py:48 | with no occurrence, `replace` returns its input unchanged |
| Text.ReplaceFirstCount | genstrings_swift.py:48 | replacing by a text with as many `c` as the pattern keeps the count of `c` |
| Text.ReplaceFirstAvoids | genstrings_swift.py:48 | `replace` brings in no character that neither the text nor the replacement holds |
| Patterns.SpaceEndSpec | genstrings_swift.py:10 | greedy `\s*` stops at the first non-space, and everything it skips is a space |
| Patterns.TryArgsSpec | genstrings_swift.py:10 | backtracking over `\s*(.+)\)` returns the parse with the most spaces and then the longest group, and fails only when no parse exists |
| Patterns.CallAtSpec | genstrings_swift.py:10 | the pattern anchored at `i` returns the parse `re` picks there, and fails exactly when the pattern cannot match at `i` |
| Patterns.NextCallChosen | genstrings_swift.py:10 | the next match found by the search is parsed as `re` parses it at its start |
| Patterns.NoCallBeforeFirst | genstrings_swift.py:84 | the pattern matches nowhere between the resume position and the first reported match, nor anywhere after it when nothing is reported |
| Patterns.FindCallsCons | genstrings_swift.py:84 | after a match, `finditer` resumes just past its closing `)` |
| Patterns.FindCallsHead | genstrings_swift.py:84 | `finditer` reports nothing exactly when the search finds nothing, and otherwise first reports what the search finds |
| Patterns.FindCallsSound | genstrings_swift.py:84 | every match `finditer` reports is a match of the pattern, parsed as `re` parses it |
| Patterns.FindCallsComplete | genstrings_swift.py:84 | no match is skipped: the pattern matches at no position outside the reported spans |
| Patterns.FindCallsOrdered | genstrings_swift.py:84 | the reported matches come in file order and do not overlap |
| Patterns.Captures | genstrings_swift.py:84-85 | every `match.group(1)` is non-empty and lies on one line |
| Patterns.LabelAt | genstrings_swift.py:12-14 | `tag\s*"([^"]*)"` anchored at `i` matches exactly when a parse exists there, and that parse is unique |
| Patterns.SearchLabel | genstrings_swift.py:53 | `re.search` reports the leftmost match, and None means the pattern matches nowhere |
| Patterns.LabelGroup | genstrings_swift.py:12-14 | the group of the leftmost labelled match, which holds no `"`; None exactly when the pattern matches nowhere |
| Patterns.LeadingQuoted | genstrings_swift.py:58 | `empty_pattern.match` gives the quoted text at the very start, whatever follows; None exactly when the text does not start that way |
| Patterns.NextPlaceholder | genstrings_swift.py:15 | the next `%` followed by a character other than a newline, and none is passed over |
| Patterns.ScanVars | genstrings_swift.py:45 | the matches of `%(.)` are real matches, carry their conversion character and do not overlap |
| Patterns.ScanVarsComplete | genstrings_swift.py:45 | every `%` that could start a match is reported or is the conversion character of the match before it |
| Renumber.ReplaceVars | genstrings_swift.py:44-49 | the loop computes `ReplacedVars`: the input when there are fewer than two matches, the same number of `%`, and each match renumbered in place on a clean value with two or more matches |
| Renumber.ReplacedVarsFew | genstrings_swift.py:46 | with fewer than two matches the value is returned unchanged |
| Renumber.ReplacedVarsClean | genstrings_swift.py:47-48 | on a value with two or more matches where no `%` is followed by `%` or a digit, the k-th match `%c` becomes `%k$c` where it stands |
| Renumber.EachClean | genstrings_swift.py:47-48 | on a clean value, the remaining turns of the loop rewrite exactly the remaining matches in place |
| Renumber.StepClean | genstrings_swift.py:48 | on a clean value, the leftmost `%c` is the next match, and what precedes it after rewriting can no longer be matched |
| Renumber.ReplacedVarsPercents | genstrings_swift.py:47-48 | renumbering never changes how many `%` the value holds |
| Renumber.ReplacedVarsAvoids | genstrings_swift.py:48 | renumbering adds no newline and no `"` that the value lacked |
| Renumber.PlaceholdersExample | genstrings_swift.py:45 | the matches in `%%d %d` are `%%` at 0 and `%d` at 4 |
| Renumber.ReplacedVarsExample | genstrings_swift.py:47-48 | `replace_vars("%%d %d")` is `%1$%2$d %d` |
| Renumber.FirstOccurrenceMisses | genstrings_swift.py:48 | on `%%d %d` the second replacement rewrites the `%d` the first one wrote, so the result differs from renumbering each match in place |
| Extract.ResolveKey | genstrings_swift.py:52-60 | the key is the group of the first `key:"…"` anywhere, otherwise the leading quoted text; None exactly when neither matches |
| Extract.ResolveValue | genstrings_swift.py:64-68 | the value is the group of the first `value:"…"`, otherwise the key |
| Extract.ResolveComment | genstrings_swift.py:71-75 | the comment is a non-empty `comment:"…"` group, otherwise the fallback note |
| Extract.GenerateString | genstrings_swift.py:51-77 | fails exactly when no key form matches; otherwise it holds the resolved key, the renumbered value and the resolved comment, with no `"` in key or value and no newline when the arguments have none |
| Extract.PositionalCall | genstrings_swift.py:58-60 | the argument text `"X"` (the positional call style) gives key `X`, value `X` renumbered and the fallback comment |
| Extract.NamedKey | genstrings_swift.py:53-56 | when the first `key:` in the arguments is followed by spaces and `"K"`, the key is `K`, whatever the other arguments are and in whatever order they come |
| GenStrings.AllCapturesAppend | genstrings_swift.py:81-84 | the captures of consecutive groups of files concatenate in file order |
| GenStrings.AllCapturesOneLine | genstrings_swift.py:84-85 | every captured argument text over all files is non-empty and on one line |
| GenStrings.GatherSpec | genstrings_swift.py:86-87 | collecting outcomes keeps every entry in order, or reports the first failure |
| GenStrings.GenerateAllSpec | genstrings_swift.py:84-87 | one entry per argument text, in order, exactly when every text resolves; otherwise the first text that does not resolve |
| GenStrings.GenerateAllSnoc | genstrings_swift.py:86-87 | one more resolving argument text appends its entry |
| GenStrings.GenerateAllStops | genstrings_swift.py:57-62 | an argument text with no key, after a successful run, ends the run with its failure |
| GenStrings.FailureAbsorbs | genstrings_swift.py:57-62 | nothing after a failure is looked at |
| GenStrings.GrepContent | genstrings_swift.py:84-87 | the loop over one file's matches returns the entries of `generate_string` on each group, in order, or the first failure |
| GenStrings.GrepFiles | genstrings_swift.py:79-88 | the loop over the files returns the entries of every call in every file, in order, or the first failure |
| GenStrings.BlockRoundTrip | genstrings_swift.py:8 | a block written with `OUTPUT_LINE_PATTERN` for an entry with one-line fields and no `"` in the key reads back as that entry |
| GenStrings.TableStep | genstrings_swift.py:93-94 | one more block in front of a readable table adds its entry in front |
| GenStrings.TableCons | genstrings_swift.py:93-94 | writing one more entry in front of a table that reads back gives a table that reads back with that entry in front |
| GenStrings.TableRoundTrip | genstrings_swift.py:93-94 | the written table reads back as exactly the entries it was written from |
| GenStrings.CollectedTableReadsBack | genstrings_swift.py:79-94 | after a successful run with a one-line fallback note, the table has one block per call and reads back as the collected entries |

## Left out

- Command-line parsing (`read_cmd`, lines 25-41) is not modelled. The fallback note is
  a parameter, and the output directory and file name are not modelled.
- File I/O is not modelled (lines 82-83 and 91-94). This covers opening and reading the
  source files as UTF-8 and writing the table as UTF-16. Each file's contents arrive as
  a string, and the written table is the string `Serialize` returns.
- The class `GenStrings` is not modelled as a class. After `__init__` it holds only the
  parsed arguments and never changes them, so its methods become functions and methods
  with parameters.
- The message the `print` on line 62 would show is not modelled: the expression it
  formats raises before anything is printed.
- The model follows Python 3's `re` on `str` patterns, where `\s` is every character
  `str.isspace` accepts. Python 2's `re` without `re.UNICODE` is not modelled; there
  `\s` is only the ASCII `[ \t\n\r\f\v]`.
- File contents arrive as `io.open` returns them in text mode, after its newline
  translation (`\r\n` and `\r` become `\n`); that translation is not modelled.
- Python's general regular expression engine is not modelled. Only the six fixed
  patterns are, each by its own scanner.
- Characters are Dafny `char` values, which are Unicode scalar values. Python `str`
  indexes code points, so the two agree except for lone surrogates, which the model
  cannot represent.
- Extract.GenerateString: it calls the function `ReplacedVars`, not the method
  `ReplaceVars`, because a function cannot call a method. `ReplaceVars` is proved to
  return `ReplacedVars`.
- Patterns.Captures: its own contract states only that each group is non-empty and one
  line long. Which calls it finds is stated by `FindCallsSound`, `FindCallsComplete` and
  `FindCallsOrdered` on `FindCalls`.
