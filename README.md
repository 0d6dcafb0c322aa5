# quicknote core in Dafny

`ornekler/2-python.py` is quicknote, a small command-line note manager. A note has an
id, a text, a creation time (ISO-8601 text), a done flag, a tag list and a priority
(0-3). The program keeps every note in one JSON file and offers these commands:
add a note, mark a note done, clear done notes, search (or list) notes by a regular
expression, print statistics, and export as markdown or JSON.

This project models the collection operations behind those commands and proves what
they promise. The collection is a `seq<Note>`. Each operation receives it in place of
`load_notes()`, and each mutating operation returns the new collection in place of
`save_notes(...)`.

- `NoteModel` (note.dfy): the `Note` record; `matches`, given an abstract
  regular-expression engine; the exceptions (`re.error`, `ValueError`) as an `Error`
  datatype; and the collection's well-formedness invariant.
- `Mutators` (mutators.dfy):
  - `add_note`: text stripping and tag normalisation, then append;
  - `mark_done`: an imperative scan that stops at the first note with the id;
  - `clear_done`: filter, and count what was removed.
- `Queries` (queries.dfy):
  - `search_notes`: the filter, with exception propagation, then the stable sort by `(-priority, created_at)`;
  - `stats`: an imperative accumulator loop over every note's tags into a dictionary, then the tag table sorted by `(-count, tag)`.
- `Export` (export.dfy): `export_notes`, which gives the markdown order and line format, JSON records, or an unsupported-format error; and `_prio`.
- Support modules:
  - `Text`: Python's `str.strip` whitespace set, substring search, and `str.join`;
  - `Sequences`: filter and subsequence;
  - `Sorting`: a stable insertion sort on lexicographic integer keys. This is how a Python tuple key is compared: an integer component is one key entry, and a string becomes its code points;
  - `Wrappers`: `Option`/`Result`.

Where the code and its documentation would suggest different behaviour, the model follows the code:
- `add_note` does not check the priority or reject an empty text. Only the argument parser limits `-p` to 0..3 (line 213). `AddNote` therefore accepts any integer. The 0..3 range appears in `WellFormed` as an invariant that callers must keep, and `AddKeepsWellFormed` needs it.
- `highest_priority` is `max(..., default=0)`. The default 0 applies only to the empty collection. Otherwise the result is the true maximum, even when that is negative.
- `matches` compiles the pattern only when it is non-empty and only when there is a note to test. A search with an invalid pattern on an empty collection therefore succeeds with `[]`.

## Model

| member | source | states |
|---|---|---|
| NoteModel.Matches | ornekler/2-python.py:41-45 | The empty pattern matches every note. A non-empty pattern that does not compile is an `InvalidPattern` error. A compiling pattern matches exactly when the engine finds it in the text or in some tag. |
| NoteModel.AnyTagFound | ornekler/2-python.py:45 | `any(rx.search(t) for t in tags)` holds exactly when some tag index is found by the engine. |
| NoteModel.CountDone | ornekler/2-python.py:123 | The done count is at most the collection size, and it is zero exactly when no note is done. |
| NoteModel.LiteralMatchExample | ornekler/2-python.py:41-45 | With a literal-string engine, a note "buy milk" tagged "errand" matches "milk" (in the text) and "errand" (in a tag) but not "coffee". |
| Text.Strip | ornekler/2-python.py:80 | `str.strip` leaves no whitespace at either end. |
| Text.StripInfix | ornekler/2-python.py:80 | The stripped string is the input with an all-whitespace prefix and an all-whitespace suffix removed. |
| Text.StripIdempotent | ornekler/2-python.py:80 | Stripping a second time changes nothing. |
| Text.StripEmptyIff | ornekler/2-python.py:82 | A string strips to empty exactly when it is all whitespace, which the `if t.strip()` filter tests. |
| Text.Contains | ornekler/2-python.py:45 | Substring search holds exactly when the pattern occurs at some index. |
| Mutators.AddNote | ornekler/2-python.py:77-88 | The new note keeps the given id, time and priority. Its text is stripped. It is not done. Its tags are the normalised tags, none empty or padded. It is appended after the unchanged existing notes. |
| Mutators.NormalizeTagsNormal | ornekler/2-python.py:82 | No normalised tag is empty or has whitespace at an end. |
| Mutators.NormalizeTagsOrder | ornekler/2-python.py:82 | The normalised tags are stripped input tags in input order (a subsequence). |
| Mutators.NormalizeTagsMultiplicity | ornekler/2-python.py:82 | Each non-empty stripped tag is kept as often as it occurs, and the empty one never is. |
| Mutators.NormalizeTagsIdempotent | ornekler/2-python.py:82 | Normalising the normalised tags changes nothing. |
| Mutators.NormalizedIsFixed | ornekler/2-python.py:82 | A tag list that is already normal is returned unchanged. |
| Mutators.AddKeepsWellFormed | ornekler/2-python.py:77-88 | Appending a note with a fresh id, a 0..3 priority and normal tags keeps ids unique and the collection well formed. |
| Mutators.FindNote | ornekler/2-python.py:94-95 | Gives the first index whose id matches, or none exactly when no note has the id. |
| Mutators.MarkDone | ornekler/2-python.py:91-101 | The loop reports a hit exactly when some note has the id. The resulting collection is the one in which the first such note is done. |
| Mutators.MarkedDoneEffect | ornekler/2-python.py:94-98 | The length is kept. Only the first note with the id changes, and in it only `done`, which becomes true. Without a hit nothing changes, as when nothing is saved. |
| Mutators.MarkDoneTwice | ornekler/2-python.py:91-101 | Marking the same id again finds the same note and changes nothing. |
| Mutators.MarkKeepsWellFormed | ornekler/2-python.py:91-101 | Marking keeps the collection well formed. With unique ids, the note with the id ends up done. |
| Mutators.MarkDoneCount | ornekler/2-python.py:96 | The done count rises by one when the marked note was pending, and otherwise stays the same. |
| Mutators.ClearDone | ornekler/2-python.py:104-109 | Only pending notes remain, in their original order, each as often as before. The returned number equals the number of done notes and `before - after`. |
| Mutators.ClearDoneTwice | ornekler/2-python.py:104-109 | A second clear keeps everything and returns 0. |
| Mutators.ClearKeepsWellFormed | ornekler/2-python.py:104-109 | Clearing keeps the collection well formed. |
| Queries.SelectNotesSpec | ornekler/2-python.py:115 | The comprehension raises `InvalidPattern` exactly when there is a note and the pattern is non-empty and does not compile. Otherwise it is the filter on "matches, and pending unless done notes are included". |
| Queries.SearchKeyOrder | ornekler/2-python.py:116 | The key `(-priority, created_at)` orders by higher priority first, then by earlier `created_at`. |
| Queries.SearchKeyEqual | ornekler/2-python.py:116 | Two notes have equal keys exactly when priority and `created_at` agree. |
| Queries.SearchNotesSpec | ornekler/2-python.py:112-117 | Errors exactly as the filter does. Otherwise the result holds each wanted note as often as the collection does and nothing else. It is ordered by priority descending, then by `created_at` ascending. Notes with equal keys keep collection order (a stable sort). |
| Queries.SearchEmptyPatternAll | ornekler/2-python.py:247 | `list --done`, which is the empty pattern with done notes included, returns every note in search order. |
| Queries.SearchOrderExample | ornekler/2-python.py:114-117 | Priorities 1, 3, 1 with the third created first come back as the second note, then the third, then the first. |
| Queries.HighestPriority | ornekler/2-python.py:125 | Gives 0 for no notes, and otherwise a priority of some note that no note exceeds. |
| Queries.HighestPriorityRange | ornekler/2-python.py:125 | In a well-formed collection the highest priority is in 0..3. |
| Queries.TagKeyOrder | ornekler/2-python.py:135 | The key `(-count, tag)` orders by higher count first, then by tag. |
| Queries.Stats | ornekler/2-python.py:120-136 | `total` is the collection size, `done` the done count, and `pending` their difference, in 0..total. The highest priority is as above. The tag table lists each tag occurring in any note once, with its number of occurrences, sorted by count descending, then tag. |
| Queries.CountTags | ornekler/2-python.py:128-129 | The inner loop counts one note's tags into the dictionary, so the tally then covers the tags seen before plus these. |
| Queries.TallyStep | ornekler/2-python.py:129 | `by_tag[t] = by_tag.get(t, 0) + 1` keeps the dictionary equal to the occurrence counts of the tags seen, with keys in first-insertion order. |
| Queries.TagCountsSum | ornekler/2-python.py:126-129 | The counts of the tag table add up to the number of tag occurrences. |
| Queries.TagTableUnique | ornekler/2-python.py:135 | Two tag tables of the same tags, both sorted by `(-count, tag)`, are equal, so the printed order is fully determined. |
| Queries.StatsExample | ornekler/2-python.py:120-136 | For three notes with priorities 0, 2, 2, one of them done, tagged `[a]`, `[a, b]` and `[]`, the only table is a: 2, b: 1, alongside total 3, 2 pending, 1 done and highest 2. |
| Sorting.SortByCorrect | ornekler/2-python.py:114-117 | The sort is a permutation of its input, ordered by its key, and keeps the relative order of elements with equal keys (Python's sort is stable). |
| Sorting.SortedUnique | ornekler/2-python.py:114-117 | Two sequences with the same elements, both sorted by a key and holding equal-key elements in the same order, are equal: a stable sort has exactly one result. |
| Sorting.SortedDistinctUnique | ornekler/2-python.py:135 | With pairwise distinct keys, a sorted arrangement of a set of elements is unique. |
| Export.PrioSpec | ornekler/2-python.py:181-182 | Priorities 1..3 print as that many `!` in parentheses. 0 and every other value print three blanks. |
| Export.ExportKeyOrder | ornekler/2-python.py:143 | The key `(done, -priority, created_at)` puts pending before done, then the higher priority first, then the earlier `created_at`. |
| Export.ExportOrderSpec | ornekler/2-python.py:143 | The export lists every note as often as the collection does, every pending note before every done one, and within each group by priority descending, then time. Equal keys keep collection order. |
| Export.NoteLineCheckBox | ornekler/2-python.py:144-146 | An item starts with `- [x] ` exactly when its note is done, and with `- [ ] ` otherwise. |
| Export.MarkdownLinesSpec | ornekler/2-python.py:141-146 | The lines are the `# QuickNotes` heading, an empty line, and then one item per note in export order. |
| Export.MarkdownHeading | ornekler/2-python.py:142-147 | The markdown text starts with `# QuickNotes` and a newline. |
| Export.ExportNotes | ornekler/2-python.py:139-151 | "md" and "json" succeed and every other format is an `UnsupportedFormat` error. "md" gives the lines of `MarkdownLines` (the heading, an empty line, one item per note in export order) joined by newlines. "json" gives every record in collection order, unsorted. |

## Left out

- Persistence: `load_notes` and `save_notes` (lines 58-72) read and write a JSON file. The model passes the collection in and out as a value. The file, the atomic rename, and the fallback to `[]` when the file is unreadable are not modelled.
- `age_days` (lines 47-53) reads the clock and is used by no modelled operation, so it is not modelled.
- `add_note`'s id and creation time come from `uuid4` and `datetime.now()` (lines 79, 81). They are parameters of `AddNote`.
- `seed_random_notes` (lines 189-202) depends on randomness and is left out.
- The regular-expression library: the syntax, matching semantics and `re.IGNORECASE` of `re.compile`/`search` are not modelled. `RegexEngine` abstracts them as "does it compile" and "does it find a match". The `LiteralEngine` used in the examples treats every pattern as a literal, case-sensitive string.
- `print_table` (lines 156-178), `build_parser`/`main` (lines 205-279) and every console message are user interface and are left out. The argparse `choices` checks on priority and format are not modelled either.
- NoteModel.LiteralMatchExample: is stated only for the literal engine, because no real regular-expression engine is modelled.
- Mutators.MarkDone: updates a note in a sequence value. The Python loop mutates the shared `Note` object in place, and that object aliasing is not modelled.
- A tag list is never absent in the model. A record stored with `"tags": null` becomes `[]`, so the "json" branch writes `[]` where `asdict` would write `null`.
- Export.ExportNotes: the JSON text that `json.dumps` produces (indentation, escaping) is not modelled. The "json" branch returns the records it would encode.
- Export.ExportNotes: the `ValueError` message is fixed text in the source. The model's error carries the rejected format instead.
- Queries.Stats: the tag table is returned as a sequence of (tag, count) pairs, in the order of the `dict` built from the sorted items. The mapping type itself is not modelled.
- String ordering compares Unicode code points, which is Python's default `str` ordering; locale collation is not modelled.
