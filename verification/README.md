# Dictionare support: a Dafny model of the lookup core

The add-on looks a Romanian noun or verb up on the Dictionare site and fills
the fields of the note being edited. This project models the deterministic
core of `dictionare_support/addon.py` and proves properties of it:

- **Word comparison** (`Romanian`): `compare_romanian_words` rewrites the
  cedilla letters Ş ş Ţ ţ to the comma-below letters Ș ș Ț ț and compares the
  results exactly.
- **Text nodes** (`TextNodes`): Python 2's unicode `strip()` and the literal
  `^/ ` prefix removal. Also the error raised when a list of text nodes is too
  short to be indexed.
- **Flattening** (`Records`): nested records as a tree
  (`Leaf(string) | Node(map<string, Tree>)`). `flatten` is the set of
  (dot-joined path, string) pairs the recursion accumulates, turned into a
  dictionary.
- **Page slice** (`Page`): the `re.search` of `download_html` with a greedy
  group that spans newlines. It yields the text between the first start
  marker and the last end marker, wrapped as `<html><body>…</body></html>`.
- **Noun record** (`Noun`): `extract_noun_info`. The results of the path
  queries are given as lists of text nodes. What remains is the fixed offsets
  (3+2i, 2+2i, 3+2i, 3+2i), the headword fields and the index errors.
- **Verb record** (`Verb`): `extract_verb_info`.
  - The cursor moves over the list of (pronoun, verb) pairs, following
    `conj_order`, taking 6 pairs per tense and 2 for the imperative.
  - `verb_index` says which element of each pair is the verb.
  - The Python slice clamps at the end of the list, so a short list gives
    fewer persons.
  - `dict(zip(...))` keeps what the shorter list allows.
- **Selection and field write** (`Editor`): the `download_and_insert_info`
  loop as written, a corrected selection, the field write, and the noun and
  verb actions end to end. The user's reply to the question is an input
  (`answer`: the clicked word, or `None` for Cancel). A decision reports the
  set of words shown, if a question was asked.

Python 2 dictionaries have no defined iteration order, and the model states
what follows from that:

- The four replacements give the same result in any order
  (`Romanian.ReplaceAllAnyOrder`).
- `flatten` is only defined when no two strings of a record produce the same
  dotted key (`Records.UniquePaths`). Records whose keys are non-empty and
  contain no dot always qualify (`Records.WellKeyedHasUniquePaths`), and both
  extractors build such records.
- The words shown to the user are a set.

## Model

| member | source | states |
|---|---|---|
| `Romanian.Replace` | dictionare_support/addon.py:100-101 | `str.replace` of one letter: same length; each position holds the replacement exactly where the input held the searched letter |
| `Romanian.Canonical` | dictionare_support/addon.py:97-101 | the replacement loop keeps the length and maps each character independently: a cedilla letter becomes its comma-below letter |
| `Romanian.ReplaceAllCharwise` | dictionare_support/addon.py:99-101 | running the replacements one after another acts on each character separately and keeps the length |
| `Romanian.TableCharIsCanonical` | dictionare_support/addon.py:97-101 | a character passed through any sequence of table entries is canonicalised if one of them searches for it, and is otherwise unchanged |
| `Romanian.ReplaceAllAnyOrder` | dictionare_support/addon.py:97-101 | every order of the four table entries, as dictionary iteration may give them, yields the same text |
| `Romanian.CanonicalTouchesOnlyCedillas` | dictionare_support/addon.py:97 | only the four cedilla letters change; no cedilla letter is left afterwards |
| `Romanian.CanonicalIdempotent` | dictionare_support/addon.py:97-101 | regularising twice is the same as once |
| `Romanian.WordsEqual` | dictionare_support/addon.py:91-103 | two words compare equal iff they have the same length and agree position by position after the cedilla-to-comma mapping (both directions) |
| `Romanian.CanonicalEqualCharwise` | dictionare_support/addon.py:97-103 | the regularised words are equal iff the words agree position by position after the cedilla-to-comma mapping |
| `Romanian.WordsEqualIsEquivalence` | dictionare_support/addon.py:103 | the comparison is reflexive, symmetric and transitive |
| `Romanian.WordsEqualCanonical` | dictionare_support/addon.py:99-103 | a word compares equal to its regularised form |
| `Romanian.WordsEqualIsCaseSensitive` | dictionare_support/addon.py:97-103 | "a" and "A" differ; ş and Ș differ; ş and ș are equal |
| `TextNodes.Trim` | dictionare_support/addon.py:234 | `strip()` never lengthens its input and leaves no whitespace at either end of the result |
| `TextNodes.TrimStartSpec` | dictionare_support/addon.py:234 | the left half of `strip()`: a suffix of the input, with only whitespace removed and none left at its start |
| `TextNodes.TrimEndSpec` | dictionare_support/addon.py:234 | the right half of `strip()`: a prefix of the input, with only whitespace removed and none left at its end |
| `TextNodes.TrimSpec` | dictionare_support/addon.py:234 | `strip()` returns a slice of the input with whitespace on both sides outside it and no whitespace at either of its ends |
| `TextNodes.TrimOfTrimmed` | dictionare_support/addon.py:309 | a text with no whitespace at either end is returned unchanged |
| `TextNodes.TrimIdempotent` | dictionare_support/addon.py:234 | stripping twice is stripping once |
| `TextNodes.TrimStartPadded` | dictionare_support/addon.py:354 | leading whitespace before a word that starts with no whitespace is exactly what is removed |
| `TextNodes.TrimEndPadded` | dictionare_support/addon.py:354 | trailing whitespace after a word that ends with no whitespace is exactly what is removed |
| `TextNodes.TrimPadded` | dictionare_support/addon.py:354 | padding a word on both sides and stripping gives the word back |
| `TextNodes.StripSlashPrefix` | dictionare_support/addon.py:233 | `re.sub('^/ ', '', s)` removes one leading "/ " when present and otherwise returns the text unchanged |
| `TextNodes.StripSlashPrefixInverse` | dictionare_support/addon.py:233 | removing the prefix undoes adding it, and only one occurrence is removed |
| `Records.Flatten` | dictionare_support/addon.py:131-142 | the flat record holds a key with a string iff the recursion accumulates that (key, string) pair; a top-level string keeps its own key |
| `Records.LeafEntry` | dictionare_support/addon.py:134-140 | every string reached by a key path is accumulated under the key the loop builds for that path |
| `Records.EntryLeaf` | dictionare_support/addon.py:134-140 | every accumulated pair comes from a string reached by some key path, under that path's key |
| `Records.JoinPathBelow` | dictionare_support/addon.py:135 | below a non-empty parent key the key is the parent, a dot, and the dot-join of the remaining path |
| `Records.JoinPathTop` | dictionare_support/addon.py:135 | from the top, a path whose first key is not empty gets the plain dot-join as its key |
| `Records.JoinPathEmptyFirstKey` | dictionare_support/addon.py:135 | an empty parent key is false, so no dot is added: the path ("", "a") gives "a", not ".a" |
| `Records.FlattenKeepsLeaves` | dictionare_support/addon.py:131-142 | every string of the record appears in the flat record, unchanged, under its path's key |
| `Records.FlattenKeepsLeavesDotted` | dictionare_support/addon.py:131-142 | the same with the key written as "k1.k2…kn" when the first key is not empty |
| `Records.FlattenOnlyLeaves` | dictionare_support/addon.py:137-142 | every value of the flat record is a string of the record (never a dictionary), found under its path's key |
| `Records.WellKeyedEntriesFunctional` | dictionare_support/addon.py:134-140 | with non-empty, dot-free keys, two accumulated pairs with the same key carry the same string |
| `Records.WellKeyedHasUniquePaths` | dictionare_support/addon.py:131-142 | records with non-empty, dot-free keys never produce two strings under one key, so `dict(new)` loses nothing |
| `Records.CollidingRecord` | dictionare_support/addon.py:138-142 | a record with both a key "a.b" and a key "a" holding "b" produces two strings under "a.b", so the result depends on iteration order |
| `Page.FindFrom` | dictionare_support/addon.py:161 | the leftmost occurrence of a marker at or after a position, or none |
| `Page.FindLastBefore` | dictionare_support/addon.py:161 | the rightmost occurrence of a marker starting before a position, or none |
| `Page.MarkedText` | dictionare_support/addon.py:161-162 | the search succeeds iff a start marker is followed, after at least one character, by an end marker; the group is non-empty and runs from the first start marker to the last end marker |
| `Page.ParserInput` | dictionare_support/addon.py:161-165 | no match fails (the `.group` call on `None`); otherwise the parser gets exactly `<html><body>` + group + `</body></html>` |
| `Page.GreedyAcrossNewlines` | dictionare_support/addon.py:161-162 | the group spans a newline and an inner end marker up to the last end marker |
| `Page.EmptyGroupFails` | dictionare_support/addon.py:161-162 | two markers with nothing between them do not match |
| `Noun.ReadDeclension` | dictionare_support/addon.py:256-269 | one declension cell gives four forms, case i at text node base + 2i, iff the cell has more than base + 6 text nodes, and otherwise raises |
| `Noun.ExtractNoun` | dictionare_support/addon.py:226-271 | the record exists iff every text-node list is long enough (1, 2, 10, 9, 10, 10); singular is node 1, plural has one leading "/ " removed, gender is the last node trimmed, and the four declensions read 3+2i, 2+2i, 3+2i, 3+2i |
| `Noun.NounTreeWellKeyed` | dictionare_support/addon.py:207-224 | the noun record's keys are non-empty and dot-free at every level |
| `Noun.NounInfo` | dictionare_support/addon.py:230-232 | the flat noun record holds its singular under `headword.singular`, the search key of the noun action |
| `Noun.NounHeadwordFields` | dictionare_support/addon.py:207-212 | the flat noun record holds the plural under `headword.plural` and the gender under `headword.gender` |
| `Noun.NounDeclensionField` | dictionare_support/addon.py:214-269 | each of the 16 declension forms is in the flat noun record, unchanged, under `declensions.<article>.<number>.<case>` |
| `Noun.NounSearchKey` | dictionare_support/addon.py:52-54 | the search key `headword.singular` reaches the singular of the headword |
| `Verb.Window` | dictionare_support/addon.py:350 | the Python slice `pairs[cursor:cursor+take]` clamps at the end of the list and copies the pairs in order |
| `Verb.VerbsOf` | dictionare_support/addon.py:354 | the verbs of a window are computed iff every pair has the verb index; each is the pair's element at that index, trimmed |
| `Verb.ZipUpToSpec` | dictionare_support/addon.py:358 | the dictionary of the first n key/value pairs: its keys are those n keys; a key not repeated later has its own value |
| `Verb.ZipMapSpec` | dictionare_support/addon.py:358 | `dict(zip(...))` stops at the shorter list; each person not repeated has its verb |
| `Verb.ZipDistinct` | dictionare_support/addon.py:358 | zipping distinct persons with no more verbs: person j is a key iff verb j exists, maps to it, and no other key appears |
| `Verb.PositionOfConjOrder` | dictionare_support/addon.py:313-316 | each tense stands once in the fixed tense order, at its position |
| `Verb.PersonsDistinct` | dictionare_support/addon.py:356-357 | the persons are two for the imperative and six otherwise, all distinct |
| `Verb.WindowForms` | dictionare_support/addon.py:349-358 | one window's forms: person j is present iff pair cursor + j exists, and is that pair's verb, trimmed |
| `Verb.WindowReadableIff` | dictionare_support/addon.py:350-354 | the clamped window is readable iff the tense's pairs in range all have the verb index |
| `Verb.Conjugations` | dictionare_support/addon.py:345-364 | from tense k on, the loop succeeds iff every tense's pairs are readable at its cursor |
| `Verb.ConjugationsTable` | dictionare_support/addon.py:345-364 | what the loop builds from tense k on holds every tense from k on, each with the forms of its own window |
| `Verb.ExtractVerb` | dictionare_support/addon.py:307-366 | the record exists iff the headword row has six nodes and every window is readable; headword is node 1, gerund node 3 trimmed, past participle node 5; a short row raises at the first missing index |
| `Verb.OffsetStep` | dictionare_support/addon.py:345-351 | reading a tense moves the cursor past that tense's window: six pairs, two for the imperative |
| `Verb.OffsetIsConsumed` | dictionare_support/addon.py:345-351 | the cursor at tense k (6k up to the imperative, 6k - 4 after it) is the number of pairs the tenses before k take |
| `Verb.PairsConsumedTotal` | dictionare_support/addon.py:345-351 | the table reads 86 pairs in all; the imperative reads pairs 42 and 43 |
| `Verb.EachPairReadOnce` | dictionare_support/addon.py:347-351 | each of the first 86 pairs is read by exactly one tense, as exactly one person |
| `Verb.ExtractedHasProperPersons` | dictionare_support/addon.py:356-358 | every tense of an extracted record holds only persons of that tense |
| `Verb.ExtractedForm` | dictionare_support/addon.py:347-364 | in an extracted record, person j of a tense is the verb of pair cursor + j, trimmed, and is present exactly when that pair exists |
| `Verb.TableForm` | dictionare_support/addon.py:347-364 | in any table holding the forms of every readable window, each tense is present and person j is the trimmed verb of pair cursor + j exactly when that pair exists |
| `Verb.VerbTreeWellKeyed` | dictionare_support/addon.py:278-305 | the verb record's keys are non-empty and dot-free at every level |
| `Verb.VerbInfo` | dictionare_support/addon.py:307-310 | the flat verb record holds headword, gerund and past participle under their own keys |
| `Verb.ConjFormField` | dictionare_support/addon.py:360-364 | every form is in the flat record, unchanged, under `conj.<mood>.<tense>.<person>` (`conj.imp.<person>` for the imperative) |
| `Editor.Scan` | dictionare_support/addon.py:29-32 | the loop's comparison from a candidate on: the first candidate that matches, or none; a candidate without the search key raises first |
| `Editor.ScanFindsFirst` | dictionare_support/addon.py:29-32 | the scan stops at the first matching candidate when all before it carry the search key |
| `Editor.KeyedUpTo` | dictionare_support/addon.py:35 | the headword dictionary: its keys are the candidates' headwords; a later candidate with the same headword replaces an earlier one |
| `Editor.KeyedResults` | dictionare_support/addon.py:35 | the headword dictionary exists iff every candidate has the search key; its keys are the headwords; each headword maps to the last candidate carrying it |
| `Editor.SelectAsWritten` | dictionare_support/addon.py:24-43 | no candidate raises; one is taken with no comparison; with several, a matching first one is taken without asking; otherwise the question shows all headwords; a selected record is always one of the candidates |
| `Editor.AsWrittenLaterMatchOverridesPick` | dictionare_support/addon.py:29-41 | after the user picks a word, the first later candidate that matches replaces the pick |
| `Editor.AsWrittenCancelIgnoresMatch` | dictionare_support/addon.py:34-39 | when the first candidate does not match, Cancel selects nothing even if a later candidate matches |
| `Editor.AsWrittenAsksDespiteMatch` | dictionare_support/addon.py:29-41 | with headwords "a" and "b" and the word "b", the loop asks the user; the corrected selection takes "b" without asking |
| `Editor.SelectIntended` | dictionare_support/addon.py:24-28 | the corrected selection: no candidate raises, one is taken as is; a selected record is always one of the candidates |
| `Editor.IntendedAsksOnlyWithoutMatch` | dictionare_support/addon.py:25-28 | corrected selection: it asks iff no candidate matches, shows all headwords, and otherwise takes the first match |
| `Editor.IntendedHonoursAnswer` | dictionare_support/addon.py:34-41 | corrected selection: Cancel selects nothing, an unknown word raises, a shown word selects the last candidate with that headword |
| `Editor.SelectionsAgreeWithoutLaterMatch` | dictionare_support/addon.py:24-43 | the two selections agree when the first candidate matches or when none does |
| `Editor.ApplyFields` | dictionare_support/addon.py:45-47 | the note keeps its fields; a field the record has takes the record's string; every other field is unchanged; record keys with no field are skipped |
| `Editor.ApplyFieldsIsRestrictedUnion` | dictionare_support/addon.py:45-47 | the write equals the record laid over the note, cut back to the note's fields |
| `Editor.ApplyFieldsIdempotent` | dictionare_support/addon.py:45-47 | writing the same record twice is writing it once |
| `Editor.ApplyFieldsDisjoint` | dictionare_support/addon.py:45-47 | a record sharing no field with the note leaves it unchanged |
| `Editor.InsertInfo` | dictionare_support/addon.py:14-47 | a note without the search field raises first; otherwise the note becomes the write of the selected record, or stays as it was on Cancel, with the same field set; whatever is written comes from one of the candidates |
| `Editor.InsertInfoCorrected` | dictionare_support/addon.py:24-47 | with the corrected selection, a matching candidate is written without a question |
| `Editor.InsertSingleCandidate` | dictionare_support/addon.py:42-47 | a single candidate is written with no comparison and no question |
| `Editor.ExtractNouns` | dictionare_support/addon.py:20-21 | all candidates are extracted in page order iff every cell can be read; otherwise the error raised is that of the first cell that cannot be read |
| `Editor.InsertNoun` | dictionare_support/addon.py:52-54 | the noun action: a missing search field, then a page without markers, fail first; a noun candidate never lacks the search key; on success every candidate was extracted and the note is unchanged or written from one of them |
| `Editor.InsertNounWritesDeclension` | dictionare_support/addon.py:42-54 | a page with one noun writes each declension form into the note field of that name |
| `Editor.InsertVerb` | dictionare_support/addon.py:57-59 | the verb action: one candidate per page, so it never asks; it succeeds iff the extraction does, and the note becomes the write of the verb's flat record (so the gerund reaches a note that has that field) |
| `Editor.InsertVerbWritesForm` | dictionare_support/addon.py:42-47 | every conjugation form of the extracted verb is written into the note field `conj.<mood>.<tense>.<person>` (`conj.imp.<person>`) when the note has it |

The model follows the code in two places worth noting:

- The selection asks the user inside the loop, unlike what its comment
  describes (see Findings).
- A short list of conjugation pairs yields fewer persons and raises no
  error, because the slice clamps and `zip` stops early.

## Left out

- HTTP fetch and URL building (`dictionare_support/addon.py:151-154`): network I/O. The `%` substitution performs no URL escaping; the model starts from the downloaded page text.
- ISO-8859-2 decoding and UTF-8 re-encoding (`dictionare_support/addon.py:157`): codec behaviour. The page is modelled as already-decoded text.
- BSXPath parsing and every path query (`dictionare_support/addon.py:165`, `178-198`, `226-267`, `307`, `339-340`): a foreign library. Its results are inputs (`NounCells`, `VerbCells`), so a missing element found by a query is not modelled. The verb page's preliminary extraction returning `None` is not modelled either.
- `strip_accents` (`dictionare_support/addon.py:125-126`): it needs Unicode decomposition tables. The stripped word only feeds the download, which is left out.
- Anki and Qt glue (`saveNow`, `loadNote`, hooks, buttons, `ask_user_word`): host UI. The user's reply is the `answer` input. The dialog's own quirk is not modelled: it returns `None` when a headword is literally `Cancel`.
- The debug `print` (`dictionare_support/addon.py:341`): output only.
- Records.Flatten: requires that no two strings of the record produce the same key. Which string Python 2 keeps on such a collision depends on dictionary iteration order, which Python 2 does not define. `Records.CollidingRecord` shows such a record. Both extractors' records satisfy the requirement (`Noun.NounTreeWellKeyed`, `Verb.VerbTreeWellKeyed`).
- Editor.SelectAsWritten: the words shown to the user are a set, because `keyed_results.keys()` has no defined order. The user's reply is one value per call, and this loses nothing because the question is put at most once.
- Noun.ExtractNoun: the failure for a short declension cell reports the length the cell needs, not the first index read. That index depends on the iteration order of `case_index_pairs`, and the exception is the same either way.

## Findings

| source | as written | input that shows it | evidently intended | confidence | as-written member | corrected member |
|---|---|---|---|---|---|---|
| dictionare_support/addon.py:29-41 | The question to the user sits inside the `for` loop. It is asked as soon as the first candidate does not match. Cancel then returns even if a later candidate matches, and a later match replaces the user's pick. | Two candidates with headwords "a" and "b", the note's word "b": the user is asked, and Cancel writes nothing | Compare every candidate first and ask only when none matches, as the comment at lines 25-28 says | not executed | `Editor.SelectAsWritten` (`Editor.AsWrittenAsksDespiteMatch`) | `Editor.SelectIntended` (`Editor.IntendedAsksOnlyWithoutMatch`, used by `Editor.InsertInfoCorrected`) |
