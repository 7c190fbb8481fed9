# Emergency-call data preparation, modelled in Dafny

This project models the data-preparation stage of the emergency-call assistant
(`data_preparation.py`). That stage turns recorded 911 call conversations into
`{input, output}` training records for fine-tuning:

- `clean_transcript` collapses the whitespace, drops every character that is neither
  alphanumeric nor essential punctuation, and strips the ends;
- `extract_emergency_details` labels a transcript with four things:
  - a category, the label with strictly the most keyword hits, first one winning ties;
  - a severity, the first level with any keyword hit, "medium" by default;
  - a location: the markers " at ", " in ", " near ", " on ", " by " are tried in that order; for a
    marker that occurs in the lowered transcript, the fragment is the text between its first and
    second occurrence (or the end), cut at the first '.' or ',' and stripped; the first fragment
    with more than three characters and at most five words is the location, and "unknown" when
    no marker gives one;
  - the recommended action from a fixed table;
- `create_structured_output` renders those details as four labelled lines;
- `process_dataset` builds one record per non-blank conversation, optionally followed by a
  translated copy;
- `augment_with_hindi` inserts translated copies after selected records;
- `main` cuts the shuffled records into a training part and a validation part.

Files:

- `pytext.dfy` (module `PyText`): the Python string operations the code relies on:
  - `in`, with `IndexOf` as the substring search that `in` (line 145) and `split(sep)`
    (line 146) perform;
  - `split(sep)` and `join`;
  - `split()` on whitespace;
  - `strip`;
  - `isalnum` and `lower`.
- `cleaning.dfy` (module `Cleaning`): `clean_transcript`.
- `extraction.dfy` (module `Extraction`): the tables and the rules of `extract_emergency_details`.
  It also has one loop method per rule and the whole extraction as a method.
- `output.dfy` (module `StructuredOutput`): `create_structured_output` and a reader that parses the
  four lines back.
- `dataset.dfy` (module `DataPreparation`): two things:
  - `process_dataset`, `augment_with_hindi` and the train/validation slicing of `main`;
  - the loops of the first two, as methods proved equal to their specification functions.

The pure parts are functions. Each loop of the source is a method whose postcondition equates its
result with the specification function, and the properties are lemmas about those functions.

## Model

| member | source | states |
|---|---|---|
| PyText.IndexOfIsFirst | data_preparation.py:145-146 | the substring search behind `in` and `split(sep)` reports the first occurrence: no occurrence starts before the index it returns |
| PyText.ContainsIff | data_preparation.py:129 | substring membership `p in s` holds exactly when `p` occurs at some position of `s` |
| PyText.SplitOnJoin | data_preparation.py:146 | joining the pieces of `s.split(sep)` with `sep` gives `s` back |
| PyText.SplitOnPieces | data_preparation.py:146-148 | no piece of `s.split(sep)` contains `sep`, and every character of a piece comes from `s` |
| PyText.SplitOnSecond | data_preparation.py:145-147 | when `sep` occurs in `s`, the split has at least two pieces and the second runs from after the first `sep` to the next `sep` or the end |
| PyText.SplitWsWords | data_preparation.py:100 | every piece of `s.split()` is a non-empty run of non-whitespace characters, and the pieces put together are exactly the non-whitespace text of `s`, in order |
| PyText.SplitWsOfSpaces | data_preparation.py:100 | `s.split()` of text that is all whitespace is empty |
| PyText.SplitWsOfSpaceFree | data_preparation.py:100 | `w.split()` of text without whitespace is `[w]`, or `[]` when `w` is empty: a run of non-whitespace is never cut |
| PyText.SplitWsAround | data_preparation.py:100 | `split()` cuts at every whitespace character: the split of `a`, one whitespace character and `b` is the split of `a` followed by the split of `b` |
| PyText.SplitWsJoin | data_preparation.py:100 | splitting pieces without whitespace joined by single spaces gives back the non-empty pieces, in order |
| PyText.SplitJoinWords | data_preparation.py:100 | splitting words joined by single spaces gives back exactly those words |
| PyText.SplitWsStrip | data_preparation.py:100-103 | `strip()` does not change the words that `split()` finds |
| PyText.DropSpacesSpec | data_preparation.py:103 | `lstrip` removes exactly a whitespace prefix and leaves a text that is empty or does not start with whitespace |
| PyText.NonSpaceStrip | data_preparation.py:103 | `strip` keeps all of the non-whitespace text, in order |
| PyText.SecondPieceInside | data_preparation.py:146-148 | `parts[1]` of `s.split(sep)` is a contiguous piece of `s` |
| PyText.StripSpec | data_preparation.py:103 | `strip` returns a slice of the text that is empty or has no whitespace at either end, and everything cut on each side is whitespace |
| Cleaning.KeepAllowedSpec | data_preparation.py:102 | the filter keeps only alphanumerics and the listed punctuation and space; each kept character comes from its own input position, in increasing order; every input position holding such a character is kept, so duplicates survive too |
| Cleaning.KeptIndicesComplete | data_preparation.py:102 | no input position holding an allowed character is skipped by the filter |
| Cleaning.CollapseSpacesSpec | data_preparation.py:100 | `' '.join(t.split())` holds no whitespace but single spaces between words, none at the ends, is no longer than `t`, and keeps all the non-whitespace text of `t`, in order; splitting it again gives exactly the words of `t`, so words stay whole and separated by one space |
| Cleaning.CleanTranscriptSpec | data_preparation.py:97-103 | every character of the cleaned transcript is allowed; the only whitespace is `' '`, so no newline or tab; there is no space at either end; the result is a subsequence of the collapsed text and no longer than the input; apart from whitespace it is exactly the allowed characters of the input, in order; its words are the input's words, each filtered, with the words that filtering empties dropped; exactly, it is the filtered words joined by single spaces and stripped, so a word filtered away between two others leaves a double space |
| Cleaning.CleanKeepsWords | data_preparation.py:97-103 | the words of the cleaned transcript are the words of the input, each with its disallowed characters removed, minus those left empty, so a space still separates every two surviving words |
| Cleaning.KeepJoin | data_preparation.py:100-102 | filtering words joined by spaces is joining the filtered words by spaces: the space is an allowed character |
| Cleaning.KeepSpaceFree | data_preparation.py:102 | the filter never introduces whitespace |
| Cleaning.CleanKeepsText | data_preparation.py:97-103 | apart from whitespace, the cleaned transcript is exactly the allowed characters of the input, in order, because collapsing and stripping only touch whitespace |
| Cleaning.CleanNotIdempotent | data_preparation.py:97-103 | cleaning is not idempotent: `"a @ b"` cleans to `"a  b"` (two spaces, since the filter runs after the collapse), and cleaning that again gives `"a b"` |
| Extraction.HitCountZero | data_preparation.py:129 | the keyword count is zero exactly when no keyword occurs in the lowered transcript, and `any` holds exactly when the count is positive |
| Extraction.HitCountIsDistinctKeywords | data_preparation.py:129 | the count is the number of keyword positions that occur in the transcript, however many times each occurs |
| Extraction.ScanFindsFirstMaximal | data_preparation.py:125-132 | the category loop ends with "unknown" and 0 when no category has a hit; otherwise it ends with the first category whose count is the maximum, together with that count |
| Extraction.CategoryIsFirstMaximal | data_preparation.py:111-132 | the chosen category is a given table label exactly when that label has a hit and is the first with the largest count |
| Extraction.CategoryUnknownIff | data_preparation.py:111-132 | the category is "unknown" exactly when no keyword of any category occurs |
| Extraction.CategoryRange | data_preparation.py:126-132 | the category is one of medical, fire, police, traffic, unknown |
| Extraction.SeverityPrecedence | data_preparation.py:119-139 | the severity is high, medium or low; it is high exactly when a high keyword occurs; it is low exactly when no high or medium keyword occurs and a low one does; with no hit at all it is medium |
| Extraction.NotSeriousNeverLow | data_preparation.py:119-139 | a transcript containing "not serious" is never low, because it also contains the medium keyword "serious"; without a high keyword it is medium |
| Extraction.SecondPieceExists | data_preparation.py:145-148 | when `" marker "` occurs, `parts[1]` exists and is the text between its first and second occurrences |
| Extraction.ClauseLenSpec | data_preparation.py:148 | `ClauseLen` is the position of the first '.' or ',' of the piece (or its length): none comes before it |
| Extraction.LocationPartIsClause | data_preparation.py:148 | `part.split(".")[0].split(",")[0].strip()` is the text before the first '.' or ',' of `part`, stripped, and a contiguous piece of `part` |
| Extraction.LocationPartShape | data_preparation.py:148 | the fragment is the stripped text before the piece's first '.' or ','; it is a contiguous piece of the piece, has no '.' or ',', and has no whitespace at either end |
| Extraction.LocationIsFirstCandidate | data_preparation.py:142-151 | when markers before `w` give no qualifying fragment and `w` gives one, the location is `w`'s fragment |
| Extraction.LocationUnknownWhenNoCandidate | data_preparation.py:142-151 | when no remaining marker gives a qualifying fragment, the location is "unknown" |
| Extraction.LocationShape | data_preparation.py:141-151 | the location is "unknown" or a fragment made of characters of the lowered transcript: over three characters, at most five words, no '.' or ',', and no whitespace at either end |
| Extraction.LocationIsSlice | data_preparation.py:141-151 | a location other than "unknown" is a contiguous piece of the lowered transcript |
| Extraction.ActionTableTotal | data_preparation.py:154-182 | for every category and severity the rules can produce, both lookups hit the table, so the `.get` fallbacks are never used |
| Extraction.ExtractLabelsSpec | data_preparation.py:105-189 | the extracted category and severity come from their lists, and the action is the table entry for that pair |
| Extraction.ExtractLocationSpec | data_preparation.py:141-151 | the extracted location is well shaped and lower-case, has no newline when the transcript has none, and is "unknown" or a contiguous piece of the lowered transcript |
| Extraction.ScanCategories | data_preparation.py:125-132 | the category loop computes the category the rule defines |
| Extraction.ScanSeverity | data_preparation.py:134-139 | the severity loop, which stops at the first level with a hit, computes the severity the rule defines |
| Extraction.ScanLocation | data_preparation.py:141-151 | the marker loop, which stops at the first qualifying fragment, computes the location the rule defines |
| Extraction.ExtractEmergencyDetails | data_preparation.py:105-189 | the whole extraction returns the details the rules define |
| StructuredOutput.RenderLines | data_preparation.py:191-198 | the output's first three lines are the labelled location, category and severity, and the remaining lines rejoin to the labelled action, whenever the first three fields hold no newline |
| StructuredOutput.ParseRender | data_preparation.py:191-198 | reading the four labelled lines back gives the rendered details |
| StructuredOutput.StructuredOutputRoundTrip | data_preparation.py:191-198 | for a transcript without a newline, the structured output reads back as the details extracted from it |
| DataPreparation.MessageContentsMembers | data_preparation.py:206-210 | a text is collected exactly when some message is a dict whose content is present and not None, with that text |
| DataPreparation.MessageContentsAppend | data_preparation.py:206-210 | the contents collected from two message lists put together are those of the first followed by those of the second, so order and repeats are kept |
| DataPreparation.MessageContentsSingle | data_preparation.py:208-210 | one message contributes its content when it is a dict whose content is present and not None, and nothing otherwise |
| DataPreparation.MessageContentsSkips | data_preparation.py:209 | a message that is not a dict with a content string adds nothing |
| DataPreparation.BlankIff | data_preparation.py:213-214 | a joined transcript is skipped exactly when all its characters are whitespace |
| DataPreparation.ProcessPlain | data_preparation.py:200-228 | without translation there is one record per non-blank item, in item order: the cleaned transcript with the structured output of the cleaned text |
| DataPreparation.ProcessCopies | data_preparation.py:222-240 | with translation the records are the records without translation, each followed by its translated copy |
| DataPreparation.WithCopiesAt | data_preparation.py:231-240 | in a record list with copies, element `2k` is the `k`-th record and element `2k+1` its translated input with the same output |
| DataPreparation.ProcessWithHindi | data_preparation.py:200-242 | with translation, record `2k` is the `k`-th non-blank item's record, and record `2k+1` is its translated input with the same output |
| DataPreparation.RecordOutputParses | data_preparation.py:217-226 | every record's output reads back as the details extracted from its input |
| DataPreparation.BlankCheckedBeforeCleaning | data_preparation.py:212-217 | blankness is judged before cleaning: a conversation of only dropped characters (`"@"`) still yields a record, with an empty input |
| DataPreparation.CollectContents | data_preparation.py:206-210 | the message loop collects exactly the contents the filter admits, in order |
| DataPreparation.AppendItemRecords | data_preparation.py:205-240 | one pass of the item loop appends exactly that item's records |
| DataPreparation.ProcessDataset | data_preparation.py:200-242 | the item loop returns the records the processing defines |
| DataPreparation.SelectedBelowCard | data_preparation.py:254-261 | the number of selected indices below `n` is the size of that part of the selected set |
| DataPreparation.AugmentPrefixLayout | data_preparation.py:256-264 | the augmented list holds every original at its position, in order; a selected original is directly followed by a copy that differs only in its translated input; nothing else is there |
| DataPreparation.PositionsIncrease | data_preparation.py:256-264 | originals keep their relative order, and a selected original's copy comes before the next original |
| DataPreparation.AugmentLength | data_preparation.py:251-267 | with a model and tokenizer and the sampled indices inside the dataset, the list grows by exactly the number of sampled indices |
| DataPreparation.AugmentWithoutModel | data_preparation.py:246-248 | without a model or tokenizer the dataset is returned unchanged |
| DataPreparation.AugmentWithHindi | data_preparation.py:244-267 | the augmentation loop returns the augmented list the layout above describes |
| DataPreparation.SplitPartition | data_preparation.py:306-309 | the training and validation parts together are the shuffled list, the training part has the split index's length, and, the shuffle being a permutation, the parts together hold exactly the processed records |

## Left out

- I/O and environment are not modelled: `load_911_dataset`, `setup_translation_model`, `save_to_jsonl`, argument parsing, logging, progress bars and `print`.
- `translate_to_hindi` (lines 76-95) is a stub: it returns the text behind a prefix, `[HINDI TRANSLATION]` when the `transformers` import succeeds, `[HINDI TRANSLATION UNAVAILABLE]` when it fails and `[HINDI TRANSLATION ERROR]` on any other exception. Which branch runs depends on the installed packages, so the model takes the translation as an arbitrary function parameter `translate`: every property proved about translated copies holds for any translation. `hasModel`/`hasTokenizer` stand for the availability checks.
- `random.sample` and `random.shuffle` are left out. The sampled indices are a parameter `selected`, and the shuffled list is a parameter related to the processed list only by having the same multiset.
- The floating-point sizes `int(len(dataset) * 0.3)` and `int(len(processed_data) * 0.9)` are not computed. The sample and the split index are parameters.
- `str.isalnum` and `str.lower` are modelled for ASCII letters and digits only. Python's Unicode tables are not reproduced, so non-ASCII letters count as neither alphanumeric nor case-changing.
- Message contents are assumed to be strings, and every item is assumed to have a "messages" list. Two exceptions of the source are therefore not modelled:
  - a dict whose "content" is neither None nor a string passes the filter at line 209, and `" ".join` then raises TypeError at line 212;
  - an item without "messages" raises KeyError at line 205.
- The JSON records of the dataset are reduced to what the code reads:
  - a message is a dict with a content (possibly None) or any other value;
  - an item is its message list.
- `StructuredOutput.Parse` is not in the source. It is the reader that shows the output format is unambiguous. It takes the action to be the rest of the text after the third line, like `split("\n", 3)`, so the round trip needs no newline-freeness of the action strings.
- `DataPreparation.SplitPartition` assumes the split index is at most the list length, which `int(len * 0.9)` always is. `SplitTrainValid` itself clamps a larger index as Python slicing does.
- The rest of the repository is not part of this model: the web and WebSocket app, the fine-tuning script, the launcher, the preview UI and the smoke tests.
