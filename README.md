# Dataset pruning for the document classifier

This project models the pruning step of `src/make_local_dataset.py` in Dafny. That step derives a
reduced copy of a document-image dataset. It works split by split, in the order train, test,
validation. For each split it walks the shuffled records and keeps those whose class name
`idx_to_class[label]` is on the allow-list. It stops as soon as the number kept equals the split's
requested size.

Modules:

- `Wrappers` (`wrappers.dfy`) holds `Option` and `Result`.
- `Vocabulary` (`vocabulary.dfy`) holds the fixed 16-class vocabulary.
  - `class_to_idx` is a list of entries in insertion order.
  - `idx_to_class` is `Keys` of that list.
  - `ClassName` is `idx_to_class[idx]` with Python list indexing, including negative indices.
- `Pruning` (`pruning.dfy`) holds the pruning step.
  - A record is `Record(id, classLabel)`: `id` stands for the fields the step never reads.
  - `Filter` and `Kept` are the specification: the allow-listed records, then the cap rule.
  - `SplitOutcome` adds the `IndexError` that an out-of-range label raises once the loop reaches it.
  - `PruneSplit` is the inner `for` loop with its `break`, proved equal to `SplitOutcome`.
  - `PruneDataset` is the outer loop over the three split names. It builds the result map and
    raises `KeyError` for a missing split.

The stop test is `len(kept) == size`, not `>=`, and it runs after every record, kept or not. So:

- a size of 1 or more keeps the first `min(size, n)` of the `n` allow-listed records;
- a size of 0 keeps nothing only when the split is empty or its first record is not allow-listed;
  otherwise it keeps every allow-listed record;
- a negative size never stops the loop.

A size of 0 does not empty a split. The stop test `len(kept) == size` fires after the first
record only when that record is not allow-listed; once one record is kept it never fires again
(`KeptZeroCap`, `ScenarioZeroSize`).

An unknown class name on the allow-list is not rejected: the allow-list is only required to be a
list of strings, so an unknown name simply never matches.

Labels in `[-16, 0)` do not raise: Python's negative list indexing resolves them to the class of
`label + 16` (`ClassNameRange`). Only labels below -16 or from 16 up raise `IndexError`. The
model's `IndexError` carries the offending label for its own bookkeeping; Python's exception only
says "list index out of range".

## Model

| member | source | states |
|---|---|---|
| `Vocabulary.Keys` | src/make_local_dataset.py:31 | `idx_to_class` has one name per dict entry, and position `i` holds the key of the `i`-th entry in insertion order |
| `Vocabulary.FindEntry` | src/make_local_dataset.py:12-29 | a dict lookup finds the first entry with that key, or reports that no entry has it |
| `Vocabulary.VocabularyShape` | src/make_local_dataset.py:12-31 | `class_to_idx` has 16 entries with distinct keys and values 0..15 in insertion order, and `idx_to_class` has 16 names |
| `Vocabulary.NameRoundTrip` | src/make_local_dataset.py:12-31 | a name has an index exactly when it is in `idx_to_class`; that index is in `[0, 16)` and `idx_to_class` maps it back to the name |
| `Vocabulary.IndexRoundTrip` | src/make_local_dataset.py:12-31 | for `0 <= i < 16`, `class_to_idx[idx_to_class[i]] == i` |
| `Vocabulary.ClassName` | src/make_local_dataset.py:62 | the lookup `idx_to_class[data["label"]]`, whose result `Pruning.Allowed` tests for membership in the allow-list: it yields a name exactly when `-16 <= label < 16` and is the core's only error path otherwise |
| `Vocabulary.ClassNameRange` | src/make_local_dataset.py:62 | `idx_to_class[idx]` fails exactly for `idx < -16` or `idx >= 16`; an index in `[-16, 0)` names the class of `idx + 16`; a name it yields is in `idx_to_class` and `class_to_idx` maps it back to `idx` read modulo 16 |
| `Pruning.PruneSplit` | src/make_local_dataset.py:59-66 | the loop with its `==` stop test yields exactly `SplitOutcome`: the kept records, or `IndexError` at the first out-of-range label the loop reaches |
| `Pruning.PruneDataset` | src/make_local_dataset.py:52-68 | success exactly when all three splits succeed; the result then has exactly the keys train, test and validation, each holding its split's outcome; otherwise it returns the error of the first failing split in the order train, test, validation (`KeyError` for a missing split) |
| `Pruning.FirstUnresolvable` | src/make_local_dataset.py:61-62 | finds the first record whose label cannot be looked up; every record before it resolves |
| `Pruning.CapReachedExtends` | src/make_local_dataset.py:65-66 | once the stop test has fired, further records change neither the verdict nor the kept records |
| `Pruning.KeptAllowedSubsequence` | src/make_local_dataset.py:61-63 | every kept record resolves to an allow-listed class name; the kept records are an order-preserving subsequence of the split; no record is kept more often than it occurs; a split without duplicates yields none |
| `Pruning.KeptPositiveCap` | src/make_local_dataset.py:61-66 | for a size of 1 or more, the kept records are the first `min(size, n)` of the `n` allow-listed records |
| `Pruning.KeptZeroCap` | src/make_local_dataset.py:65-66 | with size 0, nothing is kept exactly when the split is empty or its first record is not allow-listed; otherwise every allow-listed record is kept |
| `Pruning.KeptNegativeCap` | src/make_local_dataset.py:65 | a negative size never stops the loop: every allow-listed record is kept |
| `Pruning.OutcomeResolvable` | src/make_local_dataset.py:61-66 | when every label resolves, the scan of a split cannot fail and yields the kept records |
| `Pruning.OutcomeExhausted` | src/make_local_dataset.py:61-66 | with fewer allow-listed records than a positive size, all of them are returned and no error is raised |
| `Pruning.OutcomeSuccess` | src/make_local_dataset.py:59-66 | a successful scan returns only resolvable, allow-listed records from that split, in order, drawn no more often than they occur, and at most `size` of them for a positive size |
| `Pruning.OutcomeFailure` | src/make_local_dataset.py:62 | a failed scan raised `IndexError` for a label outside `[-16, 16)` at a record the loop reached: all records before it resolve and the stop test had not fired |
| `Pruning.OutOfRangeRaises` | src/make_local_dataset.py:62 | conversely, a label outside `[-16, 16)` that the loop reaches raises `IndexError` with that label |
| `Pruning.ShuffledOutcome` | src/make_local_dataset.py:55 | whatever permutation the shuffle picks, the kept records are drawn from the original split, none more often than it occurs there |
| `Pruning.ScenarioTrain` | src/make_local_dataset.py:59-66 | labels `[0, 5, 11, 0, 2]`, allow-list letter and invoice, size 2: the records labelled 0 and 11 at positions 0 and 2 are kept |
| `Pruning.ScenarioZeroSize` | src/make_local_dataset.py:65 | size 0 with an allow-listed first record keeps every allow-listed record |
| `Pruning.ScenarioLabelOutOfRange` | src/make_local_dataset.py:62 | a reached record labelled 99 raises `IndexError`; the model records the label 99 in the error for its own bookkeeping |

## Left out

- `dataset.shuffle()` (src/make_local_dataset.py:55) draws random numbers. The model takes the
  already-shuffled dataset as input. `ShuffledOutcome` relates the result to the original split
  through any permutation.
- The `tqdm` progress bar (lines 60 and 64) is display only and does not affect the result.
- `load_dataset_descriptions` (lines 46-49) is file reading plus JSON/pydantic parsing. The model
  takes the already-parsed sizes (`Sizes`) and allow-list (a sequence of names). It adds no
  validation the code does not perform.
- `main` (lines 71-87) is the command line, network loading of the dataset and pickling of each
  split. It is I/O only.
- src/download_dataset.py is a download wrapper with a command line and has no pruning logic. It is
  not part of this model.
- A record's fields other than `label` are never read. `Record.id` stands for all of them.
- The source iterates a lazy dataset and mutates `new_dataset_data[split]` in place. The model
  gives each split a sequence and builds the result map in a local variable. The inner loop is a
  separate method, `PruneSplit`, that the outer loop calls. Aliasing of the appended record
  objects is not modelled: records are values.
