# mongo-perf analysis manager: definition loading and dispatch

This project models the sequential core of `analysismgr.py`, the mongo-perf
analysis manager. The manager loads alert and report definitions from INI files
into a document store, reads them back stamped with their kind, and hands each
one, with its kind's five-stage pipeline, to a processing queue.

- `pystr.dfy` (module `PyStr`) models the two Python 2 string operations applied
  to every raw option value: `str.split(", ")` and `str.strip()`. It also proves
  their round trips and characterisations.
- `records.dfy` (module `Records`) defines the record shape: a map from field
  name to a string or a list of strings. It also defines the two kinds of
  definition and how a record's `type` field is read back.
- `loader.dfy` (module `Loader`) models `ensure_definition` and `pull_definitions`:
  - Section records are built from an INI section's `(option, raw value)` pairs
    as a function (`SectionRecord`) and as the source's loop (`BuildRecord`).
  - An empty option name is the error the source raises, not a precondition.
  - `EnsureDefinitions` is the loop over sections. `PullDefinitions` stamps every
    stored record with its kind.
- `dispatch.dfy` (module `Dispatcher`) models the pipeline constants and the loop
  in `start_definition_processing`:
  - `Pass` is one pass of the `for` loop over the pending list. It follows
    Python's index-based list iteration, so removing an entry skips the one that
    slides into its slot.
  - `ScanPass` is that loop written imperatively. `Dispatch` is the `while` loop
    around it.
  - The state a freshly built definition reports is the input `stateOf`. The
    queue is the sequence of definitions pushed, in order.

## Model

| member | source | states |
|---|---|---|
| `PyStr.Strip` | analysismgr.py:196 | `strip()` returns a slice of its input with only whitespace cut on either side, and the slice starts and ends with a non-whitespace character |
| `PyStr.StripCharacterized` | analysismgr.py:196 | any split of a value into whitespace, a middle with no whitespace at its ends, and whitespace has `strip()` as that middle |
| `PyStr.StripIdempotent` | analysismgr.py:196 | stripping a stripped piece changes nothing |
| `PyStr.Split` | analysismgr.py:196 | `split(", ")` always yields at least one piece, and the first piece is a prefix of the value |
| `PyStr.SplitJoin` | analysismgr.py:196 | joining the pieces with ", " gives back the raw value |
| `PyStr.SplitPiecesNoSep` | analysismgr.py:196 | no piece contains the separator |
| `PyStr.SplitFirstPiece` | analysismgr.py:196-198 | the first piece of `split(", ")` is the value up to its first ", ", or the whole value when there is none |
| `PyStr.JoinSplit` | analysismgr.py:196 | splitting a ", "-join of one or more separator-free parts gives back exactly those parts |
| `Loader.Pieces` | analysismgr.py:196-198 | a raw value has one stripped piece per split piece and at least one, so `value[0]` is always defined |
| `Loader.PiecesStripped` | analysismgr.py:196 | each piece is the corresponding split piece, stripped, and has no whitespace at either end |
| `Loader.PiecesOfJoin` | analysismgr.py:196 | the pieces of a joined value are its parts stripped, in their original order |
| `Loader.OptionEntry` | analysismgr.py:197-200 | a `~k` option stores under `k` a single string: the separator-free prefix of the raw value that ends at its first ", " (or is the whole value), stripped; any other option stores the full list of stripped pieces, in order, under its own name |
| `Loader.SectionRecordOk` | analysismgr.py:195-197 | building a section succeeds exactly when no option name is empty |
| `Loader.SectionRecordFails` | analysismgr.py:195-197 | a failure names the section and the position of its first empty option name |
| `Loader.SectionRecordKeys` | analysismgr.py:193-200 | the record's fields are `name` plus exactly the keys the options write |
| `Loader.SectionRecordLastWriter` | analysismgr.py:195-200 | options apply in order, so each written key holds the entry of the last option writing it, even when `~x` follows `x` |
| `Loader.SectionRecordName` | analysismgr.py:193-194 | when no option writes `name`, the record's `name` is the section name |
| `Loader.BuildRecord` | analysismgr.py:193-200 | the loop over one section's options yields the section record, or the error at the first empty name |
| `Loader.EnsureDefinitions` | analysismgr.py:192-202 | records are upserted section by section, in order; an empty option name stops the loading, leaving the earlier sections upserted |
| `Loader.PullDefinitions` | analysismgr.py:82-92 | one record per stored document, in cursor order, each with `type` set to the requested kind and every other field unchanged |
| `Records.KindOf` | analysismgr.py:115-124 | a record has a kind exactly when its `type` is "alert" or "report", and the kind's name is that value |
| `Dispatcher.Pipeline` | analysismgr.py:42-47 | each pipeline has five distinct non-empty stages ending with "show results"; alerts start with "pull data" and reports with "process benchmarks" |
| `Dispatcher.Build` | analysismgr.py:114-126 | an "alert" record gets the alert pipeline and a "report" record the report pipeline; the definition keeps the record and its kind |
| `Dispatcher.RemoveFirst` | analysismgr.py:132 | `list.remove` shortens the list by exactly one |
| `Dispatcher.RemoveFirstMultiset` | analysismgr.py:132 | `list.remove(x)` drops exactly one copy of `x` and adds nothing |
| `Dispatcher.RemoveFirstAt` | analysismgr.py:132 | `list.remove(x)` deletes the first entry equal to `x`, and the others keep their order |
| `Dispatcher.EligibleBlockedSplit` | analysismgr.py:127-136 | the records reading "not started" and the records reading anything else together make up the whole batch |
| `Dispatcher.PassConserves` | analysismgr.py:114-132 | a pass loses no record and duplicates none: the records pushed plus those still pending are the records the pass started with |
| `Dispatcher.PassRespectsState` | analysismgr.py:127-136 | a pass pushes only records reading "not started"; the others stay pending, in their order |
| `Dispatcher.PassProgress` | analysismgr.py:113-136 | a pass pushes nothing exactly when no record it visits reads "not started", and then it leaves the pending list unchanged |
| `Dispatcher.PassAlternates` | analysismgr.py:114-132 | for distinct records that all read "not started", a pass pushes the entries at even positions and leaves the odd ones pending, because of remove-during-iteration skipping |
| `Dispatcher.ScanPass` | analysismgr.py:114-136 | the `for` loop pushes, in order, the definitions built from the records `Pass` selects, and leaves `Pass`'s remainder pending |
| `Dispatcher.Dispatch` | analysismgr.py:111-136 | every record reading "not started" is queued once per occurrence (once, for distinct records) with its pipeline; the rest stay pending; nothing stays pending exactly when every record reads "not started", and then every record is queued and, for distinct records, the first pass takes the alternate entries first |

## Left out

- MongoDB is not modelled: the connection, index creation, `find` and the upsert (analysismgr.py:52-55, 81, 164-177, 201-202). Stored records are an input sequence, and the upsert is the list `EnsureDefinitions` returns. Replacing a stored document by name is not modelled.
- `SafeConfigParser` file reading is not modelled (analysismgr.py:183-185, 192, 195). The sections and their `(option, raw value)` pairs, in order, are given data. Interpolation, case handling of option names, and `DEFAULT` sections are the parser's business.
- Threads, the queue's blocking `put` and `join`, and `sleep(1)` are not modelled (analysismgr.py:99-110, 142-144): they are concurrency and timing. This includes the one worker per definition started at analysismgr.py:104-108.
- The `AlertDefinition` and `ReportDefinition` constructors live in `jobsmgr`, which is not part of this model. They appear as a `Definition` value holding the kind, record and pipeline.
- Logging setup and every `LOGR` call are not modelled: they are side effects only.
- `main`'s sequencing of the two kinds (analysismgr.py:58-70) and the collection names are not modelled.
- Dispatcher.Build: the source reads the fields `transform`, `comparator`, `epoch_type`, `threads` and `epoch_count` of an alert record (analysismgr.py:117-121) and `homogeneity` of a report record (analysismgr.py:125) before building the definition. A record missing one of them raises `KeyError`, which stops `start_definition_processing` partway through a pass, after the earlier records were queued. The model assumes every record carries its fields, so `Build`, `ScanPass` and `Dispatch` never fail there.
- Dispatcher.Dispatch: a definition's state is a fixed function of its record. When a pass pushes nothing, the source would loop forever, re-reading states that may change elsewhere. The model stops there and returns the records left pending as `stuck`.
- Dispatcher.Build: the source also writes `pipeline` into the record dictionary itself. The list copy at analysismgr.py:111 is shallow, so the caller's dictionaries change too. The model attaches the pipeline to the built `Definition` only.
- Dispatcher.Pass: because of that write, in any pass a visited record carries `pipeline` and an equal record not yet visited, for instance one skipped in every earlier pass, does not. So `list.remove` can then find a different one of two equal records than `RemoveFirst`, which compares records without that key. Only the order of later passes can differ; for distinct records nothing differs.
- Dispatcher.ScanPass: a record whose `type` is neither "alert" nor "report" is excluded by `Typed`. The source would then reuse the previous `definition` or raise `NameError`. `pull_definitions` never produces such a record.
- Loader.PullDefinitions: an unknown kind, which makes the source fail with `UnboundLocalError`, cannot be expressed, because `Kind` has only the two kinds.
