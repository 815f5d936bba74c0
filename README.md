# ESG client: record flattening and the work-queue worker

This project models two sequential pieces of an ESG-score client in Dafny.

**The transformer** (`transformer/agent.py`) turns each fetched `(name, ric) -> payload` entry into one flat record:
- the instrument's name and code;
- the code split on `.` into ticker and exchange;
- every `industryComparison` subfield under its lower-cased name;
- every `esgScore` subfield's score and weight under a normalised `esg_` column name.

`Agent.transform` appends the record of every entry to the agent's result list.

**The client** (`core/lseg.py`) drains a queue of instrument descriptors. Each task is taken from the head of the queue and identified by the tuple of its field values. A task whose key already has a result is skipped. Otherwise the payload is fetched by the key's second field: a successful fetch is stored under the key, a failed one is dropped. A task with fewer than two fields is dropped too: this is the corrected loop. In the source, such a task makes the worker raise `IndexError` and die with the later tasks still queued (see "## Findings"). The loop as written is modelled separately as `WorkerAsWritten`. `LSEG.run` fetches the descriptors, queues a copy of them, starts from an empty result, drains the queue and returns the result.

Files:
- `wrappers.dfy`: `Option` and `Result`.
- `text.dfy`: the Python string operations the transformer uses. These are ASCII `lower`, the substring test `in`, `split` and the single-pass `replace`. The file also defines `Join`: the source never joins, and `Join` serves only as the reference inverse of `split`, used to state the split round-trip and to characterise `replace`.
- `agent.dfy`: the transformer.
  - `ConstructRecord` fills the record in nested loops. It is proved equal to `RecordOf`, which applies a log of writes to the four base fields, last write winning.
  - The class `Agent` appends records to `result` in `Transform`.
- `lseg.dfy`: the worker.
  - The specification functions are `Step` (one iteration) and `Drain` (all of them).
  - The class `LsegClient` holds the queue, the result map and its insertion order, with `Worker` (the corrected loop), `Visit` (one iteration of it), `WorkerAsWritten` (the loop as written) and `Run`.

Python behaviour that the model makes explicit:
- **Non-dict `esgScore` values.** A subfield value that is not a dict makes `"score" in v2` raise `TypeError` for numbers, booleans and `None`. For a string, `in` is a substring test, and indexing the string by `"score"` then raises `TypeError`. This is `Error.TypeError`.
- **Keys that are not pairs.** A key that is not a pair fails the `(name, ric)` unpacking. This is `Error.UnpackError`.
- **Exceptions part-way through.** Either error stops the transform loop, and records appended before it stay in `result`.
- **Ticker search failure.** A failure of the ticker search is raised by `fetch_tickers` and aborts the run before any task is fetched. It is modelled as a `None` list of descriptors.
- **Fetch failure.** A failed payload fetch is the fetcher oracle returning `None`.

## Model

| member | source | states |
|---|---|---|
| Text.Lower | transformer/agent.py:32 | `str.lower()` on ASCII: each capital letter becomes its small letter, every other character stays |
| Text.Contains | transformer/agent.py:26 | `p in s`: some position of `s` starts with `p` |
| Text.Split | transformer/agent.py:25-26 | `str.split` always yields at least one piece |
| Text.Join | transformer/agent.py:25-26 | reference inverse of `ric.split(".")`, used to state the split round-trip; the source never joins |
| Text.Replace | transformer/agent.py:34-38 | `s.replace(p, r)`: one left-to-right pass replacing each leftmost non-overlapping `p`; the inserted text is not searched again |
| Text.LastPiece | transformer/agent.py:26 | `s.split(sep)[-1]` |
| Text.JoinSplit | transformer/agent.py:25-26 | joining the pieces of a split with the same separator gives back the string |
| Text.SplitPiecesFree | transformer/agent.py:25-26 | no piece of a split contains the separator |
| Text.SeveralPiecesIffContains | transformer/agent.py:26 | a split has more than one piece exactly when the separator occurs (`"." in ric`) |
| Text.LastPieceIsSuffix | transformer/agent.py:26 | `split(sep)[-1]` is a suffix of the string |
| Text.SeparatorBeforeLastPiece | transformer/agent.py:26 | when the separator occurs, it stands right before the last piece |
| Text.ContainsIffOccurs | transformer/agent.py:35 | `p in s` holds exactly when `p` occurs at some position of `s` |
| Text.ReplaceIsJoinOfSplit | transformer/agent.py:34-38 | `s.replace(p, r)` equals `r.join(s.split(p))` |
| Text.ReplaceAbsent | transformer/agent.py:34-38 | replacing a pattern that does not occur leaves the string unchanged |
| Text.ReplaceSkips | transformer/agent.py:34-38 | text that cannot begin the pattern is copied unchanged by `replace` |
| Text.DeleteKeepsLowerCase | transformer/agent.py:34-38 | deleting a pattern never lengthens a lower-case string and keeps it lower-case |
| Text.LowerIsLowerCase | transformer/agent.py:32 | `lower()` leaves no ASCII capital letter |
| Text.LowerIdempotent | transformer/agent.py:32 | lower-casing twice is lower-casing once |
| Agent.Ticker | transformer/agent.py:25 | `ric.split(".")[0]` |
| Agent.Exchange | transformer/agent.py:26 | `ric.split(".")[-1] if "." in ric else None` |
| Agent.TickerIsPrefixBeforeFirstDot | transformer/agent.py:25 | the ticker holds no dot; it is the whole code without a dot, else the prefix that a dot follows |
| Agent.ExchangeIsSuffixAfterLastDot | transformer/agent.py:26 | the exchange exists exactly when the code has a dot, holds no dot, and is the suffix after a dot |
| Agent.EsgKey | transformer/agent.py:34-40 | `esg_` followed by the lower-cased subfield name after the three deletion stages |
| Agent.Normalise | transformer/agent.py:34-38 | the deletion stages in order: every `tr.`; then every `tresg` unless the name is exactly `tresg`; then every `pillar` when present |
| Agent.EsgKeyShape | transformer/agent.py:34-40 | every ESG column starts with `esg_` and holds no capital letter |
| Agent.EsgKeyIgnoresCase | transformer/agent.py:34 | subfield names differing only in case get the same column |
| Agent.EsgKeyOfPlainName | transformer/agent.py:34-40 | `TR.x` with `x` free of the deleted words becomes `esg_` + lower(`x`) |
| Agent.EsgKeyOfTresgName | transformer/agent.py:34-40 | `TR.TRESGx` with non-empty `x` free of the deleted words becomes `esg_` + lower(`x`) |
| Agent.EsgKeyOfScore | transformer/agent.py:34-40 | `TR.TRESGScore` becomes `esg_score` |
| Agent.EsgKeyOfTresg | transformer/agent.py:35 | a name that is exactly `tresg` after the first stage keeps it: `TR.TRESG` becomes `esg_tresg` |
| Agent.EsgKeyOfPillar | transformer/agent.py:37-40 | `TR.EnvironmentPillarScore` loses `pillar`: `esg_environmentscore` |
| Agent.Field | transformer/agent.py:41-42 | reading `score`/`weight` fails with a TypeError exactly for a non-object that is not a string lacking the field; otherwise it gives the object's value or 0 |
| Agent.EntryWrites | transformer/agent.py:31-42 | the assignments one subfield performs: `industryComparison` writes the value under the lower-cased name; `esgScore` writes score then weight under the ESG key, or fails on an unreadable value; other categories write nothing |
| Agent.CategoryWrites | transformer/agent.py:30-42 | the assignments of a category's subfields in order; the first failure stops them |
| Agent.PayloadWrites | transformer/agent.py:29-42 | the assignments of all categories in order; the first failure stops them |
| Agent.Apply | transformer/agent.py:32-42 | performing `record[key] = value` for each assignment in order |
| Agent.BaseRecord | transformer/agent.py:22-27 | the four starting fields: `name`, `ext8_ticker` = ric, `ticker`, and `exchange` (null without a dot) |
| Agent.RecordOf | transformer/agent.py:21-44 | the base record with every assignment of the payload performed, or the first error |
| Agent.ApplyKeys | transformer/agent.py:22-44 | the record holds the base fields and every key written |
| Agent.ApplyLastWriteWins | transformer/agent.py:29-42 | a column's value is the value of its last write |
| Agent.ApplyUntouched | transformer/agent.py:22-44 | a column never written keeps its value or stays absent |
| Agent.IndustryWrites | transformer/agent.py:31-32 | an `industryComparison` category writes each value unchanged under its lower-cased subfield name, in order |
| Agent.EsgEntryFails | transformer/agent.py:41-42 | one `esgScore` subfield succeeds exactly when its value is readable; else TypeError naming the subfield |
| Agent.EsgWritesFail | transformer/agent.py:30-42 | an `esgScore` category succeeds exactly when every value is readable; else the error names the first unreadable subfield |
| Agent.EsgWrites | transformer/agent.py:33-42 | each readable `esgScore` subfield writes its score under its key, then its weight under `<key>_weight`, each defaulting to 0 |
| Agent.OtherCategoryWrites | transformer/agent.py:29-33 | categories other than `industryComparison` and `esgScore` write nothing |
| Agent.IgnoredCategory | transformer/agent.py:29-33 | appending an unknown category leaves the record as it was |
| Agent.RecordOfAppend | transformer/agent.py:29-30 | categories are applied one after the other, each to the record so far; a failure stops the rest |
| Agent.FailsAt | transformer/agent.py:29-42 | the first failing subfield decides the error of the whole payload |
| Agent.CategoryFailureExtends | transformer/agent.py:30 | once a prefix of a category fails, the whole category fails the same way |
| Agent.PayloadFailureExtends | transformer/agent.py:29 | once a prefix of the payload fails, the whole payload fails the same way |
| Agent.ConstructRecord | transformer/agent.py:21-44 | the nested loops build exactly `RecordOf(name, ric, data)`, the base fields updated by every write in order, or fail with the first error |
| Agent.BaseFieldsKept | transformer/agent.py:22-27 | `name`, `ext8_ticker`, `ticker` and `exchange` keep their values unless an industry subfield has one of those names |
| Agent.BaseFieldsAreNotEsg | transformer/agent.py:22-40 | no base field name is an ESG column |
| Agent.RecordColumns | transformer/agent.py:22-44 | a record's columns are the four base fields and every column written |
| Agent.PayloadWriteKeys | transformer/agent.py:29-42 | every column written is an industry subfield's lower-cased name or an ESG column |
| Agent.ScoreRecord | transformer/agent.py:22-42 | a payload holding `TR.TRESGScore` with score 80 and weight 1 gives the base fields plus `esg_score` = 80 and `esg_score_weight` = 1 |
| Agent.EntryRecord | transformer/agent.py:13-14 | one entry's record: the key is unpacked as `(name, ric)` (an error when it is not a pair), then the record is built |
| Agent.Transformed | transformer/agent.py:13-14 | the entries' records in order, stopping at the first entry that fails, with that error |
| Agent.TransformedSpec | transformer/agent.py:12-14 | records come one per entry, in order, from a prefix of the entries; without an error every entry has one; an error is the first failing entry's |
| Agent.TransformedStops | transformer/agent.py:13-14 | after an entry fails, later entries change nothing |
| Agent.Agent.constructor | transformer/agent.py:8-10 | the agent starts with its entries and an empty result list |
| Agent.Agent.Transform | transformer/agent.py:12-14 | the loop appends exactly `Transformed(data).records` to the old `result` and returns all records so far, or the error |
| Lseg.IdentityKey | core/lseg.py:95 | the key is the tuple of all field values, in order |
| Lseg.Step | core/lseg.py:95-109 | one iteration of the corrected loop: a key with a result is skipped; a key with fewer than two fields is dropped, whereas the source's worker dies there (see `Lseg.DrainAsWritten`); otherwise the payload fetched by the second field is stored, or nothing on failure |
| Lseg.StepCalls | core/lseg.py:96-102 | the request one iteration makes: the key's second field unless the key has a result or fewer than two fields |
| Lseg.Drain | core/lseg.py:88-109 | the corrected loop: steps on the tasks from the head of the queue until it is empty |
| Lseg.DrainCalls | core/lseg.py:88-102 | the requests the corrected loop makes, in order |
| Lseg.FetchableKeys | core/lseg.py:95-104 | the keys of the tasks with a second field whose fetch succeeds |
| Lseg.DrainKeys | core/lseg.py:93-104 | after draining, the keys with a result are the old ones plus the keys of the tasks whose fetch succeeds; a failed fetch costs only its own entry |
| Lseg.DrainValues | core/lseg.py:96-104 | draining never overwrites a result, and every new result is the payload fetched for the key's second field |
| Lseg.DrainValid | core/lseg.py:96-104 | every key with a result was inserted exactly once |
| Lseg.DrainCallCount | core/lseg.py:96-102 | a key is fetched never when it has a result or no second field, once when its fetch succeeds however many tasks share it, and once per task when it fails |
| Lseg.LsegClient.constructor | core/lseg.py:14-18 | the client starts with no tasks and an empty result |
| Lseg.LsegClient.Visit | core/lseg.py:95-109 | one iteration of the corrected loop, equal to `Step`: skip a key with a result; drop a key with fewer than two fields, where the source's worker dies instead (see `WorkerAsWritten`); otherwise request the second field and store the payload if there is one; nothing else changes |
| Lseg.LsegClient.Worker | core/lseg.py:84-109 | the corrected loop: one iteration per task; the queue ends empty, and the result and the requests made are those of `Drain` on the old queue. A one-field task is dropped here, while the source's worker dies on it (see `WorkerAsWritten`) |
| Lseg.LsegClient.Run | core/lseg.py:20-27 | a failed ticker search aborts with nothing changed; otherwise the queue is a copy of the descriptors, the result starts empty and is drained by the corrected loop (`Worker`, which drops one-field tasks where the source's worker dies), and it is returned |
| Lseg.RunGuarantees | core/lseg.py:20-109 | a run's result has one entry per key whose fetch succeeds, each the fetched payload, and each such key is fetched once |
| Lseg.DuplicateTaskFetchedOnce | core/lseg.py:96-98 | two identical tasks give one entry and one fetch |
| Lseg.FailedFetchIsolated | core/lseg.py:100-109 | a failed fetch drops only its own task and the other task's entry is kept |
| Lseg.DrainAsWritten | core/lseg.py:88-109 | the loop as written: like `Drain`, but a task with fewer than two fields and no result ends the worker, with the later tasks still queued |
| Lseg.AsWrittenCalls | core/lseg.py:96-108 | the requests the loop as written makes before it ends or dies |
| Lseg.LsegClient.WorkerAsWritten | core/lseg.py:84-109 | the loop as written: its state, the tasks it leaves queued and its requests are those of `DrainAsWritten` and `AsWrittenCalls`; it stops at the first task with fewer than two fields and no result |
| Lseg.AsWrittenAgrees | core/lseg.py:95-109 | when every task has at least two fields, the loop as written drains like the corrected one and makes the same requests |
| Lseg.AsWrittenLosesLaterTasks | core/lseg.py:101-108 | a one-field task in front of a good one: the loop as written dies and never stores the good one; the corrected loop stores it |

## Left out

- The process pool and threads of `LSEG.start_workers` and `LSEG._process_target` (core/lseg.py:41-82) are not modelled: the manager proxies, the lock, and the interleaving of workers. The model is one sequential worker. The check-then-fetch race on `ric in self.result`, which lets concurrent workers fetch one key twice, exists only under that concurrency.
- `LSEG.fetch_tickers` and `LSEG.fetch_esg_scores` are HTTP requests. The ticker search is an `Option<seq<Task>>` parameter of `Run`, and the payload fetch is a function from code to `Option` payload. Each call of that function therefore gives the same answer, and transient network failures are not modelled.
- The `pandas` DataFrame and the `utcnow()` timestamp column built at the end of `Agent.transform` are not modelled. `Transform` returns the list of records instead.
- `main.py` is not part of this model, nor is the database persistence it wires up. Logging and `settings` are left out too.
- Lower-casing is ASCII only: non-ASCII capitals are left as they are, unlike Python's Unicode `str.lower`.
- The order of a record's columns is not modelled: a record is a map. Insertion order is tracked only for the client's result dictionary.
- Payload values are a scalar or a flat object of scalars. JSON arrays and deeper nesting under a subfield are not modelled. A category whose value is not a dict is not modelled either (Python would fail on `v.items()`).
- Task fields are strings. A descriptor that is not a JSON object is not modelled. In the source, `ric_data.values()` raises on such a descriptor at core/lseg.py:95, outside the `try`, so the worker dies. A field value that cannot be hashed, such as a list or an object, is not modelled either. In the source it kills the worker the same way at `ric in self.result` (core/lseg.py:96).
- A fetched payload that is not a JSON object, such as `null` or a list, is not modelled: a `Payload` is always a sequence of categories. In the source, `data.items()` raises `AttributeError` on it at transformer/agent.py:29, and `transform` stops with that error.

## Findings

| source | as written | input that shows it | evidently intended | confidence | as-written member | corrected member |
|---|---|---|---|---|---|---|
| core/lseg.py:101-108 | a task whose key has fewer than two fields raises `IndexError` at `ric[1]` in the `try`, and again in the `except` handler, so the error escapes and the worker ends with the remaining tasks still queued | the queue `[{"name": "Acme"}, {"name": "Beta", "ric": "BBB.N"}]` with a successful fetch for `BBB.N` | a malformed task is dropped like a failed fetch and the loop goes on | not executed | Lseg.AsWrittenLosesLaterTasks | Lseg.DrainKeys |
