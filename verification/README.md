# Loc-Bench tooling for SWE-agent, modelled in Dafny

Two small command-line tools sit between the Loc-Bench localisation benchmark and SWE-agent batch runs. This project models their pure core and proves what that core promises.

- **`prepare_instances.py`** turns benchmark records into SWE-agent batch instances.
  - It maps each repository slug to a local mirror directory.
  - It skips records without an id or a repository, and records the `--filter` regex rejects.
  - It skips or reports records whose mirror is missing, depending on `--skip-missing`.
  - It defaults the base commit to `HEAD` and stops at the `--limit`.
  - It exits with 3 when mirrors were reported missing.
- **`parse_trajectories.py`** turns SWE-agent transcripts back into localisation outputs.
  - For each transcript it walks the steps from the newest to the oldest. In each step's response it looks for a JSON object, trying candidates in this order:
    1. the stripped bodies of fenced code blocks with an optional `json` tag;
    2. otherwise the whole stripped text;
    3. then the brace-balanced substrings.
  - It normalises the found files, modules and entities into trimmed, duplicate-free lists. Missing files and modules are derived from the entities.
  - It attaches five whitelisted metadata keys of the benchmark record.

JSON decoding (`json.loads`), repository existence (`Path.exists`) and the `--filter` regex's `search` are function parameters of the model:
- `Extractor.Decoder` stands for `json.loads`;
- `Instances.RepoPath -> bool` stands for `Path.exists`;
- `Config.filter` stands for the regex's `search`.

Everything else is modelled as pure functions over `seq<char>` strings and a `Json` datatype.

Modules, one per file:

| file | module | what it holds |
|---|---|---|
| `wrappers.dfy` | `Wrappers` | `Option` |
| `json.dfy` | `Json` | decoded JSON values, Python truthiness, `dict.get`, `x or default` |
| `strings.dfy` | `Strings` | `str.isspace`, `str.strip` and split-at-the-first-separator |
| `ordered_sets.dfy` | `OrderedSets` | the `seen`-set de-duplication loop and its reference definition |
| `normalize.dfy` | `Normalize` | `normalize_list`, `entities_to_modules` |
| `braces.dfy` | `BraceScan` | `_iter_json_substrings` |
| `fences.dfy` | `Fences` | the fenced-block regex as a scanner |
| `extractor.dfy` | `Extractor` | `_try_load_json`, `extract_json_payload` |
| `trajectories.dfy` | `Trajectories` | `build_meta`, step selection, field derivation, the output record |
| `instances.dfy` | `Instances` | `build_repo_path`, the record loop and the exit code |

Behaviour of the code worth knowing:

- **Whitespace-only text.** Only an empty text makes `extract_json_payload` return `(None, None)` at once. A whitespace-only text goes on: it has no fenced blocks, so its stripped form `""` is offered to the decoder. That yields nothing only because `json.loads("")` fails. `Extractor.BlankTextYieldsNothing` states this under that assumption.
- **`raw_output_loc`.** It holds the whole response of the selected step, not the candidate text the payload was decoded from.
- **The fence regex.** It is modelled exactly:
  - The lazy body ends at the first fence after the opening one.
  - The optional `json` tag cannot hold a backtick, so it never changes where a block closes.
  - An opening fence with no closing fence after it means no later match either.
  - `IGNORECASE` matches `j`/`J`, `s`/`S`/`ſ` (U+017F), `o`/`O`, `n`/`N`.
  - The `\s*` before the body does not matter because the body is stripped.
  - Runs of four or more backticks are therefore handled as Python handles them.
- **Negative `--limit`.** A negative limit is truthy and `count >= limit` already holds after the first write. So the loop stops after one instance (`Instances.NegativeLimitStopsAtFirst`).
- **Non-string ids and repos.**
  - A record whose `instance_id` is truthy but not a string makes `regex.search` raise when a filter is given.
  - A `repo` that is truthy but not a string makes `.replace` raise.
  - The exception ends the run with exit code 1. The model keeps this as a `Crash` verdict.

## Model

| member | source | states |
|---|---|---|
| Strings.Strip | tools/locbench_sweagent/parse_trajectories.py:42 | `str.strip()` leaves no leading or trailing whitespace (Python's `isspace` set) and never lengthens the text |
| Strings.StripIsTrimmedSlice | tools/locbench_sweagent/parse_trajectories.py:42 | the stripped text is a contiguous slice of the original |
| Strings.StripIdempotent | tools/locbench_sweagent/parse_trajectories.py:42 | stripping twice is stripping once |
| Strings.StripEmptyIffAllSpace | tools/locbench_sweagent/parse_trajectories.py:43 | a string strips to empty exactly when it is all whitespace |
| Strings.FirstIndex | tools/locbench_sweagent/parse_trajectories.py:107 | the position of the first separator, or the length when there is none |
| Strings.SplitFirstRejoins | tools/locbench_sweagent/parse_trajectories.py:107 | `split(":", 1)` cuts at the first `:`; both parts rejoined with the separator give the input back, and the head holds no separator |
| Strings.SplitFirstOfJoin | tools/locbench_sweagent/parse_trajectories.py:107 | splitting `left + ":" + right` with no `:` in `left` gives back `left` and `right` |
| OrderedSets.FirstOccurrencesSpec | tools/locbench_sweagent/parse_trajectories.py:37-46 | the reference ordered set holds each input value exactly once |
| OrderedSets.FirstOccurrencesOrder | tools/locbench_sweagent/parse_trajectories.py:37-46 | the reference ordered set lists values in the order of their first occurrence |
| OrderedSets.DedupFoldMatchesReference | tools/locbench_sweagent/parse_trajectories.py:43-46 | loop invariant of the `seen`-set loop: after any prefix, the output is the reference ordered set of that prefix |
| OrderedSets.DedupFold | tools/locbench_sweagent/parse_trajectories.py:38-46 | the `seen`-set loop only appends: the output extends the initial result by at most one element per input, each from the input and not already seen |
| OrderedSets.Dedup | tools/locbench_sweagent/parse_trajectories.py:102-113 | the single pass yields the reference ordered set: no duplicates, same members as the input |
| OrderedSets.DedupIdempotent | tools/locbench_sweagent/parse_trajectories.py:37-46 | de-duplicating a de-duplicated list changes nothing |
| Normalize.CleanedMembers | tools/locbench_sweagent/parse_trajectories.py:39-42 | a value survives the cleaning exactly when some string item strips to it and it is non-empty |
| Normalize.Cleaned | tools/locbench_sweagent/parse_trajectories.py:39-42 | the per-item cleaning keeps at most one string per item, never more strings than items; which strings is stated by `Normalize.CleanedMembers` |
| Normalize.NormalizeList | tools/locbench_sweagent/parse_trajectories.py:30-47 | no duplicates; every element is non-empty, stripped and comes from a string item; falsy input gives `[]`; a non-list value is a one-element list |
| Normalize.NormalizeListOrder | tools/locbench_sweagent/parse_trajectories.py:39-46 | elements appear in the order of their first cleaned occurrence |
| Normalize.NormalizeListIdempotent | tools/locbench_sweagent/parse_trajectories.py:30-47 | normalising a normalised list returns it unchanged |
| Normalize.ModuleId | tools/locbench_sweagent/parse_trajectories.py:107-109 | the module id keeps the entity's file part and is a prefix of the entity |
| Normalize.ModuleIdShape | tools/locbench_sweagent/parse_trajectories.py:107-109 | the id is `file:firstSegment`, or just `file` when the first dot segment is empty |
| Normalize.ModuleIdOfDotted | tools/locbench_sweagent/parse_trajectories.py:108-109 | `file:Seg.rest` maps to `file:Seg` |
| Normalize.ModuleIdOfUndotted | tools/locbench_sweagent/parse_trajectories.py:108-109 | `file:Seg` without a dot maps to itself |
| Normalize.ModuleIdsMembers | tools/locbench_sweagent/parse_trajectories.py:104-109 | the ids are exactly those of the entities carrying a `:` |
| Normalize.EntitiesToModules | tools/locbench_sweagent/parse_trajectories.py:101-114 | the reference ordered set of the entities' module ids: duplicate-free; members are exactly the ids of entities with a `:`; entities without `:` give `[]` |
| Normalize.EntitiesToModulesOrder | tools/locbench_sweagent/parse_trajectories.py:104-113 | module ids come out in the order of their first occurrence among the entities' ids |
| Normalize.EntitiesToModulesExample | tools/locbench_sweagent/parse_trajectories.py:101-114 | `[f:m.x, f:m.y, g:q]` gives `[f:m, g:q]` for distinct files `f`, `g` |
| Normalize.EntityFilesMembers | tools/locbench_sweagent/parse_trajectories.py:199 | the file prefixes are exactly the parts before the first `:` of the entities that carry one |
| BraceScan.DepthSnoc | tools/locbench_sweagent/parse_trajectories.py:92-95 | reading one more character moves the depth by +1 for `{`, -1 for `}`, 0 otherwise |
| BraceScan.ScanClose | tools/locbench_sweagent/parse_trajectories.py:90-98 | the inner loop's result, when there is one, is a `}` at or after the position it started from |
| BraceScan.ScanCloseFindsFirstReturn | tools/locbench_sweagent/parse_trajectories.py:89-98 | invariant of the inner loop: it stops exactly where the depth from the start first returns to zero |
| BraceScan.MatchEndIsFirstReturn | tools/locbench_sweagent/parse_trajectories.py:89-98 | the scan from a `{` ends at the first return to depth zero, and only there |
| BraceScan.SpansFrom | tools/locbench_sweagent/parse_trajectories.py:87-98 | the outer loop over `{` positions yields at most one span per position it scans; where the spans lie is stated by `BraceScan.SpansFromSound` |
| BraceScan.ClosesAtIsBalanced | tools/locbench_sweagent/parse_trajectories.py:96-97 | the yielded slice starts with `{`, ends with `}`, has as many `{` as `}`, and every non-empty proper prefix has more `{` than `}` |
| BraceScan.SpansFromSound | tools/locbench_sweagent/parse_trajectories.py:87-98 | spans from a position on start at or after it, strictly increasing, each ending at its first return to zero |
| BraceScan.SpanListed | tools/locbench_sweagent/parse_trajectories.py:87-98 | every `{` whose depth returns to zero has its span listed |
| BraceScan.BraceSpans | tools/locbench_sweagent/parse_trajectories.py:86-98 | sound (each span ends at its first return), starts strictly increase (so at most one per `{`), and complete |
| BraceScan.BraceCandidates | tools/locbench_sweagent/parse_trajectories.py:97 | each yielded candidate is the contiguous slice of its span |
| BraceScan.BraceCandidatesBalanced | tools/locbench_sweagent/parse_trajectories.py:86-98 | every yielded substring is brace-balanced with positive proper prefixes |
| BraceScan.UnclosedBraceYieldsNothing | tools/locbench_sweagent/parse_trajectories.py:90-98 | a `{` whose depth never returns to zero yields no candidate |
| BraceScan.NoOpeningBraceNoCandidates | tools/locbench_sweagent/parse_trajectories.py:87-88 | text without `{` yields nothing |
| Fences.FindFence | tools/locbench_sweagent/parse_trajectories.py:13 | finds the first three-backtick fence at or after a position, or reports that there is none |
| Fences.BodyStart | tools/locbench_sweagent/parse_trajectories.py:13 | the body begins right after the fence, or four characters later exactly when a `json` tag in any letter case (with `ſ` for `s`) follows the fence |
| Fences.NextBlock | tools/locbench_sweagent/parse_trajectories.py:13 | one match of the pattern: a block is found from `p` exactly when a fence follows `p` and another fence follows that fence's body start; the body starts after the first fence (and its optional tag), at least a fence past `p`, ends at the first fence after its start, and contains no fence |
| Fences.BodySpans | tools/locbench_sweagent/parse_trajectories.py:55 | the `finditer` loop over the matches; where each body lies is stated by `Fences.BodySpansBetweenFences` and `Fences.BodySpansInOrder`, and how many there can be by `Fences.BodySpansCount` |
| Fences.BodySpansCount | tools/locbench_sweagent/parse_trajectories.py:55 | each match takes two fences, so the loop finds at most one body per six characters scanned |
| Fences.BlockBodies | tools/locbench_sweagent/parse_trajectories.py:56 | `match.group(1).strip()` for each match: one body per span, in span order, each the stripped text between its span's ends, which lie inside the text |
| Fences.BodySpanOpener | tools/locbench_sweagent/parse_trajectories.py:13 | body `k` starts after the first fence (and optional tag) found from where block `k - 1` closed |
| Fences.BodySpansClosers | tools/locbench_sweagent/parse_trajectories.py:13 | each body ends at a fence and contains no fence: the lazy body stops at the first closing fence |
| Fences.BodySpansStop | tools/locbench_sweagent/parse_trajectories.py:13 | after the last body no complete block can be found: either no further fence, or no fence after the last opener |
| Fences.ScanEnd | tools/locbench_sweagent/parse_trajectories.py:55 | where `finditer` runs out of matches: a position inside the text, at or after the scan start, from which no complete block can be found |
| Fences.ResumeAtScanEnd | tools/locbench_sweagent/parse_trajectories.py:55 | the position after the last closing fence (or the scan start when there is no body) is exactly where `finditer` runs out of matches |
| Fences.BodySpansBetweenFences | tools/locbench_sweagent/parse_trajectories.py:13 | the scan pairs fences greedily from left to right: body `k` starts after the first fence (and optional tag) at or after the previous block's closing fence, ends at the first fence after its start, contains no fence, and the scan stops only when no complete block follows |
| Fences.BodySpansInOrder | tools/locbench_sweagent/parse_trajectories.py:13 | bodies come in text order, each a full fence past the previous one, without overlap |
| Fences.NonEmpty | tools/locbench_sweagent/parse_trajectories.py:57-58 | keeps exactly the non-empty strings, each as often as it occurs (multiset equality on non-empty strings, no empty string left) |
| Fences.NonEmptyAppend | tools/locbench_sweagent/parse_trajectories.py:55-58 | dropping empty strings keeps order: what is kept from a first part precedes what is kept from the rest |
| Fences.FencedCandidates | tools/locbench_sweagent/parse_trajectories.py:54-58 | the tier-one candidates are stripped and non-empty; they are exactly the non-empty stripped block bodies, each with its multiplicity |
| Fences.NoBacktickNoFences | tools/locbench_sweagent/parse_trajectories.py:55 | text without a backtick has no fenced candidate |
| Extractor.TryLoadJson | tools/locbench_sweagent/parse_trajectories.py:76-83 | accepts a candidate exactly when it decodes to an object, and returns that object |
| Extractor.FirstAccepted | tools/locbench_sweagent/parse_trajectories.py:63-71 | `None` exactly when no candidate decodes to an object; otherwise the first candidate that does, with every earlier one failing |
| Extractor.FirstAcceptedAppend | tools/locbench_sweagent/parse_trajectories.py:63-71 | trying one list and then another is trying their concatenation |
| Extractor.PrimaryCandidates | tools/locbench_sweagent/parse_trajectories.py:54-61 | the first tiers are never empty and always stripped: the fenced candidates when there is any, otherwise just the whole stripped text |
| Extractor.ExtractJsonPayload | tools/locbench_sweagent/parse_trajectories.py:50-73 | empty text gives nothing; a result's source decodes to exactly its payload object and is one of the candidates |
| Extractor.ExtractIsFirstAcceptedCandidate | tools/locbench_sweagent/parse_trajectories.py:54-73 | the result is the first candidate, in tier order, that decodes to an object |
| Extractor.FencesShadowWholeText | tools/locbench_sweagent/parse_trajectories.py:60-61 | with a non-empty fenced body the whole-text tier is never tried: the source is a fenced body or a brace-scan substring, which may still be the whole stripped text |
| Extractor.SingleFencedObjectFound | tools/locbench_sweagent/parse_trajectories.py:54-66 | a text whose only non-empty fenced body decodes to an object yields that object and body, whatever prose surrounds it |
| Extractor.BraceScanOnlyAsLastResort | tools/locbench_sweagent/parse_trajectories.py:63-71 | if an earlier-tier candidate decodes, the brace scan is never consulted |
| Extractor.BlankTextYieldsNothing | tools/locbench_sweagent/parse_trajectories.py:50-73 | whitespace-only text yields nothing when the decoder rejects `""` |
| Extractor.BraceScanRecovers | tools/locbench_sweagent/parse_trajectories.py:68-71 | with no fenced body and an undecodable whole text, any decodable balanced substring is found, in scan order |
| Trajectories.SearchBack | tools/locbench_sweagent/parse_trajectories.py:183-189 | the backward walk stops at the latest step that yields; `None` exactly when none does |
| Trajectories.LatestPayloadStep | tools/locbench_sweagent/parse_trajectories.py:183-189 | the chosen step yields a payload and every later step does not; `None` exactly when no step yields |
| Trajectories.OlderStepStillFound | tools/locbench_sweagent/parse_trajectories.py:183-189 | an older step is chosen when every later step fails, e.g. a valid step followed by prose |
| Trajectories.SelectPayloadLatest | tools/locbench_sweagent/parse_trajectories.py:183-194 | the payload and raw text come from the latest yielding step; otherwise `{}` and the last step's response, or `""` with no steps |
| Trajectories.SelectPayload | tools/locbench_sweagent/parse_trajectories.py:180-194 | a non-empty raw text is the response of some step |
| Trajectories.CopyKeysSpec | tools/locbench_sweagent/parse_trajectories.py:119-121 | the copy loop adds exactly the listed keys the record has, with their values |
| Trajectories.CopyKeys | tools/locbench_sweagent/parse_trajectories.py:118-121 | the copy loop never drops a key and adds only listed keys |
| Trajectories.BuildMeta | tools/locbench_sweagent/parse_trajectories.py:117-122 | exactly the whitelisted keys present in the record, values unchanged, no other key |
| Trajectories.DeriveLists | tools/locbench_sweagent/parse_trajectories.py:196-202 | lists are duplicate-free; files and modules come from the payload unless empty, then from the entities; entities are never derived |
| Trajectories.DerivedFilesComeFromEntities | tools/locbench_sweagent/parse_trajectories.py:198-199 | a derived file is the stripped part before the first `:` of some entity |
| Trajectories.ConvertTranscript | tools/locbench_sweagent/parse_trajectories.py:180-211 | output lists are duplicate-free; `raw_output_loc` has at most one non-empty element, a step's response; metadata is the record's whitelisted keys |
| Trajectories.ConvertTranscriptFromLatest | tools/locbench_sweagent/parse_trajectories.py:180-209 | the written lists are those derived from the payload of the latest step whose response yields one, and `raw_output_loc` is that step's response; with no such step the lists are derived from `{}` and `raw_output_loc` is the last step's response when it is non-empty, otherwise empty |
| Trajectories.NoPayloadEmptyLists | tools/locbench_sweagent/parse_trajectories.py:191-202 | with no yielding step every list is empty |
| Trajectories.Convertible | tools/locbench_sweagent/parse_trajectories.py:170-178 | only transcripts whose stem is a benchmark id and whose JSON decodes are kept; when every transcript qualifies, all are kept in order |
| Trajectories.ConvertibleMembers | tools/locbench_sweagent/parse_trajectories.py:170-178 | a transcript is kept exactly when it is listed and qualifies, and a qualifying one is kept as often as it is listed |
| Trajectories.ConvertibleAppend | tools/locbench_sweagent/parse_trajectories.py:170 | the filter keeps the sorted listing's order: what is kept from a first part of the listing precedes what is kept from the rest |
| Trajectories.ConvertAll | tools/locbench_sweagent/parse_trajectories.py:170-211 | exactly one output line per convertible transcript, in the same order, each being the conversion of that transcript with its own benchmark record |
| Instances.RepoDirName | tools/locbench_sweagent/prepare_instances.py:26 | same length as the slug, `/` becomes `_`, every other character unchanged, no `/` left |
| Instances.RepoDirNameIdempotent | tools/locbench_sweagent/prepare_instances.py:26 | mapping a mapped name changes nothing |
| Instances.RepoDirNameInjective | tools/locbench_sweagent/prepare_instances.py:26 | without `_` in the slugs, distinct slugs get distinct directories |
| Instances.RepoDirNameConcat | tools/locbench_sweagent/prepare_instances.py:26 | the mapping works character by character, so it distributes over concatenation |
| Instances.RepoDirNameCollides | tools/locbench_sweagent/prepare_instances.py:26 | `owner/name` and `owner_name` share one directory |
| Instances.BuildRepoPath | tools/locbench_sweagent/prepare_instances.py:25-26 | the path's root is the repo root and its last component is the mapped slug |
| Instances.Classify | tools/locbench_sweagent/prepare_instances.py:95-125 | the loop raises exactly on a record that is not an object, on a truthy non-string id when a filter is given, and on a truthy non-string repo of a record that passed the id and filter checks; records without id or repo, or rejected by the filter, are never emitted or reported missing; a selected record is emitted exactly when its mirror exists; emitted fields default `base_commit` to `HEAD` and `problem_statement` to `""`, `extra_fields.base_commit` equals `base_commit`, `repo_name` equals `extra_fields.repo_path` |
| Instances.ExitCode | tools/locbench_sweagent/prepare_instances.py:131-141 | 1 on an exception, 3 exactly when repos were recorded missing without `--skip-missing`, else 0 |
| Instances.Loop | tools/locbench_sweagent/prepare_instances.py:94-129 | the record loop from a given record on never goes back and never goes past the end of the dataset; its full contract is carried by the `Loop*` invariant lemmas |
| Instances.Run | tools/locbench_sweagent/prepare_instances.py:94-129 | the loop over the whole dataset scans at most every record; its full contract is `RunSpec` |
| Instances.LoopInstances | tools/locbench_sweagent/prepare_instances.py:94-129 | loop invariant: the instances written are the reference instances of the records scanned |
| Instances.LoopMissing | tools/locbench_sweagent/prepare_instances.py:105-109 | loop invariant: the slugs recorded missing are the reference slugs of the records scanned |
| Instances.LoopCrash | tools/locbench_sweagent/prepare_instances.py:94-129 | loop invariant: no scanned record raised, and an exception stops the loop at the raising record |
| Instances.LoopStops | tools/locbench_sweagent/prepare_instances.py:127-129 | the loop stops early only at an exception raised before the limit is reached, or with the limit reached by the last write |
| Instances.LoopHaltsFirst | tools/locbench_sweagent/prepare_instances.py:127-129 | no prefix the loop got past had already reached the limit: the loop stops right after the write that first reaches it |
| Instances.LoopBound | tools/locbench_sweagent/prepare_instances.py:127-129 | a positive limit is never exceeded; a negative limit allows one write |
| Instances.LoopFromStart | tools/locbench_sweagent/prepare_instances.py:88-129 | the loop invariants hold for the whole run: lists are the references of the scanned prefix; it stops only at the end, at an exception, or right after the write that first reaches the limit; it respects the limit |
| Instances.EmittedPrefix | tools/locbench_sweagent/prepare_instances.py:94-129 | the instances of a prefix of the dataset are a prefix of the instances of the dataset |
| Instances.RunSpec | tools/locbench_sweagent/prepare_instances.py:94-129 | written instances and missing slugs are those of the scanned records, in dataset order; an early stop without an exception is at the limit, and no shorter scanned prefix had reached it; the run raises exactly when a raising record comes before the limit is reached |
| Instances.StopsAtLimit | tools/locbench_sweagent/prepare_instances.py:127-129 | once reached, the limit stays reached |
| Instances.UnlimitedEmitsAll | tools/locbench_sweagent/prepare_instances.py:128 | a limit of `None` or `0` scans every record and writes every eligible one |
| Instances.PositiveLimitTruncates | tools/locbench_sweagent/prepare_instances.py:127-129 | with a positive limit and a run that raises nothing, the written instances are the eligible ones cut off at the limit, whatever records follow the limit |
| Instances.NegativeLimitStopsAtFirst | tools/locbench_sweagent/prepare_instances.py:128-129 | a negative limit writes at most the first eligible instance, whatever records follow it |
| Instances.SkipMissingNeverRecords | tools/locbench_sweagent/prepare_instances.py:105-107 | with `--skip-missing` nothing is recorded missing and the exit code is 0 unless an exception escaped |
| Instances.MissingSlugsNonEmpty | tools/locbench_sweagent/prepare_instances.py:105-109 | the missing list is non-empty exactly when some record's mirror was reported missing |
| Instances.ExitCodeThreeIffMissing | tools/locbench_sweagent/prepare_instances.py:131-141 | when no exception escapes and without `--skip-missing`, the exit code is 3 exactly when a scanned selected record's mirror is missing, else 0 |
| Instances.EmittedFromRecords | tools/locbench_sweagent/prepare_instances.py:94-126 | every reference instance is the verdict of one record |
| Instances.WrittenInstancesAreSelected | tools/locbench_sweagent/prepare_instances.py:95-126 | every written instance comes from a scanned record with an id, accepted by the filter, with a repo whose mirror exists |
| Instances.PrepareInstances | tools/locbench_sweagent/prepare_instances.py:88-141 | exit code in {0, 1, 3}; at most `limit` instances for a positive limit; every base commit non-empty; never 3 with `--skip-missing` |

## Left out

- `load_jsonl`, argument parsing, the checks that the input directories exist (exit code 2), `mkdir`, opening and writing files, `print`, and the sorted `rglob` listing. This is I/O. Records, transcripts and the benchmark map are inputs to the model.
- `json.loads` and `json.dumps`. Decoding is the `Decoder` parameter; serialisation and ASCII escaping are not modelled. JSON numbers are reals, so NaN and the infinities are absent.
- The `--filter` regex. Its `search` is a parameter. Building it from the option string (`re.compile`, empty string meaning no filter) is not modelled.
- `--image-name`. It is copied through unchanged and does not affect selection, so `Instance` has no field for it.
- The missing-payload counter and its warning, and the missing-repos message text (first ten slugs). These are diagnostics with no effect on output records or exit codes.
- `Instances.PathText`: pathlib's joining is not modelled. `str(repo_root / name)` is taken as `root + "/" + name`, with no normalisation of `.` components or trailing separators.
- `Trajectories.Step`: a response is modelled as absent or a string. A missing, `null` or falsy response (`0`, `false`, `[]`, `{}`) behaves like `Step(None)`: the walk reads it as `""` through `or ""`, and the fallback drops it through `if raw_response`. A truthy non-string response, or a step that is not an object, makes Python raise only when the backward walk reaches that step; steps older than the selected one are never read. Such transcripts are not modelled.
- `Trajectories.ConvertTranscript`: the `trajectory` value is modelled only as a list of steps. A missing value reads as `[]`, and `{}` and `""` act like `[]`. `null`, a number or a boolean makes `reversed` raise. A non-empty string or object is walked as its characters or keys, whose `.get` raises. A transcript that is not an object raises at `.get`. None of these is modelled.
- `Trajectories.ConvertAll`: the benchmark map is given. Building it, where a later record with the same id wins and non-object records raise, is not modelled. Neither is the exit code 3 for a directory with no transcripts.
- `Extractor.TryLoadJson`: only a decode error is modelled as failure (`None`). Other exceptions of `json.loads` are not caught by `_try_load_json` and end the run; examples are a `RecursionError` on deeply nested input and the `ValueError` on integer literals past CPython's digit limit. The oracle's `None` conflates these with a decode error.
- Lone surrogates: `json.loads` accepts escapes such as `"\ud800"` and puts the unpaired surrogate into the `str`. A Dafny `char` cannot hold one, so responses, ids and other strings holding them are not representable in this model.
- `Trajectories.BuildMeta`: the result is a map, so the insertion order of the keys in the written JSON is not modelled.
