/** The per-transcript part of the trajectory converter: pick the payload
    from the latest step that yields one, derive the three localisation
    lists, and assemble the output record with its metadata. */
module Trajectories {
  import opened Wrappers
  import opened Json
  import opened Strings
  import opened OrderedSets
  import opened Normalize
  import opened Extractor

  /** One transcript step; `response` is `None` when the key is missing or
      holds JSON `null`. */
  datatype Step = Step(response: Option<string>)

  /** `step.get("response") or ""`. */
  function ResponseText(step: Step): string {
    step.response.GetOr("")
  }

  /** The extraction of one step's response. */
  function StepPayload(parse: Decoder, step: Step): Option<Extraction> {
    ExtractJsonPayload(parse, ResponseText(step))
  }

  /** The extraction of every step, in order. */
  function Extractions(parse: Decoder, steps: seq<Step>): (r: seq<Option<Extraction>>)
    ensures |r| == |steps|
    ensures forall j :: 0 <= j < |steps| ==> r[j] == StepPayload(parse, steps[j])
  {
    seq(|steps|, j requires 0 <= j < |steps| => StepPayload(parse, steps[j]))
  }

  /** The step whose response yields a payload, walking from the last step
      back to the first: the latest such step, or none. */
  function LatestPayloadStep(parse: Decoder, steps: seq<Step>): (r: Option<nat>)
    ensures r.Some? ==> r.value < |steps|
    ensures r.Some? ==> StepPayload(parse, steps[r.value]).Some?
    ensures r.Some? ==> forall j :: r.value < j < |steps| ==> StepPayload(parse, steps[j]).None?
    ensures r.None? <==> forall j :: 0 <= j < |steps| ==> StepPayload(parse, steps[j]).None?
  {
    var results := Extractions(parse, steps);
    SearchBack(results, |results|)
  }

  /** The backward walk over the first `n` extraction results. */
  function SearchBack(results: seq<Option<Extraction>>, n: nat): (r: Option<nat>)
    requires n <= |results|
    ensures r.Some? ==> r.value < n && results[r.value].Some?
    ensures r.Some? ==> forall j :: r.value < j < n ==> results[j].None?
    ensures r.None? <==> forall j :: 0 <= j < n ==> results[j].None?
  {
    if n == 0 then None
    else if results[n - 1].Some? then Some(n - 1)
    else SearchBack(results, n - 1)
  }

  /** What the walk settles on: the payload (empty when no step yields one)
      and the raw text to record. */
  datatype Selection = Selection(payload: Obj, raw: Option<string>)

  /** The step walk in the converter's `main`: the latest parseable step's
      payload and whole response; otherwise an empty payload and the last
      step's response as stored, or `""` for a transcript with no steps. */
  function SelectPayload(parse: Decoder, steps: seq<Step>): (r: Selection)
    ensures r.raw.Some? && r.raw.value != [] ==> r.raw.value in RawTexts(steps)
  {
    match LatestPayloadStep(parse, steps)
    case Some(i) =>
      var text := ResponseText(steps[i]);
      Selection(StepPayload(parse, steps[i]).value.payload, Some(text))
    case None =>
      if steps == [] then Selection(map[], Some(""))
      else Selection(map[], steps[|steps| - 1].response)
  }

  /** The responses stored in the steps of a transcript, the empty one
      included when a step stores `""`. */
  function RawTexts(steps: seq<Step>): set<string> {
    set i | 0 <= i < |steps| && steps[i].response.Some? :: steps[i].response.value
  }

  /** The selected payload comes from the latest step whose response yields
      one; when none does, the payload is empty and the raw text is that of
      the last step (or `""` when there are no steps). */
  lemma SelectPayloadLatest(parse: Decoder, steps: seq<Step>)
    ensures var sel := SelectPayload(parse, steps);
            match LatestPayloadStep(parse, steps)
            case Some(i) =>
              && StepPayload(parse, steps[i]).Some?
              && sel.payload == StepPayload(parse, steps[i]).value.payload
              && sel.raw == Some(ResponseText(steps[i]))
              && ResponseText(steps[i]) != []
            case None =>
              && sel.payload == map[]
              && sel.raw == (if steps == [] then Some("") else steps[|steps| - 1].response)
  {
  }

  /** An older step's payload is still found when every later step fails:
      the walk covers every step, not just the last. */
  lemma OlderStepStillFound(parse: Decoder, steps: seq<Step>, i: nat)
    requires i < |steps|
    requires StepPayload(parse, steps[i]).Some?
    requires forall j :: i < j < |steps| ==> StepPayload(parse, steps[j]).None?
    ensures LatestPayloadStep(parse, steps) == Some(i)
  {
  }

  /** `build_meta(record)`: the loop over the five recognised keys. */
  function CopyKeys(record: Obj, keys: seq<string>, meta: Obj): (r: Obj)
    ensures forall k :: k in meta ==> k in r
    ensures forall k :: k in r ==> k in meta || k in keys
    decreases |keys|
  {
    if keys == [] then meta
    else if keys[0] in record then CopyKeys(record, keys[1..], meta[keys[0] := record[keys[0]]])
    else CopyKeys(record, keys[1..], meta)
  }

  /** The keys `build_meta` copies. */
  const MetaKeys: seq<string> := ["repo", "base_commit", "problem_statement", "patch", "test_patch"]

  /** The copy loop adds exactly the listed keys present in the record, with
      their values, to what was there. */
  lemma {:induction false} CopyKeysSpec(record: Obj, keys: seq<string>, meta: Obj)
    ensures var r := CopyKeys(record, keys, meta);
            forall k :: k in r <==> k in meta || (k in keys && k in record)
    ensures forall k :: k in CopyKeys(record, keys, meta) ==>
              CopyKeys(record, keys, meta)[k] == (if k in keys && k in record then record[k] else meta[k])
    decreases |keys|
  {
    if keys != [] {
      var next := if keys[0] in record then meta[keys[0] := record[keys[0]]] else meta;
      CopyKeysSpec(record, keys[1..], next);
      assert forall k :: k in keys <==> k == keys[0] || k in keys[1..];
    }
  }

  /** The metadata holds exactly the recognised keys the record has, with the
      record's values; no other key appears. */
  function BuildMeta(record: Obj): (meta: Obj)
    ensures forall k :: k in meta <==> k in record && k in MetaKeys
    ensures forall k :: k in meta ==> meta[k] == record[k]
  {
    CopyKeysSpec(record, MetaKeys, map[]);
    CopyKeys(record, MetaKeys, map[])
  }

  /** One output line of the converter. */
  datatype LocOutput = LocOutput(
    instanceId: string,
    foundFiles: seq<string>,
    foundModules: seq<string>,
    foundEntities: seq<string>,
    rawOutputLoc: seq<string>,
    metaData: Obj)

  /** The three lists after the cross-field derivation. */
  datatype Lists = Lists(files: seq<string>, modules: seq<string>, entities: seq<string>)

  /** The list derivation in the converter's `main`: each list from the
      payload's own field; files and modules fall back to what the entities
      imply when their own list comes out empty. Entities are never
      derived. */
  function DeriveLists(payload: Obj): (r: Lists)
    ensures NoDups(r.files) && NoDups(r.modules) && NoDups(r.entities)
    ensures r.entities == NormalizeList(Get(payload, "found_entities"))
    ensures NormalizeList(Get(payload, "found_files")) != [] ==> r.files == NormalizeList(Get(payload, "found_files"))
    ensures NormalizeList(Get(payload, "found_modules")) != [] ==> r.modules == NormalizeList(Get(payload, "found_modules"))
    ensures NormalizeList(Get(payload, "found_files")) == [] ==>
              r.files == NormalizeList(AsJsonList(EntityFiles(r.entities)))
    ensures NormalizeList(Get(payload, "found_modules")) == [] ==>
              r.modules == EntitiesToModules(r.entities)
  {
    var files := NormalizeList(Get(payload, "found_files"));
    var entities := NormalizeList(Get(payload, "found_entities"));
    var files' := if files == [] && entities != [] then NormalizeList(AsJsonList(EntityFiles(entities))) else files;
    var modules := NormalizeList(Get(payload, "found_modules"));
    var modules' := if modules == [] && entities != [] then EntitiesToModules(entities) else modules;
    assert entities == [] ==> EntityFiles(entities) == [] && EntitiesToModules(entities) == [];
    Lists(files', modules', entities)
  }

  /** A derived file is the stripped part before the first `:` of some
      entity of the payload. */
  lemma DerivedFilesComeFromEntities(payload: Obj, f: string)
    requires NormalizeList(Get(payload, "found_files")) == []
    requires f in DeriveLists(payload).files
    ensures exists e :: e in DeriveLists(payload).entities && ':' in e && Strip(BeforeFirst(e, ':')) == f
  {
    var entities := DeriveLists(payload).entities;
    var files := EntityFiles(entities);
    var items := Items(AsJsonList(files));
    var i :| 0 <= i < |items| && Contributes(items[i], f);
    assert items[i] == JStr(files[i]);
    EntityFilesMembers(entities);
    assert files[i] in files;
    var n :| 0 <= n < |entities| && ':' in entities[n] && BeforeFirst(entities[n], ':') == files[i];
    assert entities[n] in entities;
  }

  /** The converter's `main` for one transcript: the output record. */
  function ConvertTranscript(parse: Decoder, instanceId: string, record: Obj, steps: seq<Step>): (out: LocOutput)
    ensures out.instanceId == instanceId
    ensures out.metaData == BuildMeta(record)
    ensures NoDups(out.foundFiles) && NoDups(out.foundModules) && NoDups(out.foundEntities)
    ensures |out.rawOutputLoc| <= 1
    ensures forall x :: x in out.rawOutputLoc ==> x != [] && x in RawTexts(steps)
    ensures forall k :: k in out.metaData ==> k in MetaKeys && k in record && out.metaData[k] == record[k]
  {
    var sel := SelectPayload(parse, steps);
    var lists := DeriveLists(sel.payload);
    LocOutput(
      instanceId,
      lists.files,
      lists.modules,
      lists.entities,
      if sel.raw.Some? && sel.raw.value != [] then [sel.raw.value] else [],
      BuildMeta(record))
  }

  /** The output record is built from the latest step whose response yields
      a payload: its lists are those derived from that payload and its raw
      text is that step's response. When no step yields one, the lists are
      derived from an empty payload and the raw text is the last step's
      response, kept only when it is non-empty. */
  lemma ConvertTranscriptFromLatest(parse: Decoder, instanceId: string, record: Obj, steps: seq<Step>)
    ensures var out := ConvertTranscript(parse, instanceId, record, steps);
            match LatestPayloadStep(parse, steps)
            case Some(i) =>
              && Lists(out.foundFiles, out.foundModules, out.foundEntities)
                 == DeriveLists(StepPayload(parse, steps[i]).value.payload)
              && out.rawOutputLoc == [ResponseText(steps[i])]
            case None =>
              && Lists(out.foundFiles, out.foundModules, out.foundEntities) == DeriveLists(map[])
              && out.rawOutputLoc
                 == (if steps != [] && steps[|steps| - 1].response.Some? && steps[|steps| - 1].response.value != []
                     then [steps[|steps| - 1].response.value] else [])
  {
    SelectPayloadLatest(parse, steps);
  }

  /** With no step yielding a payload, every list is empty. */
  lemma NoPayloadEmptyLists(parse: Decoder, instanceId: string, record: Obj, steps: seq<Step>)
    requires forall j :: 0 <= j < |steps| ==> StepPayload(parse, steps[j]).None?
    ensures var out := ConvertTranscript(parse, instanceId, record, steps);
            out.foundFiles == [] && out.foundModules == [] && out.foundEntities == []
  {
  }

  /** A transcript file as the converter sees it: its stem, and its steps, or
      `None` when the file is not valid JSON. */
  datatype TrajFile = TrajFile(stem: string, steps: Option<seq<Step>>)

  /** The converter turns this transcript into an output line: its stem
      names a benchmark record and its JSON decodes. */
  predicate Qualifies(bench: map<string, Obj>, f: TrajFile) {
    f.stem in bench && f.steps.Some?
  }

  /** The transcripts the converter turns into output lines, in directory
      order. */
  function Convertible(bench: map<string, Obj>, files: seq<TrajFile>): (r: seq<TrajFile>)
    ensures |r| <= |files|
    ensures forall k :: 0 <= k < |r| ==> r[k].stem in bench && r[k].steps.Some?
    ensures (forall k :: 0 <= k < |files| ==> Qualifies(bench, files[k])) ==> r == files
  {
    if files == [] then []
    else
      var rest := Convertible(bench, files[1..]);
      assert forall k :: 0 < k < |files| ==> files[k] == files[1..][k - 1];
      if Qualifies(bench, files[0]) then [files[0]] + rest
      else rest
  }

  /** The filter keeps every qualifying transcript as often as it occurs and
      nothing else. */
  lemma {:induction false} ConvertibleMembers(bench: map<string, Obj>, files: seq<TrajFile>)
    ensures forall f :: f in Convertible(bench, files) <==> f in files && Qualifies(bench, f)
    ensures forall f :: Qualifies(bench, f) ==> multiset(Convertible(bench, files))[f] == multiset(files)[f]
  {
    if files != [] {
      ConvertibleMembers(bench, files[1..]);
      assert files == [files[0]] + files[1..];
    }
  }

  /** The filter keeps the directory order: what it keeps from a first part
      of the listing comes before what it keeps from the rest. */
  lemma {:induction false} ConvertibleAppend(bench: map<string, Obj>, xs: seq<TrajFile>, ys: seq<TrajFile>)
    ensures Convertible(bench, xs + ys) == Convertible(bench, xs) + Convertible(bench, ys)
  {
    if xs == [] {
      assert xs + ys == ys;
    } else {
      assert (xs + ys)[0] == xs[0];
      assert (xs + ys)[1..] == xs[1..] + ys;
      ConvertibleAppend(bench, xs[1..], ys);
    }
  }

  /** The converter's loop over the transcript files: one output line per
      convertible transcript, in order, each the conversion of that
      transcript with its benchmark record; others are skipped silently. */
  function ConvertAll(parse: Decoder, bench: map<string, Obj>, files: seq<TrajFile>): (r: seq<LocOutput>)
    ensures |r| == |Convertible(bench, files)| <= |files|
    ensures forall k :: 0 <= k < |r| ==>
              r[k] == ConvertTranscript(parse, Convertible(bench, files)[k].stem,
                                        bench[Convertible(bench, files)[k].stem],
                                        Convertible(bench, files)[k].steps.value)
    ensures forall k :: 0 <= k < |r| ==> r[k].instanceId in bench
    ensures forall k :: 0 <= k < |r| ==> r[k].metaData == BuildMeta(bench[r[k].instanceId])
    ensures (forall k :: 0 <= k < |files| ==> files[k].stem in bench && files[k].steps.Some?) ==> |r| == |files|
  {
    var chosen := Convertible(bench, files);
    seq(|chosen|, k requires 0 <= k < |chosen| =>
      var f := chosen[k];
      ConvertTranscript(parse, f.stem, bench[f.stem], f.steps.value))
  }
}
