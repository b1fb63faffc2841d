/** The instance builder: map each benchmark record to a batch instance,
    skipping or reporting records as the command-line options say, and
    decide the exit code. Repository existence and the `--filter` regex are
    parameters. */
module Instances {
  import opened Wrappers
  import opened Json

  /** `repo_slug.replace("/", "_")`: the directory name of a mirrored
      repository. */
  function RepoDirName(slug: string): (r: string)
    ensures |r| == |slug|
    ensures forall i :: 0 <= i < |slug| && slug[i] == '/' ==> r[i] == '_'
    ensures forall i :: 0 <= i < |slug| && slug[i] != '/' ==> r[i] == slug[i]
    ensures '/' !in r
  {
    if slug == [] then []
    else [if slug[0] == '/' then '_' else slug[0]] + RepoDirName(slug[1..])
  }

  /** Mapping an already-mapped name changes nothing. */
  lemma RepoDirNameIdempotent(slug: string)
    ensures RepoDirName(RepoDirName(slug)) == RepoDirName(slug)
  {
  }

  /** Without `_` in the slugs the mapping loses nothing: it is undone by
      turning every `_` back into `/`, and distinct slugs get distinct
      directories. */
  lemma RepoDirNameInjective(a: string, b: string)
    requires '_' !in a && '_' !in b
    requires RepoDirName(a) == RepoDirName(b)
    ensures a == b
  {
    assert |a| == |b|;
    forall i | 0 <= i < |a|
      ensures a[i] == b[i]
    {
      assert a[i] != '_' && b[i] != '_';
    }
  }

  /** With `_` allowed the mapping collides: `owner/name` and `owner_name`
      share one directory. */
  lemma RepoDirNameCollides(owner: string, name: string)
    ensures owner + ['/'] + name != owner + ['_'] + name
    ensures RepoDirName(owner + ['/'] + name) == RepoDirName(owner + ['_'] + name)
  {
    assert (owner + ['/'] + name)[|owner|] == '/';
    RepoDirNameConcat(owner + ['/'], name);
    RepoDirNameConcat(owner + ['_'], name);
    RepoDirNameConcat(owner, ['/']);
    RepoDirNameConcat(owner, ['_']);
  }

  /** The mapping works character by character, so it distributes over
      concatenation. */
  lemma RepoDirNameConcat(x: string, y: string)
    ensures RepoDirName(x + y) == RepoDirName(x) + RepoDirName(y)
  {
    var l := RepoDirName(x + y);
    var r := RepoDirName(x) + RepoDirName(y);
    forall i | 0 <= i < |l|
      ensures l[i] == r[i]
    {
      if i >= |x| {
        assert (x + y)[i] == y[i - |x|];
      } else {
        assert (x + y)[i] == x[i];
      }
    }
  }

  /** A mirror location: the root directory and the repository's directory
      name under it. */
  datatype RepoPath = RepoPath(root: string, dir: string)

  /** `str(repo_path)`. */
  function PathText(p: RepoPath): string {
    p.root + "/" + p.dir
  }

  /** `build_repo_path`: the mirror of `slug` under `root`; its last component
      is the slug with every `/` turned into `_`. */
  function BuildRepoPath(root: string, slug: string): (p: RepoPath)
    ensures p.root == root
    ensures |p.dir| == |slug| && '/' !in p.dir
    ensures forall i :: 0 <= i < |slug| ==> p.dir[i] == (if slug[i] == '/' then '_' else slug[i])
  {
    RepoPath(root, RepoDirName(slug))
  }

  /** The options the record loop reads. `filter` is the compiled `--filter`
      regex's `search`, present when the option is a non-empty string. */
  datatype Config = Config(
    filter: Option<string -> bool>,
    limit: Option<int>,
    skipMissing: bool,
    repoRoot: string)

  datatype ExtraFields = ExtraFields(repoSlug: string, repoPath: string, baseCommit: Json)

  /** One emitted batch instance (the image name, passed through from the
      command line, is not modelled). */
  datatype Instance = Instance(
    problemStatement: Json,
    instanceId: Json,
    repoName: string,
    baseCommit: Json,
    extra: ExtraFields)

  /** What the loop does with one record. `Crash` is an exception escaping
      `main`: a record that is not an object, a non-string id under a
      filter, or a non-string repo. */
  datatype Verdict = Skip | Crash | Missing(slug: string) | Emit(inst: Instance)

  /** `record.get(key)`, for a record that may not be an object. */
  function Field(rec: Json, key: string): Json
    requires rec.JObj?
  {
    Get(rec.fields, key)
  }

  /** The record passes the id, filter and repo checks. */
  predicate Selected(cfg: Config, rec: Json) {
    && rec.JObj?
    && IsTruthy(Field(rec, "instance_id"))
    && (cfg.filter.Some? ==> Field(rec, "instance_id").JStr? && cfg.filter.value(Field(rec, "instance_id").s))
    && Field(rec, "repo").JStr? && Field(rec, "repo").s != []
  }

  /** Where the record loop raises: `record.get` on a record that is not an
      object; the filter's `regex.search` on a truthy id that is not a
      string; `build_repo_path` on a truthy repo that is not a string, once
      the id and filter checks let the record through. */
  predicate Raises(cfg: Config, rec: Json) {
    || !rec.JObj?
    || (&& IsTruthy(Field(rec, "instance_id"))
        && cfg.filter.Some? && !Field(rec, "instance_id").JStr?)
    || (&& IsTruthy(Field(rec, "instance_id"))
        && (cfg.filter.Some? ==> cfg.filter.value(Field(rec, "instance_id").s))
        && IsTruthy(Field(rec, "repo")) && !Field(rec, "repo").JStr?)
  }

  /** The body of the record loop in `main` for one record: the id and
      filter checks, the repo check, the mirror lookup, and the instance
      built from the record. */
  function Classify(cfg: Config, onDisk: RepoPath -> bool, rec: Json): (v: Verdict)
    ensures !rec.JObj? ==> v.Crash?
    ensures v.Crash? <==> Raises(cfg, rec)
    ensures rec.JObj? && !IsTruthy(Field(rec, "instance_id")) ==> v.Skip?
    ensures rec.JObj? && !IsTruthy(Field(rec, "repo")) && !v.Crash? ==> v.Skip?
    ensures v.Emit? || v.Missing? ==> Selected(cfg, rec)
    ensures Selected(cfg, rec) ==>
              (onDisk(BuildRepoPath(cfg.repoRoot, Field(rec, "repo").s)) <==> v.Emit?)
    ensures v.Missing? <==>
              Selected(cfg, rec) && !cfg.skipMissing && !onDisk(BuildRepoPath(cfg.repoRoot, Field(rec, "repo").s))
    ensures v.Missing? ==> v.slug == Field(rec, "repo").s
    ensures v.Emit? ==>
              && v.inst.instanceId == Field(rec, "instance_id")
              && v.inst.baseCommit == OrElse(Field(rec, "base_commit"), JStr("HEAD"))
              && IsTruthy(v.inst.baseCommit)
              && v.inst.extra.baseCommit == v.inst.baseCommit
              && v.inst.problemStatement == OrElse(Field(rec, "problem_statement"), JStr(""))
              && v.inst.repoName == v.inst.extra.repoPath
              && v.inst.extra.repoSlug == Field(rec, "repo").s
              && v.inst.extra.repoPath == PathText(BuildRepoPath(cfg.repoRoot, Field(rec, "repo").s))
  {
    if !rec.JObj? then Crash
    else
      var id := Field(rec, "instance_id");
      if !IsTruthy(id) then Skip
      else if cfg.filter.Some? && !id.JStr? then Crash
      else if cfg.filter.Some? && !cfg.filter.value(id.s) then Skip
      else
        var repo := Field(rec, "repo");
        if !IsTruthy(repo) then Skip
        else if !repo.JStr? then Crash
        else
          var path := BuildRepoPath(cfg.repoRoot, repo.s);
          if !onDisk(path) then
            if cfg.skipMissing then Skip else Missing(repo.s)
          else
            var baseCommit := OrElse(Field(rec, "base_commit"), JStr("HEAD"));
            var text := PathText(path);
            Emit(Instance(
              OrElse(Field(rec, "problem_statement"), JStr("")),
              id,
              text,
              baseCommit,
              ExtraFields(repo.s, text, baseCommit)))
  }

  /** Reference definition: the instances the records yield, in dataset
      order, with no limit. */
  function Emitted(cfg: Config, onDisk: RepoPath -> bool, records: seq<Json>): seq<Instance> {
    if records == [] then []
    else
      var last := Classify(cfg, onDisk, records[|records| - 1]);
      Emitted(cfg, onDisk, records[..|records| - 1]) + (if last.Emit? then [last.inst] else [])
  }

  /** Reference definition: the slugs of the records whose mirror is missing,
      in dataset order. */
  function MissingSlugs(cfg: Config, onDisk: RepoPath -> bool, records: seq<Json>): seq<string> {
    if records == [] then []
    else
      var last := Classify(cfg, onDisk, records[|records| - 1]);
      MissingSlugs(cfg, onDisk, records[..|records| - 1]) + (if last.Missing? then [last.slug] else [])
  }

  /** `args.limit and count >= args.limit`: a limit of `None` or `0` never
      stops the loop; any other limit stops it once `count` reaches it. */
  predicate LimitReached(limit: Option<int>, count: nat) {
    limit.Some? && limit.value != 0 && count >= limit.value
  }

  /** The loop has stopped for the limit: some instance was written and the
      count reached the limit. */
  predicate Halted(limit: Option<int>, written: seq<Instance>) {
    written != [] && LimitReached(limit, |written|)
  }

  /** Where the loop ended: the instances written, the slugs recorded
      missing, how many records it got through, and whether an exception
      escaped at record `scanned`. */
  datatype Outcome = Outcome(instances: seq<Instance>, missing: seq<string>, scanned: nat, crashed: bool)

  /** The record loop in `main` from record `i` on; the limit is checked
      only right after an instance is written. */
  function Loop(cfg: Config, onDisk: RepoPath -> bool, records: seq<Json>, i: nat,
                instances: seq<Instance>, missing: seq<string>): (o: Outcome)
    requires i <= |records|
    ensures i <= o.scanned <= |records|
    decreases |records| - i
  {
    if i == |records| then Outcome(instances, missing, i, false)
    else
      match Classify(cfg, onDisk, records[i])
      case Crash => Outcome(instances, missing, i, true)
      case Skip => Loop(cfg, onDisk, records, i + 1, instances, missing)
      case Missing(slug) => Loop(cfg, onDisk, records, i + 1, instances, missing + [slug])
      case Emit(inst) =>
        if LimitReached(cfg.limit, |instances| + 1) then Outcome(instances + [inst], missing, i + 1, false)
        else Loop(cfg, onDisk, records, i + 1, instances + [inst], missing)
  }

  /** The record loop over the whole dataset. */
  function Run(cfg: Config, onDisk: RepoPath -> bool, records: seq<Json>): (o: Outcome)
    ensures o.scanned <= |records|
  {
    Loop(cfg, onDisk, records, 0, [], [])
  }

  /** The exit-code decision at the end of `main`: 3 when repos were
      recorded missing without `--skip-missing`, 0 otherwise; an escaped
      exception exits with 1. */
  function ExitCode(cfg: Config, o: Outcome): (code: int)
    ensures code in {0, 1, 3}
    ensures code == 1 <==> o.crashed
    ensures code == 3 <==> !o.crashed && o.missing != [] && !cfg.skipMissing
  {
    if o.crashed then 1
    else if o.missing != [] && !cfg.skipMissing then 3
    else 0
  }

  /** One record more at the back extends both reference lists by what its
      verdict contributes. */
  lemma ReferenceSnoc(cfg: Config, onDisk: RepoPath -> bool, records: seq<Json>, i: nat)
    requires i < |records|
    ensures var v := Classify(cfg, onDisk, records[i]);
            && Emitted(cfg, onDisk, records[..i + 1]) == Emitted(cfg, onDisk, records[..i]) + (if v.Emit? then [v.inst] else [])
            && MissingSlugs(cfg, onDisk, records[..i + 1]) == MissingSlugs(cfg, onDisk, records[..i]) + (if v.Missing? then [v.slug] else [])
  {
    assert records[..i + 1][..i] == records[..i];
  }

  /** Loop invariant, instances: the instances written so far are the
      reference list of the records scanned so far. */
  lemma {:induction false} LoopInstances(cfg: Config, onDisk: RepoPath -> bool, records: seq<Json>, i: nat,
                                    instances: seq<Instance>, missing: seq<string>)
    requires i <= |records|
    requires instances == Emitted(cfg, onDisk, records[..i])
    ensures Loop(cfg, onDisk, records, i, instances, missing).instances
            == Emitted(cfg, onDisk, records[..Loop(cfg, onDisk, records, i, instances, missing).scanned])
    decreases |records| - i
  {
    if i < |records| {
      ReferenceSnoc(cfg, onDisk, records, i);
      match Classify(cfg, onDisk, records[i])
      case Crash =>
      case Skip =>
        LoopInstances(cfg, onDisk, records, i + 1, instances, missing);
      case Missing(slug) =>
        LoopInstances(cfg, onDisk, records, i + 1, instances, missing + [slug]);
      case Emit(inst) =>
        if !LimitReached(cfg.limit, |instances| + 1) {
          LoopInstances(cfg, onDisk, records, i + 1, instances + [inst], missing);
        }
    } else {
      assert records[..i] == records;
    }
  }

  /** Loop invariant, missing slugs: the slugs recorded so far are the
      reference list of the records scanned so far. */
  lemma {:induction false} LoopMissing(cfg: Config, onDisk: RepoPath -> bool, records: seq<Json>, i: nat,
                                    instances: seq<Instance>, missing: seq<string>)
    requires i <= |records|
    requires missing == MissingSlugs(cfg, onDisk, records[..i])
    ensures Loop(cfg, onDisk, records, i, instances, missing).missing
            == MissingSlugs(cfg, onDisk, records[..Loop(cfg, onDisk, records, i, instances, missing).scanned])
    decreases |records| - i
  {
    if i < |records| {
      ReferenceSnoc(cfg, onDisk, records, i);
      match Classify(cfg, onDisk, records[i])
      case Crash =>
      case Skip =>
        LoopMissing(cfg, onDisk, records, i + 1, instances, missing);
      case Missing(slug) =>
        LoopMissing(cfg, onDisk, records, i + 1, instances, missing + [slug]);
      case Emit(inst) =>
        if !LimitReached(cfg.limit, |instances| + 1) {
          LoopMissing(cfg, onDisk, records, i + 1, instances + [inst], missing);
        }
    } else {
      assert records[..i] == records;
    }
  }

  /** Loop invariant, exceptions: no scanned record raised, and an exception
      stops the loop at the raising record. */
  lemma {:induction false} LoopCrash(cfg: Config, onDisk: RepoPath -> bool, records: seq<Json>, i: nat,
                                    instances: seq<Instance>, missing: seq<string>)
    requires i <= |records|
    ensures forall j :: i <= j < Loop(cfg, onDisk, records, i, instances, missing).scanned ==>
              !Classify(cfg, onDisk, records[j]).Crash?
    ensures Loop(cfg, onDisk, records, i, instances, missing).crashed ==>
              && Loop(cfg, onDisk, records, i, instances, missing).scanned < |records|
              && Classify(cfg, onDisk, records[Loop(cfg, onDisk, records, i, instances, missing).scanned]).Crash?
    decreases |records| - i
  {
    if i < |records| {
      match Classify(cfg, onDisk, records[i])
      case Crash =>
      case Skip =>
        LoopCrash(cfg, onDisk, records, i + 1, instances, missing);
      case Missing(slug) =>
        LoopCrash(cfg, onDisk, records, i + 1, instances, missing + [slug]);
      case Emit(inst) =>
        if !LimitReached(cfg.limit, |instances| + 1) {
          LoopCrash(cfg, onDisk, records, i + 1, instances + [inst], missing);
        }
    }
  }

  /** Loop invariant, stopping: the loop stops early only at an exception,
      which comes before the limit is reached, or right after the write that
      reached the limit. */
  lemma {:induction false} LoopStops(cfg: Config, onDisk: RepoPath -> bool, records: seq<Json>, i: nat,
                                    instances: seq<Instance>, missing: seq<string>)
    requires i <= |records|
    requires instances == [] || !LimitReached(cfg.limit, |instances|)
    ensures Loop(cfg, onDisk, records, i, instances, missing).crashed ==>
              !Halted(cfg.limit, Loop(cfg, onDisk, records, i, instances, missing).instances)
    ensures !Loop(cfg, onDisk, records, i, instances, missing).crashed
            && Loop(cfg, onDisk, records, i, instances, missing).scanned < |records| ==>
              Halted(cfg.limit, Loop(cfg, onDisk, records, i, instances, missing).instances)
    decreases |records| - i
  {
    if i < |records| {
      match Classify(cfg, onDisk, records[i])
      case Crash =>
      case Skip =>
        LoopStops(cfg, onDisk, records, i + 1, instances, missing);
      case Missing(slug) =>
        LoopStops(cfg, onDisk, records, i + 1, instances, missing + [slug]);
      case Emit(inst) =>
        if !LimitReached(cfg.limit, |instances| + 1) {
          LoopStops(cfg, onDisk, records, i + 1, instances + [inst], missing);
        }
    }
  }

  /** Loop invariant, first stop: the loop gets past every record before the
      one whose write first reaches the limit, so no shorter prefix it
      scanned had already halted it. */
  lemma {:induction false} LoopHaltsFirst(cfg: Config, onDisk: RepoPath -> bool, records: seq<Json>, i: nat,
                                    instances: seq<Instance>, missing: seq<string>)
    requires i <= |records|
    requires instances == Emitted(cfg, onDisk, records[..i])
    requires !Halted(cfg.limit, instances)
    ensures forall m :: i <= m < Loop(cfg, onDisk, records, i, instances, missing).scanned ==>
              !Halted(cfg.limit, Emitted(cfg, onDisk, records[..m]))
    decreases |records| - i
  {
    if i < |records| {
      ReferenceSnoc(cfg, onDisk, records, i);
      match Classify(cfg, onDisk, records[i])
      case Crash =>
      case Skip =>
        LoopHaltsFirst(cfg, onDisk, records, i + 1, instances, missing);
      case Missing(slug) =>
        LoopHaltsFirst(cfg, onDisk, records, i + 1, instances, missing + [slug]);
      case Emit(inst) =>
        if !LimitReached(cfg.limit, |instances| + 1) {
          LoopHaltsFirst(cfg, onDisk, records, i + 1, instances + [inst], missing);
        }
    }
  }

  /** Loop invariant, limit: a positive limit is never exceeded, and a
      negative one, already reached, allows just one more write. */
  lemma {:induction false} LoopBound(cfg: Config, onDisk: RepoPath -> bool, records: seq<Json>, i: nat,
                                    instances: seq<Instance>, missing: seq<string>)
    requires i <= |records|
    requires instances == [] || !LimitReached(cfg.limit, |instances|)
    ensures cfg.limit.Some? && cfg.limit.value > 0 ==>
              |Loop(cfg, onDisk, records, i, instances, missing).instances| <= cfg.limit.value
    ensures cfg.limit.Some? && cfg.limit.value < 0 ==>
              |Loop(cfg, onDisk, records, i, instances, missing).instances| <= |instances| + 1
    decreases |records| - i
  {
    if i < |records| {
      match Classify(cfg, onDisk, records[i])
      case Crash =>
      case Skip =>
        LoopBound(cfg, onDisk, records, i + 1, instances, missing);
      case Missing(slug) =>
        LoopBound(cfg, onDisk, records, i + 1, instances, missing + [slug]);
      case Emit(inst) =>
        if !LimitReached(cfg.limit, |instances| + 1) {
          LoopBound(cfg, onDisk, records, i + 1, instances + [inst], missing);
        }
    }
  }

  /** Both halves of the loop invariant from the start of the loop. */
  lemma LoopFromStart(cfg: Config, onDisk: RepoPath -> bool, records: seq<Json>)
    ensures Run(cfg, onDisk, records).instances == Emitted(cfg, onDisk, records[..Run(cfg, onDisk, records).scanned])
    ensures Run(cfg, onDisk, records).missing == MissingSlugs(cfg, onDisk, records[..Run(cfg, onDisk, records).scanned])
    ensures forall j :: 0 <= j < Run(cfg, onDisk, records).scanned ==> !Classify(cfg, onDisk, records[j]).Crash?
    ensures Run(cfg, onDisk, records).crashed ==>
              && Run(cfg, onDisk, records).scanned < |records|
              && Classify(cfg, onDisk, records[Run(cfg, onDisk, records).scanned]).Crash?
              && !Halted(cfg.limit, Run(cfg, onDisk, records).instances)
    ensures !Run(cfg, onDisk, records).crashed && Run(cfg, onDisk, records).scanned < |records| ==>
              Halted(cfg.limit, Run(cfg, onDisk, records).instances)
    ensures forall m :: 0 <= m < Run(cfg, onDisk, records).scanned ==>
              !Halted(cfg.limit, Emitted(cfg, onDisk, records[..m]))
    ensures cfg.limit.Some? && cfg.limit.value > 0 ==> |Run(cfg, onDisk, records).instances| <= cfg.limit.value
    ensures cfg.limit.Some? && cfg.limit.value < 0 ==> |Run(cfg, onDisk, records).instances| <= 1
  {
    assert records[..0] == [];
    LoopInstances(cfg, onDisk, records, 0, [], []);
    LoopMissing(cfg, onDisk, records, 0, [], []);
    LoopCrash(cfg, onDisk, records, 0, [], []);
    LoopStops(cfg, onDisk, records, 0, [], []);
    LoopHaltsFirst(cfg, onDisk, records, 0, [], []);
    LoopBound(cfg, onDisk, records, 0, [], []);
  }

  /** The reference list of a prefix is a prefix of the reference list. */
  lemma {:induction false} EmittedPrefix(cfg: Config, onDisk: RepoPath -> bool, records: seq<Json>, n: nat)
    requires n <= |records|
    ensures |Emitted(cfg, onDisk, records[..n])| <= |Emitted(cfg, onDisk, records)|
    ensures Emitted(cfg, onDisk, records[..n])
            == Emitted(cfg, onDisk, records)[..|Emitted(cfg, onDisk, records[..n])|]
    decreases |records|
  {
    if n == |records| {
      assert records[..n] == records;
    } else {
      var init := records[..|records| - 1];
      assert init[..n] == records[..n];
      EmittedPrefix(cfg, onDisk, init, n);
    }
  }

  /** The loop writes, in dataset order, the instances of the records it got
      through and records the missing slugs among them; every record before
      the stopping point was handled without an exception. */
  lemma RunSpec(cfg: Config, onDisk: RepoPath -> bool, records: seq<Json>)
    ensures Run(cfg, onDisk, records).instances == Emitted(cfg, onDisk, records[..Run(cfg, onDisk, records).scanned])
    ensures Run(cfg, onDisk, records).missing == MissingSlugs(cfg, onDisk, records[..Run(cfg, onDisk, records).scanned])
    ensures forall j :: 0 <= j < Run(cfg, onDisk, records).scanned ==> !Classify(cfg, onDisk, records[j]).Crash?
    ensures !Run(cfg, onDisk, records).crashed && Run(cfg, onDisk, records).scanned < |records| ==>
              Halted(cfg.limit, Run(cfg, onDisk, records).instances)
    ensures forall m :: 0 <= m < Run(cfg, onDisk, records).scanned ==>
              !Halted(cfg.limit, Emitted(cfg, onDisk, records[..m]))
    ensures Run(cfg, onDisk, records).crashed <==>
              exists j :: 0 <= j < |records| && Classify(cfg, onDisk, records[j]).Crash? &&
                (forall k :: 0 <= k < j ==> !Classify(cfg, onDisk, records[k]).Crash?) &&
                !Halted(cfg.limit, Emitted(cfg, onDisk, records[..j]))
  {
    LoopFromStart(cfg, onDisk, records);
    var o := Run(cfg, onDisk, records);
    if !o.crashed {
      forall j | 0 <= j < |records| && Classify(cfg, onDisk, records[j]).Crash? &&
                 (forall k :: 0 <= k < j ==> !Classify(cfg, onDisk, records[k]).Crash?)
        ensures Halted(cfg.limit, Emitted(cfg, onDisk, records[..j]))
      {
        assert o.scanned <= j;
        StopsAtLimit(cfg, onDisk, records, o.scanned, j);
      }
    }
  }

  /** Once the limit is reached it stays reached: later records only add
      instances. */
  lemma StopsAtLimit(cfg: Config, onDisk: RepoPath -> bool, records: seq<Json>, m: nat, j: nat)
    requires m <= j <= |records|
    requires Halted(cfg.limit, Emitted(cfg, onDisk, records[..m]))
    ensures Halted(cfg.limit, Emitted(cfg, onDisk, records[..j]))
  {
    EmittedPrefix(cfg, onDisk, records[..j], m);
    assert records[..j][..m] == records[..m];
  }

  /** With a limit of `None` or `0` and no record raising, every record is
      scanned and every eligible one is written. */
  lemma UnlimitedEmitsAll(cfg: Config, onDisk: RepoPath -> bool, records: seq<Json>)
    requires cfg.limit.None? || cfg.limit == Some(0)
    requires forall j :: 0 <= j < |records| ==> !Classify(cfg, onDisk, records[j]).Crash?
    ensures !Run(cfg, onDisk, records).crashed
    ensures Run(cfg, onDisk, records).scanned == |records|
    ensures Run(cfg, onDisk, records).instances == Emitted(cfg, onDisk, records)
  {
    LoopFromStart(cfg, onDisk, records);
    assert records[..|records|] == records;
  }

  /** With a positive limit and a run that raises nothing, the instances
      written are the eligible records' instances cut off at the limit.
      Records past the limit are never read, so they may be anything. */
  lemma PositiveLimitTruncates(cfg: Config, onDisk: RepoPath -> bool, records: seq<Json>, limit: nat)
    requires cfg.limit == Some(limit) && limit > 0
    requires !Run(cfg, onDisk, records).crashed
    ensures |Run(cfg, onDisk, records).instances| <= limit
    ensures Run(cfg, onDisk, records).instances
            == Emitted(cfg, onDisk, records)[..Min(limit, |Emitted(cfg, onDisk, records)|)]
  {
    LoopFromStart(cfg, onDisk, records);
    var o := Run(cfg, onDisk, records);
    EmittedPrefix(cfg, onDisk, records, o.scanned);
    if o.scanned == |records| {
      assert records[..o.scanned] == records;
    }
  }

  /** A negative limit is truthy and already reached by one instance: the
      loop stops after the first write. */
  lemma NegativeLimitStopsAtFirst(cfg: Config, onDisk: RepoPath -> bool, records: seq<Json>)
    requires cfg.limit.Some? && cfg.limit.value < 0
    requires !Run(cfg, onDisk, records).crashed
    ensures Run(cfg, onDisk, records).instances == Emitted(cfg, onDisk, records)[..Min(1, |Emitted(cfg, onDisk, records)|)]
  {
    LoopFromStart(cfg, onDisk, records);
    var o := Run(cfg, onDisk, records);
    EmittedPrefix(cfg, onDisk, records, o.scanned);
    if o.scanned == |records| {
      assert records[..o.scanned] == records;
    }
  }

  function Min(a: int, b: int): int {
    if a <= b then a else b
  }

  /** With `--skip-missing` nothing is recorded missing, so the exit code is
      0 unless an exception escaped. */
  lemma {:induction false} SkipMissingNeverRecords(cfg: Config, onDisk: RepoPath -> bool, records: seq<Json>)
    requires cfg.skipMissing
    ensures MissingSlugs(cfg, onDisk, records) == []
    ensures Run(cfg, onDisk, records).missing == []
    ensures ExitCode(cfg, Run(cfg, onDisk, records)) == (if Run(cfg, onDisk, records).crashed then 1 else 0)
    decreases |records|
  {
    if records != [] {
      SkipMissingNeverRecords(cfg, onDisk, records[..|records| - 1]);
    }
    RunSpec(cfg, onDisk, records);
    var o := Run(cfg, onDisk, records);
    SkipMissingPrefix(cfg, onDisk, records, o.scanned);
  }

  lemma SkipMissingPrefix(cfg: Config, onDisk: RepoPath -> bool, records: seq<Json>, n: nat)
    requires cfg.skipMissing && n <= |records|
    ensures MissingSlugs(cfg, onDisk, records[..n]) == []
    decreases n
  {
    if n > 0 {
      SkipMissingPrefix(cfg, onDisk, records, n - 1);
      ReferenceSnoc(cfg, onDisk, records, n - 1);
    }
  }

  /** The reference missing list is non-empty exactly when some record's
      verdict is `Missing`. */
  lemma {:induction false} MissingSlugsNonEmpty(cfg: Config, onDisk: RepoPath -> bool, records: seq<Json>)
    ensures MissingSlugs(cfg, onDisk, records) != [] <==>
              exists j :: 0 <= j < |records| && Classify(cfg, onDisk, records[j]).Missing?
    decreases |records|
  {
    if records != [] {
      var init := records[..|records| - 1];
      MissingSlugsNonEmpty(cfg, onDisk, init);
      assert forall j :: 0 <= j < |init| ==> init[j] == records[j];
    }
  }

  /** Without `--skip-missing` and without an exception, the exit code is 3
      exactly when a scanned record passed every check but its mirror was
      missing, and 0 otherwise. */
  lemma ExitCodeThreeIffMissing(cfg: Config, onDisk: RepoPath -> bool, records: seq<Json>)
    requires !cfg.skipMissing
    requires !Run(cfg, onDisk, records).crashed
    ensures var o := Run(cfg, onDisk, records);
            ExitCode(cfg, o) in {0, 3}
    ensures ExitCode(cfg, Run(cfg, onDisk, records)) == 3 <==>
              exists j :: 0 <= j < Run(cfg, onDisk, records).scanned
                && Selected(cfg, records[j])
                && !onDisk(BuildRepoPath(cfg.repoRoot, Field(records[j], "repo").s))
  {
    RunSpec(cfg, onDisk, records);
    var o := Run(cfg, onDisk, records);
    var scanned := records[..o.scanned];
    MissingSlugsNonEmpty(cfg, onDisk, scanned);
    assert forall j :: 0 <= j < o.scanned ==> scanned[j] == records[j];
  }

  /** Every instance in the reference list is the verdict of one record. */
  lemma {:induction false} EmittedFromRecords(cfg: Config, onDisk: RepoPath -> bool, records: seq<Json>)
    ensures forall x :: x in Emitted(cfg, onDisk, records) ==>
              exists j :: 0 <= j < |records| && Classify(cfg, onDisk, records[j]) == Emit(x)
    decreases |records|
  {
    if records != [] {
      var init := records[..|records| - 1];
      EmittedFromRecords(cfg, onDisk, init);
      assert forall j :: 0 <= j < |init| ==> init[j] == records[j];
    }
  }

  /** Every written instance comes from a scanned record that has an id,
      passes the filter, names a repository and whose mirror exists; records
      failing any of these are never written. */
  lemma WrittenInstancesAreSelected(cfg: Config, onDisk: RepoPath -> bool, records: seq<Json>)
    ensures forall x :: x in Run(cfg, onDisk, records).instances ==>
              exists j :: 0 <= j < Run(cfg, onDisk, records).scanned
                && Selected(cfg, records[j])
                && onDisk(BuildRepoPath(cfg.repoRoot, Field(records[j], "repo").s))
                && x.instanceId == Field(records[j], "instance_id")
  {
    RunSpec(cfg, onDisk, records);
    var o := Run(cfg, onDisk, records);
    var scanned := records[..o.scanned];
    EmittedFromRecords(cfg, onDisk, scanned);
    assert forall j :: 0 <= j < o.scanned ==> scanned[j] == records[j];
  }

  /** What `main` returns after the loop, with the outcome it reached. */
  datatype Result = Result(outcome: Outcome, exitCode: int)

  /** `main` after the option parsing: the loop followed by the exit-code
      decision. */
  function PrepareInstances(cfg: Config, onDisk: RepoPath -> bool, records: seq<Json>): (r: Result)
    ensures r.exitCode in {0, 1, 3}
    ensures r.outcome.scanned <= |records|
    ensures cfg.limit.Some? && cfg.limit.value > 0 ==> |r.outcome.instances| <= cfg.limit.value
    ensures forall k :: 0 <= k < |r.outcome.instances| ==> IsTruthy(r.outcome.instances[k].baseCommit)
    ensures cfg.skipMissing ==> r.exitCode != 3
  {
    var o := Run(cfg, onDisk, records);
    LoopFromStart(cfg, onDisk, records);
    EmittedBaseCommits(cfg, onDisk, records[..o.scanned]);
    if cfg.skipMissing then
      SkipMissingNeverRecords(cfg, onDisk, records);
      Result(o, ExitCode(cfg, o))
    else
      Result(o, ExitCode(cfg, o))
  }

  /** Every instance the records yield has a non-empty base commit. */
  lemma {:induction false} EmittedBaseCommits(cfg: Config, onDisk: RepoPath -> bool, records: seq<Json>)
    ensures forall k :: 0 <= k < |Emitted(cfg, onDisk, records)| ==> IsTruthy(Emitted(cfg, onDisk, records)[k].baseCommit)
    decreases |records|
  {
    if records != [] {
      EmittedBaseCommits(cfg, onDisk, records[..|records| - 1]);
    }
  }
}
