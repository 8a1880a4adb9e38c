/**
 * The `new_only` subcommand (new_only.rs:46-228): one run that works out
 * which block heights are new since the local maximum, writes their
 * queries to the query file and hands the file to the copier.
 *
 * Which path a run takes depends on `--skip-ls-file` and on whether the ls
 * file and the query file exist:
 *   - range path: query every height from a start chosen by `--buffer`,
 *     `--start` or `--strict` up to an estimate of the network's height;
 *   - listing path: list the whole bucket, keep the keys from ten below
 *     the local maximum upward, and query exactly those.
 */
module NewOnly {
  import opened Outcomes
  import opened Text
  import opened Codec
  import opened Sorting
  import opened Planner
  import opened Coverage
  import opened Listing
  import opened Copier
  import opened Batch

  /** The command-line flags that reach the core. */
  datatype NewArgs = NewArgs(
    buffer: U32,
    start: Option<U32>,
    strict: bool,
    bucket: string,
    network: string,
    skipLsFile: bool)

  /** What `gsutil ls` leaves in the ls file, or a failure to run it or read it back. */
  datatype ListingReply = Listed(text: string) | LsFailed

  /**
   * What a run sees of the world: the local block files, which of the two
   * files exist, the minutes since the newest local block was created
   * (after the `as u32` cast), the bucket listing and the copier's reply.
   */
  datatype Environment = Environment(
    files: seq<BlockFile>,
    lsFileExists: bool,
    queryFileExists: bool,
    minutes: U32,
    listing: ListingReply,
    copier: CopierReply)

  /** The test at new_only.rs:110 (`&&` binds tighter than `||`). */
  predicate UsesRange(args: NewArgs, env: Environment) {
    args.skipLsFile || (env.lsFileExists && env.queryFileExists)
  }

  /** The query file lines of the listing path: one `to_string` per kept key (new_only.rs:194). */
  function Rendered(keys: seq<BlockQuery>): (r: seq<string>)
    ensures |r| == |keys|
    ensures forall i :: 0 <= i < |r| ==> r[i] == Render(keys[i])
  {
    if keys == [] then []
    else Rendered(keys[..|keys| - 1]) + [Render(keys[|keys| - 1])]
  }

  /** Read back with `from_str`, every rendered line gives its key again. */
  lemma RenderedReadBack(keys: seq<BlockQuery>)
    requires forall k :: 0 <= k < |keys| ==> WellFormed(keys[k])
    ensures forall i :: 0 <= i < |keys| ==> ParseQuery(Rendered(keys)[i]) == Ok(keys[i])
  {
    forall i | 0 <= i < |keys| ensures ParseQuery(Rendered(keys)[i]) == Ok(keys[i]) {
      ParseRender(keys[i]);
    }
  }

  /**
   * The range path (new_only.rs:117-151) once the local maximum is known:
   * the ls file must open; the query file is then emptied; the last height
   * and the first height are computed in `u32`; the batch is every height
   * from the first to the last, both included.
   */
  function RangeStage(policy: Policy, args: NewArgs, env: Environment, ourMax: U32, prev: seq<string>): (r: Finish)
    ensures r.printed == []
    ensures r.status.Err? <==> !env.lsFileExists
    ensures r.status.Err? ==> r.status.error == LsFileMissing && r.queryFile == prev
    ensures r.status.Panic? ==> r.status.site == Overflow && r.queryFile == []
    ensures r.status.Ok? ==> ourMax + env.minutes / 3 + 1 < U32Limit
    ensures r.status.Ok? && r.queryFile != [] ==>
      r.queryFile[|r.queryFile| - 1] == Pattern(args.bucket, args.network, ourMax + env.minutes / 3 + 1)
  {
    if !env.lsFileExists then Finish(Err(LsFileMissing), prev, [])
    else
      var end := NewOnlyEnd(ourMax, env.minutes);
      if !end.Ok? then Finish(Forward(end), [], [])
      else
        StartBeforeEndOverflow(policy, ourMax, args.buffer, env.minutes);
        var start := NewOnlyStart(policy, ourMax, args.buffer).value;
        Finish(Ok(()), RangePatterns(args.bucket, args.network, start, end.value + 1), [])
  }

  /**
   * The listing path (new_only.rs:157-195): the listing must have been
   * produced and read; a line that makes `from_str` panic ends the run
   * before the query file is touched; the query file is then emptied and
   * the kept keys are written, the `our_max - 10` underflow striking on the
   * first key tested.
   */
  function ListingStage(env: Environment, ourMax: U32, prev: seq<string>): (r: Finish)
    ensures r.printed == []
    ensures r.status.Err? <==> env.listing.LsFailed?
    ensures r.status.Err? ==> r.status.error == ListingFailed && r.queryFile == prev
    ensures r.status.Panic? && r.status.site == Underflow ==> r.queryFile == []
    ensures r.status.Panic? && r.status.site != Underflow ==> ParseSite(r.status.site) && r.queryFile == prev
    ensures r.status.Ok? ==>
      env.listing.Listed? && ListingKeys(Lines(env.listing.text), ourMax).Ok? &&
      r.queryFile == Rendered(ListingKeys(Lines(env.listing.text), ourMax).value)
  {
    match env.listing
    case LsFailed => Finish(Err(ListingFailed), prev, [])
    case Listed(text) =>
      var parsed := ParseListing(Lines(text));
      if !parsed.Ok? then Finish(Forward(parsed), prev, [])
      else
        var kept := KeptKeys(parsed.value, ourMax);
        if !kept.Ok? then Finish(Forward(kept), [], [])
        else Finish(Ok(()), Rendered(kept.value), [])
  }

  /**
   * Everything before the download: the flag check, the local maximum
   * (new_only.rs:59-90), then one of the two paths. A run that stops here
   * either leaves the query file as it was or has emptied it.
   */
  function Prepare(args: NewArgs, env: Environment, prev: seq<string>): (r: Finish)
    ensures r.printed == []
    ensures !r.status.Ok? ==> r.queryFile == prev || r.queryFile == []
  {
    var policy := SelectPolicy(args.strict, args.start);
    if !policy.Ok? then Finish(Forward(policy), prev, [])
    else
      var ourMax := NewOnlyMaxLength(env.files);
      if !ourMax.Ok? then Finish(Forward(ourMax), prev, [])
      else if UsesRange(args, env) then RangeStage(policy.value, args, env, ourMax.value, prev)
      else ListingStage(env, ourMax.value, prev)
  }

  /**
   * A whole run: prepare the batch, then download it. Only a run that
   * succeeds prints anything, and what it prints are copy reports.
   */
  function NewOnlyRun(args: NewArgs, env: Environment, prev: seq<string>): (r: Finish)
    ensures r.printed != [] ==> r.status == Ok(())
    ensures forall i :: 0 <= i < |r.printed| ==> StartsWith(r.printed[i], CopyingTag)
    ensures r.status.Ok? ==> Prepare(args, env, prev).status.Ok? && env.copier.Output?
  {
    var p := Prepare(args, env, prev);
    if !p.status.Ok? then p else Download(p.queryFile, env.copier)
  }

  /** The range path as the program runs it (new_only.rs:117-151). */
  method RangePath(ws: Workspace, policy: Policy, args: NewArgs, env: Environment, ourMax: U32) returns (status: Outcome<()>)
    modifies ws
    ensures var f := RangeStage(policy, args, env, ourMax, old(ws.queryFile));
      status == f.status && ws.queryFile == f.queryFile && ws.stdout == old(ws.stdout)
  {
    if !env.lsFileExists {
      return Err(LsFileMissing);
    }
    ws.Truncate();
    var end := NewOnlyEnd(ourMax, env.minutes);
    if !end.Ok? {
      return Forward(end);
    }
    StartBeforeEndOverflow(policy, ourMax, args.buffer, env.minutes);
    var start := NewOnlyStart(policy, ourMax, args.buffer).value;
    var hi: nat := end.value as int + 1;
    ws.WriteHeights(args.bucket, args.network, start, hi);
    status := Ok(());
  }

  /** The listing path as the program runs it (new_only.rs:174-195). */
  method ListingPath(ws: Workspace, env: Environment, ourMax: U32) returns (status: Outcome<()>)
    modifies ws
    ensures var f := ListingStage(env, ourMax, old(ws.queryFile));
      status == f.status && ws.queryFile == f.queryFile && ws.stdout == old(ws.stdout)
  {
    if env.listing.LsFailed? {
      return Err(ListingFailed);
    }
    var parsed := ParseListing(Lines(env.listing.text));
    if !parsed.Ok? {
      return Forward(parsed);
    }
    ws.Truncate();
    var kept := KeptKeys(parsed.value, ourMax);
    if !kept.Ok? {
      return Forward(kept);
    }
    var keys := kept.value;
    for i := 0 to |keys|
      invariant ws.queryFile == Rendered(keys[..i])
      invariant ws.stdout == old(ws.stdout)
    {
      assert keys[..i + 1][..i] == keys[..i];
      ws.WriteLine(Render(keys[i]));
    }
    assert keys[..|keys|] == keys;
    status := Ok(());
  }

  /**
   * new_only.rs:46-218 as the program runs it: check the flags, find the
   * local maximum, empty and fill the query file on one of the two paths,
   * then print the copy reports of the copier's output.
   */
  method NewOnlyMain(ws: Workspace, args: NewArgs, env: Environment) returns (status: Outcome<()>)
    modifies ws
    ensures var f := NewOnlyRun(args, env, old(ws.queryFile));
      status == f.status && ws.queryFile == f.queryFile && ws.stdout == old(ws.stdout) + f.printed
  {
    var policy := SelectPolicy(args.strict, args.start);
    if !policy.Ok? {
      return Forward(policy);
    }
    var ourMax := NewOnlyMaxLength(env.files);
    if !ourMax.Ok? {
      return Forward(ourMax);
    }
    var stage: Outcome<()>;
    if args.skipLsFile || (env.lsFileExists && env.queryFileExists) {
      stage := RangePath(ws, policy.value, args, env, ourMax.value);
    } else {
      stage := ListingPath(ws, env, ourMax.value);
    }
    if !stage.Ok? {
      return stage;
    }
    if env.copier.Failed? {
      return Err(CopierFailed);
    }
    ws.PrintCopied(env.copier.stderr);
    status := Ok(());
  }

  // ------------------------------------------------------------------ lemmas

  /** `--strict` with `--start` panics before anything is read or written. */
  lemma ConflictingFlagsPanic(args: NewArgs, env: Environment, prev: seq<string>)
    requires args.strict && args.start.Some?
    ensures NewOnlyRun(args, env, prev) == Finish(Panic(ConflictingFlags), prev, [])
  {
  }

  /** With no local block files the `.last().unwrap()` panics, whatever else holds. */
  lemma EmptyBlockDirPanics(args: NewArgs, env: Environment, prev: seq<string>)
    requires !(args.strict && args.start.Some?)
    requires env.files == []
    ensures NewOnlyRun(args, env, prev) == Finish(Panic(EmptyBlockDir), prev, [])
  {
  }

  /** `--skip-ls-file` without an ls file is an error that leaves the query file alone. */
  lemma SkipWithoutLsFile(args: NewArgs, env: Environment, prev: seq<string>)
    requires !(args.strict && args.start.Some?)
    requires NewOnlyMaxLength(env.files).Ok?
    requires args.skipLsFile && !env.lsFileExists
    ensures NewOnlyRun(args, env, prev) == Finish(Err(LsFileMissing), prev, [])
  {
  }

  /**
   * The range path with the default policy queries every height from
   * `max(2, our_max - buffer)` (2 when the buffer exceeds the maximum) up to
   * `our_max + minutes / 3 + 1`, and nothing else; it succeeds exactly when
   * that last height fits in `u32`.
   */
  lemma BufferedRange(args: NewArgs, env: Environment, prev: seq<string>, ourMax: U32)
    requires args.start.None? && !args.strict
    requires NewOnlyMaxLength(env.files) == Ok(ourMax)
    requires UsesRange(args, env) && env.lsFileExists
    ensures var p := Prepare(args, env, prev);
      var lo := if ourMax >= args.buffer then Max(Floor, ourMax - args.buffer) else Floor;
      var hi := ourMax + env.minutes / 3 + 1;
      (p.status.Ok? <==> hi < U32Limit) &&
      (p.status.Ok? ==>
        (forall h :: lo <= h <= hi ==> Pattern(args.bucket, args.network, h) in p.queryFile) &&
        (forall line :: line in p.queryFile ==> exists h :: lo <= h <= hi && line == Pattern(args.bucket, args.network, h)))
  {
    var lo := if ourMax >= args.buffer then Max(Floor, ourMax - args.buffer) else Floor;
    var hi := ourMax + env.minutes / 3 + 1;
    BufferedBatch(args, env, prev, ourMax);
    RangePatternsCover(args.bucket, args.network, lo, hi + 1);
  }

  /** The buffered batch is the range from the buffered start to the estimate, both included. */
  lemma BufferedBatch(args: NewArgs, env: Environment, prev: seq<string>, ourMax: U32)
    requires args.start.None? && !args.strict
    requires NewOnlyMaxLength(env.files) == Ok(ourMax)
    requires UsesRange(args, env) && env.lsFileExists
    ensures var p := Prepare(args, env, prev);
      var lo := if ourMax >= args.buffer then Max(Floor, ourMax - args.buffer) else Floor;
      var hi := ourMax + env.minutes / 3 + 1;
      (p.status.Ok? <==> hi < U32Limit) &&
      (p.status.Ok? ==> p.queryFile == RangePatterns(args.bucket, args.network, lo, hi + 1))
  {
    assert Prepare(args, env, prev) == RangeStage(Buffered, args, env, ourMax, prev);
  }

  /**
   * The range path with `--start s` queries the heights `s` to
   * `our_max + minutes / 3 + 1` in ascending order, one line each, and
   * none when `s` is above that.
   */
  lemma ExplicitStartRange(args: NewArgs, env: Environment, prev: seq<string>, ourMax: U32, s: U32)
    requires args.start == Some(s) && !args.strict
    requires NewOnlyMaxLength(env.files) == Ok(ourMax)
    requires UsesRange(args, env) && env.lsFileExists
    requires ourMax + env.minutes / 3 + 1 < U32Limit
    ensures var p := Prepare(args, env, prev);
      var hi := ourMax + env.minutes / 3 + 1;
      p.status.Ok? &&
      |p.queryFile| == (if s <= hi then hi + 1 - s else 0) &&
      forall i :: 0 <= i < |p.queryFile| ==> p.queryFile[i] == Pattern(args.bucket, args.network, s + i)
  {
  }

  /**
   * With `--strict` the batch is every height from `max(2, our_max + 1)` to
   * `our_max + minutes / 3 + 1`, both included, in ascending order; it
   * succeeds exactly when that last height fits in `u32`.
   */
  lemma StrictBatch(args: NewArgs, env: Environment, prev: seq<string>, ourMax: U32)
    requires args.strict && args.start.None?
    requires NewOnlyMaxLength(env.files) == Ok(ourMax)
    requires UsesRange(args, env) && env.lsFileExists
    ensures var p := Prepare(args, env, prev);
      var hi := ourMax + env.minutes / 3 + 1;
      (p.status.Ok? <==> hi < U32Limit) &&
      (p.status.Ok? ==> p.queryFile == RangePatterns(args.bucket, args.network, Max(Floor, ourMax + 1), hi + 1))
  {
    assert Prepare(args, env, prev) == RangeStage(Strict, args, env, ourMax, prev);
  }

  /**
   * `--strict` never asks again for a height at or below any local block:
   * read back, every line of the batch is a wildcard key above every local
   * height (when names and paths agree). It succeeds exactly when
   * `our_max + minutes / 3 + 1` fits in `u32`.
   */
  lemma StrictQueriesAboveLocal(args: NewArgs, env: Environment, prev: seq<string>)
    requires args.strict && args.start.None?
    requires '/' !in args.bucket && '-' !in args.network && '/' !in args.network
    requires env.files != [] && NamesAgree(env.files)
    requires UsesRange(args, env) && env.lsFileExists
    ensures var p := Prepare(args, env, prev);
      var ourMax := NewOnlyMaxLength(env.files).value;
      (p.status.Ok? <==> ourMax + env.minutes / 3 + 1 < U32Limit) &&
      (p.status.Ok? ==> forall i :: 0 <= i < |p.queryFile| ==>
        ParseQuery(p.queryFile[i]).Ok? && ParseQuery(p.queryFile[i]).value.stateHash == "*" &&
        forall k :: 0 <= k < |env.files| ==> env.files[k].length.value < ParseQuery(p.queryFile[i]).value.length)
  {
    var p := Prepare(args, env, prev);
    var ourMax := NewOnlyMaxLength(env.files).value;
    if p.status.Ok? {
      var start := NewOnlyStart(Strict, ourMax, args.buffer).value;
      var hi: nat := ourMax + env.minutes / 3 + 2;
      assert p.queryFile == RangePatterns(args.bucket, args.network, start, hi);
      StrictBatchAbove(args.bucket, args.network, ourMax, start, hi);
    }
  }

  /** Every line of a batch that starts above `ourMax` reads back as a wildcard key above `ourMax`. */
  lemma StrictBatchAbove(bucket: string, network: string, ourMax: nat, start: nat, hi: nat)
    requires '/' !in bucket && '-' !in network && '/' !in network
    requires ourMax < start && hi <= U32Limit
    ensures var b := RangePatterns(bucket, network, start, hi);
      forall i :: 0 <= i < |b| ==>
        ParseQuery(b[i]).Ok? && ParseQuery(b[i]).value.stateHash == "*" && ourMax < ParseQuery(b[i]).value.length
  {
    var b := RangePatterns(bucket, network, start, hi);
    forall i | 0 <= i < |b|
      ensures ParseQuery(b[i]).Ok? && ParseQuery(b[i]).value.stateHash == "*" && ourMax < ParseQuery(b[i]).value.length
    {
      RangePatternsReadBack(bucket, network, start, hi, i);
    }
  }

  /**
   * The listing path writes exactly the keys `ListingKeys` keeps (sorted by
   * length, from `our_max - 10` upward, in listing order among equal
   * lengths), and each line reads back as its key.
   */
  lemma ListingWritesKeptKeys(args: NewArgs, env: Environment, prev: seq<string>, ourMax: U32)
    requires !(args.strict && args.start.Some?)
    requires NewOnlyMaxLength(env.files) == Ok(ourMax)
    requires !UsesRange(args, env) && env.listing.Listed?
    requires ourMax >= Margin
    requires ParseListing(Lines(env.listing.text)).Ok?
    ensures var p := Prepare(args, env, prev);
      var keys := ListingKeys(Lines(env.listing.text), ourMax);
      p.status.Ok? && keys.Ok? &&
      |p.queryFile| == |keys.value| &&
      forall i :: 0 <= i < |p.queryFile| ==> ParseQuery(p.queryFile[i]) == Ok(keys.value[i])
  {
    var lines := Lines(env.listing.text);
    ListingBatch(args, env, prev, ourMax);
    KeptWellFormed(lines, ourMax);
    RenderedReadBack(ListingKeys(lines, ourMax).value);
  }

  /** On the listing path, once the listing parses and clears the margin, the batch is the rendered kept keys. */
  lemma ListingBatch(args: NewArgs, env: Environment, prev: seq<string>, ourMax: U32)
    requires !(args.strict && args.start.Some?)
    requires NewOnlyMaxLength(env.files) == Ok(ourMax)
    requires !UsesRange(args, env) && env.listing.Listed?
    requires ourMax >= Margin
    requires ParseListing(Lines(env.listing.text)).Ok?
    ensures ListingKeys(Lines(env.listing.text), ourMax).Ok?
    ensures Prepare(args, env, prev) == Finish(Ok(()), Rendered(ListingKeys(Lines(env.listing.text), ourMax).value), [])
  {
    assert Prepare(args, env, prev) == ListingStage(env, ourMax, prev);
  }

  /** Every key the listing path keeps is well formed, since it is one of the parsed keys. */
  lemma KeptWellFormed(lines: seq<string>, ourMax: U32)
    requires ourMax >= Margin
    requires ParseListing(lines).Ok?
    ensures ListingKeys(lines, ourMax).Ok?
    ensures forall k :: 0 <= k < |ListingKeys(lines, ourMax).value| ==> WellFormed(ListingKeys(lines, ourMax).value[k])
  {
    var parsed := ParseListing(lines).value;
    assert ListingKeys(lines, ourMax) == KeptKeys(parsed, ourMax);
    KeptKeysValue(parsed, ourMax);
    SortThenSkipMembers(parsed, ourMax - Margin);
    FromWellFormed(KeptKeys(parsed, ourMax).value, parsed);
  }

  /** Keys drawn from well-formed keys are well formed. */
  lemma FromWellFormed(keys: seq<BlockQuery>, from: seq<BlockQuery>)
    requires forall q :: q in keys ==> q in from
    requires forall k :: 0 <= k < |from| ==> WellFormed(from[k])
    ensures forall k :: 0 <= k < |keys| ==> WellFormed(keys[k])
  {
    forall k | 0 <= k < |keys| ensures WellFormed(keys[k]) {
      assert keys[k] in from;
    }
  }

  /** The listing path ignores `--start`, `--strict` and `--buffer`. */
  lemma ListingIgnoresPolicy(args: NewArgs, env: Environment, prev: seq<string>)
    requires !(args.strict && args.start.Some?)
    requires !UsesRange(args, env)
    ensures NewOnlyRun(args, env, prev) == NewOnlyRun(args.(start := None, strict := false, buffer := 0), env, prev)
  {
  }

  /**
   * On the listing path a local maximum below 10 panics on `our_max - 10`
   * as soon as the listing holds a key, after the query file was emptied.
   */
  lemma ListingUnderflowPanics(args: NewArgs, env: Environment, prev: seq<string>, ourMax: U32)
    requires !(args.strict && args.start.Some?)
    requires NewOnlyMaxLength(env.files) == Ok(ourMax)
    requires !UsesRange(args, env) && env.listing.Listed?
    requires ourMax < Margin
    requires ParseListing(Lines(env.listing.text)).Ok? && ParseListing(Lines(env.listing.text)).value != []
    ensures NewOnlyRun(args, env, prev) == Finish(Panic(Underflow), [], [])
  {
    ListingUnderflows(Lines(env.listing.text), ourMax);
  }

  /**
   * Once the batch is written, the run's outcome is the copier's: a failed
   * copier is an error that prints nothing, and otherwise the run succeeds
   * and prints the copy reports, with the batch left in the query file.
   */
  lemma DownloadFollowsBatch(args: NewArgs, env: Environment, prev: seq<string>)
    requires Prepare(args, env, prev).status.Ok?
    ensures var f := NewOnlyRun(args, env, prev);
      f.queryFile == Prepare(args, env, prev).queryFile &&
      (env.copier.Failed? ==> f.status == Err(CopierFailed) && f.printed == []) &&
      (env.copier.Output? ==> f.status == Ok(()) && f.printed == CopiedLines(env.copier.stderr))
  {
  }
}
