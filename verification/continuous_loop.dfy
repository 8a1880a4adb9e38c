/**
 * The `loop` subcommand (continuous_loop.rs:40-151): a catch-up phase that
 * queries `additional` heights above the local maximum cycle after cycle
 * until the copier reports a `CommandException` (a height that does not
 * exist yet), then a maintenance phase that queries a lookahead derived
 * from the polling frequency, forever. Any cycle that fails ends the run.
 *
 * The run never ends on its own; here it is driven by a finite sequence of
 * per-cycle environments and stops when they run out.
 */
module ContinuousLoop {
  import opened Outcomes
  import opened Text
  import opened Codec
  import opened Planner
  import opened Coverage
  import opened Copier
  import opened Batch

  /** The flags that reach the core. */
  datatype LoopArgs = LoopArgs(
    frequency: U64,
    bucket: string,
    network: string,
    buffer: U32,
    additional: U32)

  /** What one cycle sees: the local block files and the copier's reply. */
  datatype CycleEnv = CycleEnv(files: seq<BlockFile>, reply: CopierReply)

  /** How one cycle ends: the copier's output or how it failed, the query file, the lines printed. */
  datatype CycleEnd = CycleEnd(status: Outcome<string>, queryFile: seq<string>, printed: seq<string>)

  /**
   * One `read_current_blocks_and_query` (continuous_loop.rs:98-151): find the
   * local maximum, empty the query file, write the heights from
   * `max(2, max - buffer)` to `max + additional`, run the copier, print its
   * copy reports and return its output.
   */
  function CycleRun(prev: seq<string>, env: CycleEnv, bucket: string, network: string, buffer: U32, additional: U32): (r: CycleEnd)
    ensures r.status.Err? ==> r.status.error == CopierFailed && r.printed == []
    ensures r.status.Panic? ==>
      r.printed == [] &&
      ((r.status.site == UnreadableLength && r.queryFile == prev) || (r.status.site == Overflow && r.queryFile == []))
    ensures r.status.Ok? ==> env.reply == Output(r.status.value) && r.printed == CopiedLines(r.status.value)
    ensures r.status.Ok? || r.status.Err? ==>
      LoopMaxHeight(env.files).Ok? &&
      LoopMaxHeight(env.files).value + additional < U32Limit &&
      r.queryFile == RangePatterns(bucket, network, LoopStart(LoopMaxHeight(env.files).value, buffer),
        LoopMaxHeight(env.files).value + additional + 1)
  {
    var max := LoopMaxHeight(env.files);
    if !max.Ok? then CycleEnd(Forward(max), prev, [])
    else
      var end := LoopEnd(max.value, additional);
      if !end.Ok? then CycleEnd(Forward(end), [], [])
      else
        var batch := RangePatterns(bucket, network, LoopStart(max.value, buffer), end.value + 1);
        match env.reply
        case Failed => CycleEnd(Err(CopierFailed), batch, [])
        case Output(text) => CycleEnd(Ok(text), batch, CopiedLines(text))
  }

  /** The two phases of a run. */
  datatype Phase = CatchingUp | Maintaining

  /**
   * How a run ends: a cycle failed (its number, counting from 1, and how it
   * failed), or the environments ran out after `cycles` cycles.
   */
  datatype Stop =
    | Halted(phase: Phase, cycles: nat, failure: Outcome<string>)
    | Exhausted(phase: Phase, cycles: nat)

  /** How a run ends, with the query file and standard output it leaves. */
  datatype Trace = Trace(stop: Stop, queryFile: seq<string>, stdout: seq<string>)

  /**
   * The catch-up phase from cycle `k` on (continuous_loop.rs:57-78): run a
   * cycle with `additional`; a failure ends the run; an output with a
   * `CommandException` line moves on to maintenance; any other output
   * repeats.
   */
  function CatchUp(args: LoopArgs, envs: seq<CycleEnv>, k: nat, file: seq<string>, out: seq<string>): (t: Trace)
    ensures out <= t.stdout
    decreases |envs| - k, 1
  {
    if k >= |envs| then Trace(Exhausted(CatchingUp, k), file, out)
    else
      var c := CycleRun(file, envs[k], args.bucket, args.network, args.buffer, args.additional);
      if !c.status.Ok? then Trace(Halted(CatchingUp, k + 1, c.status), c.queryFile, out + c.printed)
      else if HasCommandException(c.status.value) then Maintain(args, envs, k + 1, c.queryFile, out + c.printed)
      else CatchUp(args, envs, k + 1, c.queryFile, out + c.printed)
  }

  /**
   * The maintenance phase from cycle `k` on (continuous_loop.rs:84-95): run
   * a cycle with the lookahead `frequency as u32 / 3 + 1`; a failure ends
   * the run; otherwise repeat.
   */
  function Maintain(args: LoopArgs, envs: seq<CycleEnv>, k: nat, file: seq<string>, out: seq<string>): (t: Trace)
    ensures out <= t.stdout
    decreases |envs| - k, 0
  {
    if k >= |envs| then Trace(Exhausted(Maintaining, k), file, out)
    else
      var c := CycleRun(file, envs[k], args.bucket, args.network, args.buffer, MaintenanceLookahead(args.frequency));
      if !c.status.Ok? then Trace(Halted(Maintaining, k + 1, c.status), c.queryFile, out + c.printed)
      else Maintain(args, envs, k + 1, c.queryFile, out + c.printed)
  }

  /** One cycle as the program runs it (continuous_loop.rs:98-151). */
  method Cycle(ws: Workspace, env: CycleEnv, bucket: string, network: string, buffer: U32, additional: U32)
    returns (status: Outcome<string>)
    modifies ws
    ensures var c := CycleRun(old(ws.queryFile), env, bucket, network, buffer, additional);
      status == c.status && ws.queryFile == c.queryFile && ws.stdout == old(ws.stdout) + c.printed
  {
    var max := LoopMaxHeight(env.files);
    if !max.Ok? {
      return Forward(max);
    }
    ws.Truncate();
    var start := LoopStart(max.value, buffer);
    var end := LoopEnd(max.value, additional);
    if !end.Ok? {
      return Forward(end);
    }
    var hi: nat := end.value as int + 1;
    ws.WriteHeights(bucket, network, start, hi);
    if env.reply.Failed? {
      return Err(CopierFailed);
    }
    ws.PrintCopied(env.reply.stderr);
    status := Ok(env.reply.stderr);
  }

  /**
   * A whole run as the program runs it (continuous_loop.rs:40-96): the
   * first cycle, the catch-up loop, then the maintenance loop; each cycle
   * takes the next environment.
   */
  method Run(ws: Workspace, args: LoopArgs, envs: seq<CycleEnv>) returns (stop: Stop)
    modifies ws
    ensures var t := CatchUp(args, envs, 0, old(ws.queryFile), old(ws.stdout));
      stop == t.stop && ws.queryFile == t.queryFile && ws.stdout == t.stdout
  {
    ghost var spec := CatchUp(args, envs, 0, old(ws.queryFile), old(ws.stdout));
    if |envs| == 0 {
      return Exhausted(CatchingUp, 0);
    }
    var output := Cycle(ws, envs[0], args.bucket, args.network, args.buffer, args.additional);
    var k := 1;
    if !output.Ok? {
      return Halted(CatchingUp, k, output);
    }
    while !HasCommandException(output.value)
      invariant 1 <= k <= |envs|
      invariant output.Ok?
      invariant spec == if HasCommandException(output.value)
        then Maintain(args, envs, k, ws.queryFile, ws.stdout)
        else CatchUp(args, envs, k, ws.queryFile, ws.stdout)
      decreases |envs| - k
    {
      if k == |envs| {
        return Exhausted(CatchingUp, k);
      }
      output := Cycle(ws, envs[k], args.bucket, args.network, args.buffer, args.additional);
      k := k + 1;
      if !output.Ok? {
        return Halted(CatchingUp, k, output);
      }
    }
    var lookahead := MaintenanceLookahead(args.frequency);
    while true
      invariant k <= |envs|
      invariant spec == Maintain(args, envs, k, ws.queryFile, ws.stdout)
      decreases |envs| - k
    {
      if k == |envs| {
        return Exhausted(Maintaining, k);
      }
      var status := Cycle(ws, envs[k], args.bucket, args.network, args.buffer, lookahead);
      k := k + 1;
      if !status.Ok? {
        return Halted(Maintaining, k, status);
      }
    }
  }

  // ------------------------------------------------------------------ lemmas

  /**
   * A cycle whose heights are readable and do not overflow queries every
   * height from `max(2, max - buffer)` up to `max + additional`, and no
   * other line.
   */
  lemma CycleCoversWindow(prev: seq<string>, env: CycleEnv, bucket: string, network: string, buffer: U32, additional: U32)
    requires AllReadable(env.files)
    requires env.files != [] ==> LoopMaxHeight(env.files).value + additional < U32Limit
    ensures var c := CycleRun(prev, env, bucket, network, buffer, additional);
      var max := LoopMaxHeight(env.files).value;
      var lo := LoopStart(max, buffer);
      !c.status.Panic? &&
      (forall h :: lo <= h <= max + additional ==> Pattern(bucket, network, h) in c.queryFile) &&
      (forall line :: line in c.queryFile ==> exists h :: lo <= h <= max + additional && line == Pattern(bucket, network, h))
  {
    var max := LoopMaxHeight(env.files).value;
    CycleBatch(prev, env, bucket, network, buffer, additional);
    RangePatternsCover(bucket, network, LoopStart(max, buffer), max + additional + 1);
  }

  /** The catch-up cycles always reach past the local maximum by `additional`, so a nonzero `additional` always asks for a new height. */
  lemma CycleReachesAbove(prev: seq<string>, env: CycleEnv, bucket: string, network: string, buffer: U32, additional: U32)
    requires additional > 0
    requires LoopMaxHeight(env.files).Ok? && LoopMaxHeight(env.files).value + additional < U32Limit
    requires LoopMaxHeight(env.files).value + additional >= Floor
    ensures var c := CycleRun(prev, env, bucket, network, buffer, additional);
      var max := LoopMaxHeight(env.files).value;
      !c.status.Panic? &&
      c.queryFile != [] &&
      c.queryFile[|c.queryFile| - 1] == Pattern(bucket, network, max + additional) &&
      forall k :: 0 <= k < |env.files| && env.files[k].length.Some? ==> env.files[k].length.value < max + additional
  {
    var max := LoopMaxHeight(env.files).value;
    var lo := LoopStart(max, buffer);
    CycleBatch(prev, env, bucket, network, buffer, additional);
    var batch := RangePatterns(bucket, network, lo, max + additional + 1);
    assert lo <= max + additional;
    assert batch[|batch| - 1] == Pattern(bucket, network, lo + (|batch| - 1));
  }

  /** A cycle whose local maximum is readable and whose end fits in `u32` writes the whole window and does not panic. */
  lemma CycleBatch(prev: seq<string>, env: CycleEnv, bucket: string, network: string, buffer: U32, additional: U32)
    requires LoopMaxHeight(env.files).Ok? && LoopMaxHeight(env.files).value + additional < U32Limit
    ensures !CycleRun(prev, env, bucket, network, buffer, additional).status.Panic?
    ensures CycleRun(prev, env, bucket, network, buffer, additional).queryFile ==
      RangePatterns(bucket, network, LoopStart(LoopMaxHeight(env.files).value, buffer), LoopMaxHeight(env.files).value + additional + 1)
  {
  }

  /**
   * The catch-up phase ends after the first cycle whose output has a
   * `CommandException` line: from there on every cycle is a maintenance
   * cycle.
   */
  lemma CatchUpEndsOnException(args: LoopArgs, envs: seq<CycleEnv>, k: nat, file: seq<string>, out: seq<string>)
    requires k < |envs|
    requires var c := CycleRun(file, envs[k], args.bucket, args.network, args.buffer, args.additional);
      c.status.Ok? && HasCommandException(c.status.value)
    ensures var c := CycleRun(file, envs[k], args.bucket, args.network, args.buffer, args.additional);
      CatchUp(args, envs, k, file, out) == Maintain(args, envs, k + 1, c.queryFile, out + c.printed)
  {
  }

  /**
   * While the outputs have no `CommandException` line, the run stays in the
   * catch-up phase: if the first `n` cycles succeed without one and the
   * environments end there, the run ends in catch-up after `n` cycles.
   */
  lemma {:induction false} CatchUpWithoutException(args: LoopArgs, envs: seq<CycleEnv>, k: nat, file: seq<string>, out: seq<string>)
    requires k <= |envs|
    requires forall j :: k <= j < |envs| ==> envs[j].reply.Output? && !HasCommandException(envs[j].reply.stderr)
    requires forall j :: k <= j < |envs| ==>
      AllReadable(envs[j].files) && LoopMaxHeight(envs[j].files).value + args.additional < U32Limit
    ensures CatchUp(args, envs, k, file, out).stop == Exhausted(CatchingUp, |envs|)
    decreases |envs| - k
  {
    if k < |envs| {
      var c := CycleRun(file, envs[k], args.bucket, args.network, args.buffer, args.additional);
      assert LoopMaxHeight(envs[k].files).Ok?;
      assert c.status == Ok(envs[k].reply.stderr);
      CatchUpWithoutException(args, envs, k + 1, c.queryFile, out + c.printed);
    }
  }

  /**
   * Every line a run adds to standard output is a copy report, whatever
   * the environments: the catch-up and maintenance phases print nothing
   * else.
   */
  lemma {:induction false} CatchUpPrintsCopies(args: LoopArgs, envs: seq<CycleEnv>, k: nat, file: seq<string>, out: seq<string>)
    ensures forall i :: |out| <= i < |CatchUp(args, envs, k, file, out).stdout| ==>
      StartsWith(CatchUp(args, envs, k, file, out).stdout[i], CopyingTag)
    decreases |envs| - k, 1
  {
    if k < |envs| {
      var c := CycleRun(file, envs[k], args.bucket, args.network, args.buffer, args.additional);
      PrintedAreCopies(c);
      if c.status.Ok? {
        if HasCommandException(c.status.value) {
          MaintainPrintsCopies(args, envs, k + 1, c.queryFile, out + c.printed);
          CopiesAfter(out, c.printed, Maintain(args, envs, k + 1, c.queryFile, out + c.printed).stdout);
        } else {
          CatchUpPrintsCopies(args, envs, k + 1, c.queryFile, out + c.printed);
          CopiesAfter(out, c.printed, CatchUp(args, envs, k + 1, c.queryFile, out + c.printed).stdout);
        }
      }
    }
  }

  lemma {:induction false} MaintainPrintsCopies(args: LoopArgs, envs: seq<CycleEnv>, k: nat, file: seq<string>, out: seq<string>)
    ensures forall i :: |out| <= i < |Maintain(args, envs, k, file, out).stdout| ==>
      StartsWith(Maintain(args, envs, k, file, out).stdout[i], CopyingTag)
    decreases |envs| - k, 0
  {
    if k < |envs| {
      var c := CycleRun(file, envs[k], args.bucket, args.network, args.buffer, MaintenanceLookahead(args.frequency));
      PrintedAreCopies(c);
      if c.status.Ok? {
        MaintainPrintsCopies(args, envs, k + 1, c.queryFile, out + c.printed);
        CopiesAfter(out, c.printed, Maintain(args, envs, k + 1, c.queryFile, out + c.printed).stdout);
      }
    }
  }

  /** Copy reports printed after `out` followed by more copy reports are copy reports after `out`. */
  lemma CopiesAfter(out: seq<string>, printed: seq<string>, stdout: seq<string>)
    requires out + printed <= stdout
    requires forall i :: 0 <= i < |printed| ==> StartsWith(printed[i], CopyingTag)
    requires forall i :: |out + printed| <= i < |stdout| ==> StartsWith(stdout[i], CopyingTag)
    ensures forall i :: |out| <= i < |stdout| ==> StartsWith(stdout[i], CopyingTag)
  {
    forall i | |out| <= i < |out + printed| ensures StartsWith(stdout[i], CopyingTag) {
      assert stdout[i] == stdout[..|out + printed|][i] == printed[i - |out|];
    }
  }

  /** A cycle prints only copy reports. */
  lemma PrintedAreCopies(c: CycleEnd)
    requires c.status.Ok? ==> c.printed == CopiedLines(c.status.value)
    requires !c.status.Ok? ==> c.printed == []
    ensures forall i :: 0 <= i < |c.printed| ==> StartsWith(c.printed[i], CopyingTag)
  {
  }

  /**
   * A maintenance run whose cycles all succeed never stops before the
   * environments run out.
   */
  lemma {:induction false} MaintainRunsOn(args: LoopArgs, envs: seq<CycleEnv>, k: nat, file: seq<string>, out: seq<string>)
    requires k <= |envs|
    requires forall j :: k <= j < |envs| ==>
      envs[j].reply.Output? && AllReadable(envs[j].files) && LoopMaxHeight(envs[j].files).value + MaintenanceLookahead(args.frequency) < U32Limit
    ensures Maintain(args, envs, k, file, out).stop == Exhausted(Maintaining, |envs|)
    decreases |envs| - k
  {
    if k < |envs| {
      var c := CycleRun(file, envs[k], args.bucket, args.network, args.buffer, MaintenanceLookahead(args.frequency));
      assert LoopMaxHeight(envs[k].files).Ok?;
      assert c.status.Ok?;
      MaintainRunsOn(args, envs, k + 1, c.queryFile, out + c.printed);
    }
  }

  /** A failed catch-up cycle ends the run with its status (the `?` at continuous_loop.rs:63 and 76). */
  lemma CatchUpHaltsOnFailure(args: LoopArgs, envs: seq<CycleEnv>, k: nat, file: seq<string>, out: seq<string>)
    requires k < |envs|
    requires !CycleRun(file, envs[k], args.bucket, args.network, args.buffer, args.additional).status.Ok?
    ensures var c := CycleRun(file, envs[k], args.bucket, args.network, args.buffer, args.additional);
      CatchUp(args, envs, k, file, out) == Trace(Halted(CatchingUp, k + 1, c.status), c.queryFile, out + c.printed)
  {
  }

  /** A failed maintenance cycle ends the run with its status (the `?` at continuous_loop.rs:92). */
  lemma MaintainHaltsOnFailure(args: LoopArgs, envs: seq<CycleEnv>, k: nat, file: seq<string>, out: seq<string>)
    requires k < |envs|
    requires !CycleRun(file, envs[k], args.bucket, args.network, args.buffer, MaintenanceLookahead(args.frequency)).status.Ok?
    ensures var c := CycleRun(file, envs[k], args.bucket, args.network, args.buffer, MaintenanceLookahead(args.frequency));
      Maintain(args, envs, k, file, out) == Trace(Halted(Maintaining, k + 1, c.status), c.queryFile, out + c.printed)
  {
  }

  /**
   * How a run from cycle `k` stops: either a cycle failed, and the run
   * reports that failure and the number of that cycle, or every
   * environment was used.
   */
  lemma {:induction false} CatchUpStops(args: LoopArgs, envs: seq<CycleEnv>, k: nat, file: seq<string>, out: seq<string>)
    requires k <= |envs|
    ensures var t := CatchUp(args, envs, k, file, out);
      (t.stop.Halted? ==> !t.stop.failure.Ok? && k < t.stop.cycles <= |envs|) &&
      (t.stop.Exhausted? ==> t.stop.cycles == |envs|)
    decreases |envs| - k, 1
  {
    if k < |envs| {
      var c := CycleRun(file, envs[k], args.bucket, args.network, args.buffer, args.additional);
      if c.status.Ok? {
        if HasCommandException(c.status.value) {
          MaintainStops(args, envs, k + 1, c.queryFile, out + c.printed);
        } else {
          CatchUpStops(args, envs, k + 1, c.queryFile, out + c.printed);
        }
      }
    }
  }

  lemma {:induction false} MaintainStops(args: LoopArgs, envs: seq<CycleEnv>, k: nat, file: seq<string>, out: seq<string>)
    requires k <= |envs|
    ensures var t := Maintain(args, envs, k, file, out);
      t.stop.phase == Maintaining &&
      (t.stop.Halted? ==> !t.stop.failure.Ok? && k < t.stop.cycles <= |envs|) &&
      (t.stop.Exhausted? ==> t.stop.cycles == |envs|)
    decreases |envs| - k, 0
  {
    if k < |envs| {
      var c := CycleRun(file, envs[k], args.bucket, args.network, args.buffer, MaintenanceLookahead(args.frequency));
      if c.status.Ok? {
        MaintainStops(args, envs, k + 1, c.queryFile, out + c.printed);
      }
    }
  }

  /**
   * The query file `t` leaves holds the lookahead window of cycle `n`: the
   * heights from `max(2, max - buffer)` to `max + frequency / 3 + 1`
   * (continuous_loop.rs:91), where `max` is that cycle's local maximum.
   */
  predicate LeavesLookahead(args: LoopArgs, envs: seq<CycleEnv>, n: nat, t: Trace)
    requires n < |envs|
  {
    var max := LoopMaxHeight(envs[n].files);
    max.Ok? && max.value + MaintenanceLookahead(args.frequency) < U32Limit &&
    t.queryFile == RangePatterns(args.bucket, args.network, LoopStart(max.value, args.buffer),
      max.value + MaintenanceLookahead(args.frequency) + 1)
  }

  /**
   * A maintenance run whose last cycle reaches its copier (it ran out of
   * environments, or the copier failed) leaves that cycle's lookahead
   * window in the query file.
   */
  lemma {:induction false} MaintainQueriesLookahead(args: LoopArgs, envs: seq<CycleEnv>, k: nat, file: seq<string>, out: seq<string>)
    requires k < |envs|
    ensures var t := Maintain(args, envs, k, file, out);
      k < t.stop.cycles <= |envs| &&
      (t.stop.Exhausted? || (t.stop.Halted? && t.stop.failure.Err?) ==> LeavesLookahead(args, envs, t.stop.cycles - 1, t))
    decreases |envs| - k
  {
    var look := MaintenanceLookahead(args.frequency);
    var c := CycleRun(file, envs[k], args.bucket, args.network, args.buffer, look);
    var t := Maintain(args, envs, k, file, out);
    if !c.status.Ok? || k + 1 == |envs| {
      assert t.queryFile == c.queryFile && t.stop.cycles == k + 1 by {
        if c.status.Ok? {
          assert Maintain(args, envs, k + 1, c.queryFile, out + c.printed).queryFile == c.queryFile;
        }
      }
      if t.stop.Exhausted? || (t.stop.Halted? && t.stop.failure.Err?) {
        assert !c.status.Panic?;
        assert LeavesLookahead(args, envs, k, t);
      }
    } else {
      assert t == Maintain(args, envs, k + 1, c.queryFile, out + c.printed);
      MaintainQueriesLookahead(args, envs, k + 1, c.queryFile, out + c.printed);
    }
  }
}
