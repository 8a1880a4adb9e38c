/**
 * The `contiguous` subcommand (contiguous.rs:34-77): query a fixed run of
 * `num` heights from `start` on, with no reference to local coverage, and
 * hand the query file to the copier.
 */
module Contiguous {
  import opened Outcomes
  import opened Codec
  import opened Planner
  import opened Copier
  import opened Batch

  /**
   * A whole run: the query file is emptied, the heights `start..start+num`
   * (upper bound excluded, in 64-bit `usize`) are written, and the copier's
   * reply decides the outcome.
   */
  function ContiguousRun(prev: seq<string>, bucket: string, network: string, start: U64, num: U64, reply: CopierReply): (r: Finish)
    ensures r.status.Panic? <==> start + num >= U64Limit
    ensures r.status.Panic? ==> r.status.site == Overflow && r.queryFile == [] && r.printed == []
    ensures !r.status.Panic? ==> |r.queryFile| == num
    ensures !r.status.Panic? ==> forall i :: 0 <= i < |r.queryFile| ==> r.queryFile[i] == Pattern(bucket, network, start + i)
    ensures r.status.Err? <==> !r.status.Panic? && reply.Failed?
  {
    var end := ContiguousEnd(start, num);
    if !end.Ok? then Finish(Forward(end), [], [])
    else Download(RangePatterns(bucket, network, start, end.value), reply)
  }

  /** contiguous.rs:47-74 as the program runs it. */
  method ContiguousMain(ws: Workspace, bucket: string, network: string, start: U64, num: U64, reply: CopierReply)
    returns (status: Outcome<()>)
    modifies ws
    ensures var f := ContiguousRun(old(ws.queryFile), bucket, network, start, num, reply);
      status == f.status && ws.queryFile == f.queryFile && ws.stdout == old(ws.stdout) + f.printed
  {
    ws.Truncate();
    var end := ContiguousEnd(start, num);
    if !end.Ok? {
      return Forward(end);
    }
    ws.WriteHeights(bucket, network, start, end.value);
    if reply.Failed? {
      return Err(CopierFailed);
    }
    ws.PrintCopied(reply.stderr);
    status := Ok(());
  }

  // ------------------------------------------------------------------ lemmas

  /**
   * Heights that fit in `u32` read back: line `i` of the query file is the
   * wildcard key at height `start + i`, so the file asks for exactly the
   * heights `start` to `start + num - 1`, each once, in order.
   */
  lemma ContiguousReadBack(prev: seq<string>, bucket: string, network: string, start: U64, num: U64, reply: CopierReply)
    requires '/' !in bucket && '-' !in network && '/' !in network
    requires start + num <= U32Limit
    ensures var f := ContiguousRun(prev, bucket, network, start, num, reply);
      |f.queryFile| == num &&
      (forall i :: 0 <= i < num ==> ParseQuery(f.queryFile[i]) == Ok(BlockQuery(start + i, "*", bucket, network))) &&
      (forall i, j :: 0 <= i < j < num ==> f.queryFile[i] != f.queryFile[j])
  {
    var f := ContiguousRun(prev, bucket, network, start, num, reply);
    assert f.queryFile == RangePatterns(bucket, network, start, start + num);
    forall i | 0 <= i < num ensures ParseQuery(f.queryFile[i]) == Ok(BlockQuery(start + i, "*", bucket, network)) {
      RangePatternsReadBack(bucket, network, start, start + num, i);
    }
    forall i, j | 0 <= i < j < num ensures f.queryFile[i] != f.queryFile[j] {
      RangePatternsDistinct(bucket, network, start, start + num, i, j);
    }
  }

  /** `--num 0` writes nothing and leaves the copier an empty query file. */
  lemma ContiguousEmpty(prev: seq<string>, bucket: string, network: string, start: U64, reply: CopierReply)
    ensures ContiguousRun(prev, bucket, network, start, 0, reply).queryFile == []
  {
  }

  /** A run prints exactly the copy reports of the copier's output, and only when it succeeds. */
  lemma ContiguousPrints(prev: seq<string>, bucket: string, network: string, start: U64, num: U64, reply: CopierReply)
    requires start + num < U64Limit
    ensures var f := ContiguousRun(prev, bucket, network, start, num, reply);
      (reply.Output? ==> f.status == Ok(()) && f.printed == CopiedLines(reply.stderr)) &&
      (reply.Failed? ==> f.status == Err(CopierFailed) && f.printed == [])
  {
  }
}
