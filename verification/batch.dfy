/**
 * Query materialization: the lines a cycle writes to the query file, and
 * the query file and standard output themselves, which every subcommand
 * truncates, appends to and prints to in place.
 */
module Batch {
  import opened Outcomes
  import opened Text
  import opened Codec
  import opened Copier

  /**
   * The wildcard lines for the heights `lo..hi` (upper bound excluded),
   * one per height, in ascending order; none when `lo >= hi`.
   */
  function RangePatterns(bucket: string, network: string, lo: nat, hi: nat): (r: seq<string>)
    ensures |r| == if lo <= hi then hi - lo else 0
    ensures forall i :: 0 <= i < |r| ==> r[i] == Pattern(bucket, network, lo + i)
    decreases if lo <= hi then hi - lo else 0
  {
    if hi <= lo then []
    else RangePatterns(bucket, network, lo, hi - 1) + [Pattern(bucket, network, hi - 1)]
  }

  /** No height is asked for twice in one batch. */
  lemma RangePatternsDistinct(bucket: string, network: string, lo: nat, hi: nat, i: nat, j: nat)
    requires i < j < |RangePatterns(bucket, network, lo, hi)|
    ensures RangePatterns(bucket, network, lo, hi)[i] != RangePatterns(bucket, network, lo, hi)[j]
  {
    var r := RangePatterns(bucket, network, lo, hi);
    if r[i] == r[j] {
      PatternInjective(bucket, network, lo + i, lo + j);
    }
  }

  /**
   * Read back with `MinaBlockQuery::from_str`, line `i` of a `u32` range is
   * the key at height `lo + i` with the wildcard hash: the batch lists the
   * heights of the range in ascending order.
   */
  lemma RangePatternsReadBack(bucket: string, network: string, lo: nat, hi: nat, i: nat)
    requires '/' !in bucket && '-' !in network && '/' !in network
    requires hi <= U32Limit
    requires i < |RangePatterns(bucket, network, lo, hi)|
    ensures ParseQuery(RangePatterns(bucket, network, lo, hi)[i]) == Ok(BlockQuery(lo + i, "*", bucket, network))
  {
    var line := RangePatterns(bucket, network, lo, hi)[i];
    assert line == Pattern(bucket, network, lo + i);
    PatternParses(bucket, network, lo + i);
  }

  /**
   * Every height of `lo..hi` has its line in the batch, and every line of
   * the batch is the line of such a height.
   */
  lemma RangePatternsCover(bucket: string, network: string, lo: nat, hi: nat)
    ensures forall h :: lo <= h < hi ==> Pattern(bucket, network, h) in RangePatterns(bucket, network, lo, hi)
    ensures forall line :: line in RangePatterns(bucket, network, lo, hi) ==>
      exists h :: lo <= h < hi && line == Pattern(bucket, network, h)
  {
    var r := RangePatterns(bucket, network, lo, hi);
    forall h | lo <= h < hi ensures Pattern(bucket, network, h) in r {
      assert r[h - lo] == Pattern(bucket, network, h);
    }
    forall line | line in r ensures exists h :: lo <= h < hi && line == Pattern(bucket, network, h) {
      var i :| 0 <= i < |r| && r[i] == line;
      assert line == Pattern(bucket, network, lo + i);
    }
  }

  /**
   * How a one-shot subcommand ends: its status, the query file it leaves,
   * and the lines it printed.
   */
  datatype Finish = Finish(status: Outcome<()>, queryFile: seq<string>, printed: seq<string>)

  /**
   * The download step once the query file holds `queryFile`: a failed
   * copier invocation is returned as an error with nothing printed;
   * otherwise the copy reports of its output are printed and the run
   * succeeds. The query file is not touched.
   */
  function Download(queryFile: seq<string>, reply: CopierReply): (r: Finish)
    ensures r.queryFile == queryFile
    ensures r.status.Ok? <==> reply.Output?
    ensures r.status.Err? ==> r.status.error == CopierFailed
    ensures !r.status.Panic?
    ensures forall i :: 0 <= i < |r.printed| ==> StartsWith(r.printed[i], CopyingTag)
    ensures reply.Output? ==> forall l :: l in r.printed <==> l in Split(reply.stderr, '\n') && StartsWith(l, CopyingTag)
    ensures reply.Failed? ==> r.printed == []
  {
    match reply
    case Failed => Finish(Err(CopierFailed), queryFile, [])
    case Output(text) => Finish(Ok(()), queryFile, CopiedLines(text))
  }

  /**
   * The environment a subcommand writes to: the query file's lines and the
   * lines printed on standard output.
   */
  class Workspace {
    var queryFile: seq<string>
    var stdout: seq<string>

    /** A workspace whose query file holds what an earlier run left in it, with nothing printed yet. */
    constructor (queryFile: seq<string>)
      ensures this.queryFile == queryFile && stdout == []
    {
      this.queryFile := queryFile;
      stdout := [];
    }

    /** `File::create` / `set_len(0)`: the query file is emptied. */
    method Truncate()
      modifies this
      ensures queryFile == [] && stdout == old(stdout)
    {
      queryFile := [];
    }

    /** `writeln!(query_file, ..)`. */
    method WriteLine(line: string)
      modifies this
      ensures queryFile == old(queryFile) + [line] && stdout == old(stdout)
    {
      queryFile := queryFile + [line];
    }

    /** `println!`. */
    method PrintLine(line: string)
      modifies this
      ensures stdout == old(stdout) + [line] && queryFile == old(queryFile)
    {
      stdout := stdout + [line];
    }

    /**
     * `for length in lo..hi { writeln!(query_file, "gs://{bucket}/{network}-{length}-*.json")? }`:
     * appends exactly the batch for `lo..hi`.
     */
    method WriteHeights(bucket: string, network: string, lo: nat, hi: nat)
      modifies this
      ensures queryFile == old(queryFile) + RangePatterns(bucket, network, lo, hi)
      ensures stdout == old(stdout)
    {
      if lo < hi {
        for h := lo to hi
          invariant queryFile == old(queryFile) + RangePatterns(bucket, network, lo, h)
          invariant stdout == old(stdout)
        {
          WriteLine(Pattern(bucket, network, h));
        }
      }
    }

    /**
     * `for line in output.split('\n').filter(|s| s.starts_with("Copying")) { println!("{line}") }`:
     * prints exactly the copy reports, in order.
     */
    method PrintCopied(output: string)
      modifies this
      ensures stdout == old(stdout) + CopiedLines(output)
      ensures queryFile == old(queryFile)
    {
      var lines := Split(output, '\n');
      for i := 0 to |lines|
        invariant stdout == old(stdout) + FilterCopying(lines[..i])
        invariant queryFile == old(queryFile)
      {
        assert lines[..i + 1][..i] == lines[..i];
        if StartsWith(lines[i], CopyingTag) {
          PrintLine(lines[i]);
        }
      }
      assert lines[..|lines|] == lines;
    }
  }
}
