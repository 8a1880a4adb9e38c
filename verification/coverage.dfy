/**
 * Local coverage: the largest block height among the files already in the
 * blocks directory. Each subcommand computes it afresh on every run or
 * cycle from the directory listing; the listing itself (a `glob` over
 * `<dir>/<network>-*-*.json`) is an input here.
 */
module Coverage {
  import opened Outcomes
  import opened Sorting
  import opened Codec

  /**
   * One matched local file: its name and the height that the external
   * `blockchain::length_from_path` reads from its path (`None` when that
   * function fails).
   */
  datatype BlockFile = BlockFile(name: string, length: Option<U32>)

  /**
   * A file's height, 0 when it has none: the loop's sort key
   * `length_from_path(x).unwrap_or(0)` (continuous_loop.rs:112), and the
   * `new_only` sort key wherever that comparator does not panic.
   */
  function HeightOrZero(f: BlockFile): nat {
    f.length.GetOr(0)
  }

  predicate AllReadable(files: seq<BlockFile>) {
    forall i :: 0 <= i < |files| ==> files[i].length.Some?
  }

  /** Every file's name carries the same height as its path (`MinaMainnetBlock::from_str` agrees with `length_from_path`). */
  predicate NamesAgree(files: seq<BlockFile>) {
    forall i :: 0 <= i < |files| ==>
      files[i].length.Some? && ParseLocalLength(files[i].name) == Ok(files[i].length.value)
  }

  /**
   * continuous_loop.rs:107-116: sort by height (unreadable ones count as 0)
   * and take the height of the last file, 0 when there is none. The result
   * bounds every readable height; when all heights are readable it is their
   * maximum; it can only panic (the `unwrap` at line 116) when no file has a
   * readable height above 0.
   */
  function LoopMaxHeight(files: seq<BlockFile>): (r: Outcome<U32>)
    ensures files == [] ==> r == Ok(0)
    ensures r.Ok? ==> forall i :: 0 <= i < |files| && files[i].length.Some? ==> files[i].length.value <= r.value
    ensures r.Ok? && files != [] ==> exists i :: 0 <= i < |files| && files[i].length == Some(r.value)
    ensures AllReadable(files) ==> r.Ok?
    ensures (exists i :: 0 <= i < |files| && HeightOrZero(files[i]) > 0) ==> r.Ok?
    ensures r.Panic? ==> r.site == UnreadableLength
    ensures !r.Err?
  {
    if files == [] then Ok(0)
    else
      var sorted := SortBy(files, HeightOrZero);
      var last := sorted[|sorted| - 1];
      SortByLastIsMax(files, HeightOrZero);
      assert last in files;
      if last.length.None? then Panic(UnreadableLength) else Ok(last.length.value)
  }

  /**
   * new_only.rs:68-90: sort by height, where the comparator unwraps
   * `length_from_path` (a panic as soon as two or more files are compared
   * and one has no readable height), take the LAST file with `.unwrap()`
   * (a panic on an empty directory, before `unwrap_or` can help), and read
   * its height from its name with `MinaMainnetBlock::from_str`, 0 when that
   * fails. When names and paths agree, the result is the largest height.
   */
  function NewOnlyMaxLength(files: seq<BlockFile>): (r: Outcome<U32>)
    ensures files == [] ==> r == Panic(EmptyBlockDir)
    ensures |files| >= 2 && !AllReadable(files) ==> r == Panic(UnreadableLength)
    ensures files != [] && (|files| == 1 || AllReadable(files)) ==> r.Ok?
    ensures files != [] && NamesAgree(files) ==>
      r.Ok? &&
      (forall i :: 0 <= i < |files| ==> files[i].length.value <= r.value) &&
      (exists i :: 0 <= i < |files| && files[i].length == Some(r.value))
    ensures !r.Err?
  {
    if files == [] then Panic(EmptyBlockDir)
    else if |files| >= 2 && !AllReadable(files) then Panic(UnreadableLength)
    else
      var sorted := SortBy(files, HeightOrZero);
      var last := sorted[|sorted| - 1];
      SortByLastIsMax(files, HeightOrZero);
      assert last in files;
      var parsed := ParseLocalLength(last.name);
      Ok(if parsed.Ok? then parsed.value else 0)
  }
}
