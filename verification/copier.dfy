/**
 * The copier's side of a cycle as the core sees it: the text that
 * `cat <query file> | gsutil -m cp -n -I <blocks dir>` leaves on stderr,
 * and the two ways the core reads that text (the lines it reports and the
 * end-of-catch-up signal).
 */
module Copier {
  import opened Text

  /**
   * What one copier invocation gives back: its stderr as text, or a
   * failure (`cat` or `gsutil` could not be spawned, or stderr is not UTF-8),
   * which every subcommand propagates with `?`.
   */
  datatype CopierReply = Output(stderr: string) | Failed

  const CopyingTag: string := "Copying"
  const ExceptionTag: string := "CommandException"

  /**
   * The lines of `lines` that start with `Copying`, in order: exactly the
   * ones the `filter` keeps.
   */
  function FilterCopying(lines: seq<string>): (r: seq<string>)
    ensures |r| <= |lines|
    ensures forall i :: 0 <= i < |r| ==> StartsWith(r[i], CopyingTag)
    ensures forall l :: l in r <==> l in lines && StartsWith(l, CopyingTag)
  {
    if lines == [] then []
    else
      var init := lines[..|lines| - 1];
      var last := lines[|lines| - 1];
      assert lines == init + [last];
      var kept := FilterCopying(init);
      if StartsWith(last, CopyingTag) then kept + [last] else kept
  }

  /** What a subcommand prints of one copier output (new_only.rs:216, continuous_loop.rs:146, contiguous.rs:71-73). */
  function CopiedLines(output: string): seq<string> {
    FilterCopying(Split(output, '\n'))
  }

  /** `output.split('\n').any(|s| s.starts_with("CommandException"))` (continuous_loop.rs:66-68). */
  predicate HasCommandException(output: string) {
    var lines := Split(output, '\n');
    exists i :: 0 <= i < |lines| && StartsWith(lines[i], ExceptionTag)
  }

  /** Filtering distributes over concatenation, so output read in parts is reported in order. */
  lemma {:induction false} FilterCopyingAppend(a: seq<string>, b: seq<string>)
    ensures FilterCopying(a + b) == FilterCopying(a) + FilterCopying(b)
    decreases |b|
  {
    if b == [] {
      assert a + b == a;
    } else {
      var b' := b[..|b| - 1];
      assert (a + b)[..|a + b| - 1] == a + b';
      assert b == b' + [b[|b| - 1]];
      FilterCopyingAppend(a, b');
    }
  }

  /** A line reporting a copy is never the end-of-catch-up signal, and the reverse. */
  lemma CopyingIsNotException(line: string)
    requires StartsWith(line, CopyingTag)
    ensures !StartsWith(line, ExceptionTag)
  {
    assert line[0] == 'C' && line[1] == 'o';
    assert ExceptionTag[1] == 'o';
    assert line[2] == 'p' && ExceptionTag[2] == 'm';
  }

  /**
   * Output that arrives in two parts around a line break is reported as the
   * copy reports of the first part, then those of the second.
   */
  lemma CopiedLinesConcat(a: string, b: string)
    ensures CopiedLines(a + "\n" + b) == CopiedLines(a) + CopiedLines(b)
  {
    SplitConcat(a, b, '\n');
    FilterCopyingAppend(Split(a, '\n'), Split(b, '\n'));
  }

  /**
   * The end-of-catch-up signal is seen wherever its line is: output that
   * arrives in two parts around a line break has a `CommandException` line
   * exactly when one of the parts has.
   */
  lemma CommandExceptionAnywhere(a: string, b: string)
    ensures HasCommandException(a + "\n" + b) <==> HasCommandException(a) || HasCommandException(b)
  {
    SplitConcat(a, b, '\n');
    SomeLineStartsConcat(Split(a, '\n'), Split(b, '\n'), ExceptionTag);
  }

  /** Some line of `x + y` starts with `tag` exactly when some line of `x` or of `y` does. */
  lemma SomeLineStartsConcat(x: seq<string>, y: seq<string>, tag: string)
    ensures (exists i :: 0 <= i < |x + y| && StartsWith((x + y)[i], tag)) <==>
      (exists i :: 0 <= i < |x| && StartsWith(x[i], tag)) || (exists i :: 0 <= i < |y| && StartsWith(y[i], tag))
  {
    var xy := x + y;
    if exists i :: 0 <= i < |x| && StartsWith(x[i], tag) {
      var i :| 0 <= i < |x| && StartsWith(x[i], tag);
      assert xy[i] == x[i];
    }
    if exists i :: 0 <= i < |y| && StartsWith(y[i], tag) {
      var i :| 0 <= i < |y| && StartsWith(y[i], tag);
      assert xy[|x| + i] == y[i];
    }
    if exists i :: 0 <= i < |xy| && StartsWith(xy[i], tag) {
      var i :| 0 <= i < |xy| && StartsWith(xy[i], tag);
      if i >= |x| {
        assert xy[i] == y[i - |x|];
      }
    }
  }

  /** No line the run prints is the end-of-catch-up signal. */
  lemma CopiedAreNotExceptions(output: string)
    ensures forall i :: 0 <= i < |CopiedLines(output)| ==> !StartsWith(CopiedLines(output)[i], ExceptionTag)
  {
    forall i | 0 <= i < |CopiedLines(output)| ensures !StartsWith(CopiedLines(output)[i], ExceptionTag) {
      CopyingIsNotException(CopiedLines(output)[i]);
    }
  }
}
