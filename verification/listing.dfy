/**
 * new_only's full-listing path (new_only.rs:174-195): read the output of
 * `gsutil ls` line by line, keep the keys that parse, sort them by length
 * and write out the ones from `our_max - 10` upward.
 */
module Listing {
  import opened Outcomes
  import opened Text
  import opened Codec
  import opened Sorting

  /** How far below our own maximum the listing path starts. */
  const Margin: nat := 10

  /** The sort key of `sort_by(|x, y| x.length.cmp(&y.length))`. */
  function KeyLength(q: BlockQuery): nat {
    q.length
  }

  /** A line ended by `\n` loses one trailing `\r` as well. */
  function StripCR(line: string): (r: string)
    ensures |line| > 0 && line[|line| - 1] == '\r' ==> line == r + "\r"
    ensures |line| == 0 || line[|line| - 1] != '\r' ==> r == line
  {
    if |line| > 0 && line[|line| - 1] == '\r' then line[..|line| - 1] else line
  }

  /**
   * `str::lines`: the text cut at each `\n`; a line ended by `\n` also
   * loses a trailing `\r`; an empty text has no lines and a final `\n`
   * does not start another one.
   */
  function Lines(text: string): (ls: seq<string>)
    ensures forall i :: 0 <= i < |ls| ==> '\n' !in ls[i]
    ensures text == [] ==> ls == []
    ensures |ls| <= |Split(text, '\n')|
  {
    var pieces := Split(text, '\n');
    var ls := LinesOf(pieces);
    assert forall i :: 0 <= i < |ls| ==> '\n' !in ls[i] by {
      forall i | 0 <= i < |ls| ensures '\n' !in ls[i] {
        assert '\n' !in pieces[i];
      }
    }
    ls
  }

  /** The lines of the pieces of a text cut at `\n`: every piece but the last was ended by `\n`. */
  function LinesOf(pieces: seq<string>): (ls: seq<string>)
    requires pieces != []
    ensures |ls| <= |pieces|
    ensures forall i :: 0 <= i < |ls| ==> ls[i] <= pieces[i]
    ensures pieces == [[]] ==> ls == []
  {
    var n := |pieces| - 1;
    var ended := seq(n, i requires 0 <= i < n => StripCR(pieces[i]));
    ended + (if pieces[n] == [] then [] else [pieces[n]])
  }

  /** The text of the lines `ls`, each ended by `\n`. */
  function Terminated(ls: seq<string>): string {
    if ls == [] then "" else ls[0] + "\n" + Terminated(ls[1..])
  }

  /** Cutting `\n`-ended lines and a tail at `\n` gives the lines, then the pieces of the tail. */
  lemma {:induction false} SplitTerminated(ls: seq<string>, tail: string)
    requires forall i :: 0 <= i < |ls| ==> '\n' !in ls[i]
    ensures Split(Terminated(ls) + tail, '\n') == ls + Split(tail, '\n')
  {
    if ls == [] {
      assert Terminated(ls) + tail == tail;
    } else {
      var rest := Terminated(ls[1..]) + tail;
      TerminatedCons(ls, tail);
      SplitAfter(ls[0], rest, '\n');
      SplitTerminated(ls[1..], tail);
      Regroup(ls, Split(Terminated(ls) + tail, '\n'), Split(rest, '\n'), Split(tail, '\n'));
    }
  }

  /** A head followed by pieces that are the tail followed by more pieces is the whole followed by those. */
  lemma Regroup<T>(ls: seq<T>, a: seq<T>, b: seq<T>, c: seq<T>)
    requires ls != [] && a == [ls[0]] + b && b == ls[1..] + c
    ensures a == ls + c
  {
    assert ls == [ls[0]] + ls[1..];
  }

  lemma TerminatedCons(ls: seq<string>, tail: string)
    requires ls != []
    ensures Terminated(ls) + tail == ls[0] + ['\n'] + (Terminated(ls[1..]) + tail)
  {
  }

  /**
   * `str::lines` of `\n`-ended lines gives those lines back, each without
   * one trailing `\r`, and no extra empty line after the last `\n`.
   */
  lemma LinesTerminated(ls: seq<string>)
    requires forall i :: 0 <= i < |ls| ==> '\n' !in ls[i]
    ensures Lines(Terminated(ls)) == seq(|ls|, i requires 0 <= i < |ls| => StripCR(ls[i]))
  {
    SplitTerminated(ls, "");
    assert Terminated(ls) + "" == Terminated(ls);
    SplitNoSepOne("", '\n');
    LinesOfLast(ls, "");
  }

  /** A last line that is not ended by `\n` is kept as it is. */
  lemma LinesUnterminated(ls: seq<string>, last: string)
    requires forall i :: 0 <= i < |ls| ==> '\n' !in ls[i]
    requires last != [] && '\n' !in last
    ensures Lines(Terminated(ls) + last) == seq(|ls|, i requires 0 <= i < |ls| => StripCR(ls[i])) + [last]
  {
    SplitTerminated(ls, last);
    SplitNoSepOne(last, '\n');
    LinesOfLast(ls, last);
  }

  /** The pieces `ls` followed by a last piece give the lines `ls`, each without a trailing `\r`, then the last piece unless it is empty. */
  lemma LinesOfLast(ls: seq<string>, last: string)
    ensures LinesOf(ls + [last]) ==
      seq(|ls|, i requires 0 <= i < |ls| => StripCR(ls[i])) + (if last == [] then [] else [last])
  {
    var pieces := ls + [last];
    var n := |pieces| - 1;
    assert pieces[n] == last;
    var ended := seq(n, i requires 0 <= i < n => StripCR(pieces[i]));
    forall i | 0 <= i < n ensures ended[i] == StripCR(ls[i]) {
      assert pieces[i] == ls[i];
    }
  }

  /** Lines with no `\n` and no trailing `\r`, each ended by `\n`, read back as themselves. */
  lemma LinesRoundTrip(ls: seq<string>)
    requires forall i :: 0 <= i < |ls| ==> '\n' !in ls[i] && (ls[i] == [] || ls[i][|ls[i]| - 1] != '\r')
    ensures Lines(Terminated(ls)) == ls
  {
    LinesTerminated(ls);
  }

  /**
   * `.filter_map(|q| MinaBlockQuery::from_str(q).ok()).collect()`: the keys
   * of the lines that parse, in order; a line that makes `from_str` panic
   * aborts the whole listing.
   */
  function ParseListing(lines: seq<string>): (r: Outcome<seq<BlockQuery>>)
    ensures !r.Err?
    ensures r.Panic? ==> ParseSite(r.site)
    ensures r.Ok? ==> |r.value| <= |lines|
    ensures r.Ok? ==> forall k :: 0 <= k < |r.value| ==> WellFormed(r.value[k])
  {
    if lines == [] then Ok([])
    else
      match ParseQuery(lines[0])
      case Panic(site) => Panic(site)
      case Err(_) => ParseListing(lines[1..])
      case Ok(q) =>
        var rest := ParseListing(lines[1..]);
        if rest.Ok? then Ok([q] + rest.value) else rest
  }

  /**
   * The listing parses exactly when no line makes `from_str` panic; then
   * every key comes from a line, and every line that parses contributes
   * its key.
   */
  lemma {:induction false} ParseListingSound(lines: seq<string>)
    ensures ParseListing(lines).Ok? <==> forall i :: 0 <= i < |lines| ==> !ParseQuery(lines[i]).Panic?
    ensures ParseListing(lines).Ok? ==>
      forall q :: q in ParseListing(lines).value <==> exists i :: 0 <= i < |lines| && ParseQuery(lines[i]) == Ok(q)
  {
    if lines != [] {
      ParseListingSound(lines[1..]);
      assert forall i :: 1 <= i < |lines| ==> lines[i] == lines[1..][i - 1];
      var r := ParseListing(lines);
      if r.Ok? {
        forall q ensures q in r.value <==> exists i :: 0 <= i < |lines| && ParseQuery(lines[i]) == Ok(q) {
          if q in r.value && ParseQuery(lines[0]) != Ok(q) {
            assert q in ParseListing(lines[1..]).value;
            var j :| 0 <= j < |lines[1..]| && ParseQuery(lines[1..][j]) == Ok(q);
            assert ParseQuery(lines[j + 1]) == Ok(q);
          }
          if (exists i :: 0 <= i < |lines| && ParseQuery(lines[i]) == Ok(q)) && ParseQuery(lines[0]) != Ok(q) {
            var i :| 0 <= i < |lines| && ParseQuery(lines[i]) == Ok(q);
            assert i != 0;
            assert ParseQuery(lines[1..][i - 1]) == Ok(q);
          }
        }
      } else {
        if ParseQuery(lines[0]).Panic? {
        } else {
          var i :| 0 <= i < |lines[1..]| && ParseQuery(lines[1..][i]).Panic?;
          assert ParseQuery(lines[i + 1]).Panic?;
        }
      }
    }
  }

  /**
   * `.skip_while(|q| q.length < threshold)`: a suffix of the keys; what it
   * drops is below the threshold and what it keeps starts at or above it.
   */
  function SkipShorter(keys: seq<BlockQuery>, threshold: nat): (r: seq<BlockQuery>)
    ensures |r| <= |keys| && r == keys[|keys| - |r|..]
    ensures forall i :: 0 <= i < |keys| - |r| ==> keys[i].length < threshold
    ensures r != [] ==> r[0].length >= threshold
  {
    if keys == [] || keys[0].length >= threshold then keys
    else SkipShorter(keys[1..], threshold)
  }

  /**
   * On keys sorted by length, skipping the short ones is filtering them:
   * a key is kept exactly when its length reaches the threshold.
   */
  lemma SkipShorterSorted(keys: seq<BlockQuery>, threshold: nat)
    requires SortedBy(keys, KeyLength)
    ensures var r := SkipShorter(keys, threshold);
      forall i :: 0 <= i < |keys| ==> (keys[i].length >= threshold <==> i >= |keys| - |r|)
  {
    var r := SkipShorter(keys, threshold);
    var cut := |keys| - |r|;
    forall i | 0 <= i < |keys| && i >= cut ensures keys[i].length >= threshold {
      assert r[0] == keys[cut];
      assert KeyLength(keys[cut]) <= KeyLength(keys[i]);
    }
  }

  /**
   * `.skip_while(|q| q.length < our_max_length - 10)`. The subtraction is in
   * `u32` and sits inside the closure, so it only runs, and only underflows,
   * when there is at least one key to test (new_only.rs:192).
   */
  function SkipBelowMargin(keys: seq<BlockQuery>, ourMax: U32): (r: Outcome<seq<BlockQuery>>)
    ensures r.Panic? <==> keys != [] && ourMax < Margin
    ensures r.Panic? ==> r.site == Underflow
    ensures !r.Err?
    ensures r.Ok? && ourMax >= Margin ==> r.value == SkipShorter(keys, ourMax - Margin)
    ensures keys == [] ==> r == Ok([])
  {
    if keys == [] then Ok([])
    else if ourMax < Margin then Panic(Underflow)
    else Ok(SkipShorter(keys, ourMax - Margin))
  }

  /**
   * What the listing path keeps of the parsed keys (new_only.rs:183-192):
   * sorted by length, then `skip_while(length < our_max - 10)`. The
   * subtraction panics only when there is a key to test. Otherwise the kept
   * keys are `SkipShorter(SortBy(keys, KeyLength), our_max - 10)`
   * (`KeptKeysValue`), which the `SortThenSkip` lemmas describe.
   */
  function KeptKeys(keys: seq<BlockQuery>, ourMax: U32): (r: Outcome<seq<BlockQuery>>)
    ensures !r.Err?
    ensures r.Panic? <==> keys != [] && ourMax < Margin
    ensures r.Panic? ==> r.site == Underflow
  {
    assert keys == [] <==> SortBy(keys, KeyLength) == [];
    SkipBelowMargin(SortBy(keys, KeyLength), ourMax)
  }

  /** Above the margin, the kept keys are the parsed keys sorted by length with those below `our_max - 10` skipped. */
  lemma KeptKeysValue(keys: seq<BlockQuery>, ourMax: U32)
    requires ourMax >= Margin
    ensures KeptKeys(keys, ourMax) == Ok(SkipShorter(SortBy(keys, KeyLength), ourMax - Margin))
  {
  }

  /** The sorted, parsed listing and the keys it keeps (new_only.rs:174-192). */
  function ListingKeys(lines: seq<string>, ourMax: U32): (r: Outcome<seq<BlockQuery>>)
    ensures !r.Err?
  {
    match ParseListing(lines)
    case Ok(keys) => KeptKeys(keys, ourMax)
    case Panic(site) => Panic(site)
    case Err(e) => Err(e)
  }

  /** On sorted keys what `SkipShorter` keeps is still sorted. */
  lemma {:induction false} SkipShorterKeepsSorted(sorted: seq<BlockQuery>, t: nat)
    requires SortedBy(sorted, KeyLength)
    ensures SortedBy(SkipShorter(sorted, t), KeyLength)
  {
    if sorted != [] && sorted[0].length < t {
      var tail := sorted[1..];
      forall i, j | 0 <= i < j < |tail| ensures KeyLength(tail[i]) <= KeyLength(tail[j]) {
        assert tail[i] == sorted[i + 1] && tail[j] == sorted[j + 1];
      }
      SkipShorterKeepsSorted(tail, t);
    }
  }

  /** In a sorted sequence that starts at or above the threshold, every element is at or above it. */
  lemma SortedAbove(r: seq<BlockQuery>, t: nat)
    requires SortedBy(r, KeyLength)
    requires r != [] ==> r[0].length >= t
    ensures forall k :: 0 <= k < |r| ==> r[k].length >= t
  {
    forall k | 0 < k < |r| ensures r[k].length >= t {
      assert KeyLength(r[0]) <= KeyLength(r[k]);
    }
  }

  /** On sorted keys `SkipShorter` keeps every copy of every key that reaches the threshold, and nothing else. */
  lemma SkipShorterKeepsCounts(sorted: seq<BlockQuery>, t: nat)
    ensures var r := SkipShorter(sorted, t);
      (forall q: BlockQuery :: q.length >= t ==> multiset(r)[q] == multiset(sorted)[q]) &&
      (forall q :: q in r ==> q in sorted)
  {
    var r := SkipShorter(sorted, t);
    var cut := |sorted| - |r|;
    var dropped := sorted[..cut];
    assert sorted == dropped + r;
    assert multiset(sorted) == multiset(dropped) + multiset(r);
    forall q: BlockQuery | q.length >= t ensures multiset(r)[q] == multiset(sorted)[q] {
      forall i | 0 <= i < |dropped| ensures dropped[i] != q {
        assert dropped[i] == sorted[i];
      }
      assert q !in dropped;
    }
  }

  /** On sorted keys `SkipShorter` keeps, for each length that reaches the threshold, the same keys in the same order. */
  lemma SkipShorterKeepsOrder(sorted: seq<BlockQuery>, t: nat, len: nat)
    requires SortedBy(sorted, KeyLength)
    requires len >= t
    ensures WithKey(SkipShorter(sorted, t), KeyLength, len) == WithKey(sorted, KeyLength, len)
  {
    var r := SkipShorter(sorted, t);
    var cut := |sorted| - |r|;
    SkipShorterSorted(sorted, t);
    assert sorted == sorted[..cut] + r;
    WithKeyAppend(sorted[..cut], r, len);
    WithKeyNone(sorted[..cut], len);
  }

  /** Sorting by length, then skipping below `t`, leaves keys sorted by length, all at or above `t`. */
  lemma SortThenSkipSorted(keys: seq<BlockQuery>, t: nat)
    ensures SortedBy(SkipShorter(SortBy(keys, KeyLength), t), KeyLength)
    ensures forall k :: 0 <= k < |SkipShorter(SortBy(keys, KeyLength), t)| ==> SkipShorter(SortBy(keys, KeyLength), t)[k].length >= t
  {
    var sorted := SortBy(keys, KeyLength);
    SortBySorted(keys, KeyLength);
    SkipShorterKeepsSorted(sorted, t);
    SortedAbove(SkipShorter(sorted, t), t);
  }

  /** Sorting by length, then skipping below `t`, keeps every copy of every key at or above `t`, and nothing new. */
  lemma SortThenSkipCounts(keys: seq<BlockQuery>, t: nat)
    ensures forall q: BlockQuery :: q.length >= t ==> multiset(SkipShorter(SortBy(keys, KeyLength), t))[q] == multiset(keys)[q]
    ensures forall q :: q in SkipShorter(SortBy(keys, KeyLength), t) ==> q in keys
  {
    var sorted := SortBy(keys, KeyLength);
    SkipShorterKeepsCounts(sorted, t);
    forall q | q in sorted ensures q in keys {
      assert q in multiset(sorted);
    }
  }

  /** Sorting by length, then skipping below `t`, keeps exactly the keys at or above `t`. */
  lemma SortThenSkipMembers(keys: seq<BlockQuery>, t: nat)
    ensures forall q :: q in SkipShorter(SortBy(keys, KeyLength), t) <==> q in keys && q.length >= t
  {
    SortThenSkipCounts(keys, t);
    SortThenSkipSorted(keys, t);
    MembersFromCounts(SkipShorter(SortBy(keys, KeyLength), t), keys, t);
  }

  /** Keys with the same counts from `t` up, none below `t` and none new, are exactly the keys from `t` up. */
  lemma MembersFromCounts(r: seq<BlockQuery>, keys: seq<BlockQuery>, t: nat)
    requires forall q: BlockQuery :: q.length >= t ==> multiset(r)[q] == multiset(keys)[q]
    requires forall q :: q in r ==> q in keys
    requires forall k :: 0 <= k < |r| ==> r[k].length >= t
    ensures forall q :: q in r <==> q in keys && q.length >= t
  {
    forall q ensures q in r <==> q in keys && q.length >= t {
      if q in r {
        var k :| 0 <= k < |r| && r[k] == q;
      }
      if q in keys && q.length >= t {
        assert q in multiset(keys);
        assert multiset(r)[q] > 0;
      }
    }
  }

  /** Sorting by length, then skipping below `t`, keeps the keys of each length `len >= t` in their original order. */
  lemma SortThenSkipStable(keys: seq<BlockQuery>, t: nat, len: nat)
    requires len >= t
    ensures WithKey(SkipShorter(SortBy(keys, KeyLength), t), KeyLength, len) == WithKey(keys, KeyLength, len)
  {
    var sorted := SortBy(keys, KeyLength);
    SortBySorted(keys, KeyLength);
    SkipShorterKeepsOrder(sorted, t, len);
    SortByStable(keys, KeyLength, len);
  }

  lemma {:induction false} WithKeyAppend(a: seq<BlockQuery>, b: seq<BlockQuery>, len: nat)
    ensures WithKey(a + b, KeyLength, len) == WithKey(a, KeyLength, len) + WithKey(b, KeyLength, len)
  {
    if a != [] {
      assert (a + b)[1..] == a[1..] + b;
      WithKeyAppend(a[1..], b, len);
    } else {
      assert a + b == b;
    }
  }

  lemma {:induction false} WithKeyNone(a: seq<BlockQuery>, len: nat)
    requires forall i :: 0 <= i < |a| ==> a[i].length != len
    ensures WithKey(a, KeyLength, len) == []
  {
    if a != [] {
      WithKeyNone(a[1..], len);
    }
  }

  /**
   * With a local maximum below 10 the listing path panics on the
   * subtraction as soon as any listed line parses (new_only.rs:192).
   */
  lemma ListingUnderflows(lines: seq<string>, ourMax: U32)
    requires ourMax < Margin
    requires ParseListing(lines).Ok? && ParseListing(lines).value != []
    ensures ListingKeys(lines, ourMax) == Panic(Underflow)
  {
    var keys := ParseListing(lines).value;
    assert |SortBy(keys, KeyLength)| == |keys|;
  }

  /**
   * `all_network_blocks.last().map_or(0, |q| q.length)` on the sorted keys
   * (new_only.rs:185): the largest listed length, or 0 for an empty listing.
   */
  function ListingMax(sorted: seq<BlockQuery>): nat {
    if sorted == [] then 0 else sorted[|sorted| - 1].length
  }

  lemma ListingMaxIsMax(keys: seq<BlockQuery>)
    ensures keys == [] ==> ListingMax(SortBy(keys, KeyLength)) == 0
    ensures forall k :: 0 <= k < |keys| ==> keys[k].length <= ListingMax(SortBy(keys, KeyLength))
    ensures keys != [] ==> exists k :: 0 <= k < |keys| && keys[k].length == ListingMax(SortBy(keys, KeyLength))
  {
    if keys != [] {
      var r := SortBy(keys, KeyLength);
      SortByLastIsMax(keys, KeyLength);
      assert r[|r| - 1] in keys;
    }
  }
}
