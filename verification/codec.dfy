/**
 * Key codec: the remote object key `gs://<bucket>/<network>-<length>-<hash>.json`
 * (`MinaBlockQuery` in src/new_only.rs) and the local file name
 * `<network>-<length>-<hash>.json` (`MinaMainnetBlock`).
 */
module Codec {
  import opened Outcomes
  import opened Text

  const Scheme: string := "gs://"
  const JsonSuffix: string := ".json"

  /** One remote object: `MinaBlockQuery`. */
  datatype BlockQuery = BlockQuery(length: U32, stateHash: string, bucket: string, network: string)

  /**
   * The keys the codec can reproduce exactly: no field holds a character
   * that `from_str` splits on.
   */
  predicate WellFormed(q: BlockQuery) {
    '/' !in q.bucket &&
    '-' !in q.network && '/' !in q.network &&
    '-' !in q.stateHash && '.' !in q.stateHash && '/' !in q.stateHash
  }

  /** The panics `from_str` can raise: a missing object name, length field or hash field. */
  predicate ParseSite(site: PanicSite) {
    site == NoObjectName || site == NoLengthField || site == NoHashField
  }

  /**
   * `MinaBlockQuery::from_str`. A missing `gs://` prefix and a length field
   * that is not a `u32` are errors; a missing object name, length field or
   * hash field makes the Rust code panic (`unwrap` on `None`). Whatever it
   * accepts is well formed.
   */
  function ParseQuery(s: string): (r: Outcome<BlockQuery>)
    ensures r == Err(MissingScheme) <==> !StartsWith(s, Scheme)
    ensures r.Err? ==> r.error == MissingScheme || r.error == InvalidNumber
    ensures r.Panic? ==> ParseSite(r.site)
    ensures r.Ok? ==> WellFormed(r.value)
  {
    if !StartsWith(s, Scheme) then Err(MissingScheme)
    else ParseLocation(s[|Scheme|..])
  }

  /** The part of `from_str` after `gs://`: split off the bucket at the first `/`. */
  function ParseLocation(rest: string): (r: Outcome<BlockQuery>)
    ensures r.Err? ==> r.error == InvalidNumber
    ensures r.Panic? ==> ParseSite(r.site)
    ensures r.Ok? ==> WellFormed(r.value)
  {
    var fields := Split(rest, '/');
    if |fields| < 2 then Panic(NoObjectName)
    else ParseObjectName(fields[0], fields[1])
  }

  /** The part of `from_str` that reads `<network>-<length>-<hash>...` out of the object name. */
  function ParseObjectName(bucket: string, name: string): (r: Outcome<BlockQuery>)
    requires '/' !in bucket && '/' !in name
    ensures r.Err? ==> r.error == InvalidNumber
    ensures r.Panic? ==> ParseSite(r.site)
    ensures r.Ok? ==> WellFormed(r.value)
  {
    var parts := Split(name, '-');
    if |parts| < 2 then Panic(NoLengthField)
    else
      match ParseU32(parts[1])
      case None => Err(InvalidNumber)
      case Some(length) =>
        if |parts| < 3 then Panic(NoHashField)
        else Ok(BlockQuery(length, Split(parts[2], '.')[0], bucket, parts[0]))
  }

  /** `gs://<bucket>/<name>`. */
  function ObjectKey(bucket: string, name: string): (s: string)
    ensures StartsWith(s, Scheme)
  {
    Scheme + bucket + "/" + name
  }

  /** `MinaBlockQuery::to_string`: `gs://{bucket}/{network}-{length}-{state_hash}.json`. */
  function Render(q: BlockQuery): string {
    ObjectKey(q.bucket, q.network + "-" + Show(q.length) + "-" + q.stateHash + JsonSuffix)
  }

  /** The wildcard query line `gs://{bucket}/{network}-{height}-*.json` written for one height. */
  function Pattern(bucket: string, network: string, height: nat): string {
    ObjectKey(bucket, network + "-" + Show(height) + "-*" + JsonSuffix)
  }

  /**
   * `MinaMainnetBlock::from_str`: the length is the decimal between the
   * first `-` and the next one. A name with no `-` is an error, and so is a
   * length that is not a `u32`; it never panics.
   */
  function ParseLocalLength(name: string): (r: Outcome<U32>)
    ensures r == Err(NoDash) <==> '-' !in name
    ensures !r.Panic?
  {
    var pieces := Split(name, '-');
    if |pieces| < 2 then Err(NoDash)
    else
      match ParseU32(pieces[1])
      case None => Err(InvalidNumber)
      case Some(length) => Ok(length)
  }

  // ------------------------------------------------------------------ lemmas

  lemma ShowHasNo(n: nat, c: char)
    requires !IsDigit(c)
    ensures c !in Show(n)
  {
  }

  /** After the scheme, `from_str` reads the object name up to the next `/`. */
  lemma ParseAfterScheme(bucket: string, p: string, tail: string)
    requires '/' !in bucket && '/' !in p
    ensures ParseQuery(ObjectKey(bucket, p + tail))
         == ParseObjectName(bucket, p + Split(tail, '/')[0])
  {
    var s := ObjectKey(bucket, p + tail);
    assert s[|Scheme|..] == bucket + "/" + (p + tail);
    SplitAfter(bucket, p + tail, '/');
    SplitHead(p, tail, '/');
  }

  /** The `-`-separated fields of `<network>-<digits>-<rest>`. */
  lemma NameParts(network: string, digits: string, rest: string)
    requires '-' !in network && '-' !in digits
    ensures Split(network + "-" + digits + "-" + rest, '-') == [network, digits] + Split(rest, '-')
  {
    assert network + "-" + digits + "-" + rest == network + "-" + (digits + "-" + rest);
    SplitAfter(network, digits + "-" + rest, '-');
    SplitAfter(digits, rest, '-');
  }

  /** The hash field of `<hash><tail>` with a tail that starts with `.` or `-` is `<hash>`. */
  lemma HashField(hash: string, tail: string)
    requires '-' !in hash && '.' !in hash
    requires tail == [] || tail[0] == '.' || tail[0] == '-'
    ensures Split(Split(hash + tail, '-')[0], '.')[0] == hash
  {
    SplitHead(hash, tail, '-');
    var t2 := Split(tail, '-')[0];
    SplitHead(hash, t2, '.');
    if tail != [] && tail[0] == '-' {
      SplitStop([], tail, '-');
      assert [] + tail == tail;
    } else if tail != [] {
      SplitHeadChar(tail, '-');
      SplitStop([], t2, '.');
      assert [] + t2 == t2;
    }
  }

  /** The object name `<network>-<length>-<hash>` followed by a tail that starts with `.` or `-`. */
  lemma ObjectNameFields(bucket: string, network: string, length: U32, hash: string, tail: string)
    requires '/' !in bucket && '-' !in network && '/' !in network
    requires '-' !in hash && '.' !in hash && '/' !in hash && '/' !in tail
    requires tail == [] || tail[0] == '.' || tail[0] == '-'
    ensures ParseObjectName(bucket, network + "-" + Show(length) + "-" + hash + tail)
         == Ok(BlockQuery(length, hash, bucket, network))
  {
    ShowHasNo(length, '-');
    ShowHasNo(length, '/');
    var name := network + "-" + Show(length) + "-" + hash + tail;
    assert name == network + "-" + Show(length) + "-" + (hash + tail);
    NameParts(network, Show(length), hash + tail);
    ParseShow(length);
    HashField(hash, tail);
  }

  /** The first piece of a tail that starts with `.`, `-` or `/`, cut at `/`, is empty or starts with `.` or `-`. */
  lemma TailBeforeSlash(tail: string)
    requires tail == [] || tail[0] == '.' || tail[0] == '-' || tail[0] == '/'
    ensures var t := Split(tail, '/')[0]; '/' !in t && (t == [] || t[0] == '.' || t[0] == '-')
  {
    if tail != [] && tail[0] == '/' {
      SplitStop([], tail, '/');
      assert [] + tail == tail;
    } else if tail != [] {
      SplitHeadChar(tail, '/');
    }
  }

  /**
   * What `from_str` makes of a key whose object name is `<network>-<length>-<hash>`
   * followed by anything that starts with `.`, `-` or `/`: the hash is the
   * text before the first `.`, so any such tail is ignored.
   */
  lemma ParseQueryFields(bucket: string, network: string, length: U32, hash: string, tail: string)
    requires '/' !in bucket && '-' !in network && '/' !in network
    requires '-' !in hash && '.' !in hash && '/' !in hash
    requires tail == [] || tail[0] == '.' || tail[0] == '-' || tail[0] == '/'
    ensures ParseQuery(ObjectKey(bucket, network + "-" + Show(length) + "-" + hash + tail))
         == Ok(BlockQuery(length, hash, bucket, network))
  {
    ShowHasNo(length, '/');
    var p := network + "-" + Show(length) + "-" + hash;
    assert '/' !in p;
    ParseAfterScheme(bucket, p, tail);
    var t1 := Split(tail, '/')[0];
    TailBeforeSlash(tail);
    ObjectNameFields(bucket, network, length, hash, t1);
  }

  /** `from_str(to_string(q)) == q` for every well-formed key, hence `to_string(from_str(s)) == s` for its rendering. */
  lemma ParseRender(q: BlockQuery)
    requires WellFormed(q)
    ensures ParseQuery(Render(q)) == Ok(q)
    ensures Render(ParseQuery(Render(q)).value) == Render(q)
  {
    ParseQueryFields(q.bucket, q.network, q.length, q.stateHash, JsonSuffix);
  }

  /** A string that does not start with `gs://` is rejected with an error, whatever follows. */
  lemma ParseQueryRejectsForeignScheme(s: string)
    requires !StartsWith(s, Scheme)
    ensures ParseQuery(s) == Err(MissingScheme)
  {
  }

  /** A length field that `u32::from_str` rejects makes `from_str` return an error, not a key and not a panic. */
  lemma ParseQueryRejectsBadLength(bucket: string, network: string, field: string, tail: string)
    requires '/' !in bucket && '-' !in network && '/' !in network
    requires '-' !in field && '/' !in field && ParseU32(field) == None
    requires tail == [] || tail[0] == '-' || tail[0] == '/'
    ensures ParseQuery(ObjectKey(bucket, network + "-" + field + tail)) == Err(InvalidNumber)
  {
    var p := network + "-" + field;
    ParseAfterScheme(bucket, p, tail);
    TailBeforeSlash(tail);
    BadLengthName(bucket, network, field, Split(tail, '/')[0]);
  }

  /** The object name `<network>-<field><tail>` with a length field `u32::from_str` rejects. */
  lemma BadLengthName(bucket: string, network: string, field: string, tail: string)
    requires '/' !in bucket && '-' !in network && '/' !in network
    requires '-' !in field && '/' !in field && '/' !in tail && ParseU32(field) == None
    requires tail == [] || tail[0] == '-'
    ensures ParseObjectName(bucket, network + "-" + field + tail) == Err(InvalidNumber)
  {
    var name := network + "-" + field + tail;
    assert name == network + "-" + (field + tail);
    SplitAfter(network, field + tail, '-');
    SplitStop(field, tail, '-');
  }

  /** A `gs://` key with no `/` after the bucket makes the Rust code panic (new_only.rs:245). */
  lemma ParseQueryPanicsWithoutObjectName(rest: string)
    requires '/' !in rest
    ensures ParseQuery(Scheme + rest) == Panic(NoObjectName)
  {
    assert (Scheme + rest)[|Scheme|..] == rest;
  }

  /** A key whose object name stops after the length makes the Rust code panic (new_only.rs:249). */
  lemma ParseQueryPanicsWithoutHash(bucket: string, network: string, length: U32)
    requires '/' !in bucket && '-' !in network && '/' !in network
    ensures ParseQuery(ObjectKey(bucket, network + "-" + Show(length))) == Panic(NoHashField)
  {
    var digits := Show(length);
    ShowHasNo(length, '/');
    ShowHasNo(length, '-');
    var p := network + "-" + digits;
    ParseAfterScheme(bucket, p, []);
    assert p + [] == p;
    SplitAfter(network, digits, '-');
    SplitNoSepOne(digits, '-');
    ParseShow(length);
  }

  lemma SplitNoSepOne(s: string, sep: char)
    requires sep !in s
    ensures Split(s, sep) == [s]
  {
    SplitJoin(s, sep);
  }

  /** Every wildcard line is itself a key that `from_str` reads back as its height with hash `*`. */
  lemma PatternParses(bucket: string, network: string, height: U32)
    requires '/' !in bucket && '-' !in network && '/' !in network
    ensures ParseQuery(Pattern(bucket, network, height)) == Ok(BlockQuery(height, "*", bucket, network))
  {
    ParseQueryFields(bucket, network, height, "*", JsonSuffix);
    assert network + "-" + Show(height) + "-*" + JsonSuffix
        == network + "-" + Show(height) + "-" + "*" + JsonSuffix;
  }

  /** Different heights give different wildcard lines. */
  lemma PatternInjective(bucket: string, network: string, h1: nat, h2: nat)
    requires Pattern(bucket, network, h1) == Pattern(bucket, network, h2)
    ensures h1 == h2
  {
    var pre := Scheme + bucket + "/" + network + "-";
    var post := "-*" + JsonSuffix;
    var p1, p2 := Pattern(bucket, network, h1), Pattern(bucket, network, h2);
    assert p1 == pre + Show(h1) + post;
    assert p2 == pre + Show(h2) + post;
    assert |Show(h1)| == |Show(h2)|;
    assert Show(h1) == p1[|pre|..|pre| + |Show(h1)|];
    assert Show(h2) == p2[|pre|..|pre| + |Show(h2)|];
    ShowInjective(h1, h2);
  }

  /** A local file name `<network>-<length>-...` yields its length. */
  lemma LocalLengthFields(network: string, length: U32, tail: string)
    requires '-' !in network
    requires tail == [] || tail[0] == '-'
    ensures ParseLocalLength(network + "-" + Show(length) + tail) == Ok(length)
  {
    ShowHasNo(length, '-');
    var name := network + "-" + Show(length) + tail;
    assert name == network + "-" + (Show(length) + tail);
    SplitAfter(network, Show(length) + tail, '-');
    SplitStop(Show(length), tail, '-');
    ParseShow(length);
  }

  /** A local file name whose length field is not a `u32` is an error. */
  lemma LocalLengthRejectsBadLength(network: string, field: string, tail: string)
    requires '-' !in network && '-' !in field && ParseU32(field) == None
    requires tail == [] || tail[0] == '-'
    ensures ParseLocalLength(network + "-" + field + tail) == Err(InvalidNumber)
  {
    var name := network + "-" + field + tail;
    assert name == network + "-" + (field + tail);
    SplitAfter(network, field + tail, '-');
    SplitStop(field, tail, '-');
  }
}
