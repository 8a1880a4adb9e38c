/**
 * Shared result types for the height-range query engine.
 *
 * The Rust code has three ways out of an operation: a value, an `Err` that
 * propagates through `?`, and a panic (`unwrap`, `assert!`, `unreachable!`,
 * or an arithmetic overflow in a build with overflow checks). All three are
 * modelled explicitly by `Outcome`.
 */
module Outcomes {

  /** Rust's `Option`. */
  datatype Option<+T> = None | Some(value: T) {
    /** `unwrap_or`. */
    function GetOr(default: T): T {
      match this
      case Some(v) => v
      case None => default
    }
  }

  /** The `anyhow::Error`s the core can return. */
  datatype Error =
    | MissingScheme      // MinaBlockQuery::from_str: no `gs://` prefix
    | InvalidNumber      // a length field that `u32::from_str` rejects
    | NoDash             // MinaMainnetBlock::from_str: no `-` in the name
    | LsFileMissing      // File::open of the ls file failed
    | ListingFailed      // `gsutil ls` could not be run or read back
    | CopierFailed       // `cat | gsutil cp` could not be run, or stderr is not UTF-8

  /** Where the Rust code would panic. */
  datatype PanicSite =
    | NoObjectName       // from_str: `split('/')` has no second field
    | NoLengthField      // from_str: `split('-')` has no second field
    | NoHashField        // from_str: `split('-')` has no third field
    | EmptyBlockDir      // new_only: `.last().unwrap()` on no local files
    | UnreadableLength   // `length_from_path(..).unwrap()` on None
    | ConflictingFlags   // new_only: `--start` together with `--strict`
    | Overflow           // an unsigned addition out of range
    | Underflow          // an unsigned subtraction below zero

  datatype Outcome<+T> = Ok(value: T) | Err(error: Error) | Panic(site: PanicSite)

  /** `?` and unwinding: an outcome that is not a value ends its caller the same way. */
  function Forward<T, U>(o: Outcome<T>): (r: Outcome<U>)
    requires !o.Ok?
    ensures r.Err? <==> o.Err?
    ensures r.Err? ==> r.error == o.error
    ensures r.Panic? ==> r.site == o.site
  {
    if o.Err? then Err(o.error) else Panic(o.site)
  }

  /** Rust's `u32` and (64-bit) `usize`/`u64`. */
  const U32Limit: int := 0x1_0000_0000
  const U64Limit: int := 0x1_0000_0000_0000_0000
  type U32 = x: int | 0 <= x < U32Limit
  type U64 = x: int | 0 <= x < U64Limit

  function Max(a: int, b: int): (m: int)
    ensures m >= a && m >= b && (m == a || m == b)
  {
    if a >= b then a else b
  }
}
