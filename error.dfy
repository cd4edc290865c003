/** The return-code wrapper: a C status `i32` as a two-outcome result carrying the code. */
module Error {
  import opened Ints
  import opened Wrappers

  /** `Errno`, a transparent wrapper around a status code. Equality is the derived one. */
  datatype Errno = Errno(code: i32)

  /** `IntoResult::ok` for `i32`: zero is success, any other code is an `Errno` carrying it. */
  function IntoResult(v: i32): (r: Result<(), Errno>)
    ensures r.Ok? <==> v == 0
    ensures r.Err? ==> I32FromErrno(r.error) == v
  {
    if v == 0 then Ok(()) else Err(Errno(v))
  }

  /** `impl From<i32> for Errno`. */
  function ErrnoFromI32(i: i32): (e: Errno)
    ensures I32FromErrno(e) == i
  {
    Errno(i)
  }

  /** `impl From<Errno> for i32`. */
  function I32FromErrno(e: Errno): (i: i32)
    ensures e == Errno(i)
  {
    e.code
  }

  /** `impl PartialEq<i32> for Errno`. */
  function EqI32(e: Errno, other: i32): (b: bool)
    ensures b <==> I32FromErrno(e) == other
  {
    e.code == other
  }

  /** The two `From` conversions are inverse to each other. */
  lemma ConversionsRoundTrip(i: i32, e: Errno)
    ensures I32FromErrno(ErrnoFromI32(i)) == i
    ensures ErrnoFromI32(I32FromErrno(e)) == e
  {
  }

  /** Comparing with an `i32` agrees with the derived equality of `Errno`s. */
  lemma EqI32IsErrnoEquality(e: Errno, other: i32)
    ensures EqI32(e, other) <==> e == ErrnoFromI32(other)
  {
  }

  /** A failed result carries exactly the code it was made from, and only non-zero codes fail. */
  lemma IntoResultErr(v: i32, e: Errno)
    ensures IntoResult(v) == Err(e) <==> v != 0 && e == ErrnoFromI32(v)
  {
  }
}
