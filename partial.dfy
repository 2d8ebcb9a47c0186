/** `PartialParseResult`: a parsed value together with the error that stopped parsing, if any. */
module Partial {
  import opened Wrappers

  datatype PartialParseResult<P, E> = PartialParseResult(parsed: P, error: Option<E>)

  /** `new_complete`: a result without error. */
  function NewComplete<P, E>(parsed: P): (r: PartialParseResult<P, E>)
    ensures !HasError(r) && r.parsed == parsed
    ensures TryIntoComplete(r) == Ok(parsed)
  {
    PartialParseResult(parsed, None)
  }

  /** `new_partial`: a result that carries the error which stopped parsing. */
  function NewPartial<P, E>(parsed: P, error: E): (r: PartialParseResult<P, E>)
    ensures HasError(r) && r.parsed == parsed
    ensures TryIntoComplete(r) == Err(error)
  {
    PartialParseResult(parsed, Some(error))
  }

  /** `try_into_complete` (also the `From` conversion into `Result`). */
  function TryIntoComplete<P, E>(r: PartialParseResult<P, E>): (c: Result<P, E>)
    ensures c.Ok? <==> !HasError(r)
    ensures c.Ok? ==> c.value == r.parsed
    ensures c.Err? ==> r.error == Some(c.error)
  {
    match r.error
    case Some(e) => Err(e)
    case None => Ok(r.parsed)
  }

  /** `into_partial` (also the `From` conversion into a pair). */
  function IntoPartial<P, E>(r: PartialParseResult<P, E>): (pair: (P, Option<E>))
    ensures FromPair(pair) == r
  {
    (r.parsed, r.error)
  }

  /** `From<(Parsed, Option<Error>)>`. */
  function FromPair<P, E>(pair: (P, Option<E>)): (r: PartialParseResult<P, E>)
    ensures r.parsed == pair.0 && (HasError(r) <==> pair.1.Some?)
  {
    PartialParseResult(pair.0, pair.1)
  }

  /** `has_error` */
  predicate HasError<P, E>(r: PartialParseResult<P, E>) {
    r.error.Some?
  }

  /** Building from a pair and then taking it apart again is the identity. */
  lemma PairRoundTrip<P, E>(pair: (P, Option<E>))
    ensures IntoPartial(FromPair(pair)) == pair
  {
  }
}
