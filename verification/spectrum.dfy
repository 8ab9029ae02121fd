/**
  Serialized intensity traces ("spectra") and the emptiness test used throughout
  the analysis.

  A trace is stored as the bytes of a bracketed, comma-separated list of numbers.
  Before parsing, the program cuts the first two bytes and the last byte off the
  stored value (Python's `b[2:-1]`), then hands the rest to NumPy's text parser.
  That parser is foreign numeric code, so here it is a parameter `parse` of every
  operation that needs it; the slicing in front of it is modelled exactly.
*/
module Spectrum {

  type Blob = seq<bv8>

  /** NumPy's `fromstring(..., sep=', ')`, left uninterpreted. */
  type Parser = Blob -> seq<real>

  /** Python's `b[2:-1]`: drops two leading bytes and one trailing byte, and is
      empty whenever the value has three bytes or fewer. */
  function Payload(b: Blob): (p: Blob)
    ensures |b| >= 3 ==> |p| == |b| - 3
    ensures |b| < 3 ==> p == []
    ensures forall k :: 0 <= k < |p| ==> p[k] == b[k + 2]
  {
    if |b| >= 3 then b[2..|b| - 1] else []
  }

  /** The decoded trace of a stored value. */
  function Decode(parse: Parser, b: Blob): seq<real>
  {
    parse(Payload(b))
  }

  /** NumPy's `np.all(a == 0)`: every sample is zero. Vacuously true of a
      zero-length trace, exactly as NumPy answers for an empty array. */
  predicate IsEmpty(trace: seq<real>)
  {
    forall k :: 0 <= k < |trace| ==> trace[k] == 0.0
  }

}
