/**
 The `regex` path converter: it carries the pattern written in the
 route (`<regex("a.*"):name>`) so that the router only dispatches
 segments matching it. Construction takes the extra route arguments and
 keeps the first as the pattern; with no extra argument it fails.
 */
module RegexConverter {

  class Converter {
    /** The pattern the router matches the segment against; never reassigned. */
    const regex: string

    /** Construction with at least one extra route argument. */
    constructor (items: seq<string>)
      requires |items| >= 1
      ensures regex == items[0]
    {
      regex := items[0];
    }
  }

  /** The outcome of building a converter from the route's extra arguments. */
  datatype Construction = Built(converter: Converter) | IndexError

  /**
   Building a converter from any number of extra arguments: the first one
   becomes the pattern, and an empty argument list fails as indexing it does.
   */
  method Construct(items: seq<string>) returns (r: Construction)
    ensures r.IndexError? <==> |items| == 0
    ensures r.Built? ==> fresh(r.converter) && r.converter.regex == items[0]
  {
    if |items| == 0 {
      r := IndexError;
    } else {
      var c := new Converter(items);
      r := Built(c);
    }
  }
}
