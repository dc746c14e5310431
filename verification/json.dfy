/** The read side of serialisation. JSON itself is not modelled: the
    `Empty()` string test and the JSON parser are collaborators passed in as
    functions, and only the cache's own branch around them is stated. */
module Json {
  import opened Types

  /** The exception the JSON parser throws for a payload it cannot read. */
  datatype JsonError = JsonError(message: string)

  /** The two collaborators a read uses: the `Empty()` string extension and
      the parser for the caller's type `T`. The parser yields `None` for a
      payload that denotes `null`. */
  datatype Reader<T> = Reader(empty: string -> bool, parse: string -> Result<Maybe<T>, JsonError>) {

    /** What is assumed of `Empty()` on a present payload: it holds of the
        empty string. That it also holds of `null` is built into
        `Deserialize`, which answers an absent payload without asking. */
    predicate Valid() {
      empty("")
    }
  }

  /** `Deserialize`: an absent or empty payload is the default (`null`)
      value; any other payload is handed to the parser, whose exception, if
      any, is not caught. */
  function Deserialize<T>(reader: Reader<T>, payload: Maybe<string>): (r: Result<Maybe<T>, JsonError>)
    ensures payload.None? ==> r == Success(None)
    ensures reader.Valid() && payload == Some("") ==> r == Success(None)
    ensures r.Failure? ==> payload.Some? && !reader.empty(payload.value)
    ensures r.Success? && r.value.Some? ==> payload.Some? && !reader.empty(payload.value)
  {
    if payload.None? || reader.empty(payload.value) then Success(None)
    else reader.parse(payload.value)
  }

  /** On an empty or absent payload the parser is never consulted: any two
      parsers give the same answer. */
  lemma DeserializeEmptySkipsParser<T>(empty: string -> bool,
                                       parse1: string -> Result<Maybe<T>, JsonError>,
                                       parse2: string -> Result<Maybe<T>, JsonError>,
                                       payload: Maybe<string>)
    requires payload.None? || empty(payload.value)
    ensures Deserialize(Reader(empty, parse1), payload) == Deserialize(Reader(empty, parse2), payload) == Success(None)
  {
  }

  /** A payload that is present and not empty is exactly what the parser
      makes of it. */
  lemma DeserializeDelegatesToParser<T>(reader: Reader<T>, payload: string)
    requires !reader.empty(payload)
    ensures Deserialize(reader, Some(payload)) == reader.parse(payload)
  {
  }
}
