/** `GrpcMessageToResultConverter.toMessage`: turns the response of the gRPC
    transport into the `ResultResponse` the older call sites consume.

    The protobuf parser `PResult.parseFrom` is a parameter: any function from
    bytes to either a parsed `PResult` or an `InvalidProtocolBufferException`.
 */
module ResultBridge {

  /** A Java `byte`, kept unsigned: only equality of bytes matters here. */
  newtype Byte = x: int | 0 <= x < 0x100

  /** The two fields of a parsed `PResult`. */
  datatype PResult = PResult(success: bool, message: string)

  /** What `PResult.parseFrom` returns or throws. */
  datatype ParseOutcome = Parsed(result: PResult) | InvalidProtocolBuffer(description: string)

  /** The argument of `toMessage(Object)`: null, a `ResponseMessage` carrying
      its payload bytes, or any other object. */
  datatype Input = Null | ResponseMessage(message: seq<Byte>) | OtherObject(className: string)

  /** A `ResultResponse`: what `isSuccess()` and `getMessage()` return. */
  datatype ResultResponse = ResultResponse(isSuccess: bool, getMessage: string)

  /** The three outcomes of `toMessage`: null (no match), a result, or an
      IllegalArgumentException whose cause is the parse error. */
  datatype Conversion =
    | NoMatch
    | Converted(response: ResultResponse)
    | IllegalArgument(cause: string, payload: seq<Byte>)

  /** `toMessage(Object)`. */
  function ToMessage(input: Input, parse: seq<Byte> -> ParseOutcome): (r: Conversion)
    ensures !input.ResponseMessage? <==> r.NoMatch?
    ensures input.ResponseMessage? && parse(input.message).Parsed? ==>
      && r.Converted?
      && r.response.isSuccess == parse(input.message).result.success
      && r.response.getMessage == parse(input.message).result.message
    ensures input.ResponseMessage? && parse(input.message).InvalidProtocolBuffer? ==>
      r == IllegalArgument(parse(input.message).description, input.message)
  {
    match input
    case ResponseMessage(bytes) =>
      (match parse(bytes)
       case Parsed(p) => Converted(ResultResponse(p.success, p.message))
       case InvalidProtocolBuffer(e) => IllegalArgument(e, bytes))
    case _ => NoMatch
  }

  /** A result is only ever built from a successful parse of the payload:
      a parse failure never turns into a default or successful result. */
  lemma ConvertedOnlyFromParsed(input: Input, parse: seq<Byte> -> ParseOutcome)
    ensures ToMessage(input, parse).Converted? <==> input.ResponseMessage? && parse(input.message).Parsed?
    ensures ToMessage(input, parse).IllegalArgument? <==> input.ResponseMessage? && parse(input.message).InvalidProtocolBuffer?
  {
  }

  /** For a `ResponseMessage` the outcome depends only on its payload bytes
      and on what the parser makes of them. */
  lemma OutcomeDependsOnlyOnPayload(a: Input, b: Input, p: seq<Byte> -> ParseOutcome, q: seq<Byte> -> ParseOutcome)
    requires a.ResponseMessage? && b.ResponseMessage? && a.message == b.message
    requires p(a.message) == q(b.message)
    ensures ToMessage(a, p) == ToMessage(b, q)
  {
  }
}
