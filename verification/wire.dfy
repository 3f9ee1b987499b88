/** The Thrift protocol as an abstract token stream.

    The generated structs talk to a `TProtocol` through a handful of calls:
    `readFieldBegin`/`writeFieldBegin` (a field header: id and type tag),
    `writeFieldStop` (the STOP marker that ends a struct), `readI32`,
    `readI64`, `readString` and their writers, `TProtocolUtil.skip`, and, in
    the tuple scheme, `readBitSet`/`writeBitSet`. Each of those moves exactly
    one token of this stream. The byte encodings of the concrete protocols are
    not modelled: a header, a value, the STOP marker and a bit set are each one
    token, and a value of a container or struct type is one opaque token.
 */
module Wire {
  import opened JavaTypes

  /** Type tags the modelled structs only ever skip. */
  datatype OtherType = Bool | Byte | Double | I16 | Struct | Map | Set | List

  /** A non-STOP `TType`: the three the modelled structs decode, and the rest.
      STOP is not a tag here: it is its own token, `FieldStop`. */
  datatype TType = TI32 | TI64 | TString | TOther(kind: OtherType)

  /** One value on the wire. */
  datatype Value = I32Value(i: Int32) | I64Value(l: Int64) | StringValue(s: JString) | OtherValue(kind: OtherType)

  /** The type tag a value is written under. */
  function TypeOf(v: Value): TType {
    match v
    case I32Value(_) => TI32
    case I64Value(_) => TI64
    case StringValue(_) => TString
    case OtherValue(k) => TOther(k)
  }

  datatype Token =
    | FieldBegin(id: Int16, ttype: TType)
    | FieldStop
    | Val(v: Value)
    | BitSet(bits: seq<bool>)

  /** What a read fails with when the stream does not hold what it expects. */
  datatype ProtocolError = EndOfStream | UnexpectedToken(found: Token)

  datatype Result<+T> = Ok(value: T) | Err(error: ProtocolError) {
    predicate IsFailure() {
      Err?
    }

    function PropagateFailure<U>(): Result<U>
      requires Err?
    {
      Err(error)
    }

    function Extract(): T
      requires Ok?
    {
      value
    }
  }

  /** `readI32`: consumes one I32 value. */
  function ReadI32(toks: seq<Token>): (r: Result<(Int32, seq<Token>)>)
    ensures r.Ok? <==> |toks| > 0 && toks[0].Val? && toks[0].v.I32Value?
    ensures r.Ok? ==> toks == [Val(I32Value(r.value.0))] + r.value.1
  {
    if |toks| == 0 then Err(EndOfStream)
    else match toks[0]
      case Val(I32Value(x)) => Ok((x, toks[1..]))
      case t => Err(UnexpectedToken(t))
  }

  /** `readI64`: consumes one I64 value. */
  function ReadI64(toks: seq<Token>): (r: Result<(Int64, seq<Token>)>)
    ensures r.Ok? <==> |toks| > 0 && toks[0].Val? && toks[0].v.I64Value?
    ensures r.Ok? ==> toks == [Val(I64Value(r.value.0))] + r.value.1
  {
    if |toks| == 0 then Err(EndOfStream)
    else match toks[0]
      case Val(I64Value(x)) => Ok((x, toks[1..]))
      case t => Err(UnexpectedToken(t))
  }

  /** `readString`: consumes one STRING value; it is never null. */
  function ReadString(toks: seq<Token>): (r: Result<(JString, seq<Token>)>)
    ensures r.Ok? <==> |toks| > 0 && toks[0].Val? && toks[0].v.StringValue?
    ensures r.Ok? ==> toks == [Val(StringValue(r.value.0))] + r.value.1
  {
    if |toks| == 0 then Err(EndOfStream)
    else match toks[0]
      case Val(StringValue(x)) => Ok((x, toks[1..]))
      case t => Err(UnexpectedToken(t))
  }

  /** `TProtocolUtil.skip`: consumes exactly one value of the given type. */
  function Skip(toks: seq<Token>, t: TType): (r: Result<seq<Token>>)
    ensures r.Ok? <==> |toks| > 0 && toks[0].Val? && TypeOf(toks[0].v) == t
    ensures r.Ok? ==> toks == [toks[0]] + r.value
  {
    if |toks| == 0 then Err(EndOfStream)
    else match toks[0]
      case Val(v) => if TypeOf(v) == t then Ok(toks[1..]) else Err(UnexpectedToken(toks[0]))
      case t => Err(UnexpectedToken(t))
  }

  /** `readBitSet(width)`: consumes a bit set of the given width. */
  function ReadBitSet(toks: seq<Token>, width: nat): (r: Result<(seq<bool>, seq<Token>)>)
    ensures r.Ok? <==> |toks| > 0 && toks[0].BitSet? && |toks[0].bits| == width
    ensures r.Ok? ==> |r.value.0| == width && toks == [BitSet(r.value.0)] + r.value.1
  {
    if |toks| == 0 then Err(EndOfStream)
    else match toks[0]
      case BitSet(bits) => if |bits| == width then Ok((bits, toks[1..])) else Err(UnexpectedToken(toks[0]))
      case t => Err(UnexpectedToken(t))
  }

  /** Complete field blocks, each a header carrying the value's own type tag
      followed by the value, given as (field id, value) pairs. */
  function FieldBlocks(es: seq<(Int16, Value)>): seq<Token> {
    if es == [] then [] else [FieldBegin(es[0].0, TypeOf(es[0].1)), Val(es[0].1)] + FieldBlocks(es[1..])
  }
}
