/** The error taxonomy of the codec and the shape of a partial decode. */
module Outcomes {
  import opened Ints
  import opened Wrappers

  /** Why an encode or a decode stopped. */
  datatype CodecError =
    | Truncated                            // the buffer ends inside a field
    | VarIntOverflow                       // a varint longer or larger than its integer width
    | VarIntNotMinimal                     // a multi-byte varint whose last byte is zero
    | BoundExceeded(count: nat, limit: nat) // a count prefix above the configured maximum
    | UnknownMessageType(id: nat)          // a discriminant outside the registry
    | InvalidBytes                         // `from_bytes` refused a fixed-width value
    | LengthOverflow                       // on encode, a length that does not fit in a `u32`
    | SliceOutOfRange                      // `&buffer[cursor..]` past the end: a panic in the source
    | ObjectError(code: nat)               // any other failure of a domain-object codec

  /** A decoded value and the cursor just after it. */
  datatype Parsed<+T> = Parsed(value: T, cursor: nat)

  type Decoded<T> = Result<Parsed<T>, CodecError>

  /** A value read off the front of the input and the input left after it. */
  datatype Taken<+T> = Taken(value: T, rest: seq<byte>)

  type Read<T> = Result<Taken<T>, CodecError>

  type Encoded = Result<seq<byte>, CodecError>
}
