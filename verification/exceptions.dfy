/** The exceptions that can escape the decoder and the dispatcher. */
module Exceptions {
  datatype Error =
      /** `ParserError`: a header or payload checksum mismatch, with the
          checksum computed over the bytes read and the one the frame declared. */
    | ParserError(computed: nat, received: nat)
      /** `UnknownFrameTypeError`: a frame whose type code is not in the type
          table reached the dispatcher; carries the raw code. */
    | UnknownFrameTypeError(frameType: nat)
      /** A short read where four bytes were to be unpacked (Python's
          `struct.error`): the stream ended inside a header or a payload. */
    | Malformed
      /** An exception or stats frame without payload data (Python's
          `AttributeError` on `None.decode`). */
    | MissingPayload
      /** An exception or stats payload that is not UTF-8 JSON (Python's
          `UnicodeDecodeError` or `JSONDecodeError`). */
    | BadDocument
}
