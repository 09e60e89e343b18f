/** The error values the core reports. */
module Errors {
  import opened SignedBytes

  /** The static messages carried by `SCError::Static`. */
  datatype StaticMsg =
    | ArgWrongNumber        // err_msg::ARG_WRONG_NUMBER
    | ArgAsyncWrongNumber   // err_msg::ARG_ASYNC_WRONG_NUMBER
    | NotSupported          // the literal b"not supported"

  /** Why a byte string could not be decoded. */
  datatype DecodeError =
    | InputTooShort         // fewer bytes remain than the value needs
    | InputTooLong          // a fixed-width number received more bytes than it holds

  /** An encoding failure of some `Encode` type; the types modelled here never produce one. */
  datatype EncodeError = EncodeError(reason: seq<char>)

  /** The smart-contract error returned by loaders and serializers. */
  datatype SCError =
    | Static(msg: StaticMsg)
    | ArgDecodeErr(argId: seq<uint8>, err: DecodeError)
    | PushAsyncEncodeErr(encodeErr: EncodeError)
}
