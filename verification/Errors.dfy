/** Result codes and small containers shared by the application modules. */
module Errors {
  datatype Option<+T> = None | Some(value: T)

  /** The parser_error_t codes the modelled code returns. */
  datatype ParserError =
    | ParserOk | NoData | InitContextEmpty | UnexpectedError | UnexpectedUnparsedBytes
    | UnexpectedBufferEnd | UnexpectedValue | UnexpectedVersion | ValueOutOfRange
    | UnexpectedMethodSelector

  /** The zxerr_t codes the modelled code returns. */
  datatype ZxError = ZxOk | ZxUnknown | ZxNoData | ZxInvalidCryptoSettings | ZxEncodingFailed
}
