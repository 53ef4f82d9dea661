/** The three ways a unit string can be refused. The source raises a plain
    ValueError for each; the model keeps them apart so that lemmas can say
    which one a given input produces. */
module Errors {

  datatype ParseError =
    | InvalidFormat(text: string)   // the text is not exactly "value unit"
    | NumericParse(token: string)   // the value token is not a float literal
    | UnknownUnit(symbol: string)   // the unit token resolves to no unit

  datatype Result<T> = Ok(value: T) | Err(error: ParseError)

  datatype Option<T> = None | Some(value: T)
}
