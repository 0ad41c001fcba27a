/** The exceptions the loader can raise, as values. */
module Errors {
  import opened Json

  datatype Error =
      /** libzip_runtime_error / libzip_failure: a libzip error, by its zip_error_t code */
    | LibzipError(code: int)
      /** file_format_error(what, value): a manifest that breaks the format's rules */
    | FormatError(what: string, culprit: Json)
      /** boost::json's as_X on a value of another kind */
    | JsonTypeError(expected: Kind)
      /** array::operator[] past the end of the array */
    | IndexOutOfRange(index: nat)
      /** the manifest bytes are not JSON text */
    | ParseError
      /** std::bad_cast: dynamic_cast to a reference of a class the object is not */
    | BadCast
}
