/** Why a run ends without producing a calendar */
module Errors {

  datatype Error =
    /** the HTTP status code was above 299 */
    | BadStatus(code: int)
    /** `success` was missing or falsy */
    | NotSuccess
    /** `results` was missing or empty */
    | EmptyResults
    /** the first result lacks this required field */
    | MissingField(field: string)
    /** the date library cannot represent a date after 9999-12-31 */
    | DateOutOfRange
}
