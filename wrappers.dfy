/** Option and Result values, and the failures the dashboard's pipeline can raise. */
module Wrappers {

  datatype Option<+T> = None | Some(value: T)

  /** Why a pipeline step stopped. Each corresponds to an exception the
      dashboard lets propagate (a KeyError, a ValueError or an AttributeError in pandas). */
  datatype Failure =
    | UnknownMetric(column: string)   // `data[column]` on a frame without that column
    | MissingJoinKey(column: string)  // a merge on a key column the frame does not have
    | NotNumeric(text: string)        // `astype(float)` on a text that is not a number
    | NotText(column: string)         // the `.str` accessor on a column whose dtype is numeric

  datatype Result<+T> = Success(value: T) | Fail(error: Failure)
}
