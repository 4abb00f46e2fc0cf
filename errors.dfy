/** Failure-carrying values shared by every module of the model, and the
    exceptions the Python code raises, one constructor per raise site. */
module Errors {

  datatype Option<T> = None | Some(value: T)

  /** Why an operation failed. The Python class each one is raised as is
      given by ExceptionClass. */
  datatype Error =
    | NotADirectory(path: string)             // Merger.__init__, path is not a directory
    | NoFilesInDirectory(path: string)        // Merger.__init__, the walk found no file
    | NoDatabase                              // check_database before create_db
    | NoMatchingFiles(fileName: string)       // to_db*, no path ends with the file name
    | MultiHeaderNotMultiIndexed              // to_db*, several header rows but flat columns
    | InvalidMethod(name: string)             // _check_inputs, method not median or mean
    | MissingColumn(column: string)           // _check_inputs, key column not in the table
    | NonNumericFeatures(columns: seq<string>) // _check_featuredata, every offending column
    | NothingToCheck                          // _check_featuredata, numpy's vectorize on no dtype at all
    | NoGroupKeys                             // pandas groupby with an empty key list
    | EmptySeparator                          // str.split with an empty separator
    | NoLevels                                // MultiIndex.from_frame of a frame with no column

  function ExceptionClass(e: Error): (name: string)
    ensures name in {"NotADirectoryError", "RuntimeError", "ValueError", "HeaderError"}
  {
    match e
    case NotADirectory(_) => "NotADirectoryError"
    case NoFilesInDirectory(_) => "RuntimeError"
    case NoDatabase => "RuntimeError"
    case MultiHeaderNotMultiIndexed => "HeaderError"
    case _ => "ValueError"
  }

  datatype Result<T> = Ok(value: T) | Err(error: Error)

  datatype Outcome = Pass | Fail(error: Error)
}
