/** Optional values and results with an error, shared by the other modules. */
module Results {

  datatype Option<+T> = None | Some(value: T)

  /** `Err` stands for a Python exception that ends the script. */
  datatype Result<+T, +E> = Ok(value: T) | Err(error: E)

  /** The Python exceptions that the per-page code can raise; each ends the script. */
  datatype Crash =
    | NoLetterAfterPrice  // `re.search` found no `[^\W\d]`, so `match.start()` fails on None
    | ColumnsDiffer       // `pd.DataFrame` is given columns of different lengths
}
