/** Optional values, the failures the splitter can raise, and a failure-compatible
    result type so that a chain of steps can be written with `:-`. */
module Results {

  /** Python's `None` or a value. */
  datatype Option<+T> = None | Some(value: T)

  /** The exceptions the index and split passes can end with. */
  datatype Error =
      /** PyPDF2's `getPage` raised `IndexError` while a page's text was being read. */
    | PageMissing(page: int)
      /** The text service gave no content for a page whose text was then used
          (`None.replace` or `None.split` raises `AttributeError`). */
    | NoPageText(page: int)
      /** `str.split('')` raises `ValueError`. */
    | EmptySeparator
      /** A chapter line needed `page_number` before any line had assigned it. */
    | UnboundPageNumber(line: string)
      /** The page-number queue was exhausted on the path where `IndexError` is not caught. */
    | NoPageNumberLeft(line: string)
      /** A split range reached past the end of the document; carries the source path,
          the attempted end page and the two artifact paths named in the message. */
    | TooFewPages(source: string, end: int, indexPath: string, dataPath: string)
      /** The index file was not on disk when the data file had to be generated. */
    | MissingIndexFile(source: string)
      /** The index structure lacks `chapters` or `offset`, or has the wrong shape there. */
    | MalformedIndex(indexPath: string)

  datatype Result<+T> = Ok(value: T) | Err(error: Error) {

    predicate IsFailure() {
      Err?
    }

    function PropagateFailure<U>(): Result<U>
      requires Err?
    {
      Err(error)
    }

    function Extract(): T
      requires Ok?
    {
      value
    }
  }
}
