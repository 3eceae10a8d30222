/** Option and Result, the failure-carrying values used throughout the model. */
module Wrappers {

  datatype Option<+T> = None | Some(value: T)

  datatype Result<+T, +E> = Ok(value: T) | Err(error: E)
}

/**
 * The ways the two repair scripts stop. Every one of them is a Python exception
 * (or `sys.exit(1)`) in the scripts: the run aborts and nothing after it happens.
 */
module Errors {

  datatype Error =
    | NotFound(needle: string)                  // a locator found no directory; the script exits with status 1
    | BadDate(name: string)                     // strptime raised ValueError on an issue directory name
    | MissingAttribute(tag: string, name: string) // element.get(name) returned None and was then used
    | MissingElement(tag: string)               // root.find(...) returned None and was then used
    | MissingText(tag: string)                  // element.text was None and was then used
    | BadNumber(text: string)                   // int(...) raised ValueError
    | BadIndex(text: string)                    // text.split('/')[i] raised IndexError
    | Unreadable(path: string)                  // ET.parse could not read the file
}
