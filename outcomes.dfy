/**
 Option and result types shared by the loader model, and the loader's
 error taxonomy (the exception classes of lib/loader.py that are raised).
 */
module Outcomes {

  datatype Option<T> = None | Some(value: T)

  /** Why an import request was refused (LoaderImportError). */
  datatype ImportFailure =
    | RelativeOnly          // the import name starts with '/'
    | ExtensionNotAllowed   // the resolved extension is not among the valid ones
    | FileMissing           // the resolved file does not exist
    | SymbolNotFound        // an explicit export names a key absent from the module

  datatype Error =
    | NotInSources                   // LoaderNotInSourcesException
    | AssertionFailure               // a bare Python assert that fails
    | ImportError(reason: ImportFailure)
    | LoopDetected                   // LoaderLoopException
    | KeyError(key: string)          // a dependency target with no node of its own
    | MisplacedWildcard              // '*' inside a list with other entries

  datatype Result<T> = Ok(value: T) | Err(error: Error)

  /** The result of an operation that returns nothing (Python `None`) or raises. */
  datatype Outcome = Pass | Fail(error: Error)
}
