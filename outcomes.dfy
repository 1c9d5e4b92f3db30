/** Optional values and results standing for the Python exceptions the modelled code raises. */
module Outcomes {

  datatype Option<+T> = None | Some(value: T)

  /** The exceptions the modelled functions raise, with the datum the message names. */
  datatype Error =
    | KeyError(key: string)           // a dict lookup with a missing string key
    | ClassKeyError(value: int)       // class_mapping[color] with a pixel value that has no class
    | ValueError(message: string)
    | IndexError
    | TypeError
    | FileNotFoundError(path: string) // the path named in the exception message

  /** Either the value a Python function returns or the exception it raises. */
  datatype Result<+T> = Success(value: T) | Failure(error: Error)
}
