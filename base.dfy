/** Option and Result wrappers, and the two Python exceptions the core can raise. */
module Base {

  datatype Option<+T> = None | Some(value: T)

  /** The exceptions that escape the modelled code: a missing dictionary key
      (`entry["acronym"]`), a rejected argument (`n` of the close-match
      oracle) and a missing method (`.values()` on a root that is no mapping). */
  datatype Error = KeyError(key: string) | ValueError(message: string) | AttributeError(name: string)

  datatype Result<+T> = Ok(value: T) | Err(error: Error)
}
