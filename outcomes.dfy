/** Result wrappers shared by every part of the lister. */
module Outcomes {

  datatype Option<+T> = None | Some(value: T)

  /** An error reported by the filesystem (not-found, permission denied, ...); its contents are opaque. */
  datatype FsError = FsError(code: string)

  /**
   * What a callback-taking operation eventually delivers: a result, an error,
   * or nothing at all when its completion counter never reaches zero.
   */
  datatype Outcome<+T> = Ok(value: T) | Err(error: FsError) | NoCompletion
}
