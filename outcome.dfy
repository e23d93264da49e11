/**
 * The mod manager stops the whole program through `handle_fatal` (which calls
 * `sys.exit`) when a step cannot go on. The model returns the reason instead.
 */
module Outcome {

  /** The message keys the program passes to `handle_fatal`. */
  datatype Reason =
    | NoModsFound    // no mod entry in the profile or in the list file
    | FormatError    // the profile has no `active_mods:` count line
    | DecryptFailed  // the SII_Decrypt tool exited with a non-zero status

  datatype Result<T> = Ok(value: T) | Fatal(reason: Reason)

  datatype Option<T> = None | Some(value: T)
}
