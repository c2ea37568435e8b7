/** The records of utils/types.py that the core passes around. */
module Types {
  import opened Wrappers

  /** What an installer's `install` returns. */
  datatype InstallerResult = InstallerResult(success: bool, message: string, error: Option<string>)

  /** How one call that may raise ends: normally, or with an exception whose
      `str` is `text`. */
  datatype StepOutcome = Completes | Raises(text: string)
}
