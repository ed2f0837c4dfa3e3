/** The error type of the theme module. */
module ThemeErrors {
  import opened Fs

  /** The payloads of the two wrapped foreign errors (an I/O error and an
      INI parse error) are not modelled. */
  datatype ThemeError =
    | ThemeIndexNotFound(path: Path)
    | IoError
    | IniError

  datatype Result<T> = Ok(value: T) | Err(error: ThemeError)
}
