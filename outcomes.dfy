/** Optional values, the errors the counter generator raises, and results that carry either. */
module Outcomes {

  datatype Option<+T> = None | Some(value: T)

  /** The errors raised by the counter generator, one constructor per `raise` site. */
  datatype Error =
    | ThemeNotFound(theme: string)                  // png.py: the theme directory does not exist
    | DigitImageMissing(theme: string, digit: char) // png.py: no extension matched this digit
    | NonPositiveSpeed                              // gif.py: speed multiplier <= 0
    | DigitGifMissing(digit: char)                  // gif.py: no <digit>.gif file
    | NoDigits                                      // gif.py: max() over an empty digit string
    | UnknownTheme(theme: string)                   // Generator.py: theme not in the registry
    | InvalidThemeChoice                            // main.py: theme number out of range or not a number

  datatype Result<+T> = Ok(value: T) | Err(error: Error)
}
