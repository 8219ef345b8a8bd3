/**
 * The data model of the short-option scanner: argument modes, parsed flags
 * and the two error kinds.  Code points are Dafny `char`s (Unicode scalar
 * values), the same units Go's `[]rune` conversion yields; strings are
 * sequences of code points.
 */
module OptTypes {

  /** Whether an option takes no argument, a required one or an optional one. */
  datatype ArgMode = None | Required | Optional

  /** A parsed flag: the code point given on the command line and its value ("" when absent). */
  datatype Flag = Flag(key: char, value: string)

  /**
   * The two errors `Get` can report; each carries the offending code point
   * and compares structurally, as the Go error values do.
   */
  datatype OptError =
    | BadOptionError(r: char)    // a code point that is not registered
    | NoArgumentError(r: char)   // a required argument with nothing to take it from

  /** The whole outcome of a parse: the flags and `optind`, or an error (which carries no flags). */
  datatype Result = Ok(flags: seq<Flag>, optind: nat) | Err(error: OptError)

  /** The option table: every registered code point with its argument mode. */
  type Table = map<char, ArgMode>
}
