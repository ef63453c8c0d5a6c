/** The few pieces of Python's runtime the extractor relies on: `None`,
    raised exceptions and `isinstance` checks in `except` clauses. */
module PyRuntime {

  /** A value or Python's `None`. */
  datatype Option<+T> = None | Some(value: T) {
    /** `getattr(obj, name, default)`-style defaulting. */
    function GetOr(default: T): T {
      match this
      case Some(v) => v
      case None => default
    }
  }

  /** The exception classes that the extractor names in an `except` clause or raises itself.
      Every exception is also an instance of the built-in `Exception`, so an
      `except Exception` clause catches every value of `Exception` below. */
  datatype ExceptionClass =
    | ValueError
    | TypeError
    | KeyError
    | IndexError
    | MutagenError
    | FileNotFoundError

  /** A raised exception: the set of named classes it is an instance of (a class may
      derive from several, as some of mutagen's errors derive from both `MutagenError`
      and `ValueError`) and the text that `str(e)` gives. */
  datatype Exception = Exception(classes: set<ExceptionClass>, message: string)

  /** `isinstance(e, c)` */
  predicate IsInstance(e: Exception, c: ExceptionClass) {
    c in e.classes
  }

  /** The result of evaluating a Python call: a returned value or a raised exception. */
  datatype Outcome<+T> = Returned(value: T) | Raised(exc: Exception)
}
