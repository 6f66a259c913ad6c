/** The optional value the model uses wherever the C# code works with a nullable reference
    (a null `Keys` list, a null `Char`, a scan that found no entry). */
module Options {

  datatype Option<+T> = None | Some(value: T) {

    /** The wrapped value, or `fallback` when there is none: the model of C#'s `x ?? fallback`. */
    function OrElse(fallback: T): T {
      match this
      case Some(v) => v
      case None => fallback
    }

    /** This value when there is one, otherwise `other`: C#'s `x ?? y` on two nullables. */
    function Or(other: Option<T>): Option<T> {
      if Some? then this else other
    }
  }
}
