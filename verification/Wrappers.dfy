/** The usual optional value and result of a comparison. */
module Wrappers {
  datatype Option<+T> = None | Some(value: T)

  datatype Ordering = Less | Equal | Greater {
    function Flip(): Ordering {
      match this
      case Less => Greater
      case Equal => Equal
      case Greater => Less
    }

    /** This comparison, or the next one if it does not decide. */
    function Then(next: Ordering): Ordering {
      if this == Equal then next else this
    }
  }

  function Compare(a: int, b: int): Ordering {
    if a < b then Less else if a == b then Equal else Greater
  }
}
