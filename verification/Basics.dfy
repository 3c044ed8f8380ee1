/** Small result types shared by every component. Error messages and SQLSTATE codes are not modelled. */
module Basics {

  datatype Option<+T> = None | Some(value: T)

  datatype Result<+T> = Err | Ok(value: T)

  /** `std::cmp::Ordering`. */
  datatype Ordering = Less | Equal | Greater {
    function Reverse(): Ordering {
      match this
      case Less => Greater
      case Equal => Equal
      case Greater => Less
    }
  }

  function CompareInt(a: int, b: int): Ordering {
    if a < b then Less else if a == b then Equal else Greater
  }
}
