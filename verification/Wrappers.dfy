/** What all parts of the model share. */
module Wrappers {

  datatype Option<T> = None | Some(value: T)

  function Bit(b: bool): (r: nat)
    ensures r <= 1 && (r == 1 <==> b)
  {
    if b then 1 else 0
  }
}
