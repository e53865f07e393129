/** What several modules share. */
module Wrappers {

  datatype Option<+T> = None | Some(value: T) {
    function GetOr(default: T): T { if Some? then value else default }
  }

  type Byte = b: nat | b < 0x100

  function Zeros(n: nat): seq<Byte> { seq(n, _ => 0) }
}
