/** The four colour channels of a pixel, shared by both pixel layouts. */
module Channels {
  datatype Channel = Red | Green | Blue | Alpha

  /** The position of channel c in R, G, B, A order. */
  function Index(c: Channel): (i: nat)
    ensures i < 4
  {
    match c
    case Red => 0
    case Green => 1
    case Blue => 2
    case Alpha => 3
  }
}
