// The IP protocol numbers the printers and parsers know by name.
module Protocols {

  const TCP: int := 6
  const UDP: int := 17
}
