/** Small things that several modules share. */
module Basics {
  datatype Option<+T> = None | Some(value: T)

  // Where a stream comes from or goes to. An address that cannot be written down as host and
  // port is not valid.
  datatype Address = Address(host: string, port: int, valid: bool)
  datatype Endpoint = Endpoint(address: Address, id: int)
}
