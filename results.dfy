/** Outcome types shared by the parsers and the network list.
    Python signals a malformed address, mask or query by raising `ValueError`
    (or one of its subclasses); here that becomes an explicit error value. */
module Results {

  datatype Option<+T> = None | Some(value: T)

  /** Why a string was refused, carrying the offending text. */
  datatype ParseError =
    | NotANetwork(entry: string)       // `ip_network(entry, strict=False)` refused it
    | NotAnIpv4Network(query: string)  // `IPv4Network(query)` refused it

  datatype Result<+T> = Ok(value: T) | Err(error: ParseError)
}
