/** The port the ProxyServer constructor gives its TcpListener. */
module Startup {
  import opened Wrappers
  import opened Decimal

  /** Why the constructor throws: Int32.Parse refuses the text, or TcpListener refuses a port
      outside 0..65535. */
  datatype StartupFault = NotANumber(text: string) | PortOutOfRange(port: int)

  const DefaultPort: int := 8081
  const MaxPort: int := 65535

  /** The listening port for the configured text: 8081 when it is null or empty, otherwise
      the text parsed by `parseInt32` (Int32.Parse), which must be a valid TCP port. */
  function ListenPort(port: Option<string>, parseInt32: string -> Option<int>): (r: Result<int, StartupFault>)
    ensures r.Success? ==> 0 <= r.value <= MaxPort
    ensures port.None? || port == Some("") ==> r == Success(DefaultPort)
    ensures port.Some? && port.value != "" ==>
      match parseInt32(port.value)
      case None => r == Failure(NotANumber(port.value))
      case Some(p) =>
        && (r.Success? <==> 0 <= p <= MaxPort)
        && (r.Success? ==> r.value == p)
        && (r.Failure? ==> r.error == PortOutOfRange(p))
  {
    match port
    case None => Success(DefaultPort)
    case Some(text) =>
      if text == "" then Success(DefaultPort)
      else match parseInt32(text)
        case None => Failure(NotANumber(text))
        case Some(p) => if 0 <= p <= MaxPort then Success(p) else Failure(PortOutOfRange(p))
  }

  /** Any text Int32.Parse reads as a valid port selects that port. */
  lemma PortTextSelectsPort(p: int, parseInt32: string -> Option<int>)
    requires 0 <= p <= MaxPort && parseInt32(IntText(p)) == Some(p)
    ensures ListenPort(Some(IntText(p)), parseInt32) == Success(p)
  {
  }

  /** A port written in decimal, read by the decimal reader, is the port listened on. */
  lemma DecimalPortSelectsPort(p: int)
    requires 0 <= p <= MaxPort
    ensures ListenPort(Some(IntText(p)), ParseIntText) == Success(p)
  {
    IntTextRoundTrip(p);
    PortTextSelectsPort(p, ParseIntText);
  }
}
