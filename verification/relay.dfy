/**
 * The device-facing relay call `doMovPost`: the movement codes, the plain-text
 * body "<code>,<magnitude>", and the device's URL found by looking the target
 * ID up in the registry.
 */
module Relay {
  import opened Wrappers
  import Decimal
  import Registration

  /** The `movCMD` constants: forward "f", backward "b", rotate "r". */
  datatype MovCode = Forward | Backward | Rotate

  function Code(c: MovCode): string {
    match c
    case Forward => "f"
    case Backward => "b"
    case Rotate => "r"
  }

  /** The code a single character stands for, if any. */
  function CodeOf(ch: char): Option<MovCode> {
    if ch == 'f' then Some(Forward)
    else if ch == 'b' then Some(Backward)
    else if ch == 'r' then Some(Rotate)
    else None
  }

  /** The wire body: the code, a comma, then the magnitude in decimal. */
  function Payload(c: MovCode, magnitude: int): (body: string)
    ensures |body| >= 3 && CodeOf(body[0]) == Some(c) && body[1] == ','
    ensures body[2..] == Decimal.Itoa(magnitude)
  {
    Code(c) + "," + Decimal.Itoa(magnitude)
  }

  /** How a device reads a body back: one code character, a comma, a decimal integer. */
  function ParsePayload(body: string): Option<(MovCode, int)> {
    if |body| >= 3 && body[1] == ',' && CodeOf(body[0]).Some? && Decimal.Atoi(body[2..]).Some?
    then Some((CodeOf(body[0]).value, Decimal.Atoi(body[2..]).value))
    else None
  }

  /** The body determines the command and magnitude it was built from. */
  lemma PayloadRoundTrip(c: MovCode, magnitude: int)
    ensures ParsePayload(Payload(c, magnitude)) == Some((c, magnitude))
  {
    var body := Payload(c, magnitude);
    assert body[2..] == Decimal.Itoa(magnitude);
    Decimal.ItoaRoundTrip(magnitude);
  }

  /** The URL the relay posts to for a device address. */
  function MovUrl(address: string): (url: string)
    ensures |url| == |address| + 11
    ensures url[..7] == "http://" && url[|url| - 4..] == "/mov"
    ensures url[7..|url| - 4] == address
  {
    "http://" + address + "/mov"
  }

  /** An HTTP POST of a text body to a URL. */
  datatype Request = Request(url: string, body: string)

  /** The request doMovPost sends, or None when no device has that ID. */
  function MovRequest(bot: seq<string>, c: MovCode, magnitude: int, botID: int): (r: Option<Request>)
    ensures r.Some? <==> 0 <= botID < |bot|
    ensures r.Some? ==> r.value.url == MovUrl(bot[botID])
    ensures r.Some? ==> ParsePayload(r.value.body) == Some((c, magnitude))
  {
    PayloadRoundTrip(c, magnitude);
    match Registration.Resolve(bot, botID)
    case Some(address) => Some(Request(MovUrl(address), Payload(c, magnitude)))
    case None => None
  }

  /**
   * A relay to an ID answered by a registration reaches the address that
   * registration reported, and carries a body that decodes to the command.
   */
  lemma RelayReachesRegisteredDevice(d: Registration.Devices, req: Registration.RegRequest, c: MovCode, magnitude: int)
    ensures var (d', id) := Registration.Registered(d, req);
      var r := MovRequest(d'.bot, c, magnitude, id);
      r.Some? && r.value.url == MovUrl(req.ip)
      && ParsePayload(r.value.body) == Some((c, magnitude))
  {
    Registration.RegisteredResolves(d, req);
    PayloadRoundTrip(c, magnitude);
  }
}
