/** The `/wake` request handler (`parseAddr`) and the send step (`sendWol`):
    which HTTP outcome each request gets, and which datagram it writes.
    The library calls are oracles: ParseMAC is a function parameter, and the
    success of the UDP dial and of the write are boolean inputs. */
module WakeHandler {

  import opened Wrappers
  import opened MagicPacket

  /** What the handler leaves in the ResponseWriter: nothing (net/http then
      answers 200 with an empty body), or one `http.Error(w, body, status)`. */
  datatype Response = NoErrorWritten | HttpError(status: int, body: string)

  /** The response, and the buffer handed to `conn.Write`, if one was. */
  datatype Outcome = Outcome(response: Response, written: Option<seq<bv8>>)

  /** The `addr` entry of the parsed query string. A key that is present
      always has at least one value in Go's url.Values. */
  datatype AddrParam = Absent | Present(first: string, rest: seq<string>)

  /** The oracle standing for Go's `net.ParseMAC`. */
  type MacParser = string -> Option<seq<bv8>>

  const MissingAddrBody: string := "missing 'addr' argument"
  const SocketErrorBody: string := "Socket error"
  const IoErrorBody: string := "I/O error"

  /** `fmt.Sprintf("'%s' is not a valid MAC address", text)` */
  function InvalidAddressBody(text: string): string
  {
    "'" + text + "' is not a valid MAC address"
  }

  /** `sendWol`: dial, build the packet, write it. */
  function SendWolOutcome(hwaddr: seq<bv8>, dialOk: bool, writeOk: bool): Outcome
  {
    if !dialOk then Outcome(HttpError(500, SocketErrorBody), None)
    else if !writeOk then Outcome(HttpError(500, IoErrorBody), Some(Packet(hwaddr)))
    else Outcome(NoErrorWritten, Some(Packet(hwaddr)))
  }

  /** `parseAddr`: look up `addr`, parse its first value, then send. */
  function ParseAddrOutcome(addr: AddrParam, parseMac: MacParser, dialOk: bool, writeOk: bool): Outcome
  {
    match addr
    case Absent => Outcome(HttpError(400, MissingAddrBody), None)
    case Present(first, _) =>
      match parseMac(first)
      case None => Outcome(HttpError(400, InvalidAddressBody(first)), None)
      case Some(hwaddr) => SendWolOutcome(hwaddr, dialOk, writeOk)
  }

  /** The parsed address, when the request gets as far as sending. */
  function Parsed(addr: AddrParam, parseMac: MacParser): Option<seq<bv8>>
  {
    if addr.Present? then parseMac(addr.first) else None
  }

  // ---------------------------------------------------------------------
  // The handler's steps

  method SendWol(hwaddr: seq<bv8>, dialOk: bool, writeOk: bool) returns (o: Outcome)
    ensures o == SendWolOutcome(hwaddr, dialOk, writeOk)
  {
    if !dialOk {
      return Outcome(HttpError(500, SocketErrorBody), None);
    }
    var p := BuildPacket(hwaddr);
    if !writeOk {
      return Outcome(HttpError(500, IoErrorBody), Some(p[..]));
    }
    return Outcome(NoErrorWritten, Some(p[..]));
  }

  method ParseAddr(addr: AddrParam, parseMac: MacParser, dialOk: bool, writeOk: bool) returns (o: Outcome)
    ensures o == ParseAddrOutcome(addr, parseMac, dialOk, writeOk)
  {
    if !addr.Present? {
      return Outcome(HttpError(400, MissingAddrBody), None);
    }
    var hwaddr := parseMac(addr.first);
    if hwaddr.None? {
      return Outcome(HttpError(400, InvalidAddressBody(addr.first)), None);
    }
    o := SendWol(hwaddr.value, dialOk, writeOk);
  }

  // ---------------------------------------------------------------------
  // What each request gets

  /** Without `addr` the answer is 400 "missing 'addr' argument" and nothing
      is sent, whatever the network would have done. */
  lemma MissingAddr(parseMac: MacParser, dialOk: bool, writeOk: bool)
    ensures ParseAddrOutcome(Absent, parseMac, dialOk, writeOk) ==
      Outcome(HttpError(400, "missing 'addr' argument"), None)
  {
  }

  /** An unparsable first value is echoed back in a 400 and nothing is sent. */
  lemma InvalidAddress(first: string, rest: seq<string>, parseMac: MacParser, dialOk: bool, writeOk: bool)
    requires parseMac(first).None?
    ensures ParseAddrOutcome(Present(first, rest), parseMac, dialOk, writeOk) ==
      Outcome(HttpError(400, "'" + first + "' is not a valid MAC address"), None)
  {
  }

  /** Only the first `addr` value matters; later ones are ignored. */
  lemma OnlyFirstValueConsidered(first: string, rest1: seq<string>, rest2: seq<string>,
                                  parseMac: MacParser, dialOk: bool, writeOk: bool)
    ensures ParseAddrOutcome(Present(first, rest1), parseMac, dialOk, writeOk) ==
            ParseAddrOutcome(Present(first, rest2), parseMac, dialOk, writeOk)
  {
  }

  /** A failed dial gives 500 "Socket error" before any packet is built. */
  lemma DialFailure(addr: AddrParam, parseMac: MacParser, writeOk: bool)
    requires Parsed(addr, parseMac).Some?
    ensures ParseAddrOutcome(addr, parseMac, false, writeOk) == Outcome(HttpError(500, "Socket error"), None)
  {
  }

  /** A failed write gives 500 "I/O error", after the magic packet was handed over. */
  lemma WriteFailure(addr: AddrParam, parseMac: MacParser)
    requires Parsed(addr, parseMac).Some?
    ensures ParseAddrOutcome(addr, parseMac, true, false) ==
      Outcome(HttpError(500, "I/O error"), Some(Packet(Parsed(addr, parseMac).value)))
  {
  }

  /** The status classes: 400 exactly for a missing or unparsable address,
      500 exactly for a network failure after a good parse, and no error
      exactly when all four steps succeed. */
  lemma StatusClassification(addr: AddrParam, parseMac: MacParser, dialOk: bool, writeOk: bool)
    ensures var r := ParseAddrOutcome(addr, parseMac, dialOk, writeOk).response;
      && (r.HttpError? && r.status == 400 <==> Parsed(addr, parseMac).None?)
      && (r.HttpError? && r.status == 500 <==> Parsed(addr, parseMac).Some? && !(dialOk && writeOk))
      && (r == NoErrorWritten <==> Parsed(addr, parseMac).Some? && dialOk && writeOk)
  {
  }

  /** A datagram is written exactly when parsing and dialling succeed, and it
      is always the 102-byte magic packet of the parsed address; for a
      6-byte address it is a well-formed magic packet for that address. */
  lemma WrittenDatagram(addr: AddrParam, parseMac: MacParser, dialOk: bool, writeOk: bool)
    ensures var o := ParseAddrOutcome(addr, parseMac, dialOk, writeOk);
      && (o.written.Some? <==> Parsed(addr, parseMac).Some? && dialOk)
      && (o.written.Some? ==> |o.written.value| == PacketLen)
      && (o.written.Some? && |Parsed(addr, parseMac).value| == SlotLen ==>
            IsMagicPacketFor(o.written.value, Parsed(addr, parseMac).value))
  {
    var o := ParseAddrOutcome(addr, parseMac, dialOk, writeOk);
    if o.written.Some? {
      var hwaddr := Parsed(addr, parseMac).value;
      PacketLength(hwaddr);
      if |hwaddr| == SlotLen {
        MagicPacketCharacterised(o.written.value, hwaddr);
      }
    }
  }

  /** The worked example: a request for 01:23:45:67:89:ab that ParseMAC
      accepts and the network carries gets no error, and every slot of the
      datagram holds 01 23 45 67 89 ab. */
  lemma ExampleRequest(parseMac: MacParser, k: nat)
    requires parseMac("01:23:45:67:89:ab") == Some([0x01, 0x23, 0x45, 0x67, 0x89, 0xab])
    requires 1 <= k <= Repetitions
    ensures var o := ParseAddrOutcome(Present("01:23:45:67:89:ab", []), parseMac, true, true);
      && o.response == NoErrorWritten
      && o.written.Some? && |o.written.value| == PacketLen
      && o.written.value[SlotStart(k)..SlotStart(k) + SlotLen] == [0x01, 0x23, 0x45, 0x67, 0x89, 0xab]
  {
    AddressRecoverable([0x01, 0x23, 0x45, 0x67, 0x89, 0xab], k);
  }
}
