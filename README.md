# Wake-on-HTTP in Dafny

A model of `woh` (Wake-on-HTTP), a small Go service. It answers `/wake?addr=<MAC>` by broadcasting a Wake-on-LAN "magic packet" over UDP to `255.255.255.255:9`. The packet follows AMD's Magic Packet Technology format: six `0xFF` bytes, then the target hardware address repeated sixteen times, 102 bytes in all.

The project has three modules:

- `Wrappers` (`wrappers.dfy`): an `Option` datatype.
- `MagicPacket` (`magic_packet.dfy`): the packet layout and its construction.
  - `Packet(hwaddr)` is the specification: `Header() + Repeat(Slot(hwaddr), 16)`.
  - `Slot` gives what Go's `copy` leaves in a zero-filled 6-byte slot: the first `min(6, len(hwaddr))` address bytes, then zeros.
  - `IsMagicPacketFor` is an independent, slot-wise description of a well-formed packet.
  - `BuildPacket` is the in-place construction. It works on an `array<bv8>` made by `new bv8[102](_ => 0)`, which stands for Go's zero-filling `make`, and uses the two counted loops of `sendWol`. `CopyInto` models Go's built-in `copy` on a sub-slice.
- `WakeHandler` (`wake_handler.dfy`): the response each request gets.
  - `ParseAddrOutcome` and `SendWolOutcome` are pure functions over abstract inputs. For `parseAddr` these are the `addr` entry of the query and a `net.ParseMAC` oracle. For `sendWol` they are whether the dial and the write succeeded.
  - The methods `ParseAddr` and `SendWol` follow the Go control flow, with its early returns. `SendWol` calls `BuildPacket`. Each method is proved equal to its function.
  - An `Outcome` holds the HTTP response and the buffer handed to `conn.Write`, if any. The response is `NoErrorWritten` (net/http then answers 200 with an empty body) or `HttpError(status, body)`.

The handler never checks the length of the parsed address. `net.ParseMAC` also accepts 8- and 20-byte addresses, and `copy` then truncates each slot to the first six bytes (`LongAddressTruncated`). A shorter address would leave zeros in each slot (`PacketSlotByte`).

## Model

| member | source | states |
|---|---|---|
| MagicPacket.SlotAt | wakeonhttp.go:46-51 | byte j of a slot is address byte j if the address has one, else the buffer's initial 0 |
| MagicPacket.RepeatAt | wakeonhttp.go:50-52 | sixteen repeated slots are 6·16 bytes long, and byte i of them is byte i mod 6 of the slot |
| MagicPacket.PacketLength | wakeonhttp.go:42-46 | the packet is exactly 6 + 6·16 = 102 bytes for every address |
| MagicPacket.PacketByteAt | wakeonhttp.go:46-52 | byte i < 102 is 0xFF in the header and byte i mod 6 of the slot after it |
| MagicPacket.PacketHeader | wakeonhttp.go:47-49 | bytes 0..5 are all 0xFF |
| MagicPacket.PacketSlotByte | wakeonhttp.go:46-52 | for slots k in 1..16 and j < 6, byte 6k+j is hwaddr[j] when j < len(hwaddr), and 0 otherwise |
| MagicPacket.SlotsPartitionPayload | wakeonhttp.go:50-51 | slots [6k, 6k+6) for k in 1..16 are in bounds and pairwise disjoint, and together they cover exactly bytes 6..101, each byte in slot i/6 only |
| MagicPacket.LongAddressTruncated | wakeonhttp.go:50-51 | an address of 6 or more bytes gives the same packet as its first six bytes |
| MagicPacket.SixByteAddressRepeated | wakeonhttp.go:42-52 | for a 6-byte address the packet is the header followed by 16 verbatim copies of the address |
| MagicPacket.MagicPacketCharacterised | wakeonhttp.go:42-52 | for a 6-byte address, a buffer is a well-formed magic packet (header, then the address in each of the 16 slots) if and only if it equals the built packet |
| MagicPacket.AddressRecoverable | wakeonhttp.go:50-52 | each slot 1..16 of the packet of a 6-byte address reads back that address |
| MagicPacket.DistinctAddressesDistinctPackets | wakeonhttp.go:46-52 | distinct 6-byte addresses give distinct packets |
| MagicPacket.CopyInto | wakeonhttp.go:51 | Go's copy into dst[lo:hi] writes min(hi-lo, len(src)) bytes of src at lo, returns that count, and leaves every other byte unchanged |
| MagicPacket.BuildPacket | wakeonhttp.go:46-52 | the in-place construction yields a 102-byte buffer equal to Packet(hwaddr), which depends on the address alone, so construction is deterministic |
| WakeHandler.SendWol | wakeonhttp.go:29-58 | dial, build and write, with the two early error returns, give exactly SendWolOutcome |
| WakeHandler.ParseAddr | wakeonhttp.go:60-73 | the lookup, the parse of addr[0] and the hand-off to sendWol give exactly ParseAddrOutcome |
| WakeHandler.MissingAddr | wakeonhttp.go:62-65 | without addr the response is 400 "missing 'addr' argument" and nothing is written, whatever the oracles say |
| WakeHandler.InvalidAddress | wakeonhttp.go:67-70 | when the first value does not parse, the response is 400 "'<value>' is not a valid MAC address" and nothing is written |
| WakeHandler.OnlyFirstValueConsidered | wakeonhttp.go:67 | the outcome depends only on the first addr value |
| WakeHandler.DialFailure | wakeonhttp.go:35-39 | after a good parse, a failed dial gives 500 "Socket error" and no packet is built or written |
| WakeHandler.WriteFailure | wakeonhttp.go:53-57 | after a good parse and dial, a failed write gives 500 "I/O error" after the magic packet was handed to the write |
| WakeHandler.StatusClassification | wakeonhttp.go:35-72 | 400 if and only if the address is missing or unparsable; 500 if and only if it parsed and the dial or the write failed; no error written if and only if all steps succeed |
| WakeHandler.WrittenDatagram | wakeonhttp.go:35-57 | a buffer is written if and only if parse and dial succeed; it is always 102 bytes; for a 6-byte address it is a well-formed magic packet for it |
| WakeHandler.ExampleRequest | wakeonhttp.go:46-72 | a request for 01:23:45:67:89:ab that parses and sends gets no error, and every slot of the datagram holds 01 23 45 67 89 ab |

## Left out

- `net.Dial`, `conn.Write`, the deferred `conn.Close` (wakeonhttp.go:35, 40, 53) are socket I/O. Only their success or failure is modelled, as the boolean inputs `dialOk` and `writeOk`. The destination `255.255.255.255:9` is a constant of the dial and is not modelled.
- `net.ParseMAC` (wakeonhttp.go:67) is library code. It is the oracle parameter `parseMac: string -> Option<seq<bv8>>`, so which strings it accepts is not modelled.
- `r.URL.Query()` (wakeonhttp.go:61) is library code. Its `addr` entry is the input `AddrParam`, either `Absent` or `Present(first, rest)`. A present key in Go's `url.Values` always has at least one value, so the model has no case for `addr[0]` on an empty list.
- `http.Error` (wakeonhttp.go:37, 55, 64, 69) is library code. The model records the status and the message passed to it. The newline `http.Error` appends and the headers it sets are not modelled.
- `main` (wakeonhttp.go:75-80): route registration, `ListenAndServe` on port 8080, `fmt.Println` and `log.Fatal` are process start-up.
- Concurrent requests are not modelled. The handler has no shared state. Each call builds its own fresh buffer.
- BuildPacket: does not state that the returned array is freshly allocated. Its contents are fully stated. The freshness is evident from the `new`.
