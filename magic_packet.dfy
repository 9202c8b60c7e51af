/** The Wake-on-LAN "magic packet" (AMD Magic Packet Technology): six bytes
    0xFF followed by the target's hardware address repeated sixteen times,
    built in place in a zero-filled 102-byte buffer as `sendWol` does. */
module MagicPacket {

  const HeaderLen: nat := 6
  const SlotLen: nat := 6
  const Repetitions: nat := 16
  const PacketLen: nat := 102

  function Min(a: nat, b: nat): nat { if a < b then a else b }

  /** The six synchronisation bytes that open every magic packet. */
  function Header(): seq<bv8> { [0xFF, 0xFF, 0xFF, 0xFF, 0xFF, 0xFF] }

  function ZeroBytes(n: nat): seq<bv8> { seq(n, _ => 0) }

  /** What one 6-byte slot of the zero-filled buffer holds after Go's
      `copy(slot, hwaddr)`: the first min(6, |hwaddr|) address bytes, then
      the zeros the buffer was created with. */
  function Slot(hwaddr: seq<bv8>): (s: seq<bv8>)
    ensures |s| == SlotLen
  {
    var n := Min(SlotLen, |hwaddr|);
    hwaddr[..n] + ZeroBytes(SlotLen - n)
  }

  function Repeat(s: seq<bv8>, n: nat): seq<bv8>
  {
    if n == 0 then [] else s + Repeat(s, n - 1)
  }

  /** The payload `sendWol` writes for `hwaddr`. */
  function Packet(hwaddr: seq<bv8>): seq<bv8>
  {
    Header() + Repeat(Slot(hwaddr), Repetitions)
  }

  /** First offset of slot k; slots 1..16 carry the address. */
  function SlotStart(k: nat): nat { SlotLen * k }

  /** The slot that byte i falls in. */
  function SlotOf(i: nat): nat { i / SlotLen }

  /** A slot-wise description of a well-formed magic packet for a 6-byte
      address, as a receiving network card checks it. */
  ghost predicate IsMagicPacketFor(p: seq<bv8>, hwaddr: seq<bv8>)
  {
    |hwaddr| == SlotLen &&
    |p| == PacketLen &&
    p[..HeaderLen] == Header() &&
    forall k :: 1 <= k <= Repetitions ==> p[SlotStart(k)..SlotStart(k) + SlotLen] == hwaddr
  }

  // ---------------------------------------------------------------------
  // Layout of the specification function

  lemma SlotAt(hwaddr: seq<bv8>, j: nat)
    requires j < SlotLen
    ensures Slot(hwaddr)[j] == if j < |hwaddr| then hwaddr[j] else 0
  {
  }

  lemma {:induction false} RepeatAt(s: seq<bv8>, n: nat, i: nat)
    requires |s| == SlotLen && i < SlotLen * n
    ensures |Repeat(s, n)| == SlotLen * n
    ensures Repeat(s, n)[i] == s[i % SlotLen]
  {
    if i < SlotLen {
      RepeatLength(s, n - 1);
    } else {
      RepeatAt(s, n - 1, i - SlotLen);
    }
  }

  lemma {:induction false} RepeatLength(s: seq<bv8>, n: nat)
    ensures |Repeat(s, n)| == |s| * n
  {
    if n > 0 {
      RepeatLength(s, n - 1);
    }
  }

  /** The packet is exactly 6 + 6 * 16 = 102 bytes long, whatever the address. */
  lemma PacketLength(hwaddr: seq<bv8>)
    ensures |Packet(hwaddr)| == HeaderLen + SlotLen * Repetitions == PacketLen
  {
    RepeatLength(Slot(hwaddr), Repetitions);
  }

  /** Byte i of the packet: 0xFF in the header, otherwise byte i mod 6 of the slot. */
  lemma PacketByteAt(hwaddr: seq<bv8>, i: nat)
    requires i < PacketLen
    ensures |Packet(hwaddr)| == PacketLen
    ensures Packet(hwaddr)[i] == if i < HeaderLen then 0xFF else Slot(hwaddr)[i % SlotLen]
  {
    PacketLength(hwaddr);
    if i >= HeaderLen {
      RepeatAt(Slot(hwaddr), Repetitions, i - HeaderLen);
    }
  }

  /** Bytes 0..5 are all 0xFF. */
  lemma PacketHeader(hwaddr: seq<bv8>)
    ensures |Packet(hwaddr)| == PacketLen
    ensures forall i :: 0 <= i < HeaderLen ==> Packet(hwaddr)[i] == 0xFF
  {
    PacketLength(hwaddr);
  }

  /** Byte j of slot k holds address byte j when the address has one, and the
      buffer's initial zero otherwise. */
  lemma PacketSlotByte(hwaddr: seq<bv8>, k: nat, j: nat)
    requires 1 <= k <= Repetitions && j < SlotLen
    ensures SlotStart(k) + j < |Packet(hwaddr)|
    ensures Packet(hwaddr)[SlotStart(k) + j] == if j < |hwaddr| then hwaddr[j] else 0
  {
    PacketByteAt(hwaddr, SlotStart(k) + j);
    SlotAt(hwaddr, j);
  }

  /** Slots 1..16 lie inside the buffer, never overlap one another or the
      header, and together cover exactly bytes 6..101: every such byte lies
      in slot i / 6 and in no other. */
  lemma SlotsPartitionPayload()
    ensures forall k :: 1 <= k <= Repetitions ==>
      HeaderLen <= SlotStart(k) && SlotStart(k) + SlotLen <= PacketLen
    ensures forall k1, k2 :: 1 <= k1 < k2 <= Repetitions ==>
      SlotStart(k1) + SlotLen <= SlotStart(k2)
    ensures forall i :: HeaderLen <= i < PacketLen ==>
      1 <= SlotOf(i) <= Repetitions && SlotStart(SlotOf(i)) <= i < SlotStart(SlotOf(i)) + SlotLen
    ensures forall i, k :: 1 <= k <= Repetitions && SlotStart(k) <= i < SlotStart(k) + SlotLen ==>
      k == SlotOf(i)
  {
  }

  /** An address longer than six bytes (the 8- and 20-byte forms ParseMAC
      also accepts) is cut to its first six bytes. */
  lemma {:induction false} LongAddressTruncated(hwaddr: seq<bv8>)
    requires |hwaddr| >= SlotLen
    ensures Packet(hwaddr) == Packet(hwaddr[..SlotLen])
  {
    assert Slot(hwaddr) == Slot(hwaddr[..SlotLen]);
  }

  /** For a 6-byte address the packet is the header followed by sixteen
      verbatim copies of the address. */
  lemma SixByteAddressRepeated(hwaddr: seq<bv8>)
    requires |hwaddr| == SlotLen
    ensures Packet(hwaddr) == Header() + Repeat(hwaddr, Repetitions)
  {
    assert Slot(hwaddr) == hwaddr;
  }

  /** The concatenation definition and the slot-wise description agree: for a
      6-byte address, a buffer is a well-formed magic packet for it exactly
      when it is the packet built from it. */
  lemma MagicPacketCharacterised(p: seq<bv8>, hwaddr: seq<bv8>)
    requires |hwaddr| == SlotLen
    ensures IsMagicPacketFor(p, hwaddr) <==> p == Packet(hwaddr)
  {
    PacketLength(hwaddr);
    var q := Packet(hwaddr);
    forall k | 1 <= k <= Repetitions
      ensures q[SlotStart(k)..SlotStart(k) + SlotLen] == hwaddr
    {
      forall j | 0 <= j < SlotLen
        ensures q[SlotStart(k)..SlotStart(k) + SlotLen][j] == hwaddr[j]
      {
        PacketSlotByte(hwaddr, k, j);
      }
    }
    PacketHeader(hwaddr);
    assert q[..HeaderLen] == Header();
    if IsMagicPacketFor(p, hwaddr) {
      forall i | 0 <= i < PacketLen
        ensures p[i] == q[i]
      {
        if i < HeaderLen {
          assert p[..HeaderLen][i] == p[i];
        } else {
          var k, j := i / SlotLen, i % SlotLen;
          assert p[SlotStart(k)..SlotStart(k) + SlotLen][j] == p[i];
          assert q[SlotStart(k)..SlotStart(k) + SlotLen][j] == q[i];
        }
      }
    }
  }

  /** The target address can be read back from any slot of the packet. */
  lemma AddressRecoverable(hwaddr: seq<bv8>, k: nat)
    requires |hwaddr| == SlotLen && 1 <= k <= Repetitions
    ensures |Packet(hwaddr)| == PacketLen
    ensures Packet(hwaddr)[SlotStart(k)..SlotStart(k) + SlotLen] == hwaddr
  {
    MagicPacketCharacterised(Packet(hwaddr), hwaddr);
  }

  /** Distinct 6-byte addresses give distinct packets, so no two wake
      targets can be confused. */
  lemma DistinctAddressesDistinctPackets(a: seq<bv8>, b: seq<bv8>)
    requires |a| == SlotLen && |b| == SlotLen && a != b
    ensures Packet(a) != Packet(b)
  {
    AddressRecoverable(a, 1);
    AddressRecoverable(b, 1);
  }

  // ---------------------------------------------------------------------
  // The in-place construction

  /** Go's built-in `copy(dst[lo:hi], src)`: copies min(hi - lo, |src|)
      bytes to dst[lo..] and returns that count; nothing else changes. */
  method CopyInto(dst: array<bv8>, lo: nat, hi: nat, src: seq<bv8>) returns (n: nat)
    requires lo <= hi <= dst.Length
    modifies dst
    ensures n == Min(hi - lo, |src|)
    ensures forall m :: 0 <= m < dst.Length ==>
      dst[m] == if lo <= m < lo + n then src[m - lo] else old(dst[m])
  {
    n := Min(hi - lo, |src|);
    for j := 0 to n
      invariant forall m :: 0 <= m < dst.Length ==>
        dst[m] == if lo <= m < lo + j then src[m - lo] else old(dst[m])
    {
      dst[lo + j] := src[j];
    }
  }

  /** Allocates the zero-filled 102-byte buffer, sets bytes 0..5 to 0xFF and
      copies the address into slots 1..16, as `sendWol` does. */
  method BuildPacket(hwaddr: seq<bv8>) returns (p: array<bv8>)
    ensures p.Length == PacketLen
    ensures p[..] == Packet(hwaddr)
  {
    p := new bv8[PacketLen](_ => 0);
    for i := 0 to HeaderLen
      invariant forall m :: 0 <= m < i ==> p[m] == 0xFF
      invariant forall m :: i <= m < PacketLen ==> p[m] == 0
    {
      p[i] := 0xFF;
    }
    for i := 1 to Repetitions + 1
      invariant forall m :: 0 <= m < HeaderLen ==> p[m] == 0xFF
      invariant forall m :: HeaderLen <= m < SlotStart(i) ==> p[m] == Slot(hwaddr)[m % SlotLen]
      invariant forall m :: SlotStart(i) <= m < PacketLen ==> p[m] == 0
    {
      var n := CopyInto(p, SlotStart(i), SlotStart(i) + SlotLen, hwaddr);
      forall m | SlotStart(i) <= m < SlotStart(i) + SlotLen
        ensures p[m] == Slot(hwaddr)[m % SlotLen]
      {
        assert m % SlotLen == m - SlotStart(i);
        SlotAt(hwaddr, m - SlotStart(i));
      }
    }
    PacketLength(hwaddr);
    forall m | 0 <= m < PacketLen
      ensures p[m] == Packet(hwaddr)[m]
    {
      PacketByteAt(hwaddr, m);
    }
  }
}
