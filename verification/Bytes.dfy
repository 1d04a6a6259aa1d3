/** Bytes, and the masks with which the firmware takes them apart. */
module Bytes {

  /** The source's BYTE. */
  type Byte = x: int | 0 <= x < 0x100

  /** b & 0xf0 */
  function HighNibble(b: Byte): Byte {
    b / 16 * 16
  }

  /** b & 0x0f */
  function LowNibble(b: Byte): Byte {
    b % 16
  }

  /** b & 0x80 */
  predicate IsStatus(b: Byte) {
    b >= 0x80
  }

  /** A System Real-Time byte, legal anywhere in a MIDI stream. */
  predicate IsRealTime(b: Byte) {
    b >= 0xF8
  }

  predicate AllData(bs: seq<Byte>) {
    forall k :: 0 <= k < |bs| ==> !IsStatus(bs[k])
  }

  /** The nibbles make up the byte, which is a status byte from 80 on and a real-time byte from F8 on. */
  lemma Nibbles(b: Byte)
    ensures HighNibble(b) as int + LowNibble(b) == b as int && HighNibble(b) % 16 == 0 && LowNibble(b) < 16
    ensures IsStatus(b) <==> 0x80 <= b <= 0xFF
    ensures IsRealTime(b) <==> 0xF8 <= b <= 0xFF
  {
  }
}
