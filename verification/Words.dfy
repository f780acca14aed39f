/** The machine words shared by every component: bytes, 16-bit words and their byte images. */
module Words {

  type byte = bv8

  type uint16 = x: int | 0 <= x < 0x1_0000

  datatype Option<+T> = None | Some(value: T)

  /** PJON_ACK and PJON_FAIL, the results every strategy and the device share. */
  const ACK := 6
  const FAIL := 65535

  lemma Reassociate<T>(a: seq<T>, b: seq<T>, c: seq<T>)
    ensures (a + b) + c == a + (b + c) && [] + c == c
  {
  }

  /** `(uint8_t)(w >> 8)` */
  function Hi(w: uint16): byte {
    (w / 256) as bv8
  }

  /** `(uint8_t)w` */
  function Lo(w: uint16): byte {
    (w % 256) as bv8
  }

  function ByteToInt(b: byte): (n: int)
    ensures 0 <= n < 256
  {
    b as int
  }

  /** `(hi << 8) | (lo & 0xFF)` */
  function Word(hi: byte, lo: byte): uint16 {
    256 * ByteToInt(hi) + ByteToInt(lo)
  }

  lemma ByteRoundTrip(n: int)
    requires 0 <= n < 256
    ensures ByteToInt(n as bv8) == n
  {
  }

  /** A 16-bit word written high byte first is read back unchanged. */
  lemma WordRoundTrip(w: uint16)
    ensures Word(Hi(w), Lo(w)) == w
  {
    ByteRoundTrip(w / 256);
    ByteRoundTrip(w % 256);
  }
}
