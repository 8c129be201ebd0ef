/** Small shared vocabulary: bytes as the driver handles them, and an optional value. */
module Base {

  /** An `uint8_t` / `unsigned char`: the unit of every HID report. */
  type byte = b: int | 0 <= b < 256

  /** An `unsigned int` of the 32-bit targets the driver is built for. */
  type uint32 = n: int | 0 <= n < 0x1_0000_0000

  datatype Option<+T> = None | Some(value: T)

  /** `n` bytes of zero, as `memset(buf, 0, n)` leaves them. */
  function Zeros(n: nat): (z: seq<byte>)
    ensures |z| == n
    ensures forall i :: 0 <= i < n ==> z[i] == 0
  {
    seq(n, _ => 0)
  }
}
