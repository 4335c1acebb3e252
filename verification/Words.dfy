/** The fixed-size integers of the device. */
module Words {
  type Byte = b: int | 0 <= b < 256

  const UINT32 := 0x1_0000_0000

  type UInt32 = n: int | 0 <= n < UINT32

  /** Unsigned 32-bit arithmetic. */
  function U32(n: int): UInt32 {
    n % UINT32
  }
}
