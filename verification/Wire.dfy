/** Values shared by the two developments: machine words, addresses, optional results. */
module Wire {
  datatype Option<+T> = None | Some(value: T)

  type Byte = x: int | 0 <= x < 0x100
  type U16 = x: int | 0 <= x < 0x1_0000
  type U32 = x: int | 0 <= x < 0x1_0000_0000

  /** A buffer of octets as the receive path handles it, bit by bit. */
  type Bytes = seq<bv8>

  const U32_SPAN := 0x1_0000_0000

  /** `fetch_add(1)` on an AtomicU32 wraps. */
  function Inc(c: U32): U32 { (c + 1) % U32_SPAN }

  /** `fetch_sub(1)` on an AtomicU32 wraps. */
  function Dec(c: U32): U32 { (c + U32_SPAN - 1) % U32_SPAN }

  /** `saturating_sub` on u64 milliseconds. */
  function SatSub(a: nat, b: nat): nat { if a < b then 0 else a - b }

  function Min(a: int, b: int): int { if a < b then a else b }

  function Max(a: int, b: int): int { if a < b then b else a }

  /** An IPv4 address as its four octets, in wire order. */
  datatype Ip = Ip(a: Byte, b: Byte, c: Byte, d: Byte)

  function Be16(hi: Byte, lo: Byte): U16 { 0x100 * hi + lo }

  /** The two big-endian halves of an address. */
  function AddrWords(ip: Ip): (U16, U16) { (Be16(ip.a, ip.b), Be16(ip.c, ip.d)) }
}
