/** Fixed-width C integers and small wrappers shared by the modules. */
module CTypes {
  type Byte = b: int | 0 <= b < 0x100
  type U16 = n: int | 0 <= n < 0x1_0000

  function ToByte(n: int): Byte { n % 0x100 }
  function ToU16(n: int): U16 { n % 0x1_0000 }

  function Min(a: int, b: int): int { if a <= b then a else b }
  function Max(a: int, b: int): int { if a >= b then a else b }

  datatype Option<+T> = None | Some(value: T)
}
