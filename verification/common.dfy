/** Small vocabulary shared by every module of the model. */
module Common {

  /** The optional value the host uses where C++ has a null pointer or a thrown exception. */
  datatype Option<+T> = None | Some(value: T)

  /** Modulus of a 32-bit unsigned integer (RE::FormID and, on Windows, unsigned long). */
  const U32Modulus: int := 0x1_0000_0000

  /** A 32-bit unsigned value, such as a FormID. */
  type u32 = x: int | 0 <= x < U32Modulus
}
