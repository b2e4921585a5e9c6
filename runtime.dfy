/**
 * Rust runtime vocabulary shared by the whole model: `Option`, `Result`,
 * panics, and the fixed-width integer casts the source relies on.
 */
module Runtime {

  datatype Option<+T> = None | Some(value: T)

  datatype Result<+T, +E> = Ok(value: T) | Err(error: E)

  /** The outcome of a Rust call that may panic: it either returns a value or
      unwinds. A panic carries a label: the source's own text where the source
      writes the message (`expect`, `assert!`, arithmetic overflow), and a
      label naming the kind of panic where the message is made by the
      standard library from run-time data. */
  datatype Fallible<+T> = Returned(value: T) | Panicked(message: string)

  /** Label for the panic of `Option::unwrap` / `Result::unwrap` on the failing
      case; the standard library's text (which embeds the error's `Debug`
      form) is not reproduced. */
  const UnwrapPanic: string := "called `unwrap()` on a failing value"

  /** Label for the panic of an out-of-range slice or `Vec` index; the
      standard library's text also names the length and the index, which
      this label leaves out. */
  const IndexPanic: string := "index out of bounds"

  /** Panic message of a `usize` subtraction that would go below zero. */
  const SubtractPanic: string := "attempt to subtract with overflow"

  const U32Modulus: int := 0x1_0000_0000

  type u32 = x: int | 0 <= x < 0x1_0000_0000

  /** Rust's `x as u32` on an unsigned value: keeps the low 32 bits. */
  function AsU32(x: nat): (r: u32)
    ensures x < U32Modulus ==> r == x
    ensures r < U32Modulus && (x - r) % U32Modulus == 0
  {
    x % U32Modulus
  }

  function Min(a: nat, b: nat): (m: nat)
    ensures m <= a && m <= b && (m == a || m == b)
  {
    if a <= b then a else b
  }
}
