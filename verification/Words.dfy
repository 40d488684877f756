/** Fixed-width arithmetic as the modules use it: `atomic_t` and `int` are 32-bit two's
    complement, `atomic64_t` is 64-bit two's complement, `unsigned long` is 64-bit unsigned. */
module Words {

  /** The values of a C `int`. */
  type Int32 = x: int | -0x8000_0000 <= x < 0x8000_0000

  /** The values of a C `u32`. */
  type UInt32 = x: int | 0 <= x < 0x1_0000_0000

  /** The `int` that the low 32 bits of `x` stand for. */
  function Wrap32(x: int): (r: Int32)
  {
    (x + 0x8000_0000) % 0x1_0000_0000 - 0x8000_0000
  }

  /** The `s64` that the low 64 bits of `x` stand for. */
  function Wrap64(x: int): (r: int)
    ensures -0x8000_0000_0000_0000 <= r < 0x8000_0000_0000_0000
  {
    (x + 0x8000_0000_0000_0000) % 0x1_0000_0000_0000_0000 - 0x8000_0000_0000_0000
  }

  /** It has the same low 32 bits, and is `x` itself if that is an `int`. */
  lemma Wrap32Meaning(x: int)
    ensures (Wrap32(x) - x) % 0x1_0000_0000 == 0
    ensures -0x8000_0000 <= x < 0x8000_0000 ==> Wrap32(x) == x
  {
  }

  lemma Wrap32Add(x: int, y: int)
    ensures Wrap32(Wrap32(x) + y) == Wrap32(x + y)
  {
  }

  lemma Wrap64Add(x: int, y: int)
    ensures Wrap64(Wrap64(x) + y) == Wrap64(x + y)
  {
  }

  /** Two integers share their low 32 bits exactly when they read the same as an `int`. */
  lemma Wrap32Same(x: int, y: int)
    ensures Wrap32(x) == Wrap32(y) <==> (x - y) % 0x1_0000_0000 == 0
  {
  }

  lemma Wrap64Same(x: int, y: int)
    ensures Wrap64(x) == Wrap64(y) <==> (x - y) % 0x1_0000_0000_0000_0000 == 0
  {
  }

  lemma Wrap32Zero(x: int)
    ensures Wrap32(x) == 0 <==> x % 0x1_0000_0000 == 0
  {
  }
}
