/** Fixed-width machine words as bounded integers, and the option type. */
module Words {

  datatype Option<+T> = None | Some(value: T)

  const W64: int := 0x1_0000_0000_0000_0000
  const W32: int := 0x1_0000_0000
  const W16: int := 0x1_0000
  const HALF64: int := 0x8000_0000_0000_0000

  /** A 64-bit machine word. */
  type Word = w: int | 0 <= w < 0x1_0000_0000_0000_0000
  type Word32 = w: int | 0 <= w < 0x1_0000_0000
  type Word16 = w: int | 0 <= w < 0x1_0000
  type Byte = b: int | 0 <= b < 0x100

  function Min(a: nat, b: nat): nat { if a < b then a else b }

  // ---- wrapping arithmetic -------------------------------------------------

  function AddW(a: Word, b: Word): Word { (a + b) % W64 }

  function SubW(a: Word, b: Word): Word { (a - b) % W64 }

  /** The two's complement reading of a word. */
  function Signed(a: Word): int { if a < HALF64 then a else a - W64 }

  /** The low 64 bits of any integer. */
  function Low64(x: int): Word { x % W64 }

  predicate TopBit(a: Word) { a >= HALF64 }

  /** Division that truncates toward zero, as Rust's `/` does. */
  function TruncDiv(a: int, b: int): int
    requires b != 0
  {
    if a >= 0 then a / b else -((-a) / b)
  }

  function TruncMod(a: int, b: int): int
    requires b != 0
  {
    a - b * TruncDiv(a, b)
  }

  // ---- bitwise operations --------------------------------------------------

  datatype BitOp = And | Or | Xor

  function OpBit(op: BitOp, x: bool, y: bool): bool {
    match op
    case And => x && y
    case Or => x || y
    case Xor => x != y
  }

  /** `a op b`, bit by bit. */
  function Bitwise(op: BitOp, a: nat, b: nat): nat
    decreases a + b
  {
    if a == 0 && b == 0 then 0
    else 2 * Bitwise(op, a / 2, b / 2) + (if OpBit(op, a % 2 == 1, b % 2 == 1) then 1 else 0)
  }

  function AndW(a: Word, b: Word): Word { Low64(Bitwise(And, a, b)) }

  function OrW(a: Word, b: Word): Word { Low64(Bitwise(Or, a, b)) }

  function XorW(a: Word, b: Word): Word { Low64(Bitwise(Xor, a, b)) }

  function NotW(a: Word): Word { W64 - 1 - a }

  function ShlW(a: Word, k: nat): Word
    decreases k
  {
    if k == 0 then a else ShlW((2 * a) % W64, k - 1)
  }

  function ShrW(a: Word, k: nat): Word
    decreases k
  {
    if k == 0 then a else ShrW(a / 2, k - 1)
  }

  function SarW(a: Word, k: nat): Word {
    if TopBit(a) then NotW(ShrW(NotW(a), k)) else ShrW(a, k)
  }

  function RolW(a: Word, k: nat): Word
    decreases k
  {
    if k == 0 then a else RolW((2 * a) % W64 + a / HALF64, k - 1)
  }

  function RorW(a: Word, k: nat): Word
    decreases k
  {
    if k == 0 then a else RorW(a / 2 + (a % 2) * HALF64, k - 1)
  }

  /** Index of the lowest set bit. */
  function TrailingZeros(a: Word): (k: nat)
    requires a > 0
    ensures k < a
  {
    if a % 2 == 1 then 0 else 1 + TrailingZeros(a / 2)
  }

  /** Index of the highest set bit. */
  function HighestBit(a: nat): (k: nat)
    requires a > 0
    ensures k < a
  {
    if a == 1 then 0 else 1 + HighestBit(a / 2)
  }

  function CountOnes(a: Word): (k: nat)
    ensures k <= a
  {
    if a == 0 then 0 else a % 2 + CountOnes(a / 2)
  }

  /** Sign extension of the low `bits` bits, given the two powers of two. */
  function SignExtend(a: Word, half: nat): Word
    requires 0 < half && 2 * half <= W64
  {
    var low := a % (2 * half);
    Low64(if low < half then low else low - 2 * half)
  }
}
