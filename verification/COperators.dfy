/** C's operators on numbers: a Boolean is 0 or 1, and 0 is false (ISO/IEC
    9899:2011, sections 6.5.3.3, 6.5.5, 6.5.6, 6.5.8, 6.5.9 and 6.5.11 to 6.5.14). */
module COperators {

  /** C's operators, as they are printed: `!`, `-`; `&&`, `||`, `^`, `==` and so on. */
  datatype CUnaryOp = Bang | Minus

  datatype CBinaryOp = AndAnd | OrOr | Caret | EqualEqual | BangEqual | Less | LessEqual | Greater | GreaterEqual | Plus | Dash | Star

  /** The bits in which two integers in two's complement differ. */
  function BitXor(x: int, y: int): int
    decreases (if x < 0 then -x - 1 else x) + (if y < 0 then -y - 1 else y)
  {
    if (x == 0 || x == -1) && (y == 0 || y == -1) then (if x == y then 0 else -1)
    else 2 * BitXor(x / 2, y / 2) + if x % 2 == y % 2 then 0 else 1
  }

  function CUnaryNumber(op: CUnaryOp, x: int): int {
    match op
    case Bang => if x == 0 then 1 else 0
    case Minus => 0 - x
  }

  function CNumber(op: CBinaryOp, x: int, y: int): int {
    match op
    case AndAnd => if x == 0 then 0 else if y == 0 then 0 else 1
    case OrOr => if x == 0 then (if y == 0 then 0 else 1) else 1
    case Caret => BitXor(x, y)
    case EqualEqual => if x - y == 0 then 1 else 0
    case BangEqual => if x - y == 0 then 0 else 1
    case Less => if y - x > 0 then 1 else 0
    case LessEqual => if x - y > 0 then 0 else 1
    case Greater => if x - y > 0 then 1 else 0
    case GreaterEqual => if y - x > 0 then 0 else 1
    case Plus => x + y
    case Dash => x - y
    case Star => x * y
  }

  lemma BitXorOfFlags()
    ensures BitXor(0, 0) == BitXor(1, 1) == 0 && BitXor(0, 1) == BitXor(1, 0) == 1
  {
  }
}
