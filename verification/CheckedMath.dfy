/** rpcmath.cpp, and the re-checks with which server_run tells a genuine result from an
    error number. Numbers are int64; `/` and `%` of the C code truncate toward zero. */
module CheckedMath {
  import opened Types

  datatype Op = Add | Sub | Mul | Div | Mod

  // ---------- C division (section 5.6 of ISO C++11) ----------

  function Abs(x: int): nat {
    if x < 0 then -x else x
  }

  function TruncDiv(a: int, b: int): int
    requires b != 0
  {
    var q := Abs(a) / Abs(b);
    if (a < 0) == (b < 0) then q else -q
  }

  function TruncMod(a: int, b: int): int
    requires b != 0
  {
    a - b * TruncDiv(a, b)
  }

  lemma NatQuotient(n: nat, d: nat)
    requires d > 0
    ensures n == d * (n / d) + n % d && 0 <= n % d < d
    ensures 0 <= n / d <= n
  {
    MulMono(1, d, n / d);
  }

  lemma MulMono(x: nat, y: nat, d: nat)
    requires x <= y
    ensures x * d <= y * d
  {
  }

  /** A number exceeds a quotient exactly when its product with the divisor exceeds the dividend. */
  lemma ExceedsQuotient(n: nat, d: nat, x: nat)
    requires d > 0
    ensures x > n / d <==> x * d > n
  {
    NatQuotient(n, d);
    if x > n / d {
      MulMono(n / d + 1, x, d);
    } else {
      MulMono(x, n / d, d);
    }
  }

  /** The remainder is smaller than the divisor and is zero or has the dividend's sign. */
  lemma TruncatedDivision(a: int, b: int)
    requires b != 0
    ensures a == TruncDiv(a, b) * b + TruncMod(a, b)
    ensures Abs(TruncMod(a, b)) < Abs(b)
    ensures TruncMod(a, b) == 0 || (TruncMod(a, b) < 0 <==> a < 0)
    ensures Abs(TruncDiv(a, b)) <= Abs(a)
  {
    NatQuotient(Abs(a), Abs(b));
    SignedProduct(a, b);
  }

  lemma SignedProduct(a: int, b: int)
    requires b != 0
    ensures b * TruncDiv(a, b) == if a < 0 then -(Abs(b) * (Abs(a) / Abs(b))) else Abs(b) * (Abs(a) / Abs(b))
  {
  }

  lemma QuotientFits(a: int64, b: int64)
    requires b != 0
    ensures Fits(TruncDiv(a, b)) <==> !(a == INT64_MIN && b == -1)
    ensures Fits(TruncMod(a, b))
  {
  }

  // ---------- rpcmath.cpp ----------

  function AddChecked(a: int64, b: int64): (r: int64)
    ensures r == if Fits(a + b) then a + b else EOVERFLOW
  {
    if (b > 0 && a > INT64_MAX - b) || (b < 0 && a < INT64_MIN - b) then EOVERFLOW
    else a + b
  }

  function SubChecked(a: int64, b: int64): (r: int64)
    ensures r == if Fits(a - b) then a - b else EOVERFLOW
  {
    if (b > 0 && a < INT64_MIN + b) || (b < 0 && a > INT64_MAX + b) then EOVERFLOW
    else a - b
  }

  /** The four sign cases of the overflow test of mul. */
  predicate MulOverflows(a: int64, b: int64)
    requires a != 0 && b != 0
  {
    if a > 0 then
      if b > 0 then a > TruncDiv(INT64_MAX, b) else b < TruncDiv(INT64_MIN, a)
    else
      if b > 0 then a < TruncDiv(INT64_MIN, b) else b < TruncDiv(INT64_MAX, a)
  }

  lemma MulOverflowExact(a: int64, b: int64)
    requires a != 0 && b != 0
    ensures MulOverflows(a, b) <==> !Fits(a * b)
  {
    ExceedsQuotient(INT64_MAX, Abs(b), Abs(a));
    ExceedsQuotient(INT64_MAX, Abs(a), Abs(b));
    ExceedsQuotient(-INT64_MIN, Abs(a), Abs(b));
    ExceedsQuotient(-INT64_MIN, Abs(b), Abs(a));
    ProductSigns(a, b);
  }

  lemma ProductSigns(a: int, b: int)
    ensures a * b == if (a < 0) == (b < 0) then Abs(a) * Abs(b) else -(Abs(a) * Abs(b))
    ensures Abs(a) * Abs(b) == Abs(b) * Abs(a)
  {
  }

  function MulChecked(a: int64, b: int64): (r: int64)
    ensures r == if Fits(a * b) then a * b else EOVERFLOW
  {
    if a == 0 || b == 0 then 0
    else
      MulOverflowExact(a, b);
      if MulOverflows(a, b) then EOVERFLOW else a * b
  }

  function DivideChecked(a: int64, b: int64): (r: int64)
    ensures r == if b == 0 then EINVAL else if Fits(TruncDiv(a, b)) then TruncDiv(a, b) else EOVERFLOW
  {
    if b == 0 then EINVAL
    else
      QuotientFits(a, b);
      if a == INT64_MIN && b == -1 then EOVERFLOW else TruncDiv(a, b)
  }

  function ModChecked(a: int64, b: int64): (r: int64)
    ensures r == if b == 0 then EINVAL else if Fits(TruncDiv(a, b)) then TruncMod(a, b) else EOVERFLOW
  {
    if b == 0 then EINVAL
    else
      QuotientFits(a, b);
      if a == INT64_MIN && b == -1 then EOVERFLOW else TruncMod(a, b)
  }

  function Checked(op: Op, a: int64, b: int64): int64 {
    match op
    case Add => AddChecked(a, b)
    case Sub => SubChecked(a, b)
    case Mul => MulChecked(a, b)
    case Div => DivideChecked(a, b)
    case Mod => ModChecked(a, b)
  }

  // ---------- The server's re-check of a result that looks like an error number ----------

  /** The expression the server compares with EOVERFLOW, read over unbounded integers. */
  function Exact(op: Op, a: int, b: int): int
    requires op in {Div, Mod} ==> b != 0
  {
    match op
    case Add => a + b
    case Sub => a - b
    case Mul => a * b
    case Div => TruncDiv(a, b)
    case Mod => TruncMod(a, b)
  }

  /** The status after the operation, given the status before it. The Div and Mod branch for
      EOVERFLOW does not look at the earlier status; the other branches do. */
  function Recheck(op: Op, a: int64, b: int64, result: int64, status: byte): byte {
    if op in {Add, Sub, Mul} then
      if result == EOVERFLOW && Exact(op, a, b) != EOVERFLOW && status == OK then EOVERFLOW else status
    else if result == EINVAL && b == 0 && status == OK then EINVAL
    else if result == EOVERFLOW && b != 0 && Exact(op, a, b) != EOVERFLOW then EOVERFLOW
    else status
  }

  /** What the operation means, with no error number inside the value. */
  function Apply(op: Op, a: int64, b: int64): Outcome {
    if op in {Div, Mod} && b == 0 then Bad(EINVAL)
    else if op == Mod && !Fits(TruncDiv(a, b)) then Bad(EOVERFLOW)
    else if !Fits(Exact(op, a, b)) then Bad(EOVERFLOW)
    else Good(Exact(op, a, b))
  }

  /** With no earlier error, the re-check reports an error exactly when the operation has none but
      that error as its meaning, and otherwise the in-band result is the exact one - also when the
      exact result happens to be 22 or 75. */
  lemma RecheckExact(op: Op, a: int64, b: int64)
    ensures var result := Checked(op, a, b);
            var status := Recheck(op, a, b, result, OK);
            match Apply(op, a, b)
            case Good(v) => status == OK && result == v
            case Bad(e) => status == e && e != OK
  {
    if op in {Div, Mod} && b != 0 {
      QuotientFits(a, b);
    }
  }

  /** An earlier error survives the re-check unless a truncated quotient overflows, which takes
      INT64_MIN and -1 as operands. */
  lemma RecheckKeepsError(op: Op, a: int64, b: int64, status: byte)
    requires status != OK
    ensures Recheck(op, a, b, Checked(op, a, b), status) == status
            || (op in {Div, Mod} && a == INT64_MIN && b == -1)
  {
  }

  /** The re-check behind two operand lookups, whatever their status. An error stays, since a failed
      lookup leaves 0 or 2 in its operand and never INT64_MIN or -1. */
  lemma RecheckAfterLookups(op: Op, a: int64, b: int64, status: byte)
    ensures status != OK && (a in {0, ENOENT} || b in {0, ENOENT}) ==>
              Recheck(op, a, b, Checked(op, a, b), status) == status
    ensures status == OK ==>
              match Apply(op, a, b)
              case Good(v) => Recheck(op, a, b, Checked(op, a, b), status) == OK && Checked(op, a, b) == v
              case Bad(e) => Recheck(op, a, b, Checked(op, a, b), status) == e && e != OK
  {
    hide Recheck, Checked, Apply;
    if status == OK {
      RecheckExact(op, a, b);
    } else {
      RecheckKeepsError(op, a, b, status);
    }
  }

  /** The modulo operation refuses one pair whose remainder fits: INT64_MIN mod -1 is 0. */
  lemma ModRefusal(a: int64, b: int64)
    requires b != 0
    ensures Fits(TruncMod(a, b))
    ensures Apply(Mod, a, b) == Bad(EOVERFLOW) <==> a == INT64_MIN && b == -1
    ensures TruncMod(INT64_MIN, -1) == 0
  {
    QuotientFits(a, b);
  }
}
