/** What requests on variables mean to the client that sends them, in plain arithmetic and plain maps:
    the operands, each operation, and each change of the variables with the line it leaves in the log. */
module RequestLaws {
  import opened Types
  import opened CheckedMath
  import opened LogText
  import opened Resolution
  import opened Requests

  // ---------- Operands ----------

  /** The chain of names from k reaches this end within the limit. */
  ghost predicate Reaches(m: Variables, k: Text, limit: nat, last: Text) {
    exists n: nat :: EndsAt(m, k, n, last) && n + 1 < limit
  }

  /** The operand stands for a number: it is one, it is a variable that holds one, or it is asked for
      recursively and its chain of names reaches a variable that holds one. */
  ghost predicate StandsFor(m: Variables, o: Operand, recursive: bool, limit: nat, v: int64) {
    match o
    case Immediate(x) => x == v
    case Variable(None) => false
    case Variable(Some(k)) =>
      || (k in m && m[k] == Num(v))
      || (k in m && m[k].Ref? && recursive && exists last :: Reaches(m, k, limit, last) && last in m && m[last] == Num(v))
  }

  /** The operand stands for no number, for this reason. */
  ghost predicate FailsWith(m: Variables, o: Operand, recursive: bool, limit: nat, error: byte) {
    match o
    case Immediate(_) => false
    case Variable(None) => error == 2
    case Variable(Some(k)) =>
      || (k !in m && error == 2)
      || (k in m && m[k].Ref? && !recursive && error == 14)
      || (k in m && m[k].Ref? && recursive && error == 2 && exists last :: Reaches(m, k, limit, last) && last !in m)
      || (k in m && m[k].Ref? && recursive && error == 40 && !exists last :: Reaches(m, k, limit, last))
  }

  /** The evaluator finds exactly that number, or exactly that reason. */
  lemma OperandMeaning(m: Variables, o: Operand, recursive: bool, limit: nat)
    ensures forall v :: StandsFor(m, o, recursive, limit, v) <==> EvalOperand(m, o, recursive, limit) == Good(v)
    ensures forall e :: FailsWith(m, o, recursive, limit, e) <==> EvalOperand(m, o, recursive, limit) == Bad(e)
  {
    hide Resolve;
    if o.Variable? && o.name.Some? {
      var k := o.name.value;
      ResolveExact(m, k, limit);
      ChainMeaning(m, k, limit);
    }
  }

  lemma ChainMeaning(m: Variables, k: Text, limit: nat)
    ensures forall last | Reaches(m, k, limit, last) ::
              Resolve(m, k, 0, limit) == if last in m then Good(m[last].n) else Bad(ENOENT)
    ensures Resolve(m, k, 0, limit) == Bad(ELOOP) <==> !exists last :: Reaches(m, k, limit, last)
    ensures !(exists last :: Reaches(m, k, limit, last)) || exists last :: Reaches(m, k, limit, last) && (last in m ==> m[last].Num?)
  {
    hide Resolve;
    ResolveExact(m, k, limit);
    forall last | Reaches(m, k, limit, last)
      ensures Resolve(m, k, 0, limit) == (if last in m then Good(m[last].n) else Bad(ENOENT)) && (last in m ==> m[last].Num?)
    {
      var n: nat :| EndsAt(m, k, n, last) && n + 1 < limit;
    }
    if Resolve(m, k, 0, limit) != Bad(ELOOP) {
      var n: nat, last :| EndsAt(m, k, n, last) && n + 1 < limit;
      assert Reaches(m, k, limit, last);
    } else {
      forall last
        ensures !Reaches(m, k, limit, last)
      {
      }
    }
  }

  // ---------- Operations ----------

  predicate IsInt64(x: int) {
    -0x8000_0000_0000_0000 <= x <= 0x7fff_ffff_ffff_ffff
  }

  /** What a truncating division leaves: smaller than the divisor, and zero or of the dividend's sign. */
  predicate IsRemainder(a: int, b: int, r: int) {
    (if b < 0 then b < r < -b else -b < r < b) && (r == 0 || (r < 0 <==> a < 0))
  }

  /** v is what the operation gives over unbounded integers. */
  ghost predicate Gives(op: Op, a: int, b: int, v: int) {
    match op
    case Add => v == a + b
    case Sub => v == a - b
    case Mul => v == a * b
    case Div => b != 0 && exists r :: IsRemainder(a, b, r) && a == v * b + r
    case Mod => b != 0 && IsRemainder(a, b, v) && exists q :: a == q * b + v
  }

  /** The operation is refused: a division by zero, a result that does not fit, or the one quotient that
      does not fit, which modulo refuses too. */
  predicate RefusedFor(op: Op, a: int, b: int, error: byte) {
    match op
    case Add => !IsInt64(a + b) && error == 75
    case Sub => !IsInt64(a - b) && error == 75
    case Mul => !IsInt64(a * b) && error == 75
    case _ => (b == 0 && error == 22) || (a == -0x8000_0000_0000_0000 && b == -1 && error == 75)
  }

  lemma NatMultiple(x: int, y: int)
    requires x != 0
    ensures Abs(x * y) >= Abs(y)
  {
    ProductSigns(x, y);
    MulMono(1, Abs(x), Abs(y));
  }

  /** Quotient and remainder are determined by these conditions. */
  lemma DivisionUnique(a: int, b: int, q1: int, r1: int, q2: int, r2: int)
    requires b != 0 && IsRemainder(a, b, r1) && IsRemainder(a, b, r2)
    requires a == q1 * b + r1 && a == q2 * b + r2
    ensures q1 == q2 && r1 == r2
  {
    assert (q1 - q2) * b == r2 - r1;
    if q1 != q2 {
      NatMultiple(q1 - q2, b);
      SameSign(a, b, r1, r2);
    }
  }

  lemma SameSign(a: int, b: int, r1: int, r2: int)
    requires b != 0 && IsRemainder(a, b, r1) && IsRemainder(a, b, r2)
    ensures Abs(r2 - r1) < Abs(b)
  {
  }

  /** What Apply says of an operation is what the operation gives, or why it is refused. */
  lemma OperationMeaning(op: Op, a: int64, b: int64)
    ensures match Apply(op, a, b)
            case Good(v) => Gives(op, a, b, v) && forall e :: !RefusedFor(op, a, b, e)
            case Bad(e) => RefusedFor(op, a, b, e)
  {
    if op in {Div, Mod} && b != 0 {
      TruncatedDivision(a, b);
      QuotientFits(a, b);
      assert TruncDiv(a, b) * b == b * TruncDiv(a, b);
      assert IsRemainder(a, b, TruncMod(a, b)) && a == TruncDiv(a, b) * b + TruncMod(a, b);
    }
  }

  lemma GivesOne(op: Op, a: int, b: int, v: int, v': int)
    requires Gives(op, a, b, v) && Gives(op, a, b, v')
    ensures v == v'
  {
    match op
    case Div =>
      var r :| IsRemainder(a, b, r) && a == v * b + r;
      var r' :| IsRemainder(a, b, r') && a == v' * b + r';
      DivisionUnique(a, b, v, r, v', r');
    case Mod =>
      var q :| a == q * b + v;
      var q' :| a == q' * b + v';
      DivisionUnique(a, b, q, v, q', v');
    case _ =>
  }

  // ---------- Lines of the log ----------

  /** The number that a string of decimal digits spells. */
  function DecimalValue(s: Text): int {
    if s == [] then 0 else 10 * DecimalValue(s[..|s| - 1]) + (s[|s| - 1] as int - 48)
  }

  /** Decimal digits without a leading zero, behind a minus sign for a negative number. */
  ghost predicate IsDecimal(s: Text, v: int) {
    if v < 0 then s != [] && s[0] == 45 && IsDigits(s[1..]) && DecimalValue(s[1..]) == -v
    else IsDigits(s) && DecimalValue(s) == v
  }

  predicate IsDigits(s: Text) {
    s != [] && (forall i | 0 <= i < |s| :: 48 <= s[i] <= 57) && (s[0] == 48 ==> |s| == 1)
  }

  lemma {:induction false} DigitsSpell(n: nat)
    ensures IsDigits(Digits(n)) && DecimalValue(Digits(n)) == n
    ensures n > 0 ==> Digits(n)[0] != 48
  {
    if n < 10 {
      assert Digits(n)[..0] == [];
    } else {
      DigitsSpell(n / 10);
      assert Digits(n)[..|Digits(n)| - 1] == Digits(n / 10);
    }
  }

  lemma PrintedDecimal(v: int64)
    ensures IsDecimal(PrintNumber(v), v)
  {
    if v < 0 {
      DigitsSpell(-(v as int));
      assert PrintNumber(v)[1..] == Digits(-(v as int));
    } else {
      DigitsSpell(v);
    }
  }

  /** The bytes of each kind of line: `k=name`, `k=~`, and `k=` with a decimal number. */
  lemma LineBytes(k: Text, name: Text, v: int64)
    ensures PrintRecord(Put(k, Ref(name))) == k + [61] + name + [10]
    ensures PrintRecord(Drop(k)) == k + [61, 126, 10]
    ensures exists number :: IsDecimal(number, v) && PrintRecord(Put(k, Num(v))) == k + [61] + number + [10]
  {
    PrintedDecimal(v);
    assert k + [61] + [126] + [10] == k + [61, 126, 10];
    assert PrintRecord(Put(k, Num(v))) == k + [61] + PrintNumber(v) + [10];
  }

  /** A number in a file is read as it is spelled, and clamped to what 64 bits hold. */
  lemma NumberRead(s: Text)
    requires forall i | 0 <= i < |s| :: 48 <= s[i] <= 57
    ensures NumberText(s) && NumberText([45] + s)
    ensures Strtol(s) == if DecimalValue(s) > 0x7fff_ffff_ffff_ffff then 0x7fff_ffff_ffff_ffff else DecimalValue(s)
    ensures Strtol([45] + s) ==
            if DecimalValue(s) > 0x8000_0000_0000_0000 then -0x8000_0000_0000_0000 else -DecimalValue(s)
  {
    DigitsValueIs(s);
    assert ([45] + s)[1..] == s;
    assert s != [] ==> s[0] != MINUS;
  }

  lemma {:induction false} DigitsValueIs(s: Text)
    requires forall i | 0 <= i < |s| :: 48 <= s[i] <= 57
    ensures DigitsValue(s) == DecimalValue(s) >= 0
  {
    if s != [] {
      DigitsValueIs(s[..|s| - 1]);
    }
  }

  /** The characters of names. */
  lemma NameBytes(s: Text)
    ensures ValidName(s) <==>
            && 1 <= |s| <= 31
            && (65 <= s[0] <= 90 || 97 <= s[0] <= 122)
            && forall i | 0 <= i < |s| :: 48 <= s[i] <= 57 || 65 <= s[i] <= 90 || 97 <= s[i] <= 122 || s[i] == 95
  {
  }

  lemma GapSkipped(gap: byte, t: Text)
    requires gap in {9, 10, 11, 12, 13, 32}
    ensures IsSpace(gap) && SkipSpace([gap] + t) == SkipSpace(t)
  {
    assert ([gap] + t)[1..] == t;
  }

  lemma PlainCharacters(k: Text, f: Text)
    requires 39 !in k && 61 !in k && forall c | c in f :: c !in {9, 10, 11, 12, 13, 32}
    ensures forall i | 0 <= i < |k| :: InScanset(k[i])
    ensures forall i | 0 <= i < |f| :: !IsSpace(f[i])
  {
    assert forall i | 0 <= i < |k| :: k[i] in k;
    assert forall i | 0 <= i < |f| :: f[i] in f;
  }

  /** White space in front of a value and behind it - tabs, line ends, blanks - does not matter. */
  lemma BlanksAreSkipped(k: Text, gap: byte, f: Text, end: byte, rest: Text, key: Text, word: Text)
    requires k != [] && 39 !in k && 61 !in k
    requires gap in {9, 10, 11, 12, 13, 32} && end in {9, 10, 11, 12, 13, 32}
    requires f != [] && forall c | c in f :: c !in {9, 10, 11, 12, 13, 32}
    ensures Fscanf(k + [61] + ([gap] + (f + [end] + rest)), key, word) == Scanned(k, f, SkipSpace(rest))
  {
    hide ScansetSpan, WordSpan, SkipSpace, InScanset, IsSpace;
    PlainCharacters(k, f);
    GapSkipped(end, []);
    GapSkipped(gap, f + [end] + rest);
    ScanKey(k, [gap] + (f + [end] + rest));
    ScanWord(f, end, rest);
  }

  /** A last line without a value sets its variable to 0. */
  lemma NoValueIsZero(k: Text)
    requires ValidName(k)
    ensures Read(k + [61], [], []) == Reading([Put(k, Num(0))], AtEnd)
  {
    ScanKey(k, []);
    assert k + [61] + [] == k + [61];
    CStringWhole(k);
    assert Fscanf(k + [61], [], []) == Scanned(k, [], []);
  }

  /** A field of 32 bytes or more does not fit its buffer. */
  lemma OverlongField(k: Text, f: Text, rest: Text, key: Text, word: Text)
    requires k != [] && 39 !in k && 61 !in k && (|k| >= 32 || |f| >= 32)
    requires f != [] && forall c | c in f :: c !in {9, 10, 11, 12, 13, 32}
    ensures Read(k + [61] + (f + [10] + rest), key, word) == Reading([], AtOverrun)
  {
    hide ScansetSpan, WordSpan, SkipSpace, InScanset, IsSpace;
    PlainCharacters(k, f);
    GapSkipped(10, []);
    ScanKey(k, f + [10] + rest);
    ScanWord(f, 10, rest);
  }

  /** A value that begins with a tilde deletes, whatever name characters are behind it. */
  lemma TildeDeletes(k: Text, more: Text)
    requires ValidName(k) && forall i | 0 <= i < |more| :: IsNameByte(more[i])
    ensures Decode(k, [126] + more) == Some(Drop(k))
  {
    assert ([126] + more)[0] == 126;
  }

  /** A C string ends at its first zero. */
  lemma {:induction false} EndsAtZero(s: Text, more: Text)
    requires 0 !in s
    ensures CString(s + [0] + more) == s
  {
    var t := s + [0] + more;
    if s != [] {
      assert t[0] == s[0] && t[1..] == s[1..] + [0] + more;
      EndsAtZero(s[1..], more);
    }
  }

  /** A quote ends a key as well: what is in front of it is set to 0, and reading stops. */
  lemma QuoteEndsKey(k: Text, rest: Text)
    requires ValidName(k)
    ensures Read(k + [39] + rest, [], []) == Reading([Put(k, Num(0))], AtBadLine)
  {
    var t := k + [39] + rest;
    KeySpan(k, rest);
    assert t[..|k|] == k && t[|k|..] == [39] + rest;
    CStringWhole(k);
    assert Fscanf(t, [], []) == Scanned(k, [], [39] + rest);
    assert Fscanf([39] + rest, [], []) == Scanned([], [], [39] + rest);
  }

  lemma {:induction false} KeySpan(k: Text, rest: Text)
    requires 39 !in k && 61 !in k
    ensures ScansetSpan(k + [39] + rest) == |k|
  {
    var t := k + [39] + rest;
    if k != [] {
      assert t[1..] == k[1..] + [39] + rest && t[0] == k[0];
      KeySpan(k[1..], rest);
    }
  }

  // ---------- Requests ----------

  /** The line of a number is at the end of the log. */
  ghost predicate NumberLogged(before: Text, k: Text, v: int, after: Text) {
    exists number :: IsDecimal(number, v) && after == before + (k + [61] + number + [10])
  }

  /** No name in the request has a character, or a length, that names do not have. */
  predicate NamesValid(r: Request) {
    match r
    case Arithmetic(_, a, b, target, _) =>
      && (a.Variable? && a.name.Some? ==> ValidName(a.name.value))
      && (b.Variable? && b.name.Some? ==> ValidName(b.name.value))
      && (target.Keep? && target.name.Some? ==> ValidName(target.name.value))
    case GetName(key) => key.Some? ==> ValidName(key.value)
    case SetName(key, name) => (key.Some? ==> ValidName(key.value)) && ValidName(name)
    case Delete(key) => key.Some? ==> ValidName(key.value)
  }

  /** An arithmetic request on operands that stand for numbers: the result of the operation, kept where
      it is asked to be, or the reason why it is refused. */
  lemma ArithmeticAnswered(sh: Shared, op: Op, a: Operand, b: Operand, target: Target, recursive: bool, limit: nat,
                           va: int64, vb: int64)
    requires NamesValid(Arithmetic(op, a, b, target, recursive))
    requires StandsFor(sh.vars, a, recursive, limit, va) && StandsFor(sh.vars, b, recursive, limit, vb)
    ensures var (sh', reply) := Execute(sh, Arithmetic(op, a, b, target, recursive), limit);
            && (forall e | RefusedFor(op, va, vb, e) :: sh' == sh && reply == Failed(e))
            && (forall v: int64 | Gives(op, va, vb, v) && !exists e :: RefusedFor(op, va, vb, e) ::
                  match target
                  case Discard => sh' == sh && reply == Number(v)
                  case Keep(None) => sh' == sh && reply == Number(2)
                  case Keep(Some(x)) =>
                    && sh'.vars == sh.vars[x := Num(v)] && NumberLogged(sh.log, x, v, sh'.log) && reply == Number(v))
            && ((exists e :: RefusedFor(op, va, vb, e)) || exists v: int64 :: Gives(op, va, vb, v))
  {
    hide Apply, EvalOperand, StandsFor, Gives, RefusedFor, PrintRecord, ValidName;
    OperandMeaning(sh.vars, a, recursive, limit);
    OperandMeaning(sh.vars, b, recursive, limit);
    OperationMeaning(op, va, vb);
    OneReason(op, va, vb);
    match Apply(op, va, vb)
    case Bad(e) =>
    case Good(v) =>
      forall v': int64 | Gives(op, va, vb, v')
        ensures v' == v
      {
        GivesOne(op, va, vb, v, v');
      }
      if target.Keep? && target.name.Some? {
        LineBytes(target.name.value, [], v);
      }
  }

  lemma OneReason(op: Op, a: int, b: int)
    ensures forall e, e' | RefusedFor(op, a, b, e) && RefusedFor(op, a, b, e') :: e == e'
  {
  }

  /** An operand that stands for no number is the answer, operand a before operand b, and nothing
      changes. */
  lemma OperandRefused(sh: Shared, op: Op, a: Operand, b: Operand, target: Target, recursive: bool, limit: nat, e: byte)
    requires NamesValid(Arithmetic(op, a, b, target, recursive))
    requires || FailsWith(sh.vars, a, recursive, limit, e)
             || (FailsWith(sh.vars, b, recursive, limit, e) && exists va :: StandsFor(sh.vars, a, recursive, limit, va))
    ensures Execute(sh, Arithmetic(op, a, b, target, recursive), limit) == (sh, Failed(e))
  {
    hide EvalOperand, StandsFor, FailsWith, ValidName;
    OperandMeaning(sh.vars, a, recursive, limit);
    OperandMeaning(sh.vars, b, recursive, limit);
  }

  /** In particular, a chain of names that ends in a missing variable gives ENOENT, as operand a and,
      behind a number, as operand b. */
  lemma MissingEnd(sh: Shared, op: Op, k: Text, other: Operand, target: Target, limit: nat, n: nat, last: Text)
    requires NamesValid(Arithmetic(op, Variable(Some(k)), other, target, true))
    requires EndsAt(sh.vars, k, n, last) && n + 1 < limit && last !in sh.vars
    ensures Execute(sh, Arithmetic(op, Variable(Some(k)), other, target, true), limit) == (sh, Failed(2))
    ensures (exists v :: StandsFor(sh.vars, other, true, limit, v)) ==>
              Execute(sh, Arithmetic(op, other, Variable(Some(k)), target, true), limit) == (sh, Failed(2))
  {
    hide Execute, EndsAt;
    assert Reaches(sh.vars, k, limit, last);
    assert k in sh.vars ==> sh.vars[k].Ref? by {
      EndOfNumber(sh.vars, k, n, last);
    }
    assert FailsWith(sh.vars, Variable(Some(k)), true, limit, 2);
    OperandRefused(sh, op, Variable(Some(k)), other, target, true, limit, 2);
    if exists v :: StandsFor(sh.vars, other, true, limit, v) {
      OperandRefused(sh, op, other, Variable(Some(k)), target, true, limit, 2);
    }
  }

  lemma EndOfNumber(m: Variables, k: Text, n: nat, last: Text)
    requires EndsAt(m, k, n, last) && last !in m
    ensures k in m ==> m[k].Ref?
  {
    if n > 0 {
      assert Walk(m, k, n).Some?;
    }
  }

  /** A request with a name that is not accepted changes nothing. */
  lemma BadNameRefused(sh: Shared, r: Request, limit: nat)
    requires !NamesValid(r)
    ensures Execute(sh, r, limit) == (sh, Failed(22))
  {
  }

  lemma SetAnswered(sh: Shared, k: Text, name: Text, limit: nat)
    requires ValidName(name)
    ensures ValidName(k) ==>
              Execute(sh, SetName(Some(k), name), limit)
              == (Shared(sh.vars[k := Ref(name)], sh.log + (k + [61] + name + [10])), Done)
    ensures Execute(sh, SetName(None, name), limit) == (sh, Failed(2))
  {
    LineBytes(k, name, 0);
  }

  /** A delete removes exactly the variable and leaves exactly its line. */
  lemma DeleteAnswered(sh: Shared, k: Text, limit: nat)
    requires ValidName(k)
    ensures k in sh.vars ==>
              Execute(sh, Delete(Some(k)), limit) == (Shared(sh.vars - {k}, sh.log + (k + [61, 126, 10])), Done)
    ensures k !in sh.vars ==> Execute(sh, Delete(Some(k)), limit) == (sh, Failed(2))
    ensures Execute(sh, Delete(None), limit) == (sh, Failed(2))
  {
    LineBytes(k, [], 0);
  }

  /** A get answers the name the variable holds. */
  lemma GetAnswered(sh: Shared, k: Text, limit: nat)
    requires ValidName(k)
    ensures forall name | k in sh.vars && sh.vars[k] == Ref(name) :: Execute(sh, GetName(Some(k)), limit) == (sh, NameIs(name))
    ensures forall v | k in sh.vars && sh.vars[k] == Num(v) :: Execute(sh, GetName(Some(k)), limit) == (sh, Failed(14))
    ensures k !in sh.vars ==> Execute(sh, GetName(Some(k)), limit) == (sh, Failed(2))
    ensures Execute(sh, GetName(None), limit) == (sh, Failed(2))
  {
  }
}
