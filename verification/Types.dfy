/** Values shared by every part of the server: bytes, signed 64-bit numbers, variable names,
    what a variable can hold, and the error numbers that travel in replies. */
module Types {
  type byte = b: int | 0 <= b < 256

  /** A string of the C program, without its terminating zero. */
  type Text = seq<byte>

  const INT64_MAX: int := 0x7fff_ffff_ffff_ffff
  const INT64_MIN: int := -0x8000_0000_0000_0000

  predicate Fits(x: int) {
    INT64_MIN <= x <= INT64_MAX
  }

  type int64 = x: int | -0x8000_0000_0000_0000 <= x <= 0x7fff_ffff_ffff_ffff

  /** The error numbers of <cerrno> that the server uses; 0 is success. */
  const OK: byte := 0
  const ENOENT: byte := 2
  const EFAULT: byte := 14
  const EEXIST: byte := 17
  const EINVAL: byte := 22
  const ELOOP: byte := 40
  const EOVERFLOW: byte := 75

  datatype Option<+T> = None | Some(value: T)

  datatype Outcome = Good(value: int64) | Bad(error: byte)

  predicate IsDigit(c: byte) {
    48 <= c <= 57
  }

  predicate IsAlpha(c: byte) {
    65 <= c <= 90 || 97 <= c <= 122
  }

  const UNDERSCORE: byte := 95
  const TILDE: byte := 126
  const MINUS: byte := 45
  const EQUALS: byte := 61
  const QUOTE: byte := 39
  const NEWLINE: byte := 10

  /** A byte allowed after the first one of a name. */
  predicate IsNameByte(c: byte) {
    IsDigit(c) || IsAlpha(c) || c == UNDERSCORE
  }

  predicate ValidName(s: Text) {
    && 1 <= |s| <= 31
    && IsAlpha(s[0])
    && forall i | 0 <= i < |s| :: IsNameByte(s[i])
  }

  /** What a variable holds: a number, or the name of another variable. */
  datatype Value = Num(n: int64) | Ref(target: Text)

  type Variables = map<Text, Value>

  predicate ValidValue(v: Value) {
    v.Ref? ==> ValidName(v.target)
  }

  /** Every name in the map, as a key or as a value, is a valid one. */
  ghost predicate ValidVariables(m: Variables) {
    forall k | k in m :: ValidName(k) && ValidValue(m[k])
  }
}
