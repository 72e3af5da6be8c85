/** The text of log and dump files: what dprintf writes for a record, what fscanf, isnumber and
    strtol make of a text, and the proof that reading undoes writing. */
module LogText {
  import opened Types

  /** One line: a variable gets a value, or is deleted. */
  datatype Record = Put(key: Text, value: Value) | Drop(key: Text)

  predicate ValidRecord(r: Record) {
    ValidName(r.key) && (r.Put? ==> ValidValue(r.value))
  }

  // ---------- Printing: "%s=%s\n" and "%s=%ld\n" ----------

  function Digits(n: nat): (s: Text)
    ensures |s| >= 1 && forall i | 0 <= i < |s| :: IsDigit(s[i])
  {
    if n < 10 then [48 + n] else Digits(n / 10) + [48 + n % 10]
  }

  function PrintNumber(n: int): Text {
    if n < 0 then [MINUS] + Digits(-n) else Digits(n)
  }

  function Field(r: Record): Text {
    match r
    case Drop(_) => [TILDE]
    case Put(_, Num(n)) => PrintNumber(n)
    case Put(_, Ref(target)) => target
  }

  function PrintRecord(r: Record): Text {
    r.key + [EQUALS] + Field(r) + [NEWLINE]
  }

  function Print(records: seq<Record>): Text {
    if records == [] then [] else PrintRecord(records[0]) + Print(records[1..])
  }

  // ---------- Reading numbers: isnumber and strtol ----------

  /** isnumber accepts digits after an optional minus sign; also the empty string and a lone minus. */
  predicate NumberText(s: Text) {
    forall i | 0 <= i < |s| :: IsDigit(s[i]) || (i == 0 && s[i] == MINUS)
  }

  method IsNumber(number: Text) returns (r: bool)
    ensures r == NumberText(number)
  {
    var i := 0;
    while i < |number|
      invariant 0 <= i <= |number|
      invariant NumberText(number[..i])
    {
      if i == 0 {
        if !IsDigit(number[i]) {
          if number[0] != MINUS {
            return false;
          }
        }
      } else {
        if !IsDigit(number[i]) {
          return false;
        }
      }
      i := i + 1;
    }
    assert number[..i] == number;
    return true;
  }

  function DigitsValue(s: Text): nat
    requires forall i | 0 <= i < |s| :: IsDigit(s[i])
  {
    if s == [] then 0
    else
      var last := s[|s| - 1];
      assert IsDigit(last);
      10 * DigitsValue(s[..|s| - 1]) + (last as int - 48)
  }

  /** strtol clamps a number that a long cannot hold. */
  function Clamp(x: int): int64 {
    if x < INT64_MIN then INT64_MIN else if x > INT64_MAX then INT64_MAX else x
  }

  function Strtol(s: Text): int64
    requires NumberText(s)
  {
    if s != [] && s[0] == MINUS then Clamp(-(DigitsValue(s[1..]) as int)) else Clamp(DigitsValue(s))
  }

  lemma {:induction false} DigitsValueOfDigits(n: nat)
    ensures DigitsValue(Digits(n)) == n
  {
    if n < 10 {
      assert Digits(n)[..0] == [];
    } else {
      DigitsValueOfDigits(n / 10);
      assert Digits(n)[..|Digits(n)| - 1] == Digits(n / 10);
    }
  }

  function PowerOfTen(k: nat): nat {
    if k == 0 then 1 else 10 * PowerOfTen(k - 1)
  }

  lemma {:induction false} DigitsLength(n: nat, k: nat)
    requires k >= 1 && n < PowerOfTen(k)
    ensures |Digits(n)| <= k
  {
    if n >= 10 {
      DigitsLength(n / 10, k - 1);
    }
  }

  lemma PowerOfTenNineteen()
    ensures PowerOfTen(19) == 10_000_000_000_000_000_000
  {
    assert PowerOfTen(5) == 100_000;
    assert PowerOfTen(10) == 10_000_000_000;
    assert PowerOfTen(15) == 1_000_000_000_000_000;
  }

  /** Every int64, the minimum included, prints as at most 20 bytes that isnumber accepts and
      strtol turns back into the number. */
  lemma PrintedNumber(n: int64)
    ensures NumberText(PrintNumber(n))
    ensures 1 <= |PrintNumber(n)| <= 20
    ensures Strtol(PrintNumber(n)) == n
  {
    var magnitude: nat := if n < 0 then -(n as int) else n as int;
    PowerOfTenNineteen();
    DigitsLength(magnitude, 19);
    DigitsValueOfDigits(magnitude);
    if n < 0 {
      assert PrintNumber(n)[1..] == Digits(magnitude);
    }
  }

  // ---------- fscanf(fp, "%[^'=']=%s\n", key, name), section 7.19.6.2 of ISO C99 ----------

  predicate InScanset(c: byte) {
    c != QUOTE && c != EQUALS
  }

  predicate IsSpace(c: byte) {
    c == 32 || 9 <= c <= 13
  }

  function ScansetSpan(t: Text): (n: nat)
    ensures n <= |t|
    ensures forall i | 0 <= i < n :: InScanset(t[i])
    ensures n < |t| ==> !InScanset(t[n])
  {
    if t == [] || !InScanset(t[0]) then 0 else 1 + ScansetSpan(t[1..])
  }

  function WordSpan(t: Text): (n: nat)
    ensures n <= |t|
    ensures forall i | 0 <= i < n :: !IsSpace(t[i])
    ensures n < |t| ==> IsSpace(t[n])
  {
    if t == [] || IsSpace(t[0]) then 0 else 1 + WordSpan(t[1..])
  }

  function SkipSpace(t: Text): (rest: Text)
    ensures |rest| <= |t|
    ensures rest != [] ==> !IsSpace(rest[0])
  {
    if t == [] || !IsSpace(t[0]) then t else SkipSpace(t[1..])
  }

  /** What one call leaves: EOF, or the two buffers (a directive that is not reached leaves its
      buffer as it was) and the unread text. */
  datatype Scan = Eof | Scanned(key: Text, word: Text, rest: Text)

  function Fscanf(t: Text, key: Text, word: Text): (s: Scan)
    ensures s.Scanned? ==> |s.rest| < |t| || (s.key == key && s.word == word && s.rest == t)
  {
    if t == [] then Eof
    else
      var n := ScansetSpan(t);
      if n == 0 then Scanned(key, word, t)
      else if n == |t| || t[n] != EQUALS then Scanned(t[..n], word, t[n..])
      else
        var field := SkipSpace(t[n + 1..]);
        if field == [] then Scanned(t[..n], word, [])
        else
          var w := WordSpan(field);
          Scanned(t[..n], field[..w], SkipSpace(field[w..]))
  }

  /** A buffer read as a C string: the bytes before the first zero. */
  function CString(buffer: Text): (s: Text)
    ensures |s| <= |buffer|
  {
    if buffer == [] || buffer[0] == 0 then [] else [buffer[0]] + CString(buffer[1..])
  }

  // ---------- Meaning of a line and of a text ----------

  /** The record a line's two fields stand for; None when the loader refuses them. */
  function Decode(key: Text, word: Text): (r: Option<Record>)
    ensures r.Some? ==> ValidRecord(r.value)
  {
    if !ValidName(key) then None
    else if NumberText(word) then Some(Put(key, Num(Strtol(word))))
    else if word[0] == TILDE && forall i | 1 <= i < |word| :: IsNameByte(word[i]) then Some(Drop(key))
    else if ValidName(word) then Some(Put(key, Ref(word)))
    else None
  }

  function ApplyRecord(m: Variables, r: Record): Variables {
    match r
    case Put(key, value) => m[key := value]
    case Drop(key) => m - {key}
  }

  function ApplyAll(m: Variables, records: seq<Record>): Variables
    decreases |records|
  {
    if records == [] then m else ApplyAll(ApplyRecord(m, records[0]), records[1..])
  }

  /** Where reading a text stops: after the whole text, at a line that is refused, or at a field
      longer than the 32-byte buffer it is read into, after which the C program has no defined
      behaviour. */
  datatype Stop = AtEnd | AtBadLine | AtOverrun

  datatype Reading = Reading(records: seq<Record>, stop: Stop)

  /** The records of text t, the buffers holding key and word before the first scan. */
  function Read(t: Text, key: Text, word: Text): (reading: Reading)
    ensures forall i | 0 <= i < |reading.records| :: ValidRecord(reading.records[i])
    decreases |t|, |key|
  {
    match Fscanf(t, key, word)
    case Eof => Reading([], AtEnd)
    case Scanned(k, w, rest) =>
      if |k| > 31 || |w| > 31 then Reading([], AtOverrun)
      else
        match Decode(CString(k), CString(w))
        case None => Reading([], AtBadLine)
        case Some(r) =>
          var more := Read(rest, [], []);
          Reading([r] + more.records, more.stop)
  }

  /** Loading a text into m: the records before the stop stay applied. */
  datatype Loaded = Complete(vars: Variables) | Refused(vars: Variables) | Overrun

  function Load(t: Text, key: Text, word: Text, m: Variables): Loaded {
    var reading := Read(t, key, word);
    match reading.stop
    case AtEnd => Complete(ApplyAll(m, reading.records))
    case AtBadLine => Refused(ApplyAll(m, reading.records))
    case AtOverrun => Overrun
  }

  /** The checks both loaders make on a key: not a number, a letter first, then letters, digits and
      underscores. */
  method CheckKey(key: Text) returns (ok: bool)
    requires |key| <= 31
    ensures ok == ValidName(key)
  {
    var number := IsNumber(key);
    if number {
      assert key != [] ==> IsDigit(key[0]) || key[0] == MINUS;
      return false;
    }
    var i := 0;
    while i < |key|
      invariant 0 <= i <= |key|
      invariant i > 0 ==> IsAlpha(key[0])
      invariant forall j | 0 <= j < i :: IsNameByte(key[j])
    {
      if i == 0 {
        if IsDigit(key[i]) {
          return false;
        }
        if !IsAlpha(key[i]) {
          return false;
        }
      } else {
        if !IsDigit(key[i]) {
          if !IsAlpha(key[i]) {
            if key[i] != UNDERSCORE {
              return false;
            }
          }
        }
      }
      i := i + 1;
    }
    return true;
  }

  /** The checks on a value that is no number. The digit test looks at the key, which has passed its
      own checks by then. */
  method CheckWord(key: Text, word: Text) returns (ok: bool)
    requires ValidName(key) && !NumberText(word)
    ensures ok <==> (IsAlpha(word[0]) || word[0] == TILDE) && forall j | 1 <= j < |word| :: IsNameByte(word[j])
  {
    var i := 0;
    while i < |word|
      invariant 0 <= i <= |word|
      invariant i > 0 ==> IsAlpha(word[0]) || word[0] == TILDE
      invariant forall j | 1 <= j < i :: IsNameByte(word[j])
    {
      if i == 0 {
        if IsDigit(key[i]) {
          return false;
        }
        if !IsAlpha(word[i]) {
          if word[i] != TILDE {
            return false;
          }
        }
      } else {
        if !IsDigit(word[i]) {
          if !IsAlpha(word[i]) {
            if word[i] != UNDERSCORE {
              return false;
            }
          }
        }
      }
      i := i + 1;
    }
    return true;
  }

  // ---------- Reading undoes writing ----------

  lemma {:induction false} WordSpanIs(t: Text, n: nat)
    requires n < |t| && IsSpace(t[n])
    requires forall i | 0 <= i < n :: !IsSpace(t[i])
    ensures WordSpan(t) == n
  {
  }

  lemma {:induction false} CStringWhole(s: Text)
    requires 0 !in s
    ensures CString(s) == s
  {
    if s != [] {
      CStringWhole(s[1..]);
    }
  }

  lemma FieldShape(r: Record)
    requires ValidRecord(r)
    ensures 1 <= |Field(r)| <= 31
    ensures forall i | 0 <= i < |Field(r)| :: !IsSpace(Field(r)[i]) && Field(r)[i] != 0
    ensures Decode(r.key, Field(r)) == Some(r)
  {
    match r
    case Drop(_) =>
    case Put(_, Num(n)) => PrintedNumber(n);
    case Put(_, Ref(target)) => assert !IsDigit(target[0]) && target[0] != MINUS;
  }

  lemma ScanKey(k: Text, after: Text)
    requires forall i | 0 <= i < |k| :: InScanset(k[i])
    ensures var t := k + [EQUALS] + after;
            ScansetSpan(t) == |k| && t[|k|] == EQUALS && t[..|k|] == k && t[|k| + 1..] == after
  {
  }

  /** A line `key=field` followed by white space scans to its two parts. */
  lemma ScanLine(k: Text, f: Text, space: byte, rest: Text, key: Text, word: Text)
    requires k != [] && forall i | 0 <= i < |k| :: InScanset(k[i])
    requires f != [] && forall i | 0 <= i < |f| :: !IsSpace(f[i])
    requires IsSpace(space)
    ensures Fscanf(k + [EQUALS] + (f + [space] + rest), key, word) == Scanned(k, f, SkipSpace(rest))
  {
    ScanKey(k, f + [space] + rest);
    ScanWord(f, space, rest);
  }

  lemma ScanWord(f: Text, space: byte, rest: Text)
    requires f != [] && forall i | 0 <= i < |f| :: !IsSpace(f[i])
    requires IsSpace(space)
    ensures var t := f + [space] + rest;
            SkipSpace(t) == t && WordSpan(t) == |f| && t[..|f|] == f && SkipSpace(t[|f|..]) == SkipSpace(rest)
  {
    var t := f + [space] + rest;
    assert t[0] == f[0];
    assert t[|f|] == space;
    assert forall i | 0 <= i < |f| :: t[i] == f[i];
    WordSpanIs(t, |f|);
    assert t[|f|..] == [space] + rest;
    assert ([space] + rest)[1..] == rest;
  }

  lemma LineParts(r: Record, rest: Text)
    ensures PrintRecord(r) + rest == r.key + [EQUALS] + (Field(r) + [NEWLINE] + rest)
  {
    hide Field;
    var f := Field(r) + [NEWLINE];
    assert PrintRecord(r) == r.key + [EQUALS] + f;
    assert f + rest == Field(r) + [NEWLINE] + rest;
  }

  /** One printed line scans back to its key and field, whatever the buffers held. */
  lemma ScanPrinted(r: Record, rest: Text, key: Text, word: Text)
    requires ValidRecord(r)
    ensures Fscanf(PrintRecord(r) + rest, key, word) == Scanned(r.key, Field(r), SkipSpace(rest))
  {
    FieldShape(r);
    hide Field, PrintRecord, Fscanf, SkipSpace;
    ScanLine(r.key, Field(r), NEWLINE, rest, key, word);
    LineParts(r, rest);
  }

  lemma PrintedStart(records: seq<Record>, tail: Text)
    requires forall i | 0 <= i < |records| :: ValidRecord(records[i])
    requires SkipSpace(tail) == tail
    ensures SkipSpace(Print(records) + tail) == Print(records) + tail
  {
  }

  /** Printed records are read back, and reading goes on with the text behind them. */
  lemma {:induction false} ReadPrintedThen(records: seq<Record>, tail: Text, key: Text, word: Text)
    requires forall i | 0 <= i < |records| :: ValidRecord(records[i])
    requires SkipSpace(tail) == tail
    ensures Read(Print(records) + tail, key, word) ==
            if records == [] then Read(tail, key, word)
            else var more := Read(tail, [], []); Reading(records + more.records, more.stop)
    decreases |records|
  {
    if records == [] {
      assert Print(records) + tail == tail;
    } else {
      var r, rest := records[0], Print(records[1..]) + tail;
      assert Print(records) + tail == PrintRecord(r) + rest;
      ScanPrinted(r, rest, key, word);
      PrintedStart(records[1..], tail);
      FieldShape(r);
      CStringWhole(r.key);
      CStringWhole(Field(r));
      ReadPrintedThen(records[1..], tail, [], []);
      ConsRecords(records, Read(tail, [], []).records);
    }
  }

  lemma ConsRecords(records: seq<Record>, more: seq<Record>)
    requires records != []
    ensures [records[0]] + (records[1..] + more) == records + more
    ensures records[1..] == [] ==> [records[0]] + more == records + more
  {
  }

  /** Any list of records printed line by line is read back as the same list, whatever the scan
      buffers held before; loading it applies the records one after another. */
  lemma ReadPrinted(records: seq<Record>, key: Text, word: Text)
    requires forall i | 0 <= i < |records| :: ValidRecord(records[i])
    ensures Read(Print(records), key, word) == Reading(records, AtEnd)
    ensures forall m :: Load(Print(records), key, word, m) == Complete(ApplyAll(m, records))
  {
    ReadPrintedThen(records, [], key, word);
    assert Print(records) + [] == Print(records);
  }

  /** A line without a key is where reading stops; lines behind it are not read. */
  lemma BadLineStops(records: seq<Record>, rest: Text, key: Text, word: Text, m: Variables)
    requires records != [] && forall i | 0 <= i < |records| :: ValidRecord(records[i])
    ensures Read(Print(records) + [61] + rest, key, word) == Reading(records, AtBadLine)
    ensures Load(Print(records) + [61] + rest, key, word, m) == Refused(ApplyAll(m, records))
  {
    ReadPrintedThen(records, [61] + rest, key, word);
    assert Print(records) + [61] + rest == Print(records) + ([61] + rest);
    BadLineRead(rest);
    assert records + [] == records;
  }

  lemma BadLineRead(rest: Text)
    ensures SkipSpace([61] + rest) == [61] + rest
    ensures Read([61] + rest, [], []) == Reading([], AtBadLine)
  {
  }

  /** A text without `~` holds no deletions. */
  lemma {:induction false} ReadNoTilde(t: Text, key: Text, word: Text)
    requires TILDE !in t && TILDE !in word
    ensures forall i | 0 <= i < |Read(t, key, word).records| :: Read(t, key, word).records[i].Put?
    decreases |t|, |key|
  {
    var scan := Fscanf(t, key, word);
    if scan.Scanned? {
      ScanTakesBytes(t, key, word, TILDE);
      CStringTakesBytes(scan.word, TILDE);
      var record := Decode(CString(scan.key), CString(scan.word));
      if |scan.key| <= 31 && |scan.word| <= 31 && record.Some? {
        ReadNoTilde(scan.rest, [], []);
        assert record.value.Put?;
      }
    }
  }

  lemma {:induction false} ApplyKeeps(m: Variables, records: seq<Record>)
    requires ValidVariables(m) && forall i | 0 <= i < |records| :: ValidRecord(records[i])
    ensures ValidVariables(ApplyAll(m, records))
    ensures (forall i | 0 <= i < |records| :: records[i].Put?) ==> m.Keys <= ApplyAll(m, records).Keys
    decreases |records|
  {
    if records != [] {
      ApplyKeeps(ApplyRecord(m, records[0]), records[1..]);
    }
  }

  lemma {:induction false} SkipSpaceTakes(t: Text, c: byte)
    requires c !in t
    ensures c !in SkipSpace(t)
  {
    if t != [] && IsSpace(t[0]) {
      SkipSpaceTakes(t[1..], c);
    }
  }

  lemma ScanTakesBytes(t: Text, key: Text, word: Text, c: byte)
    requires c !in t && c !in word
    ensures var scan := Fscanf(t, key, word);
            scan.Scanned? ==> c !in scan.word && c !in scan.rest
  {
    var n := ScansetSpan(t);
    if n < |t| && t[n] == EQUALS {
      SkipSpaceTakes(t[n + 1..], c);
      var field := SkipSpace(t[n + 1..]);
      SkipSpaceTakes(field[WordSpan(field)..], c);
    }
  }

  lemma {:induction false} CStringTakesBytes(s: Text, c: byte)
    requires c !in s
    ensures c !in CString(s)
  {
    if s != [] && s[0] != 0 {
      CStringTakesBytes(s[1..], c);
    }
  }

  lemma {:induction false} PrintConcat(a: seq<Record>, b: seq<Record>)
    ensures Print(a + b) == Print(a) + Print(b)
  {
    if a == [] {
      assert a + b == b;
    } else {
      assert (a + b)[1..] == a[1..] + b;
      PrintConcat(a[1..], b);
    }
  }

  lemma {:induction false} ApplyConcat(m: Variables, a: seq<Record>, b: seq<Record>)
    ensures ApplyAll(m, a + b) == ApplyAll(ApplyAll(m, a), b)
    decreases |a|
  {
    if a == [] {
      assert a + b == b;
    } else {
      assert (a + b)[1..] == a[1..] + b;
      ApplyConcat(ApplyRecord(m, a[0]), a[1..], b);
    }
  }
}
