/** What the calls of the key-value store answer for a map of variables. Errors travel in-band:
    a status shares its type with flags, and an error number with values. A key is a C pointer,
    None for NULL. */
module StoreCalls {
  import opened Types

  const IS_NUMBER: byte := 0
  const IS_NAME: byte := 1

  function KeyCheck(m: Variables, key: Option<Text>): byte {
    if key.Some? && key.value in m then OK else ENOENT
  }

  function FlagLookup(m: Variables, key: Option<Text>): byte {
    if key.None? || key.value !in m then ENOENT
    else if m[key.value].Ref? then IS_NAME else IS_NUMBER
  }

  function ValueLookup(m: Variables, key: Option<Text>): int64 {
    if key.None? || key.value !in m then ENOENT
    else match m[key.value] case Num(n) => n case Ref(_) => EFAULT
  }

  function NameLookup(m: Variables, key: Option<Text>): Option<Text> {
    if key.Some? && key.value in m && m[key.value].Ref? then Some(m[key.value].target) else None
  }

  /** The four calls tell a number, a name, a missing variable and NULL apart, and a value or a name is
      only ever found behind the flag that announces it. */
  lemma CallsAgree(m: Variables, k: Text)
    ensures KeyCheck(m, None) == 2 && FlagLookup(m, None) == 2 && ValueLookup(m, None) == 2 && NameLookup(m, None) == None
    ensures k !in m ==>
              KeyCheck(m, Some(k)) == 2 && FlagLookup(m, Some(k)) == 2 && ValueLookup(m, Some(k)) == 2 && NameLookup(m, Some(k)) == None
    ensures k in m ==> KeyCheck(m, Some(k)) == 0
    ensures forall v | k in m && m[k] == Num(v) ::
              FlagLookup(m, Some(k)) == 0 && ValueLookup(m, Some(k)) == v && NameLookup(m, Some(k)) == None
    ensures forall name | k in m && m[k] == Ref(name) ::
              FlagLookup(m, Some(k)) == 1 && ValueLookup(m, Some(k)) == 14 && NameLookup(m, Some(k)) == Some(name)
  {
  }
}
