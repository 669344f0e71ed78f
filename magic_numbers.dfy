/** `MagicNumbers`: the tag of a `DataPacket` that says which typed payload it carries. */
module MagicNumbers {
  import opened Ints
  import opened Wrappers

  datatype MagicNumber = FileComing | Text

  const FILE_COMING_VALUE: u16 := 0x3939
  const TEXT_VALUE: u16 := 0x3940

  /** `MagicNumbers::value`. */
  function Value(m: MagicNumber): (v: u16)
    ensures v == FILE_COMING_VALUE || v == TEXT_VALUE
  {
    match m
    case FileComing => FILE_COMING_VALUE
    case Text => TEXT_VALUE
  }

  /** `MagicNumbers::from`: the tag a 16-bit value stands for, if any. */
  function From(v: u16): (r: Option<MagicNumber>)
    ensures r.Some? ==> Value(r.value) == v
    ensures r.None? <==> v != FILE_COMING_VALUE && v != TEXT_VALUE
  {
    if v == FILE_COMING_VALUE then Some(FileComing)
    else if v == TEXT_VALUE then Some(Text)
    else None
  }

  /** Every tag round-trips through its value. */
  lemma FromValue(m: MagicNumber)
    ensures From(Value(m)) == Some(m)
  {
  }

  /** Distinct tags have distinct values. */
  lemma ValueInjective(m: MagicNumber, n: MagicNumber)
    ensures Value(m) == Value(n) <==> m == n
  {
  }
}
