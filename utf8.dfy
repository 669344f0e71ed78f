/** UTF-8 as Rust's standard library implements it: `str::as_bytes`,
    `String::from_utf8` (strict) and `String::from_utf8_lossy` (each maximal
    ill-formed subsequence replaced by U+FFFD). Text is a Dafny `string`, a
    sequence of Unicode scalar values, as a Rust `String` is. */
module Utf8 {
  import opened Ints
  import opened Wrappers

  const REPLACEMENT_CHARACTER: char := '\U{FFFD}'

  /** The UTF-8 encoding of one scalar value: 1 to 4 bytes. */
  function EncodeChar(c: char): (r: Bytes)
    ensures 1 <= |r| <= 4
  {
    var n := c as int;
    if n < 0x80 then [n]
    else if n < 0x800 then [0xC0 + n / 64, 0x80 + n % 64]
    else if n < 0x1_0000 then [0xE0 + n / 4096, 0x80 + (n % 4096) / 64, 0x80 + (n % 4096) % 64]
    else
      var m := n % 0x4_0000;
      [0xF0 + n / 0x4_0000, 0x80 + m / 4096, 0x80 + (m % 4096) / 64, 0x80 + (m % 4096) % 64]
  }

  /** `s.as_bytes()`: the concatenated encodings of the characters. */
  function Encode(s: string): (r: Bytes)
    ensures |r| >= |s|
  {
    if s == [] then [] else EncodeChar(s[0]) + Encode(s[1..])
  }

  predicate IsCont(b: int) {
    0x80 <= b <= 0xBF
  }

  /** One decoding step at the front of a byte string: a scalar value and the
      number of bytes it used, or an ill-formed prefix and its length (the
      maximal subpart, per the well-formed byte sequences of the Unicode
      standard, table 3-7). */
  datatype Step = Scalar(c: char, len: nat) | Invalid(len: nat)

  function DecodeStep(b: Bytes): (st: Step)
    requires |b| > 0
    ensures 1 <= st.len <= |b| && st.len <= 4
  {
    var b0: int := b[0];
    var b1: int := if |b| > 1 then b[1] else 0;
    var b2: int := if |b| > 2 then b[2] else 0;
    var b3: int := if |b| > 3 then b[3] else 0;
    if b0 < 0x80 then Scalar(b0 as char, 1)
    else if 0xC2 <= b0 <= 0xDF then
      if |b| >= 2 && IsCont(b1) then Scalar(((b0 - 0xC0) * 64 + (b1 - 0x80)) as char, 2)
      else Invalid(1)
    else if 0xE0 <= b0 <= 0xEF then
      var lo := if b0 == 0xE0 then 0xA0 else 0x80;
      var hi := if b0 == 0xED then 0x9F else 0xBF;
      if |b| < 2 || !(lo <= b1 <= hi) then Invalid(1)
      else if |b| < 3 || !IsCont(b2) then Invalid(2)
      else Scalar(((b0 - 0xE0) * 4096 + (b1 - 0x80) * 64 + (b2 - 0x80)) as char, 3)
    else if 0xF0 <= b0 <= 0xF4 then
      var lo := if b0 == 0xF0 then 0x90 else 0x80;
      var hi := if b0 == 0xF4 then 0x8F else 0xBF;
      if |b| < 2 || !(lo <= b1 <= hi) then Invalid(1)
      else if |b| < 3 || !IsCont(b2) then Invalid(2)
      else if |b| < 4 || !IsCont(b3) then Invalid(3)
      else Scalar(((b0 - 0xF0) * 0x4_0000 + (b1 - 0x80) * 4096 + (b2 - 0x80) * 64 + (b3 - 0x80)) as char, 4)
    else Invalid(1)
  }

  /** `String::from_utf8(b)`: the text if b is well-formed UTF-8, else `None`. */
  function FromUtf8(b: Bytes): (r: Option<string>)
    decreases |b|
  {
    if b == [] then Some([])
    else
      match DecodeStep(b)
      case Invalid(_) => None
      case Scalar(c, k) =>
        match FromUtf8(b[k..])
        case None => None
        case Some(t) => Some([c] + t)
  }

  /** `String::from_utf8_lossy(b)`: never fails. */
  function FromUtf8Lossy(b: Bytes): string
    decreases |b|
  {
    if b == [] then []
    else
      var st := DecodeStep(b);
      (if st.Scalar? then [st.c] else [REPLACEMENT_CHARACTER]) + FromUtf8Lossy(b[st.len..])
  }

  predicate IsValid(b: Bytes) {
    FromUtf8(b).Some?
  }

  /** Decoding the encoding of a character gives back that character. */
  lemma StepEncodeChar(c: char, rest: Bytes)
    ensures DecodeStep(EncodeChar(c) + rest) == Scalar(c, |EncodeChar(c)|)
  {
    var n := c as int;
    var e := EncodeChar(c);
    var b := e + rest;
    if n < 0x80 {
    } else if n < 0x800 {
      assert b[0] == 0xC0 + n / 64 && b[1] == 0x80 + n % 64;
    } else if n < 0x1_0000 {
      assert b[0] == 0xE0 + n / 4096 && b[1] == 0x80 + (n % 4096) / 64 && b[2] == 0x80 + (n % 4096) % 64;
      assert n == (n / 4096) * 4096 + ((n % 4096) / 64) * 64 + (n % 4096) % 64;
    } else {
      var m := n % 0x4_0000;
      assert b[0] == 0xF0 + n / 0x4_0000 && b[1] == 0x80 + m / 4096;
      assert b[2] == 0x80 + (m % 4096) / 64 && b[3] == 0x80 + (m % 4096) % 64;
      assert n == (n / 0x4_0000) * 0x4_0000 + (m / 4096) * 4096 + ((m % 4096) / 64) * 64 + (m % 4096) % 64;
    }
  }

  lemma EncodeTwo(c: char, x0: int, x1: int)
    requires 0xC2 <= x0 <= 0xDF && IsCont(x1)
    requires c as int == (x0 - 0xC0) * 64 + (x1 - 0x80)
    ensures EncodeChar(c) == [x0, x1]
  {
  }

  lemma EncodeThree(c: char, x0: int, x1: int, x2: int)
    requires 0xE0 <= x0 <= 0xEF && IsCont(x1) && IsCont(x2)
    requires c as int == (x0 - 0xE0) * 4096 + (x1 - 0x80) * 64 + (x2 - 0x80)
    requires c as int >= 0x800
    ensures EncodeChar(c) == [x0, x1, x2]
  {
    var n := c as int;
    assert n / 4096 == x0 - 0xE0 && n % 4096 == (x1 - 0x80) * 64 + (x2 - 0x80);
  }

  lemma EncodeFour(c: char, x0: int, x1: int, x2: int, x3: int)
    requires 0xF0 <= x0 <= 0xF4 && IsCont(x1) && IsCont(x2) && IsCont(x3)
    requires c as int == (x0 - 0xF0) * 0x4_0000 + (x1 - 0x80) * 4096 + (x2 - 0x80) * 64 + (x3 - 0x80)
    requires c as int >= 0x1_0000
    ensures EncodeChar(c) == [x0, x1, x2, x3]
  {
    var n := c as int;
    var m := n % 0x4_0000;
    assert n / 0x4_0000 == x0 - 0xF0 && m == (x1 - 0x80) * 4096 + (x2 - 0x80) * 64 + (x3 - 0x80);
    assert m / 4096 == x1 - 0x80 && m % 4096 == (x2 - 0x80) * 64 + (x3 - 0x80);
  }

  /** A decoded scalar value re-encodes to exactly the bytes it was decoded from. */
  lemma StepScalarIsEncoding(b: Bytes)
    requires |b| > 0 && DecodeStep(b).Scalar?
    ensures b[..DecodeStep(b).len] == EncodeChar(DecodeStep(b).c)
  {
    var st := DecodeStep(b);
    if st.len == 2 {
      EncodeTwo(st.c, b[0], b[1]);
    } else if st.len == 3 {
      EncodeThree(st.c, b[0], b[1], b[2]);
    } else if st.len == 4 {
      EncodeFour(st.c, b[0], b[1], b[2], b[3]);
    }
  }

  /** `String::from_utf8(s.as_bytes()) == Ok(s)`. */
  lemma {:induction false} FromUtf8Encode(s: string)
    ensures FromUtf8(Encode(s)) == Some(s)
  {
    if s != [] {
      var e := EncodeChar(s[0]);
      StepEncodeChar(s[0], Encode(s[1..]));
      assert (e + Encode(s[1..]))[|e|..] == Encode(s[1..]);
      FromUtf8Encode(s[1..]);
      assert [s[0]] + s[1..] == s;
    }
  }

  /** Every text `from_utf8` accepts is the decoding of exactly those bytes. */
  lemma {:induction false} FromUtf8IsInverse(b: Bytes)
    requires FromUtf8(b).Some?
    ensures Encode(FromUtf8(b).value) == b
    decreases |b|
  {
    if b != [] {
      var st := DecodeStep(b);
      var rest := FromUtf8(b[st.len..]);
      assert st.Scalar? && rest.Some?;
      var s := FromUtf8(b).value;
      assert s == [st.c] + rest.value;
      StepScalarIsEncoding(b);
      FromUtf8IsInverse(b[st.len..]);
      assert s != [] && s[0] == st.c && s[1..] == rest.value;
      calc {
        Encode(s);
        EncodeChar(st.c) + Encode(rest.value);
        b[..st.len] + b[st.len..];
        b;
      }
    }
  }

  /** `from_utf8` succeeds with s exactly on the bytes of s. */
  lemma FromUtf8Iff(b: Bytes, s: string)
    ensures FromUtf8(b) == Some(s) <==> b == Encode(s)
  {
    if FromUtf8(b) == Some(s) {
      FromUtf8IsInverse(b);
    }
    if b == Encode(s) {
      FromUtf8Encode(s);
    }
  }

  /** The encoding is injective. */
  lemma EncodeInjective(s: string, t: string)
    requires Encode(s) == Encode(t)
    ensures s == t
  {
    FromUtf8Encode(s);
    FromUtf8Encode(t);
  }

  /** On well-formed input the lossy decoding is the strict one. */
  lemma {:induction false} LossyOfValid(b: Bytes)
    requires FromUtf8(b).Some?
    ensures FromUtf8Lossy(b) == FromUtf8(b).value
    decreases |b|
  {
    if b != [] {
      LossyOfValid(b[DecodeStep(b).len..]);
    }
  }

  lemma LossyEncode(s: string)
    ensures FromUtf8Lossy(Encode(s)) == s
  {
    FromUtf8Encode(s);
    LossyOfValid(Encode(s));
  }

  lemma {:induction false} EncodeAppend(s: string, t: string)
    ensures Encode(s + t) == Encode(s) + Encode(t)
  {
    if s != [] {
      assert (s + t)[0] == s[0] && (s + t)[1..] == s[1..] + t;
      EncodeAppend(s[1..], t);
      calc {
        Encode(s + t);
        EncodeChar(s[0]) + Encode(s[1..] + t);
        EncodeChar(s[0]) + (Encode(s[1..]) + Encode(t));
        (EncodeChar(s[0]) + Encode(s[1..])) + Encode(t);
      }
    } else {
      assert s + t == t;
    }
  }
}
