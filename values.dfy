/** Tagged 64-bit words: the value encoding shared by the generated code,
    the collector and the printer, and the text forms of integers that the
    printer writes and the entry point reads. */
module Values {

  const TWO62: int := 0x4000_0000_0000_0000
  const TWO63: int := 0x8000_0000_0000_0000
  const TWO64: int := 0x1_0000_0000_0000_0000

  /** A machine word (`u64`). */
  type Word = x: int | 0 <= x < TWO64

  const NIL: Word := 1
  const FALSE: Word := 3
  const TRUE: Word := 7

  datatype Option<+T> = None | Some(value: T)

  predicate IsI64(n: int) { -TWO63 <= n < TWO63 }

  /** The test `val & 1 == 1 && val != 1` that the collector applies to a
      word to decide that it refers to a heap object. Note that it also
      accepts the booleans 3 and 7. */
  predicate IsRef(v: Word) { v % 2 == 1 && v != NIL }

  /** Every word `2k + 1` has the tag bit set. */
  lemma OddWord(k: int)
    ensures (2 * k + 1) % 2 == 1
  {
  }

  /** `val as i64`: the two's-complement reading of a word. */
  function AsI64(v: Word): (n: int)
    ensures IsI64(n)
    ensures (n - v) % TWO64 == 0
  {
    if v < TWO63 then v else v - TWO64
  }

  /** `(n << 1) as u64` for an `i64` n: the shift drops the top bit. */
  function EncodeInt(n: int): (w: Word)
    requires IsI64(n)
  {
    (2 * n) % TWO64
  }

  /** `(val as i64) >> 1`: the integer an even word stands for (an
      arithmetic shift, so the quotient is rounded down). */
  function DecodeInt(v: Word): (n: int)
    ensures -TWO62 <= n < TWO62
  {
    AsI64(v) / 2
  }

  /** An integer survives encoding exactly when its double fits in an i64. */
  lemma EncodeDecodeInt(n: int)
    requires IsI64(n)
    ensures DecodeInt(EncodeInt(n)) == n <==> -TWO62 <= n < TWO62
    ensures EncodeInt(n) % 2 == 0
  {
    if n >= 0 {
      assert EncodeInt(n) == 2 * n;
    } else {
      assert EncodeInt(n) == 2 * n + TWO64;
    }
  }

  // ---------------------------------------------------------------------
  // Decimal text (`format!("{}", n)` and `str::parse::<i64>`)
  // ---------------------------------------------------------------------

  predicate IsDigit(c: char) { '0' <= c <= '9' }

  predicate AllDigits(s: string) { forall i :: 0 <= i < |s| ==> IsDigit(s[i]) }

  function DigitChar(d: int): (c: char)
    requires 0 <= d < 10
    ensures IsDigit(c)
  {
    ('0' as int + d) as char
  }

  function DigitValue(c: char): (d: int)
    requires IsDigit(c)
    ensures 0 <= d < 10
  {
    c as int - '0' as int
  }

  /** Decimal digits of a natural number, without leading zeros. */
  function NatToString(n: nat): (s: string)
    ensures |s| > 0 && AllDigits(s)
  {
    if n < 10 then [DigitChar(n)] else NatToString(n / 10) + [DigitChar(n % 10)]
  }

  /** `format!("{}", n)` for an integer. */
  function IntToString(n: int): (s: string)
    ensures |s| > 0
    ensures s[0] == '-' <==> n < 0
  {
    if n < 0 then "-" + NatToString(-n) else NatToString(n)
  }

  function DigitsValue(s: string): nat
    requires AllDigits(s)
  {
    if |s| == 0 then 0 else 10 * DigitsValue(s[..|s| - 1]) + DigitValue(s[|s| - 1])
  }

  lemma {:induction false} DigitsRoundTrip(n: nat)
    ensures DigitsValue(NatToString(n)) == n
  {
    var s := NatToString(n);
    if n >= 10 {
      assert s[..|s| - 1] == NatToString(n / 10);
      DigitsRoundTrip(n / 10);
    }
  }

  /** `str::parse::<i64>`: an optional sign, then at least one digit, and
      the value must fit in an i64; None is the parse error. */
  function ParseI64(s: string): (r: Option<int>)
    ensures r.Some? ==> IsI64(r.value)
  {
    if |s| == 0 then None
    else if (s[0] == '+' || s[0] == '-') && |s| == 1 then None
    else
      var digits := if s[0] == '+' || s[0] == '-' then s[1..] else s;
      if !AllDigits(digits) then None
      else
        var magnitude: int := DigitsValue(digits);
        var n := if s[0] == '-' then -magnitude else magnitude;
        if IsI64(n) then Some(n) else None
  }

  /** Reading back the text of an i64 gives the i64. */
  lemma ParseIntToString(n: int)
    requires IsI64(n)
    ensures ParseI64(IntToString(n)) == Some(n)
  {
    var s := IntToString(n);
    if n < 0 {
      assert s[1..] == NatToString(-n);
      DigitsRoundTrip(-n);
    } else {
      DigitsRoundTrip(n);
    }
  }

  /** `parse_input`: "true" and "false" become the boolean words, anything
      else must parse as an i64 and is encoded; None is the panic of
      `unwrap`. */
  function ParseInput(input: string): (r: Option<Word>)
    ensures input == "true" ==> r == Some(TRUE)
    ensures input == "false" ==> r == Some(FALSE)
    ensures r.Some? ==> (r.value % 2 == 0 <==> input != "true" && input != "false")
    ensures r.None? <==> input != "true" && input != "false" && ParseI64(input).None?
  {
    if input == "true" then Some(TRUE)
    else if input == "false" then Some(FALSE)
    else match ParseI64(input)
      case Some(n) => EncodeDecodeInt(n); Some(EncodeInt(n))
      case None => None
  }

  /** The text of an integer is read as that integer's encoding. */
  lemma ParseInputOfInt(n: int)
    requires IsI64(n)
    ensures ParseInput(IntToString(n)) == Some(EncodeInt(n))
  {
    var s := IntToString(n);
    assert s != "true" && s != "false" by {
      if n < 0 { assert s[0] == '-'; } else { assert IsDigit(s[0]); }
    }
    ParseIntToString(n);
  }
}
