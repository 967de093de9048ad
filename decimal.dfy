/** Decimal digit strings, as Python's `int()` reads them and `format` writes them. */
module Decimal {

  predicate IsDigit(c: char)
  {
    '0' <= c <= '9'
  }

  predicate AllDigits(ds: string)
  {
    forall k :: 0 <= k < |ds| ==> IsDigit(ds[k])
  }

  function DigitValue(c: char): nat
  {
    if IsDigit(c) then c as int - '0' as int else 0
  }

  /** The value `int()` gives a string of decimal digits. */
  function Value(ds: string): nat
  {
    if ds == [] then 0 else Value(ds[..|ds| - 1]) * 10 + DigitValue(ds[|ds| - 1])
  }

  /** The decimal text of `n`, which reads back as `n`. */
  function Show(n: nat): (r: string)
    ensures r != [] && AllDigits(r) && Value(r) == n
    ensures |r| > 1 ==> r[0] != '0'
  {
    var d := (n % 10) as char + '0';
    assert DigitValue(d) == n % 10;
    if n < 10 then
      assert [d][..0] == [];
      [d]
    else
      var r := Show(n / 10) + [d];
      assert r[..|r| - 1] == Show(n / 10);
      r
  }

  /** Leading zeros aside, a digit string is the text of its value. */
  lemma {:induction false} ShowValue(ds: string)
    requires ds != [] && AllDigits(ds) && (|ds| > 1 ==> ds[0] != '0')
    ensures Show(Value(ds)) == ds
    decreases |ds|
  {
    var init := ds[..|ds| - 1];
    var last := ds[|ds| - 1];
    if init == [] {
      assert ds == [last];
    } else {
      assert init[0] == ds[0];
      ShowValue(init);
      assert Value(init) > 0 by {
        PositiveValue(init);
      }
      assert ds == init + [last];
    }
  }

  /** A leading zero does not change the value. */
  lemma {:induction false} ZeroPaddedValue(ds: string)
    ensures Value("0" + ds) == Value(ds)
    decreases |ds|
  {
    if ds == [] {
      assert ("0" + ds)[..0] == [];
    } else {
      var init := ds[..|ds| - 1];
      assert ("0" + ds)[..|"0" + ds| - 1] == "0" + init;
      ZeroPaddedValue(init);
    }
  }

  /** A digit string that does not start with `0` has a positive value. */
  lemma {:induction false} PositiveValue(ds: string)
    requires ds != [] && AllDigits(ds) && ds[0] != '0'
    ensures Value(ds) > 0
    decreases |ds|
  {
    if |ds| > 1 {
      PositiveValue(ds[..|ds| - 1]);
    }
  }
}
