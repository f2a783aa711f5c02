/** Decimal numerals as byte texts. */
module Decimal {
  import opened Results
  import opened Bytes

  const ZERO: byte := 48

  predicate IsDigit(b: byte) {
    ZERO <= b <= 57
  }

  predicate AllDigits(ds: bytes) {
    forall i :: 0 <= i < |ds| ==> IsDigit(ds[i])
  }

  /** The number a digit text denotes; leading zeros are allowed and the empty text denotes 0. */
  function Value(ds: bytes): nat
    requires AllDigits(ds)
  {
    if ds == [] then 0 else Value(ds[..|ds| - 1]) * 10 + (ds[|ds| - 1] - ZERO) as nat
  }

  /** The canonical numeral of a number. */
  function Print(n: nat): (ds: bytes)
    ensures |ds| > 0 && AllDigits(ds)
  {
    if n < 10 then [(n + 48) as byte] else Print(n / 10) + [(n % 10 + 48) as byte]
  }

  lemma {:induction false} ValuePrint(n: nat)
    ensures Value(Print(n)) == n
  {
    if n >= 10 {
      ValuePrint(n / 10);
      assert Print(n)[..|Print(n)| - 1] == Print(n / 10);
    }
  }

  lemma PrintInjective(m: nat, n: nat)
    requires Print(m) == Print(n)
    ensures m == n
  {
    ValuePrint(m);
    ValuePrint(n);
  }

  function Zeros(k: nat): (r: bytes)
    ensures |r| == k && forall i :: 0 <= i < k ==> r[i] == ZERO
  {
    seq(k, _ => ZERO)
  }

  /** Every digit text is some zeros and the canonical numeral of its value. */
  lemma {:induction false} ZerosAndNumeral(ds: bytes) returns (zeros: nat)
    requires AllDigits(ds) && ds != []
    ensures ds == Zeros(zeros) + Print(Value(ds))
    decreases |ds|
  {
    var init, last := ds[..|ds| - 1], ds[|ds| - 1];
    assert ds == init + [last];
    if init == [] {
      assert Value(init) == 0;
      return 0;
    }
    zeros := ZerosAndNumeral(init);
    if Value(init) == 0 {
      assert init == Zeros(zeros + 1);
      return zeros + 1;
    }
    assert ds == Zeros(zeros) + (Print(Value(init)) + [last]);
  }

  lemma {:induction false} ValueOfZeros(zeros: nat, ds: bytes)
    requires AllDigits(ds)
    ensures AllDigits(Zeros(zeros) + ds) && Value(Zeros(zeros) + ds) == Value(ds)
    decreases zeros + |ds|
  {
    var text := Zeros(zeros) + ds;
    if ds != [] {
      ValueOfZeros(zeros, ds[..|ds| - 1]);
      assert text[..|text| - 1] == Zeros(zeros) + ds[..|ds| - 1];
    } else if zeros > 0 {
      ValueOfZeros(zeros - 1, []);
      assert text[..|text| - 1] == Zeros(zeros - 1) + [];
    }
  }

  /** The digit loop of the packet readers: it refuses a text with a foreign byte, and every text
      whose running value ever exceeds the largest 32-bit integer. */
  function ParseLength(ds: bytes): (r: Option<nat>)
    ensures r.Some? ==> r.value <= INT32_MAX
  {
    if ds == [] then Some(0)
    else
      match ParseLength(ds[..|ds| - 1])
      case None => None
      case Some(high) =>
        var last := ds[|ds| - 1];
        if !IsDigit(last) then None
        else
          var n := high * 10 + (last - ZERO) as nat;
          if n > INT32_MAX then None else Some(n)
  }

  /** Refusing early on an intermediate value is the same as refusing on the final value. */
  lemma {:induction false} ParseLengthExact(ds: bytes)
    ensures ParseLength(ds).Some? <==> AllDigits(ds) && Value(ds) <= INT32_MAX
    ensures ParseLength(ds).Some? ==> ParseLength(ds).value == Value(ds)
  {
    if ds != [] {
      var init := ds[..|ds| - 1];
      ParseLengthExact(init);
      if AllDigits(ds) {
        assert AllDigits(init);
        assert Value(ds) >= Value(init);
      } else if AllDigits(init) {
        assert !IsDigit(ds[|ds| - 1]);
      }
    }
  }

  lemma ParsePrinted(n: nat)
    requires n <= INT32_MAX
    ensures ParseLength(Print(n)) == Some(n)
  {
    ValuePrint(n);
    ParseLengthExact(Print(n));
  }

  /** A number inside a MoonBit string. */
  function Text(n: nat): (s: string)
    ensures |s| == |Print(n)| && forall i :: 0 <= i < |s| ==> s[i] as int == Print(n)[i] as int
  {
    seq(|Print(n)|, i requires 0 <= i < |Print(n)| => Print(n)[i] as char)
  }

  /** Numbered names with the same prefix differ when their numbers do. */
  lemma NamesInjective(prefix: string, m: nat, n: nat)
    requires prefix + Text(m) == prefix + Text(n)
    ensures m == n
  {
    assert (prefix + Text(m))[|prefix|..] == Text(m) && (prefix + Text(n))[|prefix|..] == Text(n);
    forall i | 0 <= i < |Print(m)| ensures Print(m)[i] == Print(n)[i] {
      assert Text(m)[i] == Text(n)[i];
    }
    assert Print(m) == Print(n);
    PrintInjective(m, n);
  }
}
