/** Decimal digits: plain, padded, and of a fixed width. */
module DecimalText {
  import opened StringOrder

  function Digit(n: nat): char
    requires n < 10
  {
    '0' + n as char
  }

  function Decimal(n: nat): (s: string)
    ensures s != []
  {
    if n < 10 then [Digit(n)] else Decimal(n / 10) + [Digit(n % 10)]
  }

  function Zeros(n: nat): string {
    seq(n, _ => '0')
  }

  /** `{n:0w}`: decimal digits, filled with zeros to `w` places. */
  function Padded(n: nat, w: nat): string {
    var s := Decimal(n);
    if |s| < w then Zeros(w - |s|) + s else s
  }

  function Power10(w: nat): nat {
    if w == 0 then 1 else 10 * Power10(w - 1)
  }

  /** Exactly `w` digits. */
  function Digits(n: nat, w: nat): (s: string)
    ensures |s| == w
  {
    if w == 0 then [] else Digits(n / 10, w - 1) + [Digit(n % 10)]
  }

  lemma {:induction false} DigitsOfZero(w: nat)
    ensures Digits(0, w) == Zeros(w)
  {
    if w > 0 {
      DigitsOfZero(w - 1);
      assert Zeros(w - 1) + ['0'] == Zeros(w);
    }
  }

  lemma {:induction false} PaddedIsDigits(n: nat, w: nat)
    requires n < Power10(w) && w > 0
    ensures Padded(n, w) == Digits(n, w)
  {
    if n < 10 {
      DigitsOfZero(w - 1);
      assert Decimal(n) == [Digit(n)];
    } else {
      assert n / 10 < Power10(w - 1) && w > 1;
      PaddedIsDigits(n / 10, w - 1);
      var s, t := Decimal(n / 10), Decimal(n);
      assert t == s + [Digit(n % 10)];
      if |s| < w - 1 {
        assert Zeros(w - |t|) + t == (Zeros(w - 1 - |s|) + s) + [Digit(n % 10)];
      }
    }
  }

  lemma {:induction false} DigitsOrder(m: nat, n: nat, w: nat)
    requires m < Power10(w) && n < Power10(w)
    ensures Less(Digits(m, w), Digits(n, w)) <==> m < n
    ensures Digits(m, w) == Digits(n, w) <==> m == n
  {
    if w > 0 {
      DigitsOrder(m / 10, n / 10, w - 1);
      LessOfConcat(Digits(m / 10, w - 1), [Digit(m % 10)], Digits(n / 10, w - 1), [Digit(n % 10)]);
      var a, b := Digits(m, w), Digits(n, w);
      assert a[w - 1] == Digit(m % 10) && b[w - 1] == Digit(n % 10);
      assert a[..w - 1] == Digits(m / 10, w - 1) && b[..w - 1] == Digits(n / 10, w - 1);
    }
  }

  predicate IsDigit(c: char) {
    '0' <= c <= '9'
  }

  predicate AllDigits(s: string) {
    forall i :: 0 <= i < |s| ==> IsDigit(s[i])
  }

  lemma {:induction false} DecimalHasDigits(n: nat)
    ensures AllDigits(Decimal(n))
  {
    if n >= 10 {
      DecimalHasDigits(n / 10);
    }
  }

  lemma {:induction false} FixedHasDigits(n: nat, w: nat)
    ensures AllDigits(Digits(n, w))
  {
    if w > 0 {
      FixedHasDigits(n / 10, w - 1);
    }
  }

  lemma {:induction false} DecimalIsInjective(m: nat, n: nat)
    requires Decimal(m) == Decimal(n)
    ensures m == n
  {
    var a, b := Decimal(m), Decimal(n);
    assert a[|a| - 1] == b[|b| - 1];
    if m >= 10 && n >= 10 {
      assert Decimal(m / 10) == a[..|a| - 1] == b[..|b| - 1] == Decimal(n / 10);
      DecimalIsInjective(m / 10, n / 10);
    }
  }

  /** Digits end where no digit follows. */
  lemma DigitsEnd(x: string, r: string, y: string, t: string)
    requires AllDigits(x) && AllDigits(y) && x + r == y + t
    requires (r == "" || !IsDigit(r[0])) && (t == "" || !IsDigit(t[0]))
    ensures x == y && r == t
  {
    var all := x + r;
    assert forall i :: 0 <= i < |x| ==> all[i] == x[i] && IsDigit(all[i]);
    assert forall i :: 0 <= i < |y| ==> (y + t)[i] == y[i] && IsDigit(all[i]);
    assert |x| < |all| ==> all[|x|] == r[0] && !IsDigit(all[|x|]);
    assert |y| < |all| ==> (y + t)[|y|] == t[0] && !IsDigit(all[|y|]);
    assert x == (x + r)[..|x|] && y == (y + t)[..|y|];
    assert r == (x + r)[|x|..] && t == (y + t)[|y|..];
  }

  /** The number that digits write. */
  function ValueOf(s: string): int {
    if s == "" then 0 else 10 * ValueOf(s[..|s| - 1]) + (s[|s| - 1] as int - '0' as int)
  }

  lemma {:induction false} ValueOfDecimal(n: nat)
    ensures ValueOf(Decimal(n)) == n
  {
    var s := Decimal(n);
    if n >= 10 {
      ValueOfDecimal(n / 10);
      assert s[..|s| - 1] == Decimal(n / 10);
    } else {
      assert s[..0] == "" && ValueOf("") == 0;
    }
  }

  lemma {:induction false} ZerosAddNothing(k: nat, s: string)
    ensures ValueOf(Zeros(k) + s) == ValueOf(s)
    decreases k + |s|
  {
    var t := Zeros(k) + s;
    if s != "" {
      ZerosAddNothing(k, s[..|s| - 1]);
      assert t[..|t| - 1] == Zeros(k) + s[..|s| - 1];
    } else if k > 0 {
      ZerosAddNothing(k - 1, s);
      assert t[..k - 1] == Zeros(k - 1) + s;
    } else {
      assert t == s;
    }
  }

  /** A padded number reads back as itself, in digits only and in at least `w` of them. */
  lemma PaddedReadsBack(n: nat, w: nat)
    ensures ValueOf(Padded(n, w)) == n && AllDigits(Padded(n, w)) && |Padded(n, w)| >= w
  {
    var s := Decimal(n);
    ValueOfDecimal(n);
    if |s| < w {
      ZerosAddNothing(w - |s|, s);
    }
    DecimalHasDigits(n);
  }
}
