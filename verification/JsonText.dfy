/**
  JSON values and their serialization with sorted keys, as `json.dumps(item, sort_keys=True)`
  writes it: separators with a space, non-ASCII characters escaped.  A floating-point number
  is a finite decimal, since every finite double is one.
  */
module JsonText {
  import opened Prelude
  import opened StringOrder
  import opened DecimalText

  /** `mantissa` divided by the power of ten that `scale` names. */
  datatype AnyDecimal = Scaled(mantissa: int, scale: nat) {
    predicate Reduced() {
      scale == 0 || mantissa % 10 != 0
    }

    function Value(): real {
      mantissa as real / Power10Positive(scale) as real
    }
  }

  /** Decimals with no digit to spare. */
  type Finite = d: AnyDecimal | d.Reduced() witness Scaled(0, 0)

  datatype Json =
    | Null | Bool(b: bool) | Int(i: int) | Float(x: Finite) | Str(s: string)
    | Arr(items: seq<Json>) | Obj(fields: map<string, Json>)

  function Power10Positive(w: nat): (r: nat)
    ensures r > 0 && r == Power10(w)
  {
    if w == 0 then 1 else 10 * Power10Positive(w - 1)
  }

  lemma {:induction false} Power10Adds(a: nat, b: nat)
    ensures Power10(a + b) == Power10(a) * Power10(b)
  {
    if a > 0 {
      Power10Adds(a - 1, b);
    }
  }

  /** Reduced decimals with the same value are the same. */
  lemma ValueIsInjective(a: Finite, b: Finite)
    ensures a.Value() == b.Value() <==> a == b
  {
    if a.Value() == b.Value() {
      if a.scale <= b.scale {
        SameScale(a, b);
      } else {
        SameScale(b, a);
      }
    }
  }

  lemma SameScale(a: Finite, b: Finite)
    requires a.Value() == b.Value() && a.scale <= b.scale
    ensures a == b
  {
    var p, q, k := Power10Positive(a.scale), Power10Positive(b.scale), Power10Positive(b.scale - a.scale);
    Power10Adds(a.scale, b.scale - a.scale);
    assert q == p * k;
    CrossMultiply(a.mantissa, p, b.mantissa, k);
    assert b.mantissa == a.mantissa * k;
    if b.scale > a.scale {
      assert k == 10 * Power10(b.scale - a.scale - 1);
      TenDivides(a.mantissa, Power10(b.scale - a.scale - 1));
      assert false;
    }
  }

  lemma TenDivides(m: int, j: nat)
    ensures (m * (10 * j)) % 10 == 0
  {
    assert m * (10 * j) == 10 * (m * j);
  }

  lemma CrossMultiply(m: int, p: nat, n: int, k: nat)
    requires p > 0 && k > 0 && m as real / p as real == n as real / (p * k) as real
    ensures n == m * k
  {
    var x, y, z, w := m as real, p as real, n as real, k as real;
    assert (p * k) as real == y * w;
    assert x / y * (y * w) == x * w;
    assert z / (y * w) * (y * w) == z;
    assert z == x * w;
    assert n as real == (m * k) as real;
  }

  // ------------------------------------------------------------------------------
  // Strings
  // ------------------------------------------------------------------------------

  function Hex(n: int): char
    requires 0 <= n < 16
  {
    if n < 10 then (48 + n) as char else (87 + n) as char
  }

  function HexOf(c: char): int {
    if '0' <= c <= '9' then c as int - 48 else if 'a' <= c <= 'f' then c as int - 87 else 0
  }

  function Unit(n: int): string
    requires 0 <= n < 0x1_0000
  {
    ['\\', 'u', Hex(n / 4096), Hex(n / 256 % 16), Hex(n / 16 % 16), Hex(n % 16)]
  }

  function Escape(c: char): string {
    var n := c as int;
    if c == '"' then ['\\', '"']
    else if c == '\\' then ['\\', '\\']
    else if c == '\n' then ['\\', 'n']
    else if c == '\r' then ['\\', 'r']
    else if c == '\t' then ['\\', 't']
    else if n == 8 then ['\\', 'b']
    else if n == 12 then ['\\', 'f']
    else if 32 <= n <= 126 then [c]
    else if n < 0x1_0000 then Unit(n)
    else Unit(0xD800 + (n - 0x1_0000) / 1024) + Unit(0xDC00 + (n - 0x1_0000) % 1024)
  }

  function EscapeAll(s: string): string {
    if s == "" then "" else Escape(s[0]) + EscapeAll(s[1..])
  }

  /** The number that a unit at the start of `s` shows. */
  function UnitValue(s: string): int
    requires |s| >= 6
  {
    HexOf(s[2]) * 4096 + HexOf(s[3]) * 256 + HexOf(s[4]) * 16 + HexOf(s[5])
  }

  /** The code point that `s` starts with, and how many characters show it. */
  function FirstOf(s: string): (int, nat)
    requires s != ""
  {
    if s[0] != '\\' || |s| == 1 then (s[0] as int, 1)
    else if s[1] == 'u' && |s| >= 6 then
      var v := UnitValue(s);
      if 0xD800 <= v < 0xDC00 && |s| >= 12 then (0x1_0000 + (v - 0xD800) * 1024 + (UnitValue(s[6..]) - 0xDC00), 12)
      else (v, 6)
    else (if s[1] == 'n' then 10 else if s[1] == 'r' then 13 else if s[1] == 't' then 9
          else if s[1] == 'b' then 8 else if s[1] == 'f' then 12 else s[1] as int, 2)
  }

  lemma HexBack(n: int)
    requires 0 <= n < 16
    ensures HexOf(Hex(n)) == n
  {
  }

  lemma UnitBack(n: int, rest: string)
    requires 0 <= n < 0x1_0000
    ensures UnitValue(Unit(n) + rest) == n
  {
    HexBack(n / 4096);
    HexBack(n / 256 % 16);
    HexBack(n / 16 % 16);
    HexBack(n % 16);
    HexParts(n);
  }

  lemma HexParts(n: int)
    requires 0 <= n < 0x1_0000
    ensures n / 4096 * 4096 + n / 256 % 16 * 256 + n / 16 % 16 * 16 + n % 16 == n
  {
    var a, b, c := n / 16, n / 256, n / 4096;
    assert n == a * 16 + n % 16 && a == b * 16 + a % 16 && b == c * 16 + b % 16;
  }

  /** An escaped character is read back, whatever follows, and never starts with a quote. */
  lemma EscapeBack(c: char, rest: string)
    ensures Escape(c) != "" && Escape(c)[0] != '"'
    ensures FirstOf(Escape(c) + rest) == (c as int, |Escape(c)|)
  {
    var n := c as int;
    if IsShort(c) {
      ShortBack(c, rest);
    } else if n < 0x1_0000 {
      SingleBack(n, rest);
    } else {
      PairBack(n, rest);
    }
  }

  /** The characters that stand for themselves or have an escape of two characters. */
  predicate IsShort(c: char) {
    c == '"' || c == '\\' || c == '\n' || c == '\r' || c == '\t' || c as int == 8 || c as int == 12 || 32 <= c as int <= 126
  }

  lemma ShortBack(c: char, rest: string)
    requires IsShort(c)
    ensures Escape(c) != "" && Escape(c)[0] != '"'
    ensures FirstOf(Escape(c) + rest) == (c as int, |Escape(c)|)
  {
    var s := Escape(c) + rest;
    assert s[0] == Escape(c)[0];
    assert |Escape(c)| == 2 ==> s[1] == Escape(c)[1];
  }

  lemma SingleBack(n: int, rest: string)
    requires 0 <= n < 0xD800 || 0xDC00 <= n < 0x1_0000
    ensures FirstOf(Unit(n) + rest) == (n, 6)
  {
    var s := Unit(n) + rest;
    UnitBack(n, rest);
    assert s[0] == '\\' && s[1] == 'u';
  }

  lemma PairBack(n: int, rest: string)
    requires 0x1_0000 <= n < 0x11_0000
    ensures var text := Unit(0xD800 + (n - 0x1_0000) / 1024) + Unit(0xDC00 + (n - 0x1_0000) % 1024);
            FirstOf(text + rest) == (n, 12)
  {
    var high, low := 0xD800 + (n - 0x1_0000) / 1024, 0xDC00 + (n - 0x1_0000) % 1024;
    var s := Unit(high) + Unit(low) + rest;
    assert s == Unit(high) + (Unit(low) + rest);
    UnitBack(high, Unit(low) + rest);
    assert s[6..] == Unit(low) + rest;
    UnitBack(low, rest);
    assert s[0] == '\\' && s[1] == 'u';
  }

  /** Where a quoted string ends is determined, and so is the string. */
  lemma {:induction false} QuotedEnds(s: string, r: string, t: string, q: string)
    requires EscapeAll(s) + ("\"" + r) == EscapeAll(t) + ("\"" + q)
    ensures s == t && r == q
    decreases |s|
  {
    var x, y := EscapeAll(s) + ("\"" + r), EscapeAll(t) + ("\"" + q);
    QuoteFirst(s, r);
    QuoteFirst(t, q);
    if s == "" {
      assert r == x[1..] && q == y[1..];
    } else {
      FirstEscapes(s, r);
      FirstEscapes(t, q);
      assert s[0] == t[0];
      QuotedEnds(s[1..], r, t[1..], q);
    }
  }

  lemma {:induction false} QuoteFirst(s: string, r: string)
    ensures var x := EscapeAll(s) + ("\"" + r); x != "" && (x[0] == '"' <==> s == "")
  {
    if s != "" {
      EscapeBack(s[0], "");
    }
  }

  lemma {:induction false} FirstEscapes(s: string, r: string)
    requires s != ""
    ensures var x := EscapeAll(s) + ("\"" + r);
            && x != "" && FirstOf(x) == (s[0] as int, |Escape(s[0])|) && |Escape(s[0])| <= |x|
            && x[|Escape(s[0])|..] == EscapeAll(s[1..]) + ("\"" + r)
  {
    var rest := EscapeAll(s[1..]) + ("\"" + r);
    assert EscapeAll(s) + ("\"" + r) == Escape(s[0]) + rest;
    EscapeBack(s[0], rest);
  }

  // ------------------------------------------------------------------------------
  // Numbers
  // ------------------------------------------------------------------------------

  function Abs(i: int): nat {
    if i < 0 then -i else i
  }

  function Sign(i: int): string {
    if i < 0 then "-" else ""
  }

  function IntText(i: int): string {
    Sign(i) + Decimal(Abs(i))
  }

  /** The digits after the point. */
  function Fraction(x: Finite): string {
    if x.scale == 0 then "0" else Digits(Abs(x.mantissa) % Power10Positive(x.scale), x.scale)
  }

  function Quotient(m: nat, p: nat): (q: nat)
    requires p > 0
    ensures m == q * p + m % p
  {
    m / p
  }

  function Whole(x: Finite): nat {
    Quotient(Abs(x.mantissa), Power10Positive(x.scale))
  }

  function FloatText(x: Finite): string {
    Sign(x.mantissa) + (Decimal(Whole(x)) + ("." + Fraction(x)))
  }

  /** What can follow a value. */
  predicate Stops(r: string) {
    r == "" || r[0] == ',' || r[0] == ']' || r[0] == '}'
  }

  lemma SignEnds(i: int, x: string, j: int, y: string)
    requires Sign(i) + x == Sign(j) + y && x != "" && y != "" && IsDigit(x[0]) && IsDigit(y[0])
    ensures (i < 0 <==> j < 0) && x == y
  {
    var a, b := Sign(i) + x, Sign(j) + y;
    assert a[0] == '-' <==> i < 0;
    assert b[0] == '-' <==> j < 0;
    assert x == a[|Sign(i)|..] && y == b[|Sign(j)|..];
  }

  lemma DecimalStarts(n: nat, r: string)
    ensures Decimal(n) + r != "" && IsDigit((Decimal(n) + r)[0]) && AllDigits(Decimal(n))
  {
    DecimalHasDigits(n);
    assert (Decimal(n) + r)[0] == Decimal(n)[0];
  }

  /** The whole part of a number, before what no digit starts. */
  lemma WholeEnds(i: int, m: nat, r: string, j: int, n: nat, q: string)
    requires Sign(i) + (Decimal(m) + r) == Sign(j) + (Decimal(n) + q)
    requires (r == "" || !IsDigit(r[0])) && (q == "" || !IsDigit(q[0]))
    ensures (i < 0 <==> j < 0) && m == n && r == q
  {
    DecimalStarts(m, r);
    DecimalStarts(n, q);
    SignEnds(i, Decimal(m) + r, j, Decimal(n) + q);
    DigitsEnd(Decimal(m), r, Decimal(n), q);
    DecimalIsInjective(m, n);
  }

  lemma IntParts(i: int, r: string)
    ensures IntText(i) + r == Sign(i) + (Decimal(Abs(i)) + r)
  {
  }

  lemma IntEnds(i: int, r: string, j: int, q: string)
    requires IntText(i) + r == IntText(j) + q && Stops(r) && Stops(q)
    ensures i == j && r == q
  {
    IntParts(i, r);
    IntParts(j, q);
    WholeEnds(i, Abs(i), r, j, Abs(j), q);
  }

  lemma FloatParts(x: Finite, r: string)
    ensures FloatText(x) + r == Sign(x.mantissa) + (Decimal(Whole(x)) + ("." + (Fraction(x) + r)))
  {
  }

  lemma IntIsNotFloat(i: int, r: string, x: Finite, q: string)
    requires Stops(r)
    ensures IntText(i) + r != FloatText(x) + q
  {
    IntParts(i, r);
    FloatParts(x, q);
    PointDiffers(i, Abs(i), r, x.mantissa, Whole(x), Fraction(x) + q);
  }

  lemma PointDiffers(i: int, m: nat, r: string, j: int, n: nat, q: string)
    requires Stops(r)
    ensures Sign(i) + (Decimal(m) + r) != Sign(j) + (Decimal(n) + ("." + q))
  {
    assert ("." + q)[0] == '.' && r != "." + q;
    if Sign(i) + (Decimal(m) + r) == Sign(j) + (Decimal(n) + ("." + q)) {
      WholeEnds(i, m, r, j, n, "." + q);
      assert false;
    }
  }

  lemma FloatEnds(x: Finite, r: string, y: Finite, q: string)
    requires FloatText(x) + r == FloatText(y) + q && Stops(r) && Stops(q)
    ensures x == y && r == q
  {
    var a, b := "." + (Fraction(x) + r), "." + (Fraction(y) + q);
    FloatParts(x, r);
    FloatParts(y, q);
    WholeEnds(x.mantissa, Whole(x), a, y.mantissa, Whole(y), b);
    assert Fraction(x) + r == a[1..] && Fraction(y) + q == b[1..];
    FractionDigits(x);
    FractionDigits(y);
    DigitsEnd(Fraction(x), r, Fraction(y), q);
    PartsDetermine(x, y);
  }

  lemma FractionDigits(x: Finite)
    ensures AllDigits(Fraction(x))
  {
    if x.scale > 0 {
      FixedHasDigits(Abs(x.mantissa) % Power10Positive(x.scale), x.scale);
    }
  }

  /** A fraction of a reduced decimal does not end in zero, unless it is only that. */
  lemma FractionEnd(x: Finite)
    requires x.scale > 0
    ensures |Fraction(x)| == x.scale && Fraction(x)[x.scale - 1] != '0'
  {
    var m, p := Abs(x.mantissa), Power10Positive(x.scale - 1);
    assert Power10Positive(x.scale) == 10 * p;
    LastDigit(m, p);
    assert m % 10 != 0;
    assert Fraction(x)[x.scale - 1] == Digit(m % (10 * p) % 10);
  }

  lemma LastDigit(m: nat, p: nat)
    requires p > 0
    ensures m % (10 * p) % 10 == m % 10
  {
    var q, r := m / (10 * p), m % (10 * p);
    assert m == 10 * (q * p) + r by {
      assert m == (10 * p) * q + r;
      assert (10 * p) * q == 10 * (q * p);
    }
  }

  lemma PartsDetermine(x: Finite, y: Finite)
    requires (x.mantissa < 0 <==> y.mantissa < 0) && Whole(x) == Whole(y) && Fraction(x) == Fraction(y)
    ensures x == y
  {
    if x.scale > 0 {
      FractionEnd(x);
    }
    if y.scale > 0 {
      FractionEnd(y);
    }
    assert x.scale == y.scale;
    SameParts(Abs(x.mantissa), Abs(y.mantissa), x.scale, Power10Positive(x.scale));
  }

  lemma SameParts(m: nat, n: nat, w: nat, p: nat)
    requires p > 0 && p == Power10(w) && Quotient(m, p) == Quotient(n, p) && (w > 0 ==> Digits(m % p, w) == Digits(n % p, w))
    ensures m == n
  {
    if w > 0 {
      DigitsOrder(m % p, n % p, w);
    } else {
      assert p == 1 && m % p == 0 == n % p;
    }
  }

  // ------------------------------------------------------------------------------
  // Keys in order
  // ------------------------------------------------------------------------------

  predicate IsLeast(s: set<string>, k: string) {
    k in s && forall x :: x in s ==> x == k || Less(k, x)
  }

  lemma {:induction false} LeastExists(s: set<string>) returns (k: string)
    requires s != {}
    ensures IsLeast(s, k)
    decreases |s|
  {
    var p :| p in s;
    var rest := s - {p};
    k := p;
    if rest != {} {
      var m := LeastExists(rest);
      LessIsTotal(p, m);
      forall x | x in rest && Less(p, m) && x != m
        ensures Less(p, x)
      {
        LessIsTransitive(p, m, x);
      }
      k := if Less(p, m) then p else m;
      assert forall x :: x in s ==> x == p || x in rest;
    } else {
      assert forall x :: x in s ==> x == p || x in rest;
    }
  }

  lemma LeastIsUnique(s: set<string>, k: string, m: string)
    requires IsLeast(s, k) && IsLeast(s, m)
    ensures k == m
  {
    if k != m {
      LessIsTransitive(k, m, k);
      LessIsIrreflexive(k);
    }
  }

  function Least(s: set<string>): (k: string)
    requires s != {}
    ensures IsLeast(s, k)
  {
    assert exists k :: IsLeast(s, k) by {
      var k := LeastExists(s);
    }
    assert forall k, m :: IsLeast(s, k) && IsLeast(s, m) ==> k == m by {
      forall k, m | IsLeast(s, k) && IsLeast(s, m)
        ensures k == m
      {
        LeastIsUnique(s, k, m);
      }
    }
    var k :| k in s && IsLeast(s, k);
    k
  }

  function SortedKeys(s: set<string>): (keys: seq<string>)
    ensures forall k :: k in keys <==> k in s
  {
    if s == {} then [] else [Least(s)] + SortedKeys(s - {Least(s)})
  }

  // ------------------------------------------------------------------------------
  // Values
  // ------------------------------------------------------------------------------

  /** The serialization of a value, followed by `r`. */
  function Text(j: Json, r: string): string
    decreases j, 1, 0
  {
    match j
    case Null => "null" + r
    case Bool(b) => (if b then "true" else "false") + r
    case Int(i) => IntText(i) + r
    case Float(x) => FloatText(x) + r
    case Str(s) => "\"" + (EscapeAll(s) + ("\"" + r))
    case Arr(items) => "[" + ItemsText(items, true, r)
    case Obj(fields) => "{" + FieldsText(j, SortedKeys(fields.Keys), true, r)
  }

  /** The items of a list and the bracket that closes it. */
  function ItemsText(items: seq<Json>, first: bool, r: string): string
    decreases items, 0, 0
  {
    if items == [] then "]" + r
    else Separated(first, Text(items[0], ItemsText(items[1..], false, r)))
  }

  function FieldsText(j: Json, keys: seq<string>, first: bool, r: string): string
    requires j.Obj? && forall k :: k in keys ==> k in j.fields
    decreases j, 0, |keys|
  {
    if keys == [] then "}" + r
    else Separated(first, Entry(keys[0], Text(j.fields[keys[0]], FieldsText(j, keys[1..], false, r))))
  }

  function Separated(first: bool, t: string): (s: string)
    ensures first ==> s == t
    ensures !first ==> |s| >= 2 && s[0] == ',' && s[2..] == t
  {
    if first then t else ", " + t
  }

  function Entry(k: string, value: string): string {
    "\"" + (EscapeAll(k) + ("\"" + (": " + value)))
  }

  lemma {:induction false} EntrySplits(k: string, v: string, l: string, w: string)
    requires Entry(k, v) == Entry(l, w)
    ensures k == l && v == w
  {
    assert EscapeAll(k) + ("\"" + (": " + v)) == Entry(k, v)[1..];
    assert EscapeAll(l) + ("\"" + (": " + w)) == Entry(l, w)[1..];
    QuotedEnds(k, ": " + v, l, ": " + w);
    assert v == (": " + v)[2..] && w == (": " + w)[2..];
  }

  function Dumps(j: Json): string {
    Text(j, "")
  }

  /** What the first character of a value tells. */
  function Kind(c: char): int {
    if c == 'n' then 0 else if c == 't' || c == 'f' then 1 else if c == '"' then 2
    else if c == '[' then 3 else if c == '{' then 4 else if c == '-' || IsDigit(c) then 5 else 6
  }

  function KindOf(j: Json): int {
    match j
    case Null => 0
    case Bool(_) => 1
    case Str(_) => 2
    case Arr(_) => 3
    case Obj(_) => 4
    case _ => 5
  }

  lemma {:induction false} TextKind(j: Json, r: string)
    ensures Text(j, r) != "" && Kind(Text(j, r)[0]) == KindOf(j)
  {
    match j
    case Int(i) =>
      DecimalStarts(Abs(i), r);
      assert IntText(i) + r == Sign(i) + (Decimal(Abs(i)) + r);
    case Float(x) =>
      DecimalStarts(Whole(x), "." + Fraction(x) + r);
      assert FloatText(x) + r == Sign(x.mantissa) + (Decimal(Whole(x)) + ("." + Fraction(x) + r));
    case _ =>
  }

  lemma {:induction false} TailStops(items: seq<Json>, r: string)
    ensures Stops(ItemsText(items, false, r)) && ItemsText(items, false, r) != ""
  {
  }

  lemma {:induction false} FieldTailStops(j: Json, keys: seq<string>, r: string)
    requires j.Obj? && forall k :: k in keys ==> k in j.fields
    ensures Stops(FieldsText(j, keys, false, r)) && FieldsText(j, keys, false, r) != ""
  {
  }

  /** A serialized value can be told from what follows it. */
  lemma {:induction false} TextEnds(a: Json, r: string, b: Json, q: string)
    requires Text(a, r) == Text(b, q) && Stops(r) && Stops(q)
    ensures a == b && r == q
    decreases a, 1, 0
  {
    TextKind(a, r);
    TextKind(b, q);
    match a
    case Null => assert r == Text(a, r)[4..] && q == Text(b, q)[4..];
    case Bool(x) => BoolEnds(x, r, b.b, q);
    case Int(i) =>
      if b.Float? {
        IntIsNotFloat(i, r, b.x, q);
      }
      IntEnds(i, r, b.i, q);
    case Float(x) =>
      if b.Int? {
        IntIsNotFloat(b.i, q, x, r);
      }
      FloatEnds(x, r, b.x, q);
    case Str(s) =>
      assert EscapeAll(s) + ("\"" + r) == Text(a, r)[1..] && EscapeAll(b.s) + ("\"" + q) == Text(b, q)[1..];
      QuotedEnds(s, r, b.s, q);
    case Arr(items) =>
      assert ItemsText(items, true, r) == Text(a, r)[1..] && ItemsText(b.items, true, q) == Text(b, q)[1..];
      ItemsEnd(items, true, r, b.items, q);
    case Obj(fields) =>
      var ka, kb := SortedKeys(fields.Keys), SortedKeys(b.fields.Keys);
      assert FieldsText(a, ka, true, r) == Text(a, r)[1..] && FieldsText(b, kb, true, q) == Text(b, q)[1..];
      FieldsEnd(a, ka, true, r, b, kb, q);
      assert fields.Keys == b.fields.Keys;
      assert fields == b.fields;
  }

  lemma BoolEnds(x: bool, r: string, y: bool, q: string)
    requires (if x then "true" else "false") + r == (if y then "true" else "false") + q
    ensures x == y && r == q
  {
    var a, b := (if x then "true" else "false") + r, (if y then "true" else "false") + q;
    assert a[0] == if x then 't' else 'f';
    assert b[0] == if y then 't' else 'f';
    assert r == a[if x then 4 else 5..] && q == b[if y then 4 else 5..];
  }

  lemma {:induction false} ItemsEnd(xs: seq<Json>, first: bool, r: string, ys: seq<Json>, q: string)
    requires ItemsText(xs, first, r) == ItemsText(ys, first, q) && Stops(r) && Stops(q)
    ensures xs == ys && r == q
    decreases xs, 0, 0
  {
    var x, y := ItemsText(xs, first, r), ItemsText(ys, first, q);
    ItemsStart(xs, first, r);
    ItemsStart(ys, first, q);
    if xs == [] {
      assert r == x[1..] && q == y[1..];
    } else {
      var rx, ry := ItemsText(xs[1..], false, r), ItemsText(ys[1..], false, q);
      TailStops(xs[1..], r);
      TailStops(ys[1..], q);
      var n := if first then 0 else 2;
      assert Text(xs[0], rx) == x[n..] && Text(ys[0], ry) == y[n..];
      TextEnds(xs[0], rx, ys[0], ry);
      ItemsEnd(xs[1..], false, r, ys[1..], q);
      assert xs == [xs[0]] + xs[1..] && ys == [ys[0]] + ys[1..];
    }
  }

  lemma {:induction false} ItemStart(x: Json, rest: string, first: bool)
    ensures Separated(first, Text(x, rest)) != "" && Separated(first, Text(x, rest))[0] != ']'
  {
    TextKind(x, rest);
  }

  /** The bracket comes first exactly when no item is left. */
  lemma {:induction false} ItemsStart(xs: seq<Json>, first: bool, r: string)
    ensures ItemsText(xs, first, r) != "" && (ItemsText(xs, first, r)[0] == ']' <==> xs == [])
  {
    if xs != [] {
      ItemStart(xs[0], ItemsText(xs[1..], false, r), first);
    }
  }

  lemma {:induction false} FieldsEnd(a: Json, ka: seq<string>, first: bool, r: string, b: Json, kb: seq<string>, q: string)
    requires a.Obj? && b.Obj? && (forall k :: k in ka ==> k in a.fields) && (forall k :: k in kb ==> k in b.fields)
    requires FieldsText(a, ka, first, r) == FieldsText(b, kb, first, q) && Stops(r) && Stops(q)
    ensures ka == kb && r == q && forall k :: k in ka ==> a.fields[k] == b.fields[k]
    decreases a, 0, |ka|
  {
    FieldsStart(a, ka, first, r);
    FieldsStart(b, kb, first, q);
    if ka == [] {
      var x, y := FieldsText(a, ka, first, r), FieldsText(b, kb, first, q);
      assert r == x[1..] && q == y[1..];
    } else {
      var rx, ry := FieldsText(a, ka[1..], false, r), FieldsText(b, kb[1..], false, q);
      FieldTailStops(a, ka[1..], r);
      FieldTailStops(b, kb[1..], q);
      FirstFieldSplits(ka[0], Text(a.fields[ka[0]], rx), kb[0], Text(b.fields[kb[0]], ry), first);
      TextEnds(a.fields[ka[0]], rx, b.fields[kb[0]], ry);
      FieldsEnd(a, ka[1..], false, r, b, kb[1..], q);
      assert ka == [ka[0]] + ka[1..] && kb == [kb[0]] + kb[1..];
    }
  }

  lemma FirstFieldSplits(k: string, v: string, l: string, w: string, first: bool)
    requires Separated(first, Entry(k, v)) == Separated(first, Entry(l, w))
    ensures k == l && v == w
  {
    EntrySplits(k, v, l, w);
  }

  lemma {:induction false} FieldsStart(j: Json, keys: seq<string>, first: bool, r: string)
    requires j.Obj? && forall k :: k in keys ==> k in j.fields
    ensures FieldsText(j, keys, first, r) != "" && (FieldsText(j, keys, first, r)[0] == '}' <==> keys == [])
  {
  }

  /** Different values have different serializations. */
  lemma {:induction false} DumpsIsInjective(a: Json, b: Json)
    requires Dumps(a) == Dumps(b)
    ensures a == b
  {
    TextEnds(a, "", b, "");
  }
}
