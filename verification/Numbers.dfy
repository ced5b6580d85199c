/** Number normalisation: from the text of a JSON number (section 6 of RFC 8259, with an optional
    leading plus) to the text of a fraction in lowest terms. */
module Numbers {
  import opened Common
  import opened Arithmetic

  // ---- The number grammar ----

  datatype Exponent = Exponent(letter: char, sign: string, digits: string)

  /** The parts of a number text, as the regular expression splits it. */
  datatype NumberText = NumberText(
    sign: string, whole: string, fraction: Option<string>, exponent: Option<Exponent>)

  predicate IsDigit(c: char) {
    '0' <= c <= '9'
  }

  predicate AllDigits(s: string) {
    forall i :: 0 <= i < |s| ==> IsDigit(s[i])
  }

  predicate IsSign(s: string) {
    s == "" || s == "+" || s == "-"
  }

  /** `^[+-]?(?:0|[1-9]\d*)(?:\.\d+)?(?:[eE][+-]?\d+)?$`, part by part. */
  predicate WellFormed(n: NumberText) {
    && IsSign(n.sign)
    && n.whole != "" && AllDigits(n.whole) && (n.whole[0] == '0' ==> |n.whole| == 1)
    && (n.fraction.Some? ==> n.fraction.value != "" && AllDigits(n.fraction.value))
    && (n.exponent.Some? ==>
          var x := n.exponent.value;
          (x.letter == 'e' || x.letter == 'E') && IsSign(x.sign) && x.digits != "" && AllDigits(x.digits))
  }

  function RenderFraction(f: Option<string>): string {
    if f.None? then "" else "." + f.value
  }

  function RenderExponent(x: Option<Exponent>): string {
    if x.None? then "" else [x.value.letter] + x.value.sign + x.value.digits
  }

  function Render(n: NumberText): string {
    n.sign + RenderUnsigned(n)
  }

  function RenderUnsigned(n: NumberText): string {
    n.whole + RenderFraction(n.fraction) + RenderExponent(n.exponent)
  }

  // ---- Recognising the grammar ----

  /** The number of digits a text begins with. */
  function DigitRun(s: string): (n: nat)
    ensures n <= |s| && AllDigits(s[..n]) && (n < |s| ==> !IsDigit(s[n]))
  {
    if s == "" || !IsDigit(s[0]) then 0
    else
      var n := DigitRun(s[1..]);
      assert s[..n + 1] == [s[0]] + s[1..][..n];
      n + 1
  }

  lemma {:induction false} DigitRunExtends(a: string, b: string)
    requires AllDigits(a) && (b != "" ==> !IsDigit(b[0]))
    ensures DigitRun(a + b) == |a|
  {
    if a == "" {
      assert a + b == b;
    } else {
      assert (a + b)[1..] == a[1..] + b;
      assert a[0] in a;
      DigitRunExtends(a[1..], b);
    }
  }

  function SignLength(s: string): (n: nat)
    ensures n <= |s| && IsSign(s[..n])
  {
    if s != "" && (s[0] == '+' || s[0] == '-') then 1 else 0
  }

  function ScanExponent(s: string): Option<Option<Exponent>> {
    if s == "" then Some(None)
    else if s[0] != 'e' && s[0] != 'E' then None
    else
      var k := SignLength(s[1..]);
      var digits := s[1 + k..];
      if digits == "" || DigitRun(digits) != |digits| then None
      else Some(Some(Exponent(s[0], s[1..1 + k], digits)))
  }

  function ScanFraction(s: string): (r: (Option<string>, string)) {
    if s == "" || s[0] != '.' then (None, s)
    else
      var n := DigitRun(s[1..]);
      if n == 0 then (None, s) else (Some(s[1..1 + n]), s[1 + n..])
  }

  /** What follows the integer part: an optional fraction, then an optional exponent. */
  function ScanTail(s: string): Option<(Option<string>, Option<Exponent>)> {
    var (fraction, rest) := ScanFraction(s);
    match ScanExponent(rest)
    case None => None
    case Some(exponent) => Some((fraction, exponent))
  }

  /** Splits a whole text into the parts of a number, if it is one. */
  function Scan(s: string): Option<NumberText> {
    var k := SignLength(s);
    var t := s[k..];
    var w := DigitRun(t);
    if w == 0 || (t[0] == '0' && w > 1) then None
    else
      match ScanTail(t[w..])
      case None => None
      case Some((fraction, exponent)) => Some(NumberText(s[..k], t[..w], fraction, exponent))
  }

  /** Scanning decides the grammar: a text scans to exactly the well-formed parts it is made of. */
  lemma ScanDecidesGrammar(s: string, n: NumberText)
    ensures Scan(s) == Some(n) <==> WellFormed(n) && Render(n) == s
  {
    if Scan(s) == Some(n) {
      ScanSound(s);
    }
    if WellFormed(n) && Render(n) == s {
      ScanComplete(n);
    }
  }

  /** The shape of every number text, read off its characters: it ends in a digit, the first character
      after a sign is one, and a leading zero stands alone; nothing but digits, signs, a point and an
      exponent letter occurs. */
  lemma NumberShape(s: string)
    requires Scan(s).Some?
    ensures s != "" && IsDigit(s[|s| - 1])
    ensures forall i :: 0 <= i < |s| ==> s[i] in "0123456789+-.eE"
    ensures var k := if s[0] == '+' || s[0] == '-' then 1 else 0;
            k < |s| && IsDigit(s[k]) && (s[k] == '0' && k + 1 < |s| ==> !IsDigit(s[k + 1]))
  {
    ScanSound(s);
    LastIsDigit(Scan(s).value);
    LeadingZeroIsAlone(Scan(s).value);
    NumberCharacters(Scan(s).value);
  }

  lemma LastIsDigit(n: NumberText)
    requires WellFormed(n)
    ensures Render(n) != "" && IsDigit(Render(n)[|Render(n)| - 1])
  {
    var s := Render(n);
    if n.exponent.Some? {
      var d := n.exponent.value.digits;
      assert s[|s| - 1] == d[|d| - 1];
    } else if n.fraction.Some? {
      assert s[|s| - 1] == n.fraction.value[|n.fraction.value| - 1];
    } else {
      assert s[|s| - 1] == n.whole[|n.whole| - 1];
    }
  }

  lemma LeadingZeroIsAlone(n: NumberText)
    requires WellFormed(n)
    ensures var s, k := Render(n), |n.sign|;
            k < |s| && IsDigit(s[k]) && (s[k] == '0' && k + 1 < |s| ==> !IsDigit(s[k + 1]))
    ensures |n.sign| == if Render(n)[0] == '+' || Render(n)[0] == '-' then 1 else 0
  {
    var s, tail := Render(n), RenderFraction(n.fraction) + RenderExponent(n.exponent);
    assert s == n.sign + n.whole + tail;
    assert IsDigit(n.whole[0]);
    if |n.whole| == 1 && |n.sign| + 1 < |s| {
      assert s[|n.sign| + 1] == tail[0];
    }
  }

  lemma NumberCharacters(n: NumberText)
    requires WellFormed(n)
    ensures forall i :: 0 <= i < |Render(n)| ==> Render(n)[i] in "0123456789+-.eE"
  {
    DigitCharacters(n.whole);
    if n.fraction.Some? {
      DigitCharacters(n.fraction.value);
    }
    if n.exponent.Some? {
      DigitCharacters(n.exponent.value.digits);
    }
    assert forall c :: c in RenderFraction(n.fraction) ==> c in "0123456789+-.eE";
    assert forall c :: c in RenderExponent(n.exponent) ==> c in "0123456789+-.eE";
  }

  lemma DigitCharacters(s: string)
    requires AllDigits(s)
    ensures forall i :: 0 <= i < |s| ==> s[i] in "0123456789+-.eE"
  {
    forall i | 0 <= i < |s|
      ensures s[i] in "0123456789+-.eE"
    {
      assert s[i] == "0123456789+-.eE"[(s[i] - '0') as int];
    }
  }

  /** Every combination of signs, exponent letter, fraction and exponent is accepted. */
  lemma GrammarIsWide(sign: string, letter: char, sign': string)
    requires IsSign(sign) && IsSign(sign') && (letter == 'e' || letter == 'E')
    ensures forall whole, f, x | whole in {"0", "10"} && f in {None, Some("0"), Some("01")}
                                 && x in {None, Some(Exponent(letter, sign', "01"))} ::
              Scan(Render(NumberText(sign, whole, f, x))) == Some(NumberText(sign, whole, f, x))
  {
    forall whole, f, x | whole in {"0", "10"} && f in {None, Some("0"), Some("01")}
                         && x in {None, Some(Exponent(letter, sign', "01"))}
      ensures Scan(Render(NumberText(sign, whole, f, x))) == Some(NumberText(sign, whole, f, x))
    {
      ScanComplete(NumberText(sign, whole, f, x));
    }
  }

  lemma ScanSound(s: string)
    requires Scan(s).Some?
    ensures WellFormed(Scan(s).value) && Render(Scan(s).value) == s
  {
    var n := Scan(s).value;
    var k := SignLength(s);
    var t := s[k..];
    var w := DigitRun(t);
    var rest := ScanFraction(t[w..]).1;
    ScanFractionSound(t[w..]);
    ScanExponentSound(rest);
    Reassemble(s, k, w, RenderFraction(n.fraction), rest);
  }

  lemma Reassemble(s: string, k: nat, w: nat, f: string, x: string)
    requires k + w <= |s| && s[k..][w..] == f + x
    ensures s[..k] + (s[k..][..w] + f + x) == s
  {
    assert s[k..][..w] + f + x == s[k..][..w] + (f + x) == s[k..];
  }

  lemma ScanFractionSound(s: string)
    ensures var (f, rest) := ScanFraction(s);
            RenderFraction(f) + rest == s && (f.Some? ==> f.value != "" && AllDigits(f.value))
  {
    if s != "" && s[0] == '.' {
      var n := DigitRun(s[1..]);
      assert s[1..][..n] == s[1..1 + n];
    }
  }

  lemma ScanExponentSound(s: string)
    requires ScanExponent(s).Some?
    ensures var x := ScanExponent(s).value;
            RenderExponent(x) == s
            && (x.Some? ==> (x.value.letter == 'e' || x.value.letter == 'E') && IsSign(x.value.sign)
                            && x.value.digits != "" && AllDigits(x.value.digits))
  {
    if s != "" {
      var k := SignLength(s[1..]);
      var digits := s[1 + k..];
      assert digits == digits[..|digits|];
      assert s[1..][..k] == s[1..1 + k];
    }
  }

  lemma ScanComplete(n: NumberText)
    requires WellFormed(n)
    ensures Scan(Render(n)) == Some(n)
  {
    var tail := RenderFraction(n.fraction) + RenderExponent(n.exponent);
    var t := n.whole + tail;
    assert RenderUnsigned(n) == t;
    SplitAfterSign(n.sign, t, Render(n));
    ScanTailComplete(n.fraction, n.exponent);
    SplitConcat(n.whole, tail);
    DigitRunExtends(n.whole, tail);
    ScanPieces(Render(n), t, n);
  }

  lemma ScanPieces(s: string, t: string, n: NumberText)
    requires SignLength(s) == |n.sign| && s[..|n.sign|] == n.sign && s[|n.sign|..] == t
    requires DigitRun(t) == |n.whole| && t[..|n.whole|] == n.whole
    requires n.whole != "" && (n.whole[0] == '0' ==> |n.whole| == 1)
    requires ScanTail(t[|n.whole|..]) == Some((n.fraction, n.exponent))
    ensures Scan(s) == Some(n)
  {
    assert t[0] == n.whole[0];
  }

  lemma ScanTailComplete(f: Option<string>, x: Option<Exponent>)
    requires f.Some? ==> f.value != "" && AllDigits(f.value)
    requires x.Some? ==> (x.value.letter == 'e' || x.value.letter == 'E') && IsSign(x.value.sign)
                         && x.value.digits != "" && AllDigits(x.value.digits)
    ensures var tail := RenderFraction(f) + RenderExponent(x);
            ScanTail(tail) == Some((f, x)) && (tail != "" ==> !IsDigit(tail[0]))
  {
    ScanFractionComplete(f, RenderExponent(x));
    ScanExponentComplete(x);
  }

  lemma SplitConcat<T>(a: seq<T>, b: seq<T>)
    ensures (a + b)[..|a|] == a && (a + b)[|a|..] == b
  {
  }

  lemma SplitAfterSign(sign: string, t: string, s: string)
    requires IsSign(sign) && t != "" && IsDigit(t[0]) && s == sign + t
    ensures SignLength(s) == |sign| && s[..|sign|] == sign && s[|sign|..] == t
  {
  }

  lemma ScanFractionComplete(f: Option<string>, x: string)
    requires f.Some? ==> f.value != "" && AllDigits(f.value)
    requires x != "" ==> !IsDigit(x[0]) && x[0] != '.'
    ensures ScanFraction(RenderFraction(f) + x) == (f, x)
  {
    var s := RenderFraction(f) + x;
    if f.Some? {
      var d := f.value;
      assert s[1..] == d + x;
      DigitRunExtends(d, x);
      SplitConcat(d, x);
      assert s[1..1 + |d|] == s[1..][..|d|] && s[1 + |d|..] == s[1..][|d|..];
    } else {
      assert s == x;
    }
  }

  lemma ScanExponentComplete(x: Option<Exponent>)
    requires x.Some? ==> (x.value.letter == 'e' || x.value.letter == 'E') && IsSign(x.value.sign)
                         && x.value.digits != "" && AllDigits(x.value.digits)
    ensures ScanExponent(RenderExponent(x)) == Some(x)
  {
    if x.Some? {
      var e := x.value;
      var s := RenderExponent(x);
      assert s[1..] == e.sign + e.digits;
      SplitAfterSign(e.sign, e.digits, s[1..]);
      assert s[1 + |e.sign|..] == e.digits && s[1..1 + |e.sign|] == e.sign;
      AllDigitsRun(e.digits);
    }
  }

  lemma AllDigitsRun(s: string)
    requires AllDigits(s)
    ensures DigitRun(s) == |s|
  {
    DigitRunExtends(s, "");
    assert s + "" == s;
  }

  // ---- Digits ----

  function DigitValue(c: char): nat
    requires IsDigit(c)
  {
    (c - '0') as nat
  }

  function DigitsValue(s: string): nat
    requires AllDigits(s)
  {
    if s == "" then 0
    else 10 * DigitsValue(s[..|s| - 1]) + DigitValue(s[|s| - 1])
  }

  function DigitChar(d: nat): (c: char)
    requires d < 10
    ensures IsDigit(c) && DigitValue(c) == d
  {
    '0' + d as char
  }

  /** `(*big.Int).String()` of a natural number. */
  function NatToString(n: nat): (s: string)
    ensures s != "" && AllDigits(s)
  {
    if n < 10 then [DigitChar(n)] else NatToString(n / 10) + [DigitChar(n % 10)]
  }

  function IntToString(n: int): string {
    if n < 0 then "-" + NatToString(-n) else NatToString(n)
  }

  lemma {:induction false} PrintedDigitsHaveValue(n: nat)
    ensures DigitsValue(NatToString(n)) == n
  {
    var s := NatToString(n);
    if n >= 10 {
      PrintedDigitsHaveValue(n / 10);
      assert s[..|s| - 1] == NatToString(n / 10);
    } else {
      assert s[..0] == "";
    }
  }

  /** Printed numbers have no leading zero. */
  lemma {:induction false} PrintedWithoutZeros(n: nat)
    ensures NatToString(n)[0] == '0' ==> n == 0
    ensures n == 0 ==> NatToString(n) == "0"
  {
    if n >= 10 {
      PrintedWithoutZeros(n / 10);
    }
  }

  // ---- parseJSONNumberToRat ----

  function SignedBy(sign: string, magnitude: int): int {
    if sign == "-" then -magnitude else magnitude
  }

  /** Index of the first character of `s` in `cs`, or -1. */
  function IndexAny(s: string, cs: set<char>): (i: int)
    ensures -1 <= i < |s|
    ensures i >= 0 ==> s[i] in cs
  {
    if s == "" then -1
    else if s[0] in cs then 0
    else
      var i := IndexAny(s[1..], cs);
      if i < 0 then -1 else i + 1
  }

  lemma {:induction false} IndexAnySkips(a: string, b: string, cs: set<char>)
    requires forall i :: 0 <= i < |a| ==> a[i] !in cs
    ensures IndexAny(a + b, cs) == if IndexAny(b, cs) < 0 then -1 else |a| + IndexAny(b, cs)
  {
    if a == "" {
      assert a + b == b;
    } else {
      assert (a + b)[1..] == a[1..] + b;
      IndexAnySkips(a[1..], b, cs);
    }
  }

  const MIN_INT64: int := -0x8000_0000_0000_0000
  const MAX_INT64: int := 0x7FFF_FFFF_FFFF_FFFF

  /** `strconv.ParseInt(s, 10, 64)`: an optional sign, digits, and the range of int64. */
  function ParseInt(s: string): Option<int> {
    var k := SignLength(s);
    var digits := s[k..];
    if digits == "" || DigitRun(digits) != |digits| then None
    else
      assert digits == digits[..|digits|];
      var v := SignedBy(s[..k], DigitsValue(digits));
      if MIN_INT64 <= v <= MAX_INT64 then Some(v) else None
  }

  /** `-exp` on an int64, which leaves the least value as it is. */
  function NegInt64(e: int): int {
    if e == MIN_INT64 then e else -e
  }

  /** `pow10`: one for any argument that is not positive. */
  function Pow10(n: int): (p: int)
    ensures p >= 1
  {
    if n <= 0 then 1 else Power10(n)
  }

  /** `pow10` as the loop it is in the source. */
  method ComputePow10(n: int) returns (out: int)
    ensures out == Pow10(n)
    ensures out as real == Power10Real(if n < 0 then 0 else n)
  {
    if n <= 0 {
      return 1;
    }
    out := 1;
    for i := 0 to n
      invariant out == Power10(i)
    {
      out := out * 10;
    }
  }

  function TrimLeftZeros(s: string): string {
    if s != "" && s[0] == '0' then TrimLeftZeros(s[1..]) else s
  }

  /** `big.Int.SetString` on digits. */
  function SetString(s: string): Option<nat> {
    if s == "" || DigitRun(s) != |s| then None
    else
      assert s == s[..|s|];
      Some(DigitsValue(s))
  }

  /** The decimal without its point, and how many digits followed the point. */
  function RemovePoint(decimal: string): (string, nat) {
    var dot := IndexAny(decimal, {'.'});
    if dot >= 0 then (decimal[..dot] + decimal[dot + 1..], |decimal| - dot - 1) else (decimal, 0)
  }

  function ReadDigits(joined: string): Option<nat> {
    var trimmed := TrimLeftZeros(joined);
    SetString(if trimmed == "" then "0" else trimmed)
  }

  /** The text cut at its exponent, with the exponent read as an int64. */
  function SplitExponent(unsigned: string): Option<(string, int)> {
    var e := IndexAny(unsigned, {'e', 'E'});
    if e < 0 then Some((unsigned, 0))
    else
      match ParseInt(unsigned[e + 1..])
      case None => None
      case Some(exp) => Some((unsigned[..e], exp))
  }

  /** A number as sign and digits, places after the point, and exponent. */
  datatype Scientific = Scientific(num: int, decimals: nat, exp: int)

  function ReadNumber(s: string): Option<Scientific> {
    match SplitExponent(s[SignLength(s)..])
    case None => None
    case Some((decimal, exp)) =>
      var (joined, decimals) := RemovePoint(decimal);
      match ReadDigits(joined)
      case None => None
      case Some(magnitude) =>
        Some(Scientific(SignedBy(s[..SignLength(s)], magnitude), decimals, exp))
  }

  /** The fraction built from the digits, the places and the exponent. */
  function RatOf(x: Scientific): Rat {
    if x.exp >= 0 then
      SetFrac(x.num * Pow10(x.exp), Pow10(x.decimals))
    else
      PositiveProduct(Pow10(x.decimals), Pow10(NegInt64(x.exp)));
      SetFrac(x.num, Pow10(x.decimals) * Pow10(NegInt64(x.exp)))
  }

  /** parseJSONNumberToRat, step by step on the text. */
  function ParseJSONNumberToRat(s: string): Option<Rat> {
    var x := ReadNumber(s);
    if x.None? then None else Some(RatOf(x.value))
  }

  lemma PositiveProduct(a: int, b: int)
    requires a > 0 && b > 0
    ensures a * b > 0
  {
  }

  // ---- What a number text denotes ----

  /** The digits after the point, by place value. */
  ghost function PlaceValue(s: string): real
    requires AllDigits(s)
  {
    if s == "" then 0.0 else (DigitValue(s[0]) as real + PlaceValue(s[1..])) / 10.0
  }

  ghost function ExponentValue(x: Option<Exponent>): int
    requires x.Some? ==> AllDigits(x.value.digits)
  {
    if x.None? then 0
    else SignedBy(x.value.sign, DigitsValue(x.value.digits))
  }

  ghost function FractionDigits(n: NumberText): string {
    if n.fraction.None? then "" else n.fraction.value
  }

  /** The signed digits of the text without its exponent, as a real number. */
  ghost function Mantissa(n: NumberText): real
    requires WellFormed(n)
  {
    var magnitude := DigitsValue(n.whole) as real + PlaceValue(FractionDigits(n));
    if n.sign == "-" then -magnitude else magnitude
  }

  /** A number shifted by a power of ten. */
  ghost function Shifted(m: real, e: int): real {
    m * Power10Real(e)
  }

  /** The real number a text denotes: sign, integer part, digits by place value, power of ten. */
  ghost function Denotes(n: NumberText): real
    requires WellFormed(n)
  {
    Shifted(Mantissa(n), ExponentValue(n.exponent))
  }

  /** The exponent is one of the integers of 64 bits. */
  ghost predicate ExponentFits(n: NumberText)
    requires WellFormed(n)
  {
    -9223372036854775808 <= ExponentValue(n.exponent) <= 9223372036854775807
  }

  /** Some digit of the number is not zero. */
  ghost predicate NonZeroDigits(n: NumberText)
    requires WellFormed(n)
  {
    DigitsValue(n.whole + FractionDigits(n)) != 0
  }

  /** The texts on which negating the exponent overflows and spoils the result. */
  ghost predicate ExponentWraps(n: NumberText)
    requires WellFormed(n)
  {
    ExponentValue(n.exponent) == -9223372036854775808 && NonZeroDigits(n)
  }

  lemma {:induction false} DigitsValueSplits(a: string, b: string)
    requires AllDigits(a) && AllDigits(b)
    ensures DigitsValue(a + b) == DigitsValue(a) * Power10(|b|) + DigitsValue(b)
  {
    if b == "" {
      assert a + b == a;
    } else {
      var n := |b| - 1;
      var s := a + b;
      assert s[..|s| - 1] == a + b[..n] && s[|s| - 1] == b[n];
      DigitsValueSplits(a, b[..n]);
      TimesTen(DigitsValue(a), Power10(n));
    }
  }

  lemma TimesTen(v: int, p: int)
    ensures 10 * (v * p) == v * (10 * p)
  {
  }

  lemma DigitsValueOfOne(c: char)
    requires IsDigit(c)
    ensures DigitsValue([c]) == DigitValue(c)
  {
    assert [c][..0] == "";
  }

  /** Scaling the place value by the number of places gives the digits as an integer. */
  ghost predicate PlacesScale(places: real, count: int, digits: int) {
    places * count as real == digits as real
  }

  lemma {:induction false} PlaceValueScaled(s: string)
    requires AllDigits(s)
    ensures PlacesScale(PlaceValue(s), Power10(|s|), DigitsValue(s))
  {
    if s == "" {
      ZeroTimes(PlaceValue(s), Power10(|s|));
    } else {
      PlaceValueScaled(s[1..]);
      LeadingDigit(s);
      ShiftPlaces(DigitValue(s[0]), Power10(|s[1..]|), DigitsValue(s[1..]), PlaceValue(s[1..]),
                  PlaceValue(s), Power10(|s|), DigitsValue(s));
    }
  }

  lemma LeadingDigit(s: string)
    requires s != "" && AllDigits(s)
    ensures DigitsValue(s) == DigitValue(s[0]) * Power10(|s[1..]|) + DigitsValue(s[1..])
  {
    assert s == [s[0]] + s[1..];
    DigitsValueSplits([s[0]], s[1..]);
    DigitsValueOfOne(s[0]);
  }

  lemma ZeroTimes(x: real, n: int)
    requires x == 0.0
    ensures PlacesScale(x, n, 0)
  {
  }

  lemma RealProduct(a: int, b: int)
    ensures (a * b) as real == a as real * b as real
  {
  }

  lemma ShiftPlaces(d: int, p: int, v: int, places: real, shifted: real, scale: int, digits: int)
    requires PlacesScale(places, p, v)
    requires shifted == (d as real + places) / 10.0 && scale == 10 * p && digits == d * p + v
    ensures PlacesScale(shifted, scale, digits)
  {
    RealProduct(d, p);
    var w, q := (d as real + places) / 10.0, p as real;
    assert w * (10.0 * q) == (w * 10.0) * q;
    assert (w * 10.0) * q == d as real * q + places * q;
  }

  lemma {:induction false} TrimmingZerosKeepsValue(s: string)
    requires AllDigits(s)
    ensures AllDigits(TrimLeftZeros(s)) && DigitsValue(TrimLeftZeros(s)) == DigitsValue(s)
  {
    if s != "" && s[0] == '0' {
      TrimmingZerosKeepsValue(s[1..]);
      assert s == ['0'] + s[1..];
      DigitsValueSplits(['0'], s[1..]);
      DigitsValueOfOne('0');
    }
  }

  /** The exponent text is read as its value, if it fits. */
  lemma ParseIntReadsExponent(x: Exponent)
    requires IsSign(x.sign) && x.digits != "" && AllDigits(x.digits)
    ensures var v := ExponentValue(Some(x));
            ParseInt(x.sign + x.digits) == if MIN_INT64 <= v <= MAX_INT64 then Some(v) else None
  {
    SplitAfterSign(x.sign, x.digits, x.sign + x.digits);
    AllDigitsRun(x.digits);
  }

  /** The parts of a number text as an exact decimal. */
  ghost function Decimal(n: NumberText): Scientific
    requires WellFormed(n)
  {
    Scientific(SignedBy(n.sign, DigitsValue(n.whole + FractionDigits(n))),
               |FractionDigits(n)|, ExponentValue(n.exponent))
  }

  /** The text algorithm finds the parts of the number. */
  lemma ParseFindsParts(n: NumberText)
    requires WellFormed(n)
    ensures ReadNumber(Render(n)) == if ExponentFits(n) then Some(Decimal(n)) else None
  {
    SplitAfterSign(n.sign, RenderUnsigned(n), Render(n));
    DecimalCharacters(n.whole, n.fraction);
    FindExponent(n.whole + RenderFraction(n.fraction), n.exponent);
    FindPoint(n.whole, n.fraction);
    ReadsDigits(n.whole + FractionDigits(n));
  }

  lemma DecimalCharacters(whole: string, f: Option<string>)
    requires AllDigits(whole) && (f.Some? ==> AllDigits(f.value))
    ensures var decimal := whole + RenderFraction(f);
            forall i :: 0 <= i < |decimal| ==> IsDigit(decimal[i]) || decimal[i] == '.'
  {
  }

  lemma ReadsDigits(joined: string)
    requires AllDigits(joined)
    ensures ReadDigits(joined) == Some(DigitsValue(joined))
  {
    TrimmingZerosKeepsValue(joined);
    AllDigitsRun(TrimLeftZeros(joined));
    AllDigitsRun("0");
    DigitsValueOfOne('0');
  }

  lemma FindExponent(decimal: string, x: Option<Exponent>)
    requires forall i :: 0 <= i < |decimal| ==> IsDigit(decimal[i]) || decimal[i] == '.'
    requires x.Some? ==> (x.value.letter == 'e' || x.value.letter == 'E') && IsSign(x.value.sign)
                         && x.value.digits != "" && AllDigits(x.value.digits)
    ensures SplitExponent(decimal + RenderExponent(x))
            == if MIN_INT64 <= ExponentValue(x) <= MAX_INT64 then Some((decimal, ExponentValue(x))) else None
  {
    if x.Some? {
      ExponentAfter(decimal, x.value);
      ParseIntReadsExponent(x.value);
    } else {
      IndexAnySkips(decimal, "", {'e', 'E'});
      assert decimal + "" == decimal;
    }
  }

  lemma ExponentAfter(decimal: string, x: Exponent)
    requires forall i :: 0 <= i < |decimal| ==> IsDigit(decimal[i]) || decimal[i] == '.'
    requires x.letter == 'e' || x.letter == 'E'
    ensures var s := decimal + RenderExponent(Some(x));
            && IndexAny(s, {'e', 'E'}) == |decimal|
            && s[|decimal| + 1..] == x.sign + x.digits && s[..|decimal|] == decimal
  {
    assert RenderExponent(Some(x)) == [x.letter] + (x.sign + x.digits);
    IndexAnySkips(decimal, RenderExponent(Some(x)), {'e', 'E'});
  }

  lemma FindPoint(whole: string, f: Option<string>)
    requires AllDigits(whole) && (f.Some? ==> AllDigits(f.value))
    ensures var digits := if f.None? then "" else f.value;
            RemovePoint(whole + RenderFraction(f)) == (whole + digits, |digits|)
  {
    var r := RenderFraction(f);
    IndexAnySkips(whole, r, {'.'});
    SplitConcat(whole, r);
    if f.Some? {
      assert (whole + r)[|whole| + 1..] == f.value;
    }
  }

  // ---- Exactness ----

  ghost predicate Equals(r: Rat, x: real) {
    r.num as real == x * r.den as real
  }

  /** Reduction keeps the real number. */
  lemma ReducedEquals(num: int, den: int, x: real)
    requires den > 0
    ensures LowestTerms(SetFrac(num, den))
    ensures Equals(Rat(num, den), x) <==> Equals(SetFrac(num, den), x)
  {
    SetFracReduces(num, den);
    SameRationalEquals(SetFrac(num, den), Rat(num, den), x);
  }

  lemma SameRationalEquals(a: Rat, b: Rat, x: real)
    requires a.den > 0 && b.den > 0 && SameRational(a, b)
    ensures Equals(a, x) <==> Equals(b, x)
  {
    RealProduct(a.num, b.den);
    RealProduct(b.num, a.den);
    RealCross(a.num as real, a.den as real, b.num as real, b.den as real, x);
    RealCross(b.num as real, b.den as real, a.num as real, a.den as real, x);
  }

  lemma RealCross(an: real, ad: real, bn: real, bd: real, x: real)
    requires ad > 0.0 && bd > 0.0 && an * bd == bn * ad
    ensures an == x * ad ==> bn == x * bd
  {
    if an == x * ad {
      assert (x * ad) * bd == (x * bd) * ad;
      assert bn * ad == (x * bd) * ad;
      CancelReal(ad, bn, x * bd);
    }
  }

  lemma CancelReal(d: real, a: real, b: real)
    requires d != 0.0 && a * d == b * d
    ensures a == b
  {
    assert (a - b) * d == 0.0;
  }

  /** Two fractions that equal one real are the same rational. */
  lemma EqualRealsSameRational(a: Rat, b: Rat, x: real, y: real)
    requires a.den > 0 && b.den > 0 && Equals(a, x) && Equals(b, y)
    ensures x == y <==> SameRational(a, b)
  {
    RealProduct(a.num, b.den);
    RealProduct(b.num, a.den);
    var ad, bd := a.den as real, b.den as real;
    assert (x * ad) * bd == x * (ad * bd);
    assert (y * bd) * ad == y * (ad * bd);
    assert ad * bd > 0.0;
    if SameRational(a, b) {
      CancelReal(ad * bd, x, y);
    }
  }

  lemma MantissaScaled(n: NumberText)
    requires WellFormed(n)
    ensures PlacesScale(Mantissa(n), Power10(|FractionDigits(n)|), Decimal(n).num)
  {
    var w, f := DigitsValue(n.whole), FractionDigits(n);
    PlaceValueScaled(f);
    DigitsValueSplits(n.whole, f);
    AddPlaces(w, PlaceValue(f), Power10(|f|), DigitsValue(f));
  }

  lemma AddPlaces(w: int, places: real, scale: int, v: int)
    requires PlacesScale(places, scale, v)
    ensures PlacesScale(w as real + places, scale, w * scale + v)
    ensures PlacesScale(-(w as real + places), scale, -(w * scale + v))
  {
    RealProduct(w, scale);
    assert (w as real + places) * scale as real == w as real * scale as real + places * scale as real;
    assert (-(w as real + places)) * scale as real == -((w as real + places) * scale as real);
  }

  /** A non-negative exponent multiplies the numerator. */
  lemma ScaledUp(x: Scientific, m: real)
    requires x.exp >= 0 && PlacesScale(m, Power10(x.decimals), x.num)
    ensures LowestTerms(RatOf(x)) && Equals(RatOf(x), Shifted(m, x.exp))
  {
    RatOfUp(x);
    ShiftedUp(m, x.exp);
    UpFraction(x.num, Power10(x.decimals), m, Power10(x.exp), RatOf(x), Shifted(m, x.exp));
  }

  lemma ShiftedUp(m: real, e: nat)
    ensures Shifted(m, e) == m * Power10(e) as real
  {
  }

  lemma UpFraction(num: int, d: int, m: real, p: int, r: Rat, v: real)
    requires PlacesScale(m, d, num) && d > 0 && r == SetFrac(num * p, d) && v == m * p as real
    ensures LowestTerms(r) && Equals(r, v)
  {
    MultiplyUp(num, d, m, p);
    ReducedEquals(num * p, d, m * p as real);
  }

  lemma RatOfUp(x: Scientific)
    requires x.exp >= 0
    ensures RatOf(x) == SetFrac(x.num * Power10(x.exp), Power10(x.decimals))
  {
  }

  lemma MultiplyUp(num: int, d: int, m: real, p: int)
    requires PlacesScale(m, d, num)
    ensures Equals(Rat(num * p, d), m * p as real)
  {
    RealProduct(num, p);
    var q, e := p as real, d as real;
    assert (m * q) * e == (m * e) * q;
  }

  /** A negative exponent multiplies the denominator. */
  lemma ScaledDown(x: Scientific, m: real)
    requires MIN_INT64 < x.exp < 0 && PlacesScale(m, Power10(x.decimals), x.num)
    ensures LowestTerms(RatOf(x)) && Equals(RatOf(x), Shifted(m, x.exp))
  {
    DownFraction(x.num, Power10(x.decimals), m, Power10(-x.exp));
    RatOfDown(x);
  }

  lemma DownFraction(num: int, d: int, m: real, p: int)
    requires PlacesScale(m, d, num) && d > 0 && p > 0
    ensures d * p > 0 && LowestTerms(SetFrac(num, d * p)) && Equals(SetFrac(num, d * p), m * (1.0 / p as real))
  {
    PositiveProduct(d, p);
    DivideDown(num, d, m, p);
    ReducedEquals(num, d * p, m * (1.0 / p as real));
  }

  lemma RatOfDown(x: Scientific)
    requires MIN_INT64 < x.exp < 0
    ensures Power10(x.decimals) * Power10(-x.exp) > 0
    ensures RatOf(x) == SetFrac(x.num, Power10(x.decimals) * Power10(-x.exp))
  {
    PositiveProduct(Power10(x.decimals), Power10(-x.exp));
  }

  lemma DivideDown(num: int, d: int, m: real, p: int)
    requires PlacesScale(m, d, num) && p > 0
    ensures Equals(Rat(num, d * p), m * (1.0 / p as real))
  {
    RealProduct(d, p);
    var q, e := p as real, d as real;
    assert (1.0 / q) * q == 1.0;
    assert (m * (1.0 / q)) * (e * q) == (m * e) * ((1.0 / q) * q);
  }

  /** The least exponent leaves the fraction unscaled, which is right only for zero. */
  lemma NotScaled(x: Scientific, m: real)
    requires x.exp == MIN_INT64 && PlacesScale(m, Power10(x.decimals), x.num)
    ensures LowestTerms(RatOf(x)) && (Equals(RatOf(x), Shifted(m, x.exp)) <==> x.num == 0)
  {
    UnscaledFraction(x.num, Power10(x.decimals), m, x.exp);
    RatOfWrapped(x);
  }

  lemma UnscaledFraction(num: int, d: int, m: real, e: int)
    requires PlacesScale(m, d, num) && d > 0 && e < 0
    ensures LowestTerms(SetFrac(num, d))
    ensures Equals(SetFrac(num, d), Shifted(m, e)) <==> num == 0
  {
    Power10Exceeds(-e);
    var p := Power10(-e) as real;
    var f := 1.0 / p;
    assert f * p == 1.0;
    Unscaled(num, d, m, f, p);
    ReducedEquals(num, d, m * f);
  }

  lemma RatOfWrapped(x: Scientific)
    requires x.exp == MIN_INT64
    ensures RatOf(x) == SetFrac(x.num, Power10(x.decimals))
  {
    assert Pow10(x.decimals) * 1 == Power10(x.decimals);
  }

  lemma Unscaled(num: int, d: int, m: real, f: real, q: real)
    requires PlacesScale(m, d, num) && f * q == 1.0 && q > 1.0
    ensures Equals(Rat(num, d), m * f) <==> num == 0
  {
    var x, e := num as real, d as real;
    UnscaledReal(x, e, m, f, q);
  }

  lemma UnscaledReal(x: real, e: real, m: real, f: real, q: real)
    requires m * e == x && f * q == 1.0 && q > 1.0
    ensures x == (m * f) * e <==> x == 0.0
  {
    var y := (m * f) * e;
    Reassociate(x, e, m, f);
    FixedByFactor(x, f, q, y);
  }

  lemma Reassociate(x: real, e: real, m: real, f: real)
    requires m * e == x
    ensures (m * f) * e == x * f
  {
    assert (m * f) * e == (m * e) * f;
  }

  lemma FixedByFactor(x: real, f: real, q: real, y: real)
    requires f * q == 1.0 && q > 1.0 && y == x * f
    ensures x == y <==> x == 0.0
  {
    assert (x * f) * q == x * (f * q);
    if x == y {
      assert x * q == x;
      CancelReal(q - 1.0, x, 0.0);
    }
  }

  /** The fraction is the number the text denotes, except where the exponent wraps. */
  lemma RatIsExact(n: NumberText)
    requires WellFormed(n) && ExponentFits(n)
    ensures LowestTerms(RatOf(Decimal(n)))
    ensures Equals(RatOf(Decimal(n)), Denotes(n)) <==> !ExponentWraps(n)
  {
    var x, m := Decimal(n), Mantissa(n);
    MantissaScaled(n);
    if x.exp >= 0 {
      ScaledUp(x, m);
    } else if x.exp != MIN_INT64 {
      ScaledDown(x, m);
    } else {
      NotScaled(x, m);
    }
  }

  /** The number the code reads: an exponent whose negation wraps is taken for zero. */
  ghost function ReadAs(n: NumberText): real
    requires WellFormed(n)
  {
    if ExponentWraps(n) then Mantissa(n) else Denotes(n)
  }

  /** On every text that is read, the fraction is the number read, in lowest terms; and the number read
      is the number denoted exactly when the exponent does not wrap. */
  lemma RatIsRead(n: NumberText)
    requires WellFormed(n) && ExponentFits(n)
    ensures LowestTerms(RatOf(Decimal(n))) && Equals(RatOf(Decimal(n)), ReadAs(n))
    ensures ReadAs(n) == Denotes(n) <==> !ExponentWraps(n)
  {
    RatIsExact(n);
    if ExponentWraps(n) {
      MantissaScaled(n);
      RatOfWrapped(Decimal(n));
      UnscaledIsMantissa(Decimal(n).num, Power10(Decimal(n).decimals), Mantissa(n), RatOf(Decimal(n)));
    }
  }

  lemma UnscaledIsMantissa(num: int, d: int, m: real, r: Rat)
    requires PlacesScale(m, d, num) && d > 0 && r == SetFrac(num, d)
    ensures LowestTerms(r) && Equals(r, m)
  {
    ReducedEquals(num, d, m);
    assert Equals(Rat(num, d), m);
  }

  // ---- fractionStringFromString ----

  /** unicode.IsSpace, as strings.TrimSpace uses it. */
  predicate IsSpace(c: char) {
    c in {' ', '\t', '\n', '\r', '\U{000B}', '\U{000C}', '\U{0085}', '\U{00A0}', '\U{1680}',
          '\U{2028}', '\U{2029}', '\U{202F}', '\U{205F}', '\U{3000}'}
    || '\U{2000}' <= c <= '\U{200A}'
  }

  /** The spaces by their codes: six below 128, the two of Latin-1, and those of the higher planes. */
  lemma SpacesByCode(c: char)
    ensures IsSpace(c) <==>
              || 9 <= c as int <= 13 || c as int == 32 || c as int == 133 || c as int == 160
              || c as int == 5760 || 8192 <= c as int <= 8202
              || c as int in {8232, 8233, 8239, 8287, 12288}
  {
  }

  function TrimSpace(s: string): string {
    if s != "" && IsSpace(s[0]) then TrimSpace(s[1..])
    else if s != "" && IsSpace(s[|s| - 1]) then TrimSpace(s[..|s| - 1])
    else s
  }

  ghost predicate Blank(s: string) {
    forall i :: 0 <= i < |s| ==> IsSpace(s[i])
  }

  /** Spaces at the end do not change what trimming leaves. */
  lemma {:induction false} TrimmingDropsEnd(s: string, c: char)
    requires IsSpace(c)
    ensures TrimSpace(s + [c]) == TrimSpace(s)
  {
    if s == "" {
      assert s + [c] == [c] && (s + [c])[1..] == "";
    } else if IsSpace(s[0]) {
      assert (s + [c])[1..] == s[1..] + [c];
      TrimmingDropsEnd(s[1..], c);
    } else {
      assert (s + [c])[..|s + [c]| - 1] == s;
    }
  }

  /** Neither spaces before nor spaces after a text change what trimming leaves. */
  lemma {:induction false} SpacesAroundAreTrimmed(l: string, s: string, r: string)
    requires Blank(l) && Blank(r)
    ensures TrimSpace(l + s + r) == TrimSpace(s)
    decreases |l| + |r|
  {
    if l != "" {
      assert (l + s + r)[1..] == l[1..] + s + r;
      SpacesAroundAreTrimmed(l[1..], s, r);
    } else if r != "" {
      var init, last := r[..|r| - 1], r[|r| - 1];
      assert l + s + r == (l + s + init) + [last];
      TrimmingDropsEnd(l + s + init, last);
      SpacesAroundAreTrimmed(l, s, init);
    } else {
      assert l + s + r == s;
    }
  }

  /** `t` is `s` without some of the spaces at its ends. */
  ghost predicate TrimmedTo(s: string, l: string, t: string, r: string) {
    s == l + t + r && Blank(l) && Blank(r)
  }

  /** Trimming takes away spaces only. */
  lemma {:induction false} TrimmingTakesSpaces(s: string) returns (l: string, r: string)
    ensures TrimmedTo(s, l, TrimSpace(s), r)
    decreases |s|
  {
    if s != "" && IsSpace(s[0]) {
      l, r := TrimmingTakesSpaces(s[1..]);
      l := [s[0]] + l;
      assert s == [s[0]] + s[1..];
    } else if s != "" && IsSpace(s[|s| - 1]) {
      l, r := TrimmingTakesSpaces(s[..|s| - 1]);
      r := r + [s[|s| - 1]];
      assert s == s[..|s| - 1] + [s[|s| - 1]];
    } else {
      l, r := "", "";
      assert s == l + s + r;
    }
  }

  function FractionText(r: Rat): string {
    IntToString(r.num) + "/" + IntToString(r.den)
  }

  /** fractionStringFromString: the fraction text of a numeric string, or nothing. */
  function FractionString(s: string): Option<string> {
    var t := TrimSpace(s);
    if Scan(t).None? then None
    else
      var r := ParseJSONNumberToRat(t);
      if r.None? then None else Some(FractionText(r.value))
  }

  /** The texts that normalise: numbers, possibly between spaces, whose exponent is an int64. */
  ghost predicate Numeric(s: string) {
    exists n :: WellFormed(n) && Render(n) == TrimSpace(s) && ExponentFits(n)
  }

  /** The number parts of a numeric text. */
  ghost function Parts(s: string): (n: NumberText)
    requires Numeric(s)
    ensures WellFormed(n) && Render(n) == TrimSpace(s) && ExponentFits(n)
  {
    var n :| WellFormed(n) && Render(n) == TrimSpace(s) && ExponentFits(n);
    n
  }

  /** A text normalises exactly when it is numeric, and then to the fraction of its parts. */
  lemma FractionStringDecides(s: string)
    ensures FractionString(s).Some? <==> Numeric(s)
    ensures Numeric(s) ==> FractionString(s) == Some(FractionText(RatOf(Decimal(Parts(s)))))
  {
    if Numeric(s) {
      NumericParses(s);
    } else {
      NonNumericFails(s);
    }
  }

  lemma NumericParses(s: string)
    requires Numeric(s)
    ensures var t := TrimSpace(s);
            Scan(t).Some? && ParseJSONNumberToRat(t) == Some(RatOf(Decimal(Parts(s))))
  {
    ScanComplete(Parts(s));
    ParseFindsParts(Parts(s));
  }

  lemma NonNumericFails(s: string)
    requires !Numeric(s)
    ensures var t := TrimSpace(s); Scan(t).None? || ParseJSONNumberToRat(t).None?
  {
    var t := TrimSpace(s);
    if Scan(t).Some? {
      ScanSound(t);
      ParseFindsParts(Scan(t).value);
    }
  }

  /** `s` is the number `n` between spaces. */
  ghost predicate SpacedNumber(s: string, l: string, n: NumberText, r: string) {
    TrimmedTo(s, l, Render(n), r) && WellFormed(n) && ExponentFits(n)
  }

  /** The texts that normalise are exactly the numbers between spaces, and the spaces do not matter. */
  lemma NumericIsSpacedNumber(s: string)
    ensures FractionString(s).Some? <==> exists l, n, r :: SpacedNumber(s, l, n, r)
    ensures forall l, n, r :: SpacedNumber(s, l, n, r) ==>
              FractionString(s) == Some(FractionText(RatOf(Decimal(n))))
  {
    FractionStringDecides(s);
    if Numeric(s) {
      var l, r := TrimmingTakesSpaces(s);
      assert SpacedNumber(s, l, Parts(s), r);
    }
    forall l, n, r | SpacedNumber(s, l, n, r)
      ensures FractionString(s) == Some(FractionText(RatOf(Decimal(n))))
    {
      SpacesAroundAreTrimmed(l, Render(n), r);
      NumberIsTrimmed(n);
      ScanComplete(n);
      ParseFindsParts(n);
    }
  }

  lemma NumberIsTrimmed(n: NumberText)
    requires WellFormed(n)
    ensures TrimSpace(Render(n)) == Render(n)
  {
    var s := Render(n);
    assert s == n.sign + (n.whole + RenderFraction(n.fraction) + RenderExponent(n.exponent));
    assert s[0] == if n.sign == "" then n.whole[0] else n.sign[0];
    LastIsDigit(n);
    NotTrimmed(s);
  }

  // ---- Fractions as text ----

  lemma SignShows(a: int)
    ensures IntToString(a)[0] == '-' <==> a < 0
    ensures IntToString(a)[if a < 0 then 1 else 0..] == NatToString(Abs(a))
  {
  }

  lemma IntPrintInjective(a: int, b: int)
    requires IntToString(a) == IntToString(b)
    ensures a == b
  {
    SignShows(a);
    SignShows(b);
    PrintedDigitsHaveValue(Abs(a));
    PrintedDigitsHaveValue(Abs(b));
  }

  lemma PrintHasNoSlash(a: int)
    ensures forall i :: 0 <= i < |IntToString(a)| ==> IntToString(a)[i] != '/'
  {
  }

  ghost predicate NoSlash(s: string) {
    forall i :: 0 <= i < |s| ==> s[i] != '/'
  }

  /** A text splits in one way only around its first slash. */
  lemma SlashSplits(s: string, x: string, t: string, y: string)
    requires NoSlash(s) && NoSlash(t) && s + "/" + x == t + "/" + y
    ensures s == t && x == y
  {
    var whole, other := s + "/" + x, t + "/" + y;
    assert whole[|s|] == '/' && other[|t|] == '/';
    assert forall i :: 0 <= i < |s| ==> whole[i] == s[i];
    assert forall i :: 0 <= i < |t| ==> other[i] == t[i];
    assert |s| == |t|;
    assert s == whole[..|s|] && t == other[..|t|];
    assert x == whole[|s| + 1..] && y == other[|t| + 1..];
  }

  lemma FractionTextInjective(a: Rat, b: Rat)
    requires FractionText(a) == FractionText(b)
    ensures a == b
  {
    PrintHasNoSlash(a.num);
    PrintHasNoSlash(b.num);
    SlashSplits(IntToString(a.num), IntToString(a.den), IntToString(b.num), IntToString(b.den));
    IntPrintInjective(a.num, b.num);
    IntPrintInjective(a.den, b.den);
  }

  /** Two numeric texts get the same fraction text exactly when they are read as the same number: the
      number they denote, unless an exponent wraps. */
  lemma SameFractionSameNumber(s: string, t: string)
    requires Numeric(s) && Numeric(t)
    ensures FractionString(s) == FractionString(t) <==> ReadAs(Parts(s)) == ReadAs(Parts(t))
    ensures !ExponentWraps(Parts(s)) && !ExponentWraps(Parts(t)) ==>
              (FractionString(s) == FractionString(t) <==> Denotes(Parts(s)) == Denotes(Parts(t)))
  {
    var m, n := Parts(s), Parts(t);
    var a, b := RatOf(Decimal(m)), RatOf(Decimal(n));
    FractionStringDecides(s);
    FractionStringDecides(t);
    RatIsRead(m);
    RatIsRead(n);
    EqualRealsSameRational(a, b, ReadAs(m), ReadAs(n));
    if FractionString(s) == FractionString(t) {
      FractionTextInjective(a, b);
    }
    if ReadAs(m) == ReadAs(n) {
      LowestTermsUnique(a, b);
    }
  }

  /** Wrapping happens: 1e-9223372036854775808 denotes a tiny number and becomes the text of one. */
  lemma WrappedExponentExample(n: NumberText)
    requires n == WrappedExponentText()
    ensures WellFormed(n) && ExponentWraps(n) && Denotes(n) == Power10Real(MIN_INT64)
    ensures FractionString(Render(n)) == Some("1/1")
  {
    WrappedExponentParts();
    RenderWrapped();
    ScanComplete(n);
    ParseFindsParts(n);
    UnitFraction();
  }

  lemma RenderWrapped()
    ensures var s := Render(WrappedExponentText()); TrimSpace(s) == s
  {
    PrintedDigitsHaveValue(9223372036854775808);
    ScaledOneIsTrimmed(NatToString(9223372036854775808));
  }

  lemma ScaledOneIsTrimmed(digits: string)
    requires digits != "" && AllDigits(digits)
    ensures var s := Render(NumberText("", "1", None, Some(Exponent('e', "-", digits)))); TrimSpace(s) == s
  {
    var s := Render(NumberText("", "1", None, Some(Exponent('e', "-", digits))));
    assert s == "1e-" + digits;
    assert s[|s| - 1] == digits[|digits| - 1] && IsDigit(digits[|digits| - 1]);
    NotTrimmed(s);
  }

  ghost function WrappedExponentText(): NumberText {
    NumberText("", "1", None, Some(Exponent('e', "-", NatToString(9223372036854775808))))
  }

  lemma WrappedExponentParts()
    ensures var n := WrappedExponentText();
            WellFormed(n) && Decimal(n) == Scientific(1, 0, MIN_INT64) && Mantissa(n) == 1.0
  {
    PrintedDigitsHaveValue(9223372036854775808);
    DigitsValueOfOne('1');
    assert "1" + "" == "1";
  }

  lemma UnitFraction()
    ensures FractionText(RatOf(Scientific(1, 0, MIN_INT64))) == "1/1"
  {
    assert Gcd(1, 1) == 1;
    assert NatToString(1) == "1";
  }

  /** A fraction text is not itself numeric, so normalising it again changes nothing. */
  lemma FractionTextNotNumeric(r: Rat)
    ensures FractionString(FractionText(r)).None?
  {
    var s := FractionText(r);
    NotTrimmed(s);
    assert s[|IntToString(r.num)|] == '/';
    if Scan(s).Some? {
      ScanSound(s);
      RenderHasNoSlash(Scan(s).value);
    }
  }

  lemma NotTrimmed(s: string)
    requires s != "" && !IsSpace(s[0]) && !IsSpace(s[|s| - 1])
    ensures TrimSpace(s) == s
  {
  }

  lemma RenderHasNoSlash(n: NumberText)
    requires WellFormed(n)
    ensures '/' !in Render(n)
  {
    assert '/' !in RenderFraction(n.fraction);
    assert '/' !in RenderExponent(n.exponent);
    assert '/' !in n.whole;
  }
}
