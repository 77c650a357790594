/** The comparison of JSON numbers in test_documents.py: tokens of section 6 of RFC 8259 are brought into a form that
    decides whether they denote the same value, without writing out their exponents. */
module NumberForm {
  import opened Options

  // ---------------------------------------------------------------- digits

  predicate IsDigit(c: char) {
    '0' <= c <= '9'
  }

  predicate AllDigits(s: string) {
    forall i :: 0 <= i < |s| ==> IsDigit(s[i])
  }

  /** Plain decimal reading. */
  function Number(s: string): nat
    requires AllDigits(s)
  {
    if s == "" then 0 else Number(s[..|s| - 1]) * 10 + (s[|s| - 1] as int - '0' as int)
  }

  function Power(n: nat): nat {
    if n == 0 then 1 else 10 * Power(n - 1)
  }

  lemma {:induction false} PowerIsPositive(n: nat)
    ensures Power(n) >= 1
  {
    if n > 0 { PowerIsPositive(n - 1); }
  }

  lemma {:induction false} NumberConcat(a: string, b: string)
    requires AllDigits(a) && AllDigits(b)
    ensures AllDigits(a + b) && Number(a + b) == Number(a) * Power(|b|) + Number(b)
  {
    if b == "" {
      assert a + b == a;
    } else {
      var n := |b| - 1;
      NumberConcat(a, b[..n]);
      assert (a + b)[..|a + b| - 1] == a + b[..n];
      TimesTen(Number(a), n);
      hide Power;
    }
  }

  // ---------------------------------------------------------------- exponent_integer

  function StripSigns(s: string): (r: string)
    ensures |r| <= |s| && (AllDigits(s) ==> r == s)
  {
    if s != "" && (s[0] == '+' || s[0] == '-') then StripSigns(s[1..]) else s
  }

  /** An optional sign and digits, read in the ordinary way. */
  function SignedNumber(text: string): int
    requires AllDigits(StripSigns(text))
  {
    var n: int := Number(StripSigns(text));
    if text != "" && text[0] == '-' then -n else n
  }

  const CHUNK := 500

  /** exponent_integer: chunk by chunk it reads what plain decimal reading does. */
  method ExponentInteger(text: string) returns (value: int)
    requires AllDigits(StripSigns(text))
    ensures value == SignedNumber(text)
  {
    var negative := text != "" && text[0] == '-';
    var digits := StripSigns(text);
    var result, index := 0, 0;
    while index < |digits|
      invariant 0 <= index
      invariant result == Number(digits[..if index < |digits| then index else |digits|])
    {
      var end := if index + CHUNK < |digits| then index + CHUNK else |digits|;
      var chunk := digits[index..end];
      NumberConcat(digits[..index], chunk);
      assert digits[..end] == digits[..index] + chunk;
      result := result * Power(|chunk|) + Number(chunk);
      index := index + CHUNK;
    }
    assert digits[..|digits|] == digits;
    value := if negative then -result else result;
  }

  // ---------------------------------------------------------------- normalized_number

  function Lower(s: string): (r: string)
    ensures |r| == |s|
  {
    seq(|s|, i requires 0 <= i < |s| => if 'A' <= s[i] <= 'Z' then (s[i] as int + 32) as char else s[i])
  }

  datatype Parted = Parted(before: string, found: bool, after: string)

  function Partition(s: string, c: char): Parted {
    if s == "" then Parted("", false, "")
    else if s[0] == c then Parted("", true, s[1..])
    else var rest := Partition(s[1..], c); Parted([s[0]] + rest.before, rest.found, rest.after)
  }

  function StripLeft(s: string): (r: string)
    ensures |r| <= |s|
  {
    if s != "" && s[0] == '0' then StripLeft(s[1..]) else s
  }

  function StripRight(s: string): (r: string)
    ensures |r| <= |s|
  {
    if s != "" && s[|s| - 1] == '0' then StripRight(s[..|s| - 1]) else s
  }

  /** The tuple, without its constant first component. */
  datatype Form = Form(negative: bool, digits: string, power: int)

  const ZERO := Form(false, "0", 0)

  /** The end of normalized_number, from the digits and the power of the last of them. */
  function Normal(negative: bool, all: string, power: int): Form {
    var stripped := StripLeft(all);
    var digits := if stripped == "" then "0" else stripped;
    if digits == "0" then ZERO
    else
      var significant := StripRight(digits);
      Form(negative, significant, power + |digits| - |significant|)
  }

  /** What the code cuts out of a token: sign, digits, and the power of ten of the last digit. */
  datatype Cut = Cut(negative: bool, all: string, power: int)

  predicate Readable(token: string) {
    AllDigits(StripSigns(Partition(Lower(token), 'e').after))
  }

  function CutToken(token: string): Cut
    requires Readable(token)
  {
    var parts := Partition(Lower(token), 'e');
    var power := if parts.found then SignedNumber(parts.after) else 0;
    var negative := parts.before != "" && parts.before[0] == '-';
    var mantissa := if negative then parts.before[1..] else parts.before;
    var halves := Partition(mantissa, '.');
    Cut(negative, halves.before + halves.after, power - |halves.after|)
  }

  function NormalForm(token: string): Form
    requires Readable(token)
  {
    var cut := CutToken(token);
    Normal(cut.negative, cut.all, cut.power)
  }

  /** normalized_number, with the chunked exponent reader. */
  method NormalizedNumber(token: string) returns (form: Form)
    requires Readable(token)
    ensures form == NormalForm(token)
  {
    var parts := Partition(Lower(token), 'e');
    var power := 0;
    if parts.found { power := ExponentInteger(parts.after); }
    var mantissa := parts.before;
    var negative := mantissa != "" && mantissa[0] == '-';
    if negative { mantissa := mantissa[1..]; }
    var halves := Partition(mantissa, '.');
    power := power - |halves.after|;
    var digits := StripLeft(halves.before + halves.after);
    if digits == "" { digits := "0"; }
    if digits == "0" { return ZERO; }
    var significant := StripRight(digits);
    power := power + |digits| - |significant|;
    form := Form(negative, significant, power);
  }

  // ---------------------------------------------------------------- tokens and their values

  datatype Sign = Unsigned | Plus | Minus

  datatype Exponent = Exponent(capital: bool, sign: Sign, digits: string)

  /** A number of the grammar. */
  datatype Token = Token(negative: bool, whole: string, fraction: Option<string>, exponent: Option<Exponent>)

  predicate IsToken(t: Token) {
    && t.whole != "" && AllDigits(t.whole) && (t.whole[0] == '0' ==> t.whole == "0")
    && (t.fraction.Some? ==> t.fraction.value != "" && AllDigits(t.fraction.value))
    && (t.exponent.Some? ==> t.exponent.value.digits != "" && AllDigits(t.exponent.value.digits))
  }

  function SignText(s: Sign): string {
    match s case Unsigned => "" case Plus => "+" case Minus => "-"
  }

  function MantissaText(t: Token): string {
    (if t.negative then "-" else "") + t.whole + (if t.fraction.Some? then "." + t.fraction.value else "")
  }

  function Render(t: Token): string {
    MantissaText(t) +
    if t.exponent.None? then ""
    else (if t.exponent.value.capital then "E" else "e") + SignText(t.exponent.value.sign) + t.exponent.value.digits
  }

  function FractionDigits(t: Token): string {
    if t.fraction.Some? then t.fraction.value else ""
  }

  function WithSign(sign: Sign, n: int): int {
    if sign.Minus? then -n else n
  }

  function ExponentValue(t: Token): int
    requires IsToken(t)
  {
    if t.exponent.None? then 0 else WithSign(t.exponent.value.sign, Number(t.exponent.value.digits))
  }

  /** Ten to the power of any integer. */
  function Scale(k: int): real
    decreases if k < 0 then -k else k
  {
    if k == 0 then 1.0 else if k > 0 then 10.0 * Scale(k - 1) else Scale(k + 1) / 10.0
  }

  function Signed(negative: bool, n: nat, k: int): real {
    (if negative then -1.0 else 1.0) * (n as real * Scale(k))
  }

  /** The number a token denotes. */
  function Value(t: Token): real
    requires IsToken(t)
  {
    DigitsOfToken(t);
    Signed(t.negative, Number(t.whole + FractionDigits(t)), ExponentValue(t) - |FractionDigits(t)|)
  }

  lemma DigitsOfToken(t: Token)
    requires IsToken(t)
    ensures AllDigits(t.whole + FractionDigits(t))
  {
  }

  // ---------------------------------------------------------------- the text is cut where the grammar says

  lemma LowerConcat(a: string, b: string)
    ensures Lower(a + b) == Lower(a) + Lower(b)
  {
  }

  predicate Without(s: string, c: char) {
    forall i :: 0 <= i < |s| ==> s[i] != c
  }

  lemma {:induction false} PartitionFinds(a: string, c: char, b: string)
    requires Without(a, c)
    ensures Partition(a + [c] + b, c) == Parted(a, true, b)
    ensures Partition(a, c) == Parted(a, false, "")
  {
    if a == "" {
      assert a + [c] + b == [c] + b;
    } else {
      assert (a + [c] + b)[1..] == a[1..] + [c] + b;
      PartitionFinds(a[1..], c, b);
      assert [a[0]] + a[1..] == a;
    }
  }

  lemma DigitsAreLower(s: string)
    requires forall i :: 0 <= i < |s| ==> IsDigit(s[i]) || s[i] in "+-.e"
    ensures Lower(s) == s
  {
  }

  lemma MantissaIsLower(t: Token)
    requires IsToken(t)
    ensures Lower(MantissaText(t)) == MantissaText(t) && Without(MantissaText(t), 'e')
  {
    hide Lower;
    DigitsAreLower(MantissaText(t));
  }

  /** The mantissa behind its sign. */
  function UnsignedText(t: Token): string {
    t.whole + (if t.fraction.Some? then "." + t.fraction.value else "")
  }

  lemma MantissaHasSign(t: Token)
    requires IsToken(t)
    ensures var m := MantissaText(t);
      && m != "" && (m[0] == '-' <==> t.negative)
      && UnsignedText(t) == (if t.negative then m[1..] else m)
  {
  }

  lemma MantissaIsCut(t: Token)
    requires IsToken(t)
    ensures Partition(UnsignedText(t), '.') == Parted(t.whole, t.fraction.Some?, FractionDigits(t))
  {
    hide Partition;
    PartitionFinds(t.whole, '.', FractionDigits(t));
    if t.fraction.Some? {
      assert UnsignedText(t) == t.whole + ['.'] + t.fraction.value;
    } else {
      assert UnsignedText(t) == t.whole;
    }
  }

  lemma SignIsStripped(sign: Sign, digits: string)
    requires AllDigits(digits) && digits != ""
    ensures StripSigns(SignText(sign) + digits) == digits
    ensures SignedNumber(SignText(sign) + digits) == WithSign(sign, Number(digits))
  {
    var text := SignText(sign) + digits;
    if sign.Unsigned? { assert text == digits; } else { assert text[1..] == digits; }
  }

  lemma TokenIsCut(t: Token)
    requires IsToken(t)
    ensures Readable(Render(t))
    ensures CutToken(Render(t)) == Cut(t.negative, t.whole + FractionDigits(t), ExponentValue(t) - |FractionDigits(t)|)
  {
    hide Partition, StripSigns, SignedNumber, Number, Lower, MantissaText, UnsignedText;
    MantissaIsLower(t);
    MantissaHasSign(t);
    MantissaIsCut(t);
    var m := MantissaText(t);
    if t.exponent.None? {
      assert Render(t) == m;
      PartitionFinds(m, 'e', "");
      NoSigns();
    } else {
      var e := t.exponent.value;
      var tail := SignText(e.sign) + e.digits;
      DigitsAreLower(tail);
      LowerMarker(e.capital);
      LowerConcat(m, (if e.capital then "E" else "e") + tail);
      LowerConcat(if e.capital then "E" else "e", tail);
      assert Render(t) == m + ((if e.capital then "E" else "e") + tail);
      assert m + ("e" + tail) == m + ['e'] + tail;
      PartitionFinds(m, 'e', tail);
      SignIsStripped(e.sign, e.digits);
    }
  }

  lemma NoSigns()
    ensures StripSigns("") == ""
  {
  }

  lemma LowerMarker(capital: bool)
    ensures Lower(if capital then "E" else "e") == "e"
  {
    assert Lower("E")[0] == 'e' && Lower("e")[0] == 'e';
  }

  // ---------------------------------------------------------------- the form keeps the value

  lemma {:induction false} ScaleUp(k: int)
    ensures Scale(k + 1) == 10.0 * Scale(k)
  {
  }

  lemma {:induction false} ScaleAdds(k: int, n: nat)
    ensures Scale(k + n) == Power(n) as real * Scale(k)
  {
    if n > 0 {
      ScaleAdds(k, n - 1);
      ScaleUp(k + n - 1);
    }
  }

  lemma {:induction false} ScaleIsPositive(k: int)
    ensures Scale(k) > 0.0
    decreases if k < 0 then -k else k
  {
    if k > 0 { ScaleIsPositive(k - 1); }
    if k < 0 { ScaleIsPositive(k + 1); }
  }

  lemma {:induction false} StripLeftKeeps(s: string)
    requires AllDigits(s)
    ensures AllDigits(StripLeft(s)) && Number(StripLeft(s)) == Number(s)
    ensures StripLeft(s) != "" ==> StripLeft(s)[0] != '0'
  {
    if s != "" && s[0] == '0' {
      StripLeftKeeps(s[1..]);
      NumberConcat(s[..1], s[1..]);
      assert s[..1] + s[1..] == s && s[..1] == "0" && "0"[..0] == "";
      assert Number("0") == Number("") * 10 + 0;
    }
  }

  lemma {:induction false} StripRightKeeps(s: string)
    requires AllDigits(s)
    ensures AllDigits(StripRight(s)) && StripRight(s) <= s
    ensures Number(s) == Number(StripRight(s)) * Power(|s| - |StripRight(s)|)
    ensures StripRight(s) != "" ==> StripRight(s)[|StripRight(s)| - 1] != '0'
  {
    if s != "" && s[|s| - 1] == '0' {
      var shorter := s[..|s| - 1];
      StripRightKeeps(shorter);
      TimesTen(Number(StripRight(s)), |shorter| - |StripRight(s)|);
      hide Power;
    }
  }

  /** A form as it comes out: zero has one form, other numbers neither leading nor trailing zeros. */
  predicate Canonical(f: Form) {
    f == ZERO || (f.digits != "" && AllDigits(f.digits) && f.digits[0] != '0' && f.digits[|f.digits| - 1] != '0')
  }

  function FormValue(f: Form): real
    requires AllDigits(f.digits)
  {
    Signed(f.negative, Number(f.digits), f.power)
  }

  lemma NumberOfZero()
    ensures Number("0") == 0
  {
    assert "0"[..0] == "";
  }

  lemma SignificantKeepsValue(negative: bool, digits: string, power: int)
    requires AllDigits(digits) && digits != "" && digits[0] != '0'
    ensures var s := StripRight(digits);
      && Canonical(Form(negative, s, power + |digits| - |s|)) && AllDigits(s)
      && Signed(negative, Number(s), power + |digits| - |s|) == Signed(negative, Number(digits), power)
  {
    hide Number, Scale, Power, StripRight;
    var significant := StripRight(digits);
    StripRightKeeps(digits);
    StripRightStops(digits);
    var n := |digits| - |significant|;
    ScaleAdds(power, n);
    RealProduct(Number(significant), Power(n), Scale(power));
  }

  lemma NormalKeepsValue(negative: bool, all: string, power: int)
    requires AllDigits(all)
    ensures Canonical(Normal(negative, all, power)) && AllDigits(Normal(negative, all, power).digits)
    ensures FormValue(Normal(negative, all, power)) == Signed(negative, Number(all), power)
  {
    hide Number, Scale, StripLeft, StripRight;
    StripLeftKeeps(all);
    NumberOfZero();
    var digits := StripLeft(all);
    if digits == "" {
      EmptyIsZero();
      assert 0 as real * Scale(power) == 0.0 && 0 as real * Scale(0) == 0.0;
    } else {
      hide Signed, Canonical;
      SignificantKeepsValue(negative, digits, power);
    }
  }

  lemma RealProduct(a: nat, b: nat, x: real)
    ensures (a * b) as real * x == a as real * (b as real * x)
  {
  }

  lemma EmptyIsZero()
    ensures Number("") == 0
  {
  }

  lemma {:induction false} StripRightStops(s: string)
    requires s != "" && s[0] != '0'
    ensures StripRight(s) != "" && StripRight(s)[0] == s[0]
  {
    if s[|s| - 1] == '0' { StripRightStops(s[..|s| - 1]); }
  }

  // ---------------------------------------------------------------- equal values have equal forms

  lemma {:induction false} NumberIsPositive(s: string)
    requires s != "" && AllDigits(s) && s[0] != '0'
    ensures Number(s) >= 1
  {
    if |s| > 1 { NumberIsPositive(s[..|s| - 1]); }
  }

  /** Without leading zeros a number has one spelling. */
  lemma {:induction false} SpellingIsUnique(a: string, b: string)
    requires AllDigits(a) && AllDigits(b) && a != "" && b != "" && a[0] != '0' && b[0] != '0'
    requires Number(a) == Number(b)
    ensures a == b
  {
    var shortA, shortB := a[..|a| - 1], b[..|b| - 1];
    assert Number(shortA) == Number(shortB) && a[|a| - 1] == b[|b| - 1];
    if |a| > 1 { NumberIsPositive(shortA); }
    if |b| > 1 { NumberIsPositive(shortB); }
    if |a| > 1 && |b| > 1 { SpellingIsUnique(shortA, shortB); }
    assert a == shortA + [a[|a| - 1]] && b == shortB + [b[|b| - 1]];
  }

  lemma LastDigit(s: string)
    requires s != "" && AllDigits(s) && s[|s| - 1] != '0'
    ensures Number(s) % 10 != 0
  {
  }

  lemma SameScale(a: nat, b: nat, p: int, n: nat)
    requires a as real * Scale(p) == b as real * Scale(p + n)
    ensures a == b * Power(n)
  {
    hide Scale, Power;
    ScaleAdds(p, n);
    ScaleIsPositive(p);
    RealProduct(b, Power(n), Scale(p));
    Cancel(a as real, (b * Power(n)) as real, Scale(p));
  }

  /** The digits of two equal numbers do not end at different powers. */
  lemma SamePower(a: string, b: string, p: int, q: int)
    requires AllDigits(a) && AllDigits(b) && a != "" && b != "" && a[|a| - 1] != '0' && p <= q
    requires Number(a) as real * Scale(p) == Number(b) as real * Scale(q)
    ensures p == q && Number(a) == Number(b)
  {
    hide Number, Scale, Power;
    SameScale(Number(a), Number(b), p, q - p);
    hide *;
    LastDigit(a);
    if q > p { TenDivides(Number(b), q - p); }
    PowerOfZero();
  }

  lemma TimesTen(a: nat, n: nat)
    ensures a * Power(n) * 10 == a * Power(n + 1)
  {
    var p := Power(n);
    assert Power(n + 1) == 10 * p;
    hide Power;
  }

  lemma PowerOfZero()
    ensures Power(0) == 1
  {
  }

  lemma TenDivides(n: nat, k: nat)
    requires k > 0
    ensures n * Power(k) % 10 == 0
  {
    assert n * Power(k) == 10 * (n * Power(k - 1));
  }

  lemma Cancel(x: real, y: real, z: real)
    requires z > 0.0 && x * z == y * z
    ensures x == y
  {
    assert (x - y) * z == 0.0;
  }

  lemma SignOfValue(f: Form)
    requires Canonical(f)
    ensures AllDigits(f.digits)
    ensures f == ZERO ==> FormValue(f) == 0.0
    ensures f != ZERO ==> (if f.negative then FormValue(f) < 0.0 else FormValue(f) > 0.0)
  {
    hide Number, Scale;
    NumberOfZero();
    ScaleIsPositive(f.power);
    if f != ZERO { NumberIsPositive(f.digits); }
  }

  lemma FormsOfEqualValues(f: Form, g: Form)
    requires Canonical(f) && Canonical(g) && AllDigits(f.digits) && AllDigits(g.digits) && FormValue(f) == FormValue(g)
    ensures f == g
  {
    hide Number, Scale;
    SignOfValue(f);
    SignOfValue(g);
    if f != ZERO {
      assert f.negative == g.negative;
      assert Number(f.digits) as real * Scale(f.power) == Number(g.digits) as real * Scale(g.power);
      if f.power <= g.power { SamePower(f.digits, g.digits, f.power, g.power); }
      else { SamePower(g.digits, f.digits, g.power, f.power); }
      SpellingIsUnique(f.digits, g.digits);
    }
  }

  /** The form of a token is canonical and denotes what the token denotes. */
  lemma FormKeepsValue(t: Token)
    requires IsToken(t)
    ensures Readable(Render(t)) && Canonical(NormalForm(Render(t))) && AllDigits(NormalForm(Render(t)).digits)
    ensures FormValue(NormalForm(Render(t))) == Value(t)
  {
    hide Number, Scale, Normal, Canonical;
    TokenIsCut(t);
    DigitsOfToken(t);
    NormalKeepsValue(t.negative, t.whole + FractionDigits(t), ExponentValue(t) - |FractionDigits(t)|);
  }

  /** Two tokens get the same form exactly when they denote the same number. */
  lemma FormDecidesValue(a: Token, b: Token)
    requires IsToken(a) && IsToken(b)
    ensures Readable(Render(a)) && Readable(Render(b))
    ensures NormalForm(Render(a)) == NormalForm(Render(b)) <==> Value(a) == Value(b)
  {
    hide Value, NormalForm, Canonical, Render;
    FormKeepsValue(a);
    FormKeepsValue(b);
    if Value(a) == Value(b) { FormsOfEqualValues(NormalForm(Render(a)), NormalForm(Render(b))); }
  }

  /** Every zero, whatever its sign and exponent, gets the one form of zero, and nothing else does. */
  lemma ZeroHasOneForm(t: Token)
    requires IsToken(t)
    ensures Readable(Render(t)) && (NormalForm(Render(t)) == ZERO <==> Value(t) == 0.0)
  {
    hide Value, NormalForm, Canonical, Render;
    FormKeepsValue(t);
    SignOfValue(NormalForm(Render(t)));
  }
}
