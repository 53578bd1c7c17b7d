/** Java's fixed-width integers and their decimal text.

    Ids are Java `long`s, copyright years and paging arguments are Java `int`s.
    Dafny integers are unbounded, so the ranges, the 32-bit wrap-around of `int`
    multiplication, `Long.parseLong` and `Long.toString` are written out here.
    Only ASCII digits are modelled (Java also accepts other Unicode digits).
 */
module Numbers {
  import opened Wrappers

  const MinLong: int := -0x8000_0000_0000_0000
  const MaxLong: int := 0x7fff_ffff_ffff_ffff
  const MinInt: int := -0x8000_0000
  const MaxInt: int := 0x7fff_ffff

  /** A Java `int` (and the value of an `Integer`). */
  type Int32 = x: int | -0x8000_0000 <= x <= 0x7fff_ffff

  predicate InLongRange(n: int) {
    MinLong <= n <= MaxLong
  }

  /** The result of a Java `int` operation whose exact value is `x`:
      two's-complement wrap-around to 32 bits. */
  function WrapInt(x: int): (r: Int32)
    ensures (r - x) % 0x1_0000_0000 == 0
    ensures MinInt <= x <= MaxInt ==> r == x
  {
    var m := x % 0x1_0000_0000;
    if m <= MaxInt then m else m - 0x1_0000_0000
  }

  predicate IsDigit(c: char) {
    '0' <= c <= '9'
  }

  predicate IsSign(c: char) {
    c == '-' || c == '+'
  }

  predicate AllDigits(s: string) {
    forall i :: 0 <= i < |s| ==> IsDigit(s[i])
  }

  /** What `Long.parseLong` accepts before the range check: an optional sign
      followed by at least one digit. */
  ghost predicate LongSyntax(s: string) {
    && |s| > 0
    && (forall i :: 0 <= i < |s| ==> IsDigit(s[i]) || (i == 0 && IsSign(s[i])))
    && !(|s| == 1 && IsSign(s[0]))
  }

  /** The value of a string of decimal digits, most significant first. */
  function DigitsValue(s: string): nat
    requires AllDigits(s)
  {
    if |s| == 0 then 0
    else 10 * DigitsValue(s[..|s| - 1]) + ((s[|s| - 1] as int) - ('0' as int))
  }

  /** Decimal digits in canonical form: at least one digit, and no leading
      zero unless the number is zero itself. */
  predicate Canonical(s: string) {
    |s| > 0 && AllDigits(s) && (|s| > 1 ==> s[0] != '0')
  }

  /** The shortest decimal digits of `n`. */
  function NatToDigits(n: nat): (s: string)
    ensures Canonical(s)
    ensures DigitsValue(s) == n
    ensures n > 0 ==> s[0] != '0'
  {
    var d := (('0' as int) + n % 10) as char;
    if n < 10 then [d]
    else
      var prefix := NatToDigits(n / 10);
      assert (prefix + [d])[..|prefix|] == prefix;
      prefix + [d]
  }

  /** `Long.toString(n)`, also what Java's string concatenation prints for a `Long`. */
  function LongToString(n: int): (s: string)
    ensures |s| > 0
    ensures IsSign(s[0]) <==> n < 0
    ensures n < 0 ==> s[0] == '-' && Canonical(s[1..]) && DigitsValue(s[1..]) == -n
    ensures n < 0 ==> s[1] != '0'
    ensures n >= 0 ==> Canonical(s) && DigitsValue(s) == n
  {
    if n < 0 then
      var digits := NatToDigits(-n);
      assert ("-" + digits)[1..] == digits;
      "-" + digits
    else NatToDigits(n)
  }

  /** The number a signed decimal literal denotes: the value of its digits,
      negated after a minus sign. */
  ghost function LiteralValue(s: string): int
    requires LongSyntax(s)
  {
    var digits := if IsSign(s[0]) then s[1..] else s;
    assert AllDigits(digits) by {
      assert forall i :: 0 <= i < |digits| ==> digits[i] == s[i + |s| - |digits|];
    }
    var magnitude: int := DigitsValue(digits);
    if s[0] == '-' then -magnitude else magnitude
  }

  /** `Long.parseLong(s)`: `None` where Java throws `NumberFormatException`,
      that is, on text that is not a signed decimal literal and on literals
      outside the 64-bit range. */
  function ParseLong(s: string): (r: Option<int>)
    ensures r.Some? <==> LongSyntax(s) && InLongRange(LiteralValue(s))
    ensures r.Some? ==> r.value == LiteralValue(s)
  {
    var literal: Option<int> :=
      if |s| > 1 && IsSign(s[0]) && AllDigits(s[1..]) then
        var magnitude: int := DigitsValue(s[1..]);
        Some(if s[0] == '-' then -magnitude else magnitude)
      else if |s| > 0 && AllDigits(s) then
        Some(DigitsValue(s))
      else
        None;
    assert literal.None? ==> !LongSyntax(s) by {
      if LongSyntax(s) && |s| > 1 && IsSign(s[0]) {
        assert forall i :: 0 <= i < |s| - 1 ==> s[1..][i] == s[i + 1];
      }
    }
    if literal.Some? && InLongRange(literal.value) then literal else None
  }

  /** The parser is more liberal than the printer: leading zeros and a plus
      sign are accepted, so several texts name the same id. */
  lemma ParseLongIsLiberal()
    ensures ParseLong("007") == Some(7)
    ensures ParseLong("+7") == Some(7)
    ensures ParseLong("-0") == Some(0)
    ensures ParseLong("") == None && ParseLong("-") == None && ParseLong("7a") == None
  {
    assert DigitsValue("00") == 0 by {
      assert "00"[..1] == "0";
      assert "0"[..0] == "";
    }
    assert "007"[..2] == "00";
    assert "+7"[1..] == "7" && "-0"[1..] == "0";
    assert "7"[..0] == "" && "0"[..0] == "";
    assert !IsDigit("7a"[1]);
  }

  /** Parsing what `Long.toString` prints gives the number back. */
  lemma {:induction false} ParseLongOfLongToString(n: int)
    requires InLongRange(n)
    ensures ParseLong(LongToString(n)) == Some(n)
  {
    var s := LongToString(n);
    if n < 0 {
      var digits := NatToDigits(-n);
      assert s[1..] == digits;
      assert |s| > 1 && IsSign(s[0]) && AllDigits(s[1..]);
    } else {
      assert !IsSign(s[0]);
    }
  }

  /** Distinct ids print differently, so an id's text names exactly one id. */
  lemma LongToStringInjective(a: int, b: int)
    requires InLongRange(a) && InLongRange(b)
    requires LongToString(a) == LongToString(b)
    ensures a == b
  {
    ParseLongOfLongToString(a);
    ParseLongOfLongToString(b);
  }
}
