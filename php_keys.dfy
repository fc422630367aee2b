/**
 * PHP array keys. A PHP array key is an integer or a string, and a string
 * that spells a canonical decimal integer inside the 64-bit range is cast to
 * that integer when it is used as a key: `$a["12"]` and `$a[12]` are the same
 * slot, `$a["012"]`, `$a["-0"]` and `$a["1.5"]` are string keys.
 */
module PhpKeys {
  import opened Wrappers

  datatype Key = IntKey(n: int) | StrKey(s: string)

  const PHP_INT_MAX: int := 0x7FFF_FFFF_FFFF_FFFF
  const PHP_INT_MIN: int := -0x8000_0000_0000_0000

  predicate IsDigit(c: char) {
    '0' <= c <= '9'
  }

  /** Decimal digits without a leading zero (the single digit "0" allowed). */
  predicate IsDecimal(s: string) {
    |s| > 0 && (forall i | 0 <= i < |s| :: IsDigit(s[i])) && (s[0] == '0' ==> |s| == 1)
  }

  function DigitValue(c: char): nat
    requires IsDigit(c)
  {
    (c as int) - ('0' as int)
  }

  function DigitChar(d: nat): (c: char)
    requires d < 10
    ensures IsDigit(c) && DigitValue(c) == d
  {
    (('0' as int) + d) as char
  }

  function DigitsValue(s: string): nat
    requires forall i | 0 <= i < |s| :: IsDigit(s[i])
    decreases |s|
  {
    if |s| == 0 then 0 else DigitsValue(s[..|s| - 1]) * 10 + DigitValue(s[|s| - 1])
  }

  function NatText(n: nat): string
    decreases n
  {
    if n < 10 then [DigitChar(n)] else NatText(n / 10) + [DigitChar(n % 10)]
  }

  function IntText(n: int): string {
    if n < 0 then "-" + NatText(-n) else NatText(n)
  }

  /** The integer that the string `s` is cast to as an array key, if any. */
  function IntegerKey(s: string): Option<int> {
    if |s| > 1 && s[0] == '-' && IsDecimal(s[1..]) && s[1..] != "0" then
      var n: int := -(DigitsValue(s[1..]) as int);
      if PHP_INT_MIN <= n then Some(n) else None
    else if IsDecimal(s) then
      var n := DigitsValue(s);
      if n <= PHP_INT_MAX then Some(n) else None
    else
      None
  }

  /** The array key a path segment (always a string) addresses. */
  function KeyOf(s: string): (k: Key)
    ensures k.StrKey? ==> k.s == s
    ensures k.IntKey? ==> PHP_INT_MIN <= k.n <= PHP_INT_MAX
  {
    match IntegerKey(s)
    case Some(n) => IntKey(n)
    case None => StrKey(s)
  }

  /** A key a PHP array can hold: a string key is one that the cast leaves a
      string, so text such as "12" is only ever held as the integer key 12. */
  predicate CanonicalKey(k: Key) {
    k.StrKey? ==> KeyOf(k.s) == k
  }

  /** Every key a path segment addresses is one a PHP array can hold. */
  lemma KeyOfCanonical(s: string)
    ensures CanonicalKey(KeyOf(s))
  {
  }

  /** The text "12" is the integer key 12, so no PHP array holds the string key "12". */
  lemma DigitTextIsIntKey()
    ensures KeyOf("12") == IntKey(12) && !CanonicalKey(StrKey("12"))
  {
    var s := "12";
    assert IsDecimal(s);
    assert s[..1] == "1" && "1"[..0] == [];
    assert DigitsValue(s) == 12;
  }

  /** How a key reads back as text (as `json_encode` and string interpolation render it). */
  function KeyText(k: Key): string {
    match k
    case IntKey(n) => IntText(n)
    case StrKey(s) => s
  }

  lemma {:induction false} NatTextDecimal(n: nat)
    ensures IsDecimal(NatText(n)) && DigitsValue(NatText(n)) == n
    ensures n > 0 ==> NatText(n)[0] != '0'
    decreases n
  {
    if n >= 10 {
      NatTextDecimal(n / 10);
      var init := NatText(n / 10);
      var s := NatText(n);
      assert s == init + [DigitChar(n % 10)];
      assert s[..|s| - 1] == init;
    }
  }

  lemma {:induction false} DecimalPositive(s: string)
    requires IsDecimal(s) && s[0] != '0'
    ensures DigitsValue(s) >= 1
    decreases |s|
  {
    if |s| > 1 {
      DecimalPositive(s[..|s| - 1]);
    }
  }

  lemma {:induction false} DecimalRoundTrip(s: string)
    requires IsDecimal(s)
    ensures NatText(DigitsValue(s)) == s
    decreases |s|
  {
    if |s| > 1 {
      var init := s[..|s| - 1];
      assert IsDecimal(init);
      DecimalPositive(init);
      DecimalRoundTrip(init);
      assert s == init + [s[|s| - 1]];
    }
  }

  /** Casting a segment to a key and printing the key back gives the segment. */
  lemma {:induction false} KeyTextOfKeyOf(s: string)
    ensures KeyText(KeyOf(s)) == s
  {
    if KeyOf(s).IntKey? {
      if |s| > 1 && s[0] == '-' && IsDecimal(s[1..]) && s[1..] != "0" {
        DecimalRoundTrip(s[1..]);
        assert s == "-" + s[1..];
      } else {
        DecimalRoundTrip(s);
      }
    }
  }

  /** Every integer in PHP's range is addressed by its own decimal text. */
  lemma {:induction false} KeyOfIntText(n: int)
    requires PHP_INT_MIN <= n <= PHP_INT_MAX
    ensures KeyOf(IntText(n)) == IntKey(n)
  {
    if n < 0 {
      NatTextDecimal(-n);
      var s := IntText(n);
      assert s[1..] == NatText(-n);
    } else {
      NatTextDecimal(n);
    }
  }
}
