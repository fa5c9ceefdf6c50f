/**
 * Component configuration as the client reads it: a dictionary of string
 * property values, converted by the Sling PropertiesUtil helpers.
 */
module OsgiProperties {
  import opened Wrappers
  import opened JavaStrings

  /** A component configuration: property name to value (absent names read as null). */
  type Properties = map<string, string>

  const IntMin: int := -0x8000_0000
  const IntMax: int := 0x7FFF_FFFF

  /** PropertiesUtil.toString(value, default): the value, or the default when it is null. */
  function ToStringProp(config: Properties, key: string, default: JString): (r: JString)
    ensures key in config ==> r == Some(config[key])
    ensures key !in config ==> r == default
  {
    if key in config then Some(config[key]) else default
  }

  /** PropertiesUtil.toInteger(value, default): the parsed value, or the default when the
      value is null or Integer.valueOf rejects it. */
  function ToIntegerProp(config: Properties, key: string, default: int): (r: int)
    ensures key !in config ==> r == default
    ensures key in config && ParseInt(config[key]).None? ==> r == default
    ensures key in config && ParseInt(config[key]).Some? ==> r == ParseInt(config[key]).value
    ensures r == default || IntMin <= r <= IntMax
  {
    if key in config then
      match ParseInt(config[key])
      case Some(n) => n
      case None => default
    else default
  }

  predicate IsDigit(c: char) {
    '0' <= c <= '9'
  }

  predicate AllDigits(ds: string) {
    forall i :: 0 <= i < |ds| ==> IsDigit(ds[i])
  }

  /** The value of a run of decimal digits, most significant first. */
  function DigitsValue(ds: string): nat
    requires AllDigits(ds)
  {
    if ds == [] then 0
    else
      assert IsDigit(ds[|ds| - 1]);
      DigitsValue(ds[..|ds| - 1]) * 10 + (ds[|ds| - 1] as int - '0' as int)
  }

  /** Integer.valueOf(String) on decimal ASCII input: an optional sign, at least one digit,
      and a value within the 32-bit range; None where Java throws NumberFormatException. */
  function ParseInt(s: string): (r: Option<int>)
    ensures r.Some? ==> IntMin <= r.value <= IntMax
  {
    if s == [] then None
    else
      var negative := s[0] == '-';
      var digits := if s[0] == '-' || s[0] == '+' then s[1..] else s;
      if digits == [] || !AllDigits(digits) then None
      else
        var magnitude: int := DigitsValue(digits);
        var n: int := if negative then -magnitude else magnitude;
        if IntMin <= n <= IntMax then Some(n) else None
  }

  /** Integer.toString for a non-negative value. */
  function DecimalDigits(n: nat): (ds: string)
    ensures ds != [] && AllDigits(ds)
  {
    var last := [('0' as int + n % 10) as char];
    if n < 10 then last else DecimalDigits(n / 10) + last
  }

  /** Integer.toString. */
  function Decimal(n: int): string {
    if n < 0 then "-" + DecimalDigits(-n) else DecimalDigits(n)
  }

  lemma {:induction false} DigitsValueOfDecimal(n: nat)
    ensures DigitsValue(DecimalDigits(n)) == n
  {
    var ds := DecimalDigits(n);
    if n >= 10 {
      DigitsValueOfDecimal(n / 10);
      assert ds[..|ds| - 1] == DecimalDigits(n / 10);
    }
  }

  /** Reading back what Integer.toString printed gives the same 32-bit value. */
  lemma ParseIntOfDecimal(n: int)
    requires IntMin <= n <= IntMax
    ensures ParseInt(Decimal(n)) == Some(n)
  {
    var s := Decimal(n);
    if n < 0 {
      DigitsValueOfDecimal(-n);
      assert s[1..] == DecimalDigits(-n);
    } else {
      DigitsValueOfDecimal(n);
      assert s[0] != '-' && s[0] != '+';
    }
  }

  /** A value holding a character that is neither a decimal digit nor a leading sign is not a
      number, and leaves the default in place. */
  lemma NonNumericIntegerPropertyIsDefault(config: Properties, key: string, default: int, i: int)
    requires key in config && 0 <= i < |config[key]| && !IsDigit(config[key][i])
    requires i > 0 || (config[key][0] != '-' && config[key][0] != '+')
    ensures ToIntegerProp(config, key, default) == default
  {
    var s := config[key];
    if s[0] == '-' || s[0] == '+' {
      assert s[1..][i - 1] == s[i];
    } else {
      assert !AllDigits(s);
    }
  }
}
