/**
 * A key/value settings table (`MyProperties`): the lookup, default, parse, remove and
 * bean-filling accessors over a table of strings.
 */
module SettingDialect {
  import opened Wrappers
  import opened Sequences

  // ---------------------------------------------------------------- blank text

  /** The characters `StringUtils.isBlank` treats as blank: Java's whitespace and space
      characters, the byte order mark, the left-to-right embedding mark and NUL. */
  predicate IsBlankChar(c: char)
  {
    c == ' ' || c == '\t' || c == '\n' || c == '\U{000B}' || c == '\U{000C}' || c == '\r'
    || ('\U{001C}' <= c <= '\U{001F}') || c == '\U{00A0}' || c == '\U{1680}'
    || ('\U{2000}' <= c <= '\U{200A}') || c == '\U{2028}' || c == '\U{2029}' || c == '\U{202F}'
    || c == '\U{205F}' || c == '\U{3000}' || c == '\U{FEFF}' || c == '\U{202A}' || c == '\0'
  }

  /** `StringUtils.isBlank`: missing, empty, or blank characters only. */
  predicate IsBlank(s: Option<string>)
  {
    s.None? || forall k :: 0 <= k < |s.value| ==> IsBlankChar(s.value[k])
  }

  // ---------------------------------------------------------------- decimal digits

  predicate IsDigit(c: char)
  {
    '0' <= c <= '9'
  }

  predicate AllDigits(s: string)
  {
    forall k :: 0 <= k < |s| ==> IsDigit(s[k])
  }

  /** The value of a run of decimal digits, most significant first. */
  function DigitsValue(s: string): nat
    requires AllDigits(s)
  {
    if s == [] then 0 else 10 * DigitsValue(s[..|s| - 1]) + (s[|s| - 1] as int - '0' as int)
  }

  /** The decimal digits of `n`, without leading zeros. */
  function NatText(n: nat): (t: string)
    ensures |t| > 0 && AllDigits(t)
  {
    var d := ['0' + (n % 10) as char];
    if n < 10 then d else NatText(n / 10) + d
  }

  /** `BigInteger.toString()`: an optional minus sign and the digits. */
  function IntText(n: int): string
  {
    if n < 0 then "-" + NatText(-n) else NatText(n)
  }

  lemma {:induction false} NatTextValue(n: nat)
    ensures DigitsValue(NatText(n)) == n
    decreases n
  {
    var d := ['0' + (n % 10) as char];
    if n >= 10 {
      var t := NatText(n / 10);
      NatTextValue(n / 10);
      assert (t + d)[..|t + d| - 1] == t;
    }
  }

  /** Leading zeros do not change the value of a run of digits. */
  lemma {:induction false} LeadingZeros(z: string, s: string)
    requires forall k :: 0 <= k < |z| ==> z[k] == '0'
    requires AllDigits(s)
    ensures AllDigits(z + s) && DigitsValue(z + s) == DigitsValue(s)
    decreases |s|
  {
    if s == [] {
      assert z + s == z;
      ZerosValue(z);
    } else {
      var s' := s[..|s| - 1];
      LeadingZeros(z, s');
      assert (z + s)[..|z + s| - 1] == z + s';
    }
  }

  lemma {:induction false} ZerosValue(z: string)
    requires forall k :: 0 <= k < |z| ==> z[k] == '0'
    ensures AllDigits(z) && DigitsValue(z) == 0
    decreases |z|
  {
    if z != [] {
      ZerosValue(z[..|z| - 1]);
    }
  }

  // ---------------------------------------------------------------- parsing numbers

  /** The sign of a number's text and the text after it. */
  function SplitSign(s: string): (int, string)
  {
    if |s| > 0 && s[0] == '-' then (-1, s[1..])
    else if |s| > 0 && s[0] == '+' then (1, s[1..])
    else (1, s)
  }

  /** `new BigInteger(s)`: an optional sign and at least one decimal digit, nothing else;
      None where the constructor throws `NumberFormatException`. */
  function ParseInteger(s: string): (r: Option<int>)
    ensures r.Some? ==> |s| > 0
  {
    var (sign, digits) := SplitSign(s);
    if |digits| > 0 && AllDigits(digits) then Some(sign * DigitsValue(digits)) else None
  }

  /** `BigInteger.toString()` reads back as the same number. */
  lemma ParseIntegerText(n: int)
    ensures ParseInteger(IntText(n)) == Some(n)
  {
    var t := NatText(if n < 0 then -n else n);
    assert |t| > 0 && AllDigits(t) && DigitsValue(t) == if n < 0 then -n else n by {
      NatTextValue(if n < 0 then -n else n);
    }
    if n < 0 {
      assert SplitSign("-" + t) == (-1, t) by {
        assert ("-" + t)[1..] == t;
      }
    } else {
      assert t[0] != '-' && t[0] != '+';
      assert SplitSign(t) == (1, t);
    }
  }

  /** A `BigDecimal`: the value `unscaled * 10^-scale`. Two decimals with the same value and
      different scales differ, as with `BigDecimal.equals`. */
  datatype Decimal = Decimal(unscaled: int, scale: int)

  const INT_MIN: int := -0x8000_0000
  const INT_MAX: int := 0x7FFF_FFFF

  /** The position of the first `c1` or `c2` in `s`, or `|s|`. */
  function IndexOf(s: string, c1: char, c2: char): (i: nat)
    ensures i <= |s|
    ensures i < |s| ==> s[i] == c1 || s[i] == c2
    ensures forall k :: 0 <= k < i ==> s[k] != c1 && s[k] != c2
  {
    IndexFrom(s, c1, c2, 0)
  }

  /** The position of the first `c1` or `c2` in `s` at or after `from`, or `|s|`. */
  function IndexFrom(s: string, c1: char, c2: char, from: nat): (i: nat)
    requires from <= |s|
    ensures from <= i <= |s|
    ensures i < |s| ==> s[i] == c1 || s[i] == c2
    ensures forall k :: from <= k < i ==> s[k] != c1 && s[k] != c2
    decreases |s| - from
  {
    if from == |s| then |s|
    else if s[from] == c1 || s[from] == c2 then from
    else IndexFrom(s, c1, c2, from + 1)
  }

  /** The digits before the exponent: at most one `.` and at least one digit. The value of
      all the digits and the number of them after the point. */
  function ParseMantissa(m: string): Option<(nat, nat)>
  {
    var dot := IndexOf(m, '.', '.');
    var intPart := m[..dot];
    var fracPart := if dot < |m| then m[dot + 1..] else [];
    if AllDigits(intPart) && AllDigits(fracPart) && |intPart| + |fracPart| > 0
    then Some((DigitsValue(intPart + fracPart), |fracPart|))
    else None
  }

  /** An unsigned `BigDecimal` text: a mantissa, then optionally `e` or `E` and a signed
      exponent that must fit a Java `int` ("Exponent overflow" otherwise); the scale is the
      number of digits after the point minus the exponent and must fit a Java `int` too. */
  function ParseUnsignedDecimal(body: string): (r: Option<Decimal>)
    ensures r.Some? ==> r.value.unscaled >= 0 && INT_MIN <= r.value.scale <= INT_MAX
  {
    var e := IndexOf(body, 'e', 'E');
    var exponent := if e < |body| then ParseInteger(body[e + 1..]) else Some(0);
    match ParseMantissa(body[..e])
    case None => None
    case Some(m) => Scaled(m.0, m.1, exponent)
  }

  /** The decimal with the given digits, `fraction` digits after the point and the given
      exponent; None when the exponent is missing or either it or the scale overflows an `int`. */
  function Scaled(digits: nat, fraction: nat, exponent: Option<int>): (r: Option<Decimal>)
    ensures r.Some? ==> r.value.unscaled >= 0 && INT_MIN <= r.value.scale <= INT_MAX
  {
    if exponent.None? || exponent.value < INT_MIN || exponent.value > INT_MAX then None
    else if fraction - exponent.value < INT_MIN || fraction - exponent.value > INT_MAX then None
    else Some(Decimal(digits, fraction - exponent.value))
  }

  /** `new BigDecimal(s)`: an optional sign before an unsigned decimal text. */
  function ParseDecimal(s: string): (r: Option<Decimal>)
    ensures r.Some? ==> INT_MIN <= r.value.scale <= INT_MAX
  {
    var (sign, body) := SplitSign(s);
    match ParseUnsignedDecimal(body)
    case None => None
    case Some(x) => Some(Decimal(sign * x.unscaled, x.scale))
  }

  /** An exponent beyond a Java `int` is rejected whatever the mantissa, even where the
      scale it gives would fit (`1e2147483648` would have the scale `INT_MIN`). */
  lemma ExponentOverflow(m: string, t: string)
    requires ParseMantissa(m).Some?
    requires ParseInteger(t).Some? && (ParseInteger(t).value < INT_MIN || ParseInteger(t).value > INT_MAX)
    ensures ParseDecimal(m + "e" + t).None?
  {
    var s := m + "e" + t;
    MantissaChars(m);
    assert s[0] == m[0];
    assert SplitSign(s) == (1, s);
    assert IndexOf(s, 'e', 'E') == |m| by {
      assert s[|m|] == 'e';
      assert forall k :: 0 <= k < |m| ==> s[k] == m[k];
    }
    assert s[..|m|] == m && s[|m| + 1..] == t;
  }

  /** A mantissa is not empty and holds only digits and points. */
  lemma MantissaChars(m: string)
    requires ParseMantissa(m).Some?
    ensures |m| > 0 && forall k :: 0 <= k < |m| ==> IsDigit(m[k]) || m[k] == '.'
  {
    var dot := IndexOf(m, '.', '.');
    forall k | 0 <= k < |m| ensures IsDigit(m[k]) || m[k] == '.' {
      if k < dot {
        assert m[k] == m[..dot][k];
      } else if k > dot {
        assert m[k] == m[dot + 1..][k - dot - 1];
      }
    }
  }

  /** `n` zeros. */
  function Zeros(n: nat): (z: string)
    ensures |z| == n && forall k :: 0 <= k < n ==> z[k] == '0'
  {
    if n == 0 then [] else Zeros(n - 1) + ['0']
  }

  function Abs(n: int): nat
  {
    if n < 0 then -n else n
  }

  /** The digits of a decimal's unscaled value, zero-padded in front to more than `scale`. */
  function Padded(d: Decimal): (r: string)
    requires d.scale >= 0
    ensures |r| > d.scale
  {
    var digits := NatText(Abs(d.unscaled));
    if |digits| <= d.scale then Zeros(d.scale + 1 - |digits|) + digits else digits
  }

  /** `BigDecimal.toPlainString()` for a scale of zero or more: the padded digits with a
      point before the last `scale` of them. */
  function PlainText(d: Decimal): string
    requires d.scale >= 0
  {
    var text := PointText(Padded(d), d.scale);
    if d.unscaled < 0 then "-" + text else text
  }

  /** Digits with a point before the last `scale` of them; no point for a scale of zero. */
  function PointText(digits: string, scale: nat): string
    requires |digits| > scale
  {
    if scale == 0 then digits else digits[..|digits| - scale] + "." + digits[|digits| - scale..]
  }

  /** The padded digits are digits, longer than the scale, with the unscaled magnitude. */
  lemma PaddedValue(d: Decimal)
    requires d.scale >= 0
    ensures AllDigits(Padded(d)) && |Padded(d)| > d.scale
    ensures DigitsValue(Padded(d)) == Abs(d.unscaled)
  {
    var digits := NatText(Abs(d.unscaled));
    NatTextValue(Abs(d.unscaled));
    if |digits| <= d.scale {
      LeadingZeros(Zeros(d.scale + 1 - |digits|), digits);
    }
  }

  /** Text of digits and points holds no exponent mark. */
  lemma PlainNoExponent(t: string)
    requires forall k :: 0 <= k < |t| ==> IsDigit(t[k]) || t[k] == '.'
    ensures IndexOf(t, 'e', 'E') == |t|
  {
  }

  lemma PlainNoDot(t: string)
    requires AllDigits(t)
    ensures IndexOf(t, '.', '.') == |t|
  {
  }

  lemma DotAt(ip: string, fp: string)
    requires AllDigits(ip)
    ensures IndexOf(ip + "." + fp, '.', '.') == |ip|
  {
    var t := ip + "." + fp;
    assert t[|ip|] == '.';
  }

  /** A mantissa of digits, a point and digits. */
  lemma MantissaPointed(ip: string, fp: string)
    requires AllDigits(ip) && AllDigits(fp) && |ip| > 0
    ensures AllDigits(ip + fp)
    ensures ParseMantissa(ip + "." + fp) == Some((DigitsValue(ip + fp), |fp|))
  {
    var m := ip + "." + fp;
    DotAt(ip, fp);
    assert m[..|ip|] == ip && m[|ip| + 1..] == fp;
  }

  /** A mantissa of digits only. */
  lemma MantissaWhole(t: string)
    requires AllDigits(t) && |t| > 0
    ensures ParseMantissa(t) == Some((DigitsValue(t), 0))
  {
    PlainNoDot(t);
    assert t[..|t|] == t && t + [] == t;
  }

  /** Unsigned text without an exponent is its mantissa, with a scale of its fraction. */
  lemma ParseUnsigned(text: string, value: nat, fraction: nat)
    requires IndexOf(text, 'e', 'E') == |text|
    requires ParseMantissa(text) == Some((value, fraction)) && fraction <= INT_MAX
    ensures ParseUnsignedDecimal(text) == Some(Decimal(value, fraction))
  {
    var e := IndexOf(text, 'e', 'E');
    assert text[..e] == text;
    assert Scaled(value, fraction, Some(0)) == Some(Decimal(value, fraction));
  }

  /** Digits, a point and digits hold nothing but digits and points. */
  lemma PointedChars(ip: string, fp: string)
    requires AllDigits(ip) && AllDigits(fp)
    ensures var t := ip + "." + fp; forall k :: 0 <= k < |t| ==> IsDigit(t[k]) || t[k] == '.'
  {
    var t := ip + "." + fp;
    forall k | 0 <= k < |t| ensures IsDigit(t[k]) || t[k] == '.' {
      if k < |ip| {
        assert t[k] == ip[k];
      } else if k > |ip| {
        assert t[k] == fp[k - |ip| - 1];
      }
    }
  }

  /** Unsigned whole-number text reads back with a scale of zero. */
  lemma ParseUnsignedWhole(padded: string)
    requires AllDigits(padded) && |padded| > 0
    ensures ParseUnsignedDecimal(padded) == Some(Decimal(DigitsValue(padded), 0))
  {
    MantissaWhole(padded);
    PlainNoExponent(padded);
    ParseUnsigned(padded, DigitsValue(padded), 0);
  }

  /** Digits cut in two are two runs of digits that join up again. */
  lemma SplitDigits(s: string, n: nat)
    requires AllDigits(s) && n <= |s|
    ensures AllDigits(s[..n]) && AllDigits(s[n..]) && s[..n] + s[n..] == s
  {
  }

  /** Digits, a point and digits hold no exponent mark. */
  lemma PointedNoExponent(ip: string, fp: string)
    requires AllDigits(ip) && AllDigits(fp)
    ensures IndexOf(ip + "." + fp, 'e', 'E') == |ip| + |fp| + 1
  {
    PointedChars(ip, fp);
    PlainNoExponent(ip + "." + fp);
  }

  /** Digits, a point and digits read back as the value of all the digits, scaled by the
      number of digits after the point. */
  lemma ParsePointed(ip: string, fp: string)
    requires AllDigits(ip) && AllDigits(fp) && |ip| > 0 && |fp| <= INT_MAX
    ensures AllDigits(ip + fp)
    ensures ParseUnsignedDecimal(ip + "." + fp) == Some(Decimal(DigitsValue(ip + fp), |fp|))
  {
    PointedNoExponent(ip, fp);
    MantissaPointed(ip, fp);
    ParseUnsigned(ip + "." + fp, DigitsValue(ip + fp), |fp|);
  }

  /** The point goes before the last `scale` digits. */
  lemma PointTextCut(digits: string, scale: nat)
    requires 0 < scale < |digits|
    ensures PointText(digits, scale) == digits[..|digits| - scale] + "." + digits[|digits| - scale..]
  {
  }

  /** Digits with a point before the last `scale` of them read back as their value, with
      that scale. */
  lemma ParseCut(padded: string, scale: nat)
    requires AllDigits(padded) && 0 < scale < |padded| && scale <= INT_MAX
    ensures ParseUnsignedDecimal(PointText(padded, scale)) == Some(Decimal(DigitsValue(padded), scale))
  {
    var n := |padded| - scale;
    var ip, fp := padded[..n], padded[n..];
    SplitDigits(padded, n);
    PointTextCut(padded, scale);
    ParsePointed(ip, fp);
    assert ip + fp == padded;
  }

  /** Unsigned plain text reads back as its digits' value with the given scale. */
  lemma ParseUnsignedPlain(padded: string, scale: nat)
    requires AllDigits(padded) && |padded| > scale && scale <= INT_MAX
    ensures ParseUnsignedDecimal(PointText(padded, scale)) == Some(Decimal(DigitsValue(padded), scale))
  {
    if scale == 0 {
      assert PointText(padded, scale) == padded;
      ParseUnsignedWhole(padded);
    } else {
      ParseCut(padded, scale);
    }
  }

  /** `BigDecimal.toPlainString()` reads back as the same decimal, scale included. */
  lemma ParseDecimalPlain(d: Decimal)
    requires 0 <= d.scale <= INT_MAX
    ensures ParseDecimal(PlainText(d)) == Some(d)
  {
    PaddedValue(d);
    var padded := Padded(d);
    var text := PointText(padded, d.scale);
    var x := Decimal(Abs(d.unscaled), d.scale);
    ParseUnsignedPlain(padded, d.scale);
    assert ParseUnsignedDecimal(text) == Some(x);
    assert text[0] == padded[0] && IsDigit(padded[0]);
    if d.unscaled < 0 {
      assert ("-" + text)[1..] == text;
      assert SplitSign("-" + text) == (-1, text);
      SignedDecimal("-" + text, -1, text, x);
      assert -1 * x.unscaled == d.unscaled;
    } else {
      assert SplitSign(text) == (1, text);
      SignedDecimal(text, 1, text, x);
    }
  }

  /** A sign split off and an unsigned decimal after it make a signed decimal. */
  lemma SignedDecimal(s: string, sign: int, body: string, x: Decimal)
    requires SplitSign(s) == (sign, body) && ParseUnsignedDecimal(body) == Some(x)
    ensures ParseDecimal(s) == Some(Decimal(sign * x.unscaled, x.scale))
  {
  }

  // ---------------------------------------------------------------- key selection of fillBean

  /** The prefix `fillBean` compares keys with: none becomes empty, and a non-empty prefix
      gains a trailing `.` unless it has one. */
  function NormalizePrefix(prefix: Option<string>): (r: string)
    ensures prefix.None? ==> r == ""
    ensures r == "" || r[|r| - 1] == '.'
    ensures prefix.Some? ==> prefix.value <= r && |r| <= |prefix.value| + 1
    ensures prefix.Some? && (prefix.value == "" || prefix.value[|prefix.value| - 1] == '.') ==> r == prefix.value
  {
    match prefix
    case None => ""
    case Some(p) => if p == [] || p[|p| - 1] == '.' then p else p + "."
  }

  /** Normalizing twice is normalizing once. */
  lemma NormalizeIdempotent(prefix: Option<string>)
    ensures NormalizePrefix(Some(NormalizePrefix(prefix))) == NormalizePrefix(prefix)
  {
  }

  /** The keys `fillBean` passes on: those that start with the prefix. */
  function Selected(table: map<string, string>, prefix: string): (ks: set<string>)
    ensures forall k :: k in ks <==> k in table && prefix <= k
  {
    set k | k in table && prefix <= k
  }

  /** The bean after one attempted write; a write that throws leaves the bean as it was. */
  function Attempt<T>(bean: T, key: string, table: map<string, string>, prefix: string,
                      setProperty: (T, string, string) -> Option<T>): T
    requires key in table && prefix <= key
  {
    match setProperty(bean, key[|prefix|..], table[key])
    case Some(b) => b
    case None => bean
  }

  /** The bean after the writes for `keys` in their order, a failed write skipped. */
  function Writes<T>(bean: T, keys: seq<string>, table: map<string, string>, prefix: string,
                     setProperty: (T, string, string) -> Option<T>): T
    requires forall i :: 0 <= i < |keys| ==> keys[i] in table && prefix <= keys[i]
  {
    if keys == [] then bean
    else Attempt(Writes(bean, keys[..|keys| - 1], table, prefix, setProperty), keys[|keys| - 1], table, prefix, setProperty)
  }

  /** The name a selected key is written under is the key without the prefix. */
  lemma StrippedName(key: string, prefix: string)
    requires prefix <= key
    ensures prefix + key[|prefix|..] == key
  {
  }

  /** The writes all fail: the bean comes back unchanged, whatever the keys. */
  lemma {:induction false} WritesAllFail<T>(bean: T, keys: seq<string>, table: map<string, string>, prefix: string,
                                            setProperty: (T, string, string) -> Option<T>)
    requires forall i :: 0 <= i < |keys| ==> keys[i] in table && prefix <= keys[i]
    requires forall b: T, name: string, value: string :: setProperty(b, name, value).None?
    ensures Writes(bean, keys, table, prefix, setProperty) == bean
    decreases |keys|
  {
    if keys != [] {
      WritesAllFail(bean, keys[..|keys| - 1], table, prefix, setProperty);
    }
  }

  /** A failing write does not stop the ones after it: the writes after a failed one act
      on the bean as it stood before it. */
  lemma {:induction false} WritesSkipFailure<T>(bean: T, keys: seq<string>, k: string, rest: seq<string>,
                                               table: map<string, string>, prefix: string,
                                               setProperty: (T, string, string) -> Option<T>)
    requires forall i :: 0 <= i < |keys| ==> keys[i] in table && prefix <= keys[i]
    requires forall i :: 0 <= i < |rest| ==> rest[i] in table && prefix <= rest[i]
    requires k in table && prefix <= k
    requires setProperty(Writes(bean, keys, table, prefix, setProperty), k[|prefix|..], table[k]).None?
    ensures Writes(bean, keys + [k] + rest, table, prefix, setProperty) == Writes(bean, keys + rest, table, prefix, setProperty)
    decreases |rest|
  {
    if rest == [] {
      assert keys + [k] + rest == keys + [k];
      assert (keys + [k])[..|keys|] == keys;
      assert keys + rest == keys;
    } else {
      var r := rest[..|rest| - 1];
      WritesSkipFailure(bean, keys, k, r, table, prefix, setProperty);
      assert (keys + [k] + rest)[..|keys + [k] + rest| - 1] == keys + [k] + r;
      assert (keys + rest)[..|keys + rest| - 1] == keys + r;
    }
  }

  // ---------------------------------------------------------------- getAndRemoveStr's search

  /** The position of the first of `keys` that `table` holds, if any. */
  function FirstHit(keys: seq<string>, table: map<string, string>): (r: Option<nat>)
    ensures r.Some? ==> r.value < |keys| && keys[r.value] in table
    ensures r.Some? ==> forall j :: 0 <= j < r.value ==> keys[j] !in table
    ensures r.None? <==> forall j :: 0 <= j < |keys| ==> keys[j] !in table
  {
    if keys == [] then None
    else if keys[0] in table then Some(0)
    else match FirstHit(keys[1..], table)
      case None => None
      case Some(j) => Some(j + 1)
  }

  // ---------------------------------------------------------------- the table

  class MyProperties {
    /** The properties table: every key and value set through this class is a string. */
    var table: map<string, string>

    /** `getString(key, defaultValue)`, which is `Properties.getProperty(key, defaultValue)`:
        the stored value, or the default when the key is absent. */
    function GetString(key: string, defaultValue: Option<string>): (r: Option<string>)
      reads this
      ensures key in table ==> r == Some(table[key])
      ensures key !in table ==> r == defaultValue
    {
      if key in table then Some(table[key]) else defaultValue
    }

    /** `getObject(key, defaultValue)`: `getString` with the default's `toString()`. */
    function GetObject<T>(key: string, defaultValue: Option<T>, toString: T -> string): (r: Option<string>)
      reads this
      ensures key in table ==> r == Some(table[key])
      ensures key !in table && defaultValue.None? ==> r.None?
      ensures key !in table && defaultValue.Some? ==> r == Some(toString(defaultValue.value))
    {
      GetString(key, if defaultValue.None? then None else Some(toString(defaultValue.value)))
    }

    /** `getChar(key, defaultValue)`: the first character of the stored value, or the
        default when the value is missing or blank. */
    function GetChar(key: string, defaultValue: Option<char>): (r: Option<char>)
      reads this
      ensures key in table && !IsBlank(Some(table[key])) ==> |table[key]| > 0 && r == Some(table[key][0])
      ensures key !in table || IsBlank(Some(table[key])) ==> r == defaultValue
    {
      var value := GetString(key, None);
      if IsBlank(value) then defaultValue else Some(value.value[0])
    }

    /** `getBigDecimal(key, defaultValue)`: the stored value parsed as a `BigDecimal` by
        `parse` (None where `new BigDecimal` throws; `ParseDecimal` is that constructor's
        grammar), or the default when the value is missing, blank or not a number. */
    function GetBigDecimal(key: string, defaultValue: Option<Decimal>, parse: string -> Option<Decimal>): (r: Option<Decimal>)
      reads this
      ensures key in table && !IsBlank(Some(table[key])) && parse(table[key]).Some? ==> r == parse(table[key])
      ensures key !in table || IsBlank(Some(table[key])) || parse(table[key]).None? ==> r == defaultValue
    {
      var valueStr := GetString(key, None);
      if IsBlank(valueStr) then defaultValue
      else match parse(valueStr.value)
        case Some(d) => Some(d)
        case None => defaultValue
    }

    /** `getBigInteger(key, defaultValue)`: the stored value parsed as a `BigInteger` by
        `parse` (None where `new BigInteger` throws; `ParseInteger` is that constructor's
        grammar), or the default when the value is missing, blank or not an integer. */
    function GetBigInteger(key: string, defaultValue: Option<int>, parse: string -> Option<int>): (r: Option<int>)
      reads this
      ensures key in table && !IsBlank(Some(table[key])) && parse(table[key]).Some? ==> r == parse(table[key])
      ensures key !in table || IsBlank(Some(table[key])) || parse(table[key]).None? ==> r == defaultValue
    {
      var valueStr := GetString(key, None);
      if IsBlank(valueStr) then defaultValue
      else match parse(valueStr.value)
        case Some(n) => Some(n)
        case None => defaultValue
    }

    /** `getAndRemoveStr(keys...)`: remove the keys in turn until one of them held a value,
        and return that value; the keys after it stay. */
    method GetAndRemoveStr(keys: seq<string>) returns (value: Option<string>)
      modifies this
      ensures FirstHit(keys, old(table)).None? ==> value.None? && table == old(table)
      ensures FirstHit(keys, old(table)).Some? ==>
        var hit := keys[FirstHit(keys, old(table)).value];
        value == Some(old(table)[hit]) && table == old(table) - {hit}
    {
      value := None;
      var i := 0;
      while i < |keys|
        invariant 0 <= i <= |keys|
        invariant forall j :: 0 <= j < i ==> keys[j] !in old(table)
        invariant table == old(table) && value.None?
      {
        var key := keys[i];
        value := if key in table then Some(table[key]) else None;
        if value.None? {
          assert table - {key} == table;
        }
        table := table - {key};
        if value.Some? {
          break;
        }
        i := i + 1;
      }
    }

    /** `setProperty(key, value)`: store the value's `toString()` under the key. */
    method SetProperty<T>(key: string, value: T, toString: T -> string)
      modifies this
      ensures table == old(table)[key := toString(value)]
      ensures forall d :: GetString(key, d) == Some(toString(value))
      ensures forall other, d :: other != key ==>
        GetString(other, d) == if other in old(table) then Some(old(table)[other]) else d
    {
      table := table[key := toString(value)];
    }

    /** `fillBean(bean, prefix)`: pass every key that starts with the normalized prefix,
        without the prefix, with its value to `setProperty`, in the table's iteration order
        (left open: `order`); `writes` lists the names and values passed, and a write that
        throws is skipped while the loop goes on. */
    method FillBean<T>(bean: T, prefix: Option<string>, setProperty: (T, string, string) -> Option<T>)
      returns (result: T, writes: seq<(string, string)>, ghost order: seq<string>)
      ensures Distinct(order)
      ensures forall k :: k in order <==> k in Selected(table, NormalizePrefix(prefix))
      ensures forall i :: 0 <= i < |order| ==> order[i] in table && NormalizePrefix(prefix) <= order[i]
      ensures |writes| == |order|
      ensures forall i :: 0 <= i < |order| ==>
        NormalizePrefix(prefix) + writes[i].0 == order[i] && writes[i].1 == table[order[i]]
      ensures result == Writes(bean, order, table, NormalizePrefix(prefix), setProperty)
      ensures forall i :: 0 <= i < |writes| ==>
        var key := NormalizePrefix(prefix) + writes[i].0;
        key in table && table[key] == writes[i].1
    {
      var p := NormalizePrefix(prefix);
      var remaining := table.Keys;
      result := bean;
      writes := [];
      order := [];
      while remaining != {}
        invariant remaining <= table.Keys
        invariant Distinct(order)
        invariant forall k :: k in order ==> k !in remaining
        invariant forall k :: k in order <==> k in Selected(table, p) && k !in remaining
        invariant forall i :: 0 <= i < |order| ==> order[i] in table && p <= order[i]
        invariant |writes| == |order|
        invariant forall i :: 0 <= i < |order| ==> p + writes[i].0 == order[i] && writes[i].1 == table[order[i]]
        invariant result == Writes(bean, order, table, p, setProperty)
        decreases remaining
      {
        var key :| key in remaining;
        remaining := remaining - {key};
        if !(p <= key) {
          continue;
        }
        var name := key[|p|..];
        StrippedName(key, p);
        assert (order + [key])[..|order|] == order;
        result := Attempt(result, key, table, p, setProperty);
        writes := writes + [(name, table[key])];
        order := order + [key];
      }
    }
  }

  /** An integer stored in its `toString()` form reads back as itself through `getBigInteger`. */
  lemma StoredIntegerReadsBack(p: MyProperties, key: string, n: int, d: Option<int>)
    requires key in p.table && p.table[key] == IntText(n)
    ensures p.GetBigInteger(key, d, ParseInteger) == Some(n)
  {
    ParseIntegerText(n);
    var t := IntText(n);
    if n >= 0 {
      assert IsDigit(t[0]);
    } else {
      assert t[0] == '-';
    }
  }

  /** A decimal stored in its `toPlainString()` form reads back as itself, scale included,
      through `getBigDecimal`. */
  lemma StoredDecimalReadsBack(p: MyProperties, key: string, x: Decimal, d: Option<Decimal>)
    requires 0 <= x.scale <= INT_MAX
    requires key in p.table && p.table[key] == PlainText(x)
    ensures p.GetBigDecimal(key, d, ParseDecimal) == Some(x)
  {
    var t := PlainText(x);
    ParseDecimalPlain(x);
    PlainTextStart(x);
    assert !IsBlankChar(t[0]);
    assert !IsBlank(Some(t));
  }

  /** Plain text starts with a minus sign or a digit. */
  lemma PlainTextStart(x: Decimal)
    requires x.scale >= 0
    ensures |PlainText(x)| > 0 && (PlainText(x)[0] == '-' || IsDigit(PlainText(x)[0]))
  {
    PaddedValue(x);
    var text := PointText(Padded(x), x.scale);
    assert text[0] == Padded(x)[0];
  }

  /** Text with a character that is not blank has a first character `getChar` returns. */
  lemma StoredCharReadsBack(p: MyProperties, key: string, d: Option<char>)
    requires key in p.table && |p.table[key]| > 0 && !IsBlankChar(p.table[key][0])
    ensures p.GetChar(key, d) == Some(p.table[key][0])
  {
  }
}
