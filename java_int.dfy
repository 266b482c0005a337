/** Integer.parseInt(s, radix), with the 32-bit range it enforces. */
module JavaInt {
  import opened Outcomes

  const INT_MIN: int := -0x8000_0000
  const INT_MAX: int := 0x7FFF_FFFF

  type Radix = r: nat | 2 <= r <= 36 witness 10

  /** The value of an ASCII digit or letter ('0'-'9' are 0-9, 'a'-'z' and
    * 'A'-'Z' are 10-35), and 36 for every other character. */
  function DigitValue(c: char): (d: nat)
    ensures d <= 36
  {
    if '0' <= c <= '9' then c as int - '0' as int
    else if 'a' <= c <= 'z' then c as int - 'a' as int + 10
    else if 'A' <= c <= 'Z' then c as int - 'A' as int + 10
    else 36
  }

  /** The value of a string of digits read most significant first, or None
    * when some character is not a digit of the radix. */
  function DigitsValue(s: string, radix: Radix): (r: Option<nat>)
    ensures r.Some? <==> forall k :: 0 <= k < |s| ==> DigitValue(s[k]) < radix
    decreases |s|
  {
    if s == [] then Some(0)
    else
      var init := s[..|s| - 1];
      var d := DigitValue(s[|s| - 1]);
      assert forall k :: 0 <= k < |init| ==> init[k] == s[k];
      match DigitsValue(init, radix)
      case None => None
      case Some(v) =>
        NatProduct(v, radix);
        if d < radix then Some(v * radix + d) else None
  }

  /** A product of naturals is natural. */
  lemma NatProduct(a: nat, b: nat)
    ensures a * b >= 0
  {
  }

  /** The length of the sign that may open a number: 1 for a leading '+' or
    * '-', otherwise 0. */
  function SignLength(s: string): (n: nat)
    ensures n <= 1 && n <= |s|
    ensures n == 1 <==> s != [] && (s[0] == '+' || s[0] == '-')
  {
    if s != [] && (s[0] == '+' || s[0] == '-') then 1 else 0
  }

  /** Integer.parseInt(s, radix): an optional '+' or '-', then at least one
    * digit; the value must fit in 32 bits (down to -2^31 with '-'). None is
    * the NumberFormatException. */
  function ParseInt(s: string, radix: Radix): (r: Option<int>)
    ensures r.Some? ==> INT_MIN <= r.value <= INT_MAX
    ensures r.Some? ==> s != [] && (s[0] == '+' || s[0] == '-' ==> |s| >= 2)
    ensures r.Some? ==> forall k :: SignLength(s) <= k < |s| ==> DigitValue(s[k]) < radix
  {
    if s == [] then None
    else if s[0] == '-' || s[0] == '+' then
      if |s| == 1 then None
      else
        match DigitsValue(s[1..], radix)
        case None => None
        case Some(v) =>
          if s[0] == '-' then (if v <= -INT_MIN then Some(0 - v) else None)
          else (if v <= INT_MAX then Some(v) else None)
    else
      match DigitsValue(s, radix)
      case None => None
      case Some(v) => if v <= INT_MAX then Some(v) else None
  }

  /** The character of a digit value, in lower case as Integer.toString writes it. */
  function DigitChar(d: nat): (c: char)
    requires d < 36
    ensures DigitValue(c) == d
    ensures '0' <= c <= '9' || 'a' <= c <= 'z'
  {
    if d < 10 then ('0' as int + d) as char else ('a' as int + d - 10) as char
  }

  /** Integer.toString(n, radix) for n >= 0: the digits of n, most
    * significant first, without leading zeros. */
  function Format(n: nat, radix: Radix): (s: string)
    ensures s != []
    ensures forall k :: 0 <= k < |s| ==> DigitValue(s[k]) < radix
    ensures forall k :: 0 <= k < |s| ==> '0' <= s[k] <= '9' || 'a' <= s[k] <= 'z'
    decreases n
  {
    if n < radix then [DigitChar(n)]
    else
      DivMod(n, radix);
      var init := Format(n / radix, radix);
      var s := init + [DigitChar(n % radix)];
      assert forall k :: 0 <= k < |init| ==> s[k] == init[k];
      s
  }

  /** Reading the digits Format writes gives the number back. */
  lemma {:induction false} DigitsOfFormat(n: nat, radix: Radix)
    ensures DigitsValue(Format(n, radix), radix) == Some(n)
  {
    var s := Format(n, radix);
    if n >= radix {
      var init := Format(n / radix, radix);
      assert s[..|s| - 1] == init;
      DivMod(n, radix);
      DigitsOfFormat(n / radix, radix);
    }
  }

  /** Euclidean division by a radix shrinks a number that is at least the radix. */
  lemma DivMod(n: nat, radix: Radix)
    requires n >= radix
    ensures n == (n / radix) * radix + n % radix
    ensures 0 <= n % radix < radix
    ensures 0 < n / radix < n
  {
    var q, r := n / radix, n % radix;
    assert n == q * radix + r && 0 <= r < radix;
    assert q * radix > 0;
    assert q >= 1;
    var extra: nat := radix - 2;
    assert q * radix == q * 2 + q * extra;
  }

  /** Integer.parseInt inverts Integer.toString on the non-negative ints. */
  lemma ParseFormat(n: nat, radix: Radix)
    requires n <= INT_MAX
    ensures ParseInt(Format(n, radix), radix) == Some(n)
  {
    assert "" + "" + Format(n, radix) == Format(n, radix);
    ParseSigned("", "", n, radix);
  }

  /** A run of '0' characters, possibly empty. */
  predicate IsZeros(z: string) {
    forall k :: 0 <= k < |z| ==> z[k] == '0'
  }

  /** Integer.parseInt on a number with an optional sign and any leading
    * zeros: the signed value when it fits an int, and a
    * NumberFormatException (None) when it does not. Nothing wraps
    * around. */
  lemma ParseSigned(sign: string, zeros: string, n: nat, radix: Radix)
    requires sign == "" || sign == "+" || sign == "-"
    requires IsZeros(zeros)
    ensures var v := if sign == "-" then -(n as int) else n as int;
      ParseInt(sign + zeros + Format(n, radix), radix) == if INT_MIN <= v <= INT_MAX then Some(v) else None
  {
    var f := Format(n, radix);
    var t := zeros + f;
    ZerosPrefix(zeros, f, radix);
    DigitsOfFormat(n, radix);
    if zeros == [] {
      assert t == f;
      assert '0' <= f[0] <= '9' || 'a' <= f[0] <= 'z';
    } else {
      assert t[0] == zeros[0];
    }
    Assoc(sign, zeros, f);
    ParseDigits(sign, t, n, radix);
  }

  /** Integer.parseInt on an optional sign followed by digits worth `n`. */
  lemma ParseDigits(sign: string, t: string, n: nat, radix: Radix)
    requires sign == "" || sign == "+" || sign == "-"
    requires t != [] && t[0] != '+' && t[0] != '-'
    requires DigitsValue(t, radix) == Some(n)
    ensures var v := if sign == "-" then -(n as int) else n as int;
      ParseInt(sign + t, radix) == if INT_MIN <= v <= INT_MAX then Some(v) else None
  {
    var s := sign + t;
    if sign == "" {
      assert s == t;
    } else {
      assert s[0] == sign[0] && s[1..] == t;
    }
  }

  /** Concatenation regrouped. */
  lemma Assoc(a: string, b: string, c: string)
    ensures a + b + c == a + (b + c)
  {
  }

  /** Leading zeros do not change the value of digits. */
  lemma {:induction false} ZerosPrefix(zeros: string, t: string, radix: Radix)
    requires IsZeros(zeros)
    ensures DigitsValue(zeros + t, radix) == DigitsValue(t, radix)
    decreases |t|
  {
    if t == [] {
      assert zeros + t == zeros;
      ZerosValue(zeros, radix);
    } else {
      var s := zeros + t;
      assert s[..|s| - 1] == zeros + t[..|t| - 1];
      assert s[|s| - 1] == t[|t| - 1];
      ZerosPrefix(zeros, t[..|t| - 1], radix);
    }
  }

  /** A run of zeros is worth zero. */
  lemma {:induction false} ZerosValue(zeros: string, radix: Radix)
    requires IsZeros(zeros)
    ensures DigitsValue(zeros, radix) == Some(0)
    decreases |zeros|
  {
    if zeros != [] {
      var init := zeros[..|zeros| - 1];
      assert IsZeros(init);
      ZerosValue(init, radix);
    }
  }
}
