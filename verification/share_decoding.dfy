/**
 * Decoding of a share value written in a positional base (decodeShareValue).
 *
 * The original code leans on the JavaScript built-in parseInt twice: once to
 * read the base and once to read the value in that base. parseInt is modelled
 * here after the algorithm of section 19.2.5 of ECMA-262 (parseInt (string,
 * radix)), on exact integers: the conversion of the digit value to an IEEE-754
 * double is not modelled.
 */
module ShareDecoding {
  import opened Outcomes

  /** The characters parseInt skips before the number: StrWhiteSpaceChar of ECMA-262
      (TAB, VT, FF, ZWNBSP, the Space_Separator characters, and the line terminators). */
  predicate IsStrWhiteSpace(c: char) {
    var u := c as int;
    u == 0x09 || u == 0x0B || u == 0x0C || u == 0xFEFF ||
    u == 0x0A || u == 0x0D || u == 0x2028 || u == 0x2029 ||
    u == 0x20 || u == 0xA0 || u == 0x1680 || (0x2000 <= u <= 0x200A) ||
    u == 0x202F || u == 0x205F || u == 0x3000
  }

  /** The value of a character as a digit: 0-9, then a-z (either case) for 10-35; 36 for anything else. */
  function DigitValue(c: char): (d: nat)
    ensures d <= 36
    ensures d < 36 ==> '0' <= c <= '9' || 'a' <= c <= 'z' || 'A' <= c <= 'Z'
  {
    if '0' <= c <= '9' then c as int - '0' as int
    else if 'a' <= c <= 'z' then c as int - 'a' as int + 10
    else if 'A' <= c <= 'Z' then c as int - 'A' as int + 10
    else 36
  }

  predicate IsDigit(c: char, radix: int) {
    DigitValue(c) < radix
  }

  /** The lower-case digit character for d, as BigInt.prototype.toString writes it. */
  function DigitChar(d: nat): (c: char)
    requires d < 36
    ensures DigitValue(c) == d
  {
    if d < 10 then ('0' as int + d) as char else ('a' as int + d - 10) as char
  }

  /** ToInt32 of an integral Number: reduction modulo 2^32 into [-2^31, 2^31). */
  function ToInt32(n: int): int
  {
    var m := n % 0x1_0000_0000;
    if m >= 0x8000_0000 then m - 0x1_0000_0000 else m
  }

  /** ToInt32 lands in the signed 32-bit range and differs from its argument by a multiple of 2^32. */
  lemma ToInt32Congruent(n: int)
    ensures -0x8000_0000 <= ToInt32(n) < 0x8000_0000
    ensures (ToInt32(n) - n) % 0x1_0000_0000 == 0
  {
    var m := n % 0x1_0000_0000;
    assert n == (n / 0x1_0000_0000) * 0x1_0000_0000 + m;
    if m >= 0x8000_0000 {
      assert ToInt32(n) - n == (-(n / 0x1_0000_0000) - 1) * 0x1_0000_0000;
    } else {
      assert ToInt32(n) - n == (-(n / 0x1_0000_0000)) * 0x1_0000_0000;
    }
  }

  /** Drops the leading white space. */
  function TrimStart(s: string): string
  {
    if s != [] && IsStrWhiteSpace(s[0]) then TrimStart(s[1..]) else s
  }

  /** What is left is a suffix of s that does not start with white space, and only white space was dropped. */
  lemma {:induction false} TrimStartSuffix(s: string)
    ensures var t := TrimStart(s);
            |t| <= |s| && t == s[|s| - |t|..] &&
            (t != [] ==> !IsStrWhiteSpace(t[0])) &&
            forall i :: 0 <= i < |s| - |t| ==> IsStrWhiteSpace(s[i])
  {
    if s != [] && IsStrWhiteSpace(s[0]) {
      TrimStartSuffix(s[1..]);
      var t := TrimStart(s);
      assert s[1..][|s| - 1 - |t|..] == s[|s| - |t|..];
      forall i | 1 <= i < |s| - |t|
        ensures IsStrWhiteSpace(s[i])
      {
        assert s[i] == s[1..][i - 1];
      }
    }
  }

  /** The length of the longest prefix of s made of digits of the radix. */
  function DigitRun(s: string, radix: int): (n: nat)
    ensures n <= |s|
  {
    if s != [] && IsDigit(s[0], radix) then 1 + DigitRun(s[1..], radix) else 0
  }

  /** Every character of the run is a digit, and the run stops at the first character that is not. */
  lemma {:induction false} DigitRunMaximal(s: string, radix: int)
    ensures var n := DigitRun(s, radix);
            (forall i :: 0 <= i < n ==> IsDigit(s[i], radix)) && (n < |s| ==> !IsDigit(s[n], radix))
  {
    if s != [] && IsDigit(s[0], radix) {
      DigitRunMaximal(s[1..], radix);
      var n := DigitRun(s, radix);
      forall i | 1 <= i < n
        ensures IsDigit(s[i], radix)
      {
        assert s[i] == s[1..][i - 1];
      }
      if n < |s| {
        assert s[n] == s[1..][n - 1];
      }
    }
  }

  /** The positional value of a digit string, most significant digit first. */
  function ValueOf(s: string, radix: nat): nat
  {
    if s == [] then 0 else ValueOf(s[..|s| - 1], radix) * radix + DigitValue(s[|s| - 1])
  }

  predicate HasHexPrefix(s: string) {
    |s| >= 2 && s[0] == '0' && (s[1] == 'x' || s[1] == 'X')
  }

  /**
   * The part of parseInt after the white space and the sign: an optional
   * "0x"/"0X" prefix when the radix is 0 or 16, then the longest run of
   * digits, which must not be empty. R is 0 (meaning 10) or in [2, 36].
   */
  function ParseMagnitude(u: string, R: int): (r: Option<nat>)
  {
    var hex := (R == 0 || R == 16) && HasHexPrefix(u);
    var R' := if hex then 16 else if R == 0 then 10 else R;
    var v := if hex then u[2..] else u;
    var n := DigitRun(v, R');
    if n == 0 then None else Some(ValueOf(v[..n], R'))
  }

  /**
   * parseInt(s, radix). None stands for NaN. A radix of 0 (also what an
   * absent radix becomes) means 10, with a "0x"/"0X" prefix switching to 16;
   * radix 16 also skips that prefix.
   */
  function ParseInt(s: string, radix: int): (r: Option<int>)
    ensures var R := ToInt32(radix); R != 0 && (R < 2 || R > 36) ==> r == None
  {
    var t := TrimStart(s);
    var negative := t != [] && t[0] == '-';
    var u := if t != [] && (t[0] == '-' || t[0] == '+') then t[1..] else t;
    var R := ToInt32(radix);
    if R != 0 && (R < 2 || R > 36) then None
    else match ParseMagnitude(u, R)
      case None => None
      case Some(m) => Some(if negative then -(m as int) else m as int)
  }

  lemma ToInt32Small(n: int)
    requires 0 <= n < 0x8000_0000
    ensures ToInt32(n) == n
  {
    assert n % 0x1_0000_0000 == n;
  }

  /**
   * decodeShareValue(valueText, baseText): the base is read with parseInt and
   * must be a number in [2, 36]; the value is read with parseInt in that base
   * and handed to BigInt, which throws on NaN.
   */
  function DecodeShareValue(valueText: string, baseText: string): (r: Result<int>)
    ensures r == Err(InvalidBase) <==>
              (ParseInt(baseText, 0).None? || ParseInt(baseText, 0).value < 2 || ParseInt(baseText, 0).value > 36)
    ensures r.Ok? ==> 2 <= ParseInt(baseText, 0).value <= 36
                      && ParseInt(valueText, ParseInt(baseText, 0).value) == Some(r.value)
    ensures r == Err(NotANumber) <==>
              (ParseInt(baseText, 0).Some? && 2 <= ParseInt(baseText, 0).value <= 36
               && ParseInt(valueText, ParseInt(baseText, 0).value) == None)
    ensures r.Ok? || r == Err(InvalidBase) || r == Err(NotANumber)
  {
    var radix := ParseInt(baseText, 0);
    if radix.None? || radix.value < 2 || radix.value > 36 then Err(InvalidBase)
    else match ParseInt(valueText, radix.value)
      case None => Err(NotANumber)
      case Some(n) => Ok(n)
  }

  /** The digits of n in the radix, lower case and without leading zeros, as BigInt.prototype.toString(radix) writes them. */
  function ToDigits(n: nat, radix: nat): (s: string)
    requires 2 <= radix <= 36
    ensures s != []
    ensures forall i :: 0 <= i < |s| ==> IsDigit(s[i], radix)
  {
    if n < radix then [DigitChar(n)]
    else
      DivMod(n, radix);
      var prefix := ToDigits(n / radix, radix);
      var s := prefix + [DigitChar(n % radix)];
      assert forall i :: 0 <= i < |prefix| ==> s[i] == prefix[i];
      s
  }

  lemma DivMod(n: nat, radix: nat)
    requires 2 <= radix <= n
    ensures 0 < n / radix < n && n % radix < radix
    ensures n == n / radix * radix + n % radix
  {
  }

  // ---------------------------------------------------------------------------
  // Properties of the decoder

  lemma {:induction false} ValueOfToDigits(n: nat, radix: nat)
    requires 2 <= radix <= 36
    ensures ValueOf(ToDigits(n, radix), radix) == n
  {
    if n >= radix {
      DivMod(n, radix);
      var q, d := n / radix, n % radix;
      var prefix := ToDigits(q, radix);
      var s := prefix + [DigitChar(d)];
      assert ToDigits(n, radix) == s;
      assert s[..|s| - 1] == prefix;
      ValueOfToDigits(q, radix);
      assert ValueOf(s, radix) == ValueOf(prefix, radix) * radix + d;
    }
  }

  lemma {:induction false} DigitRunOfDigits(s: string, radix: int)
    requires forall i :: 0 <= i < |s| ==> IsDigit(s[i], radix)
    ensures DigitRun(s, radix) == |s|
  {
    if s != [] {
      DigitRunOfDigits(s[1..], radix);
    }
  }

  /** A digit character is neither white space nor a sign. */
  lemma DigitIsPlain(c: char, radix: int)
    requires radix <= 36 && IsDigit(c, radix)
    ensures !IsStrWhiteSpace(c) && c != '-' && c != '+'
  {
  }

  /**
   * On a string that starts with a digit of the radix, parseInt returns the
   * value of the longest leading run of digits (unless radix 16 sees a "0x" prefix).
   */
  lemma ParseLeadingRun(s: string, radix: int)
    requires 2 <= radix <= 36
    requires s != [] && IsDigit(s[0], radix)
    requires !(radix == 16 && HasHexPrefix(s))
    ensures ParseInt(s, radix) == Some(ValueOf(s[..DigitRun(s, radix)], radix))
  {
    DigitIsPlain(s[0], radix);
    assert TrimStart(s) == s;
    ToInt32Small(radix);
  }

  /** A text whose first character is not white space, a sign or a digit is NaN. */
  lemma ParseNoLeadingDigit(s: string, radix: int)
    requires radix == 0 || 2 <= radix <= 36
    requires s == [] || (!IsDigit(s[0], if radix == 0 then 10 else radix) && !IsStrWhiteSpace(s[0]) && s[0] != '-' && s[0] != '+')
    ensures ParseInt(s, radix) == None
  {
    var R := if radix == 0 then 10 else radix;
    assert TrimStart(s) == s;
    ToInt32Small(radix);
    assert DigitValue('0') == 0;
    assert !HasHexPrefix(s);
    assert DigitRun(s, R) == 0;
  }

  /**
   * A plain digit string (non-empty, every character a digit) is read as its
   * positional value, both with an explicit radix and, for decimal digits, with
   * the default radix.
   */
  lemma ParsePlainDigits(s: string, radix: int)
    requires radix == 0 || 2 <= radix <= 36
    requires s != []
    requires forall i :: 0 <= i < |s| ==> IsDigit(s[i], if radix == 0 then 10 else radix)
    ensures ParseInt(s, radix) == Some(ValueOf(s, if radix == 0 then 10 else radix))
  {
    var R := if radix == 0 then 10 else radix;
    DigitIsPlain(s[0], R);
    assert TrimStart(s) == s;
    ToInt32Small(radix);
    MagnitudeOfDigits(s, radix);
  }

  lemma MagnitudeOfDigits(u: string, radix: int)
    requires radix == 0 || 2 <= radix <= 36
    requires u != []
    requires forall i :: 0 <= i < |u| ==> IsDigit(u[i], if radix == 0 then 10 else radix)
    ensures ParseMagnitude(u, radix) == Some(ValueOf(u, if radix == 0 then 10 else radix))
  {
    var R := if radix == 0 then 10 else radix;
    if (radix == 0 || radix == 16) && |u| >= 2 {
      assert IsDigit(u[1], R);
      assert DigitValue('x') == DigitValue('X') == 33;
      assert !HasHexPrefix(u);
    }
    DigitRunOfDigits(u, R);
    assert u[..|u|] == u;
  }

  /**
   * Round trip: the digits of n written in the radix parse back to n. The
   * bound is 2^53, below which parseInt's Number holds every integer exactly.
   */
  lemma ParseToDigits(n: nat, radix: nat)
    requires 2 <= radix <= 36 && n < 0x20_0000_0000_0000
    ensures ParseInt(ToDigits(n, radix), radix) == Some(n)
  {
    ParsePlainDigits(ToDigits(n, radix), radix);
    ValueOfToDigits(n, radix);
  }

  /** Round trip through decodeShareValue, with the base itself written in decimal. */
  lemma DecodeToDigits(n: nat, radix: nat)
    requires 2 <= radix <= 36 && n < 0x20_0000_0000_0000
    ensures DecodeShareValue(ToDigits(n, radix), ToDigits(radix, 10)) == Ok(n)
  {
    ParsePlainDigits(ToDigits(radix, 10), 0);
    ValueOfToDigits(radix, 10);
    ParseToDigits(n, radix);
  }

  // ---------------------------------------------------------------------------
  // Worked examples

  lemma DecodeParsed(valueText: string, baseText: string, radix: int, n: Option<int>)
    requires ParseInt(baseText, 0) == Some(radix) && 2 <= radix <= 36
    requires ParseInt(valueText, radix) == n
    ensures DecodeShareValue(valueText, baseText) == if n.Some? then Ok(n.value) else Err(NotANumber)
  {
  }

  lemma ParseBase2()
    ensures ParseInt("2", 0) == Some(2)
  {
    ParsePlainDigits("2", 0);
    assert "2"[..0] == [];
  }

  lemma ParseBase16()
    ensures ParseInt("16", 0) == Some(16)
  {
    assert DigitValue('1') == 1 && DigitValue('6') == 6;
    ParsePlainDigits("16", 0);
    assert "16"[..1] == "1" && "1"[..0] == [];
  }

  lemma ParseBase36()
    ensures ParseInt("36", 0) == Some(36)
  {
    assert DigitValue('3') == 3 && DigitValue('6') == 6;
    ParsePlainDigits("36", 0);
    assert "36"[..1] == "3" && "3"[..0] == [];
  }

  lemma ParseUpperHex()
    ensures ParseInt("1A", 16) == Some(26)
  {
    ParsePlainDigits("1A", 16);
    assert "1A"[..1] == "1";
  }

  lemma ParseLowerHex()
    ensures ParseInt("1a", 16) == Some(26)
  {
    ParsePlainDigits("1a", 16);
    assert "1a"[..1] == "1";
  }

  lemma ParseBinary()
    ensures ParseInt("101", 2) == Some(5)
  {
    assert DigitValue('1') == 1 && DigitValue('0') == 0;
    assert forall i :: 0 <= i < 3 ==> "101"[i] == '1' || "101"[i] == '0';
    ParsePlainDigits("101", 2);
    BinaryValue();
  }

  lemma BinaryValue()
    ensures ValueOf("101", 2) == 5
  {
    assert DigitValue('1') == 1 && DigitValue('0') == 0;
    assert "101"[..2] == "10" && "10"[..1] == "1" && "1"[..0] == "";
    assert ValueOf("1", 2) == 1;
    assert ValueOf("10", 2) == 2;
  }

  lemma DecodeHexExample()
    ensures DecodeShareValue("1A", "16") == Ok(26)
  {
    ParseBase16();
    ParseUpperHex();
    DecodeParsed("1A", "16", 16, Some(26));
  }

  /** Letters are read case-insensitively. */
  lemma DecodeLowerHexExample()
    ensures DecodeShareValue("1a", "16") == Ok(26)
  {
    ParseBase16();
    ParseLowerHex();
    DecodeParsed("1a", "16", 16, Some(26));
  }

  lemma ParseBase36Digit()
    ensures ParseInt("Z", 36) == Some(35)
  {
    assert DigitValue('Z') == 35;
    ParsePlainDigits("Z", 36);
    assert "Z"[..0] == "";
  }

  lemma DecodeBase36Example()
    ensures DecodeShareValue("Z", "36") == Ok(35)
  {
    ParseBase36();
    ParseBase36Digit();
    DecodeParsed("Z", "36", 36, Some(35));
  }

  lemma DecodeBinaryExample()
    ensures DecodeShareValue("101", "2") == Ok(5)
  {
    ParseBase2();
    ParseBinary();
    DecodeParsed("101", "2", 2, Some(5));
  }

  /** "2" is not a binary digit, so parseInt gives NaN and BigInt throws. */
  lemma DecodeBadDigitExample()
    ensures DecodeShareValue("2", "2") == Err(NotANumber)
  {
    ParseBase2();
    ParseNoLeadingDigit("2", 2);
    DecodeParsed("2", "2", 2, None);
  }

  lemma DecodeBadBaseExamples()
    ensures DecodeShareValue("12", "37") == Err(InvalidBase)
    ensures DecodeShareValue("12", "1") == Err(InvalidBase)
  {
    ParsePlainDigits("37", 0);
    ParsePlainDigits("1", 0);
  }

  lemma DecodeNaNBaseExample()
    ensures DecodeShareValue("12", "ten") == Err(InvalidBase)
  {
    assert DigitValue('t') == 29;
    ParseNoLeadingDigit("ten", 0);
  }
}
