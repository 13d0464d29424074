/** The free helpers of common.py: the sign-dependent rounding and the
    string escaper used for debug output. */
module Common {

  // ---------------------------------------------------------------------
  // special_round
  // ---------------------------------------------------------------------

  /** math.ceil of a real, expressed through Dafny's Floor. */
  function Ceil(value: real): (r: int)
    ensures r as real - 1.0 < value <= r as real
  {
    -((-value).Floor)
  }

  /** special_round: negative values are floored, all others are ceiled, so
      the result is the nearest integer in the direction away from zero. */
  function SpecialRound(value: real): (r: int)
    ensures value < 0.0 ==> r as real <= value < r as real + 1.0
    ensures value >= 0.0 ==> r as real - 1.0 < value <= r as real
    ensures value < 0.0 ==> r < 0
    ensures value >= 0.0 ==> r >= 0
    ensures r == 0 <==> value == 0.0
  {
    if value < 0.0 then value.Floor else Ceil(value)
  }

  /** The two bounds of each branch pin the result down: no other integer
      satisfies them. */
  lemma SpecialRoundUnique(value: real, k: int)
    requires value < 0.0 ==> k as real <= value < k as real + 1.0
    requires value >= 0.0 ==> k as real - 1.0 < value <= k as real
    ensures k == SpecialRound(value)
  {
  }

  /** An argument that is already an integer is returned unchanged. */
  lemma SpecialRoundOfInteger(n: int)
    ensures SpecialRound(n as real) == n
  {
    SpecialRoundUnique(n as real, n);
  }

  /** Rounding twice is rounding once. */
  lemma SpecialRoundIdempotent(value: real)
    ensures SpecialRound(SpecialRound(value) as real) == SpecialRound(value)
  {
    SpecialRoundOfInteger(SpecialRound(value));
  }

  // ---------------------------------------------------------------------
  // escape.__repr__
  // ---------------------------------------------------------------------

  /** A control character: code point below 32. */
  predicate IsControl(c: char) {
    (c as int) < 32
  }

  /** No character of s is a control character. */
  predicate NoControl(s: string) {
    forall i :: 0 <= i < |s| ==> !IsControl(s[i])
  }

  /** Number of control characters in s. */
  function ControlCount(s: string): (n: nat)
    ensures n <= |s|
  {
    if s == [] then 0
    else (if IsControl(s[0]) then 1 else 0) + ControlCount(s[1..])
  }

  const HexDigits: string := "0123456789abcdef"

  /** The value of a lower-case hexadecimal digit, or -1 for any other
      character. */
  function HexValue(c: char): int {
    if '0' <= c <= '9' then c as int - '0' as int
    else if 'a' <= c <= 'f' then c as int - 'a' as int + 10
    else -1
  }

  /** One lower-case hexadecimal digit, as printed by the format code x. */
  function HexDigit(d: nat): (c: char)
    requires d < 16
    ensures c in HexDigits
    ensures HexValue(c) == d
  {
    HexDigits[d]
  }

  /** The generator term of escape.__repr__ for one character: a control
      character becomes a backslash, an x and its code as two zero-padded
      lower-case hexadecimal digits; any other character is kept. */
  function EscapeChar(c: char): (r: string)
    ensures IsControl(c) ==>
      && |r| == 4 && r[0] == '\\' && r[1] == 'x'
      && r[2] in "01" && r[3] in HexDigits
      && HexValue(r[2]) * 16 + HexValue(r[3]) == c as int
    ensures !IsControl(c) ==> r == [c]
    ensures NoControl(r)
  {
    if IsControl(c) then ['\\', 'x', HexDigit(c as int / 16), HexDigit(c as int % 16)]
    else [c]
  }

  /** escape.__repr__: the per-character encodings of s, joined in order. */
  function Escape(s: string): (r: string)
    ensures |r| == |s| + 3 * ControlCount(s)
    ensures NoControl(r)
  {
    if s == [] then [] else EscapeChar(s[0]) + Escape(s[1..])
  }

  /** Escaping distributes over concatenation. */
  lemma {:induction false} EscapeConcat(a: string, b: string)
    ensures Escape(a + b) == Escape(a) + Escape(b)
  {
    if a == [] {
      assert a + b == b;
    } else {
      assert (a + b)[0] == a[0];
      assert (a + b)[1..] == a[1..] + b;
      EscapeConcat(a[1..], b);
    }
  }

  /** Appending one character appends exactly its encoding. */
  lemma EscapeAppend(s: string, c: char)
    ensures Escape(s + [c]) == Escape(s) + EscapeChar(c)
  {
    EscapeConcat(s, [c]);
    assert Escape([c]) == EscapeChar(c) + Escape([]);
  }

  /** A string has no control characters exactly when none is counted. */
  lemma {:induction false} ControlCountZero(s: string)
    ensures ControlCount(s) == 0 <==> NoControl(s)
  {
    if s != [] {
      ControlCountZero(s[1..]);
      if NoControl(s[1..]) && !IsControl(s[0]) {
        forall i | 0 <= i < |s| ensures !IsControl(s[i]) {
          if i > 0 { assert s[i] == s[1..][i - 1]; }
        }
      }
      if NoControl(s) {
        forall i | 0 <= i < |s[1..]| ensures !IsControl(s[1..][i]) {
          assert s[1..][i] == s[i + 1];
        }
      }
    }
  }

  /** Escaping leaves s unchanged exactly when s holds no control character. */
  lemma {:induction false} EscapeFixedPoints(s: string)
    ensures Escape(s) == s <==> NoControl(s)
  {
    ControlCountZero(s);
    if NoControl(s) && s != [] {
      assert !IsControl(s[0]);
      assert NoControl(s[1..]) by {
        forall i | 0 <= i < |s[1..]| ensures !IsControl(s[1..][i]) {
          assert s[1..][i] == s[i + 1];
        }
      }
      EscapeFixedPoints(s[1..]);
      assert s == [s[0]] + s[1..];
    }
  }

  /** Escaping an escaped string changes nothing more. */
  lemma EscapeIdempotent(s: string)
    ensures Escape(Escape(s)) == Escape(s)
  {
    EscapeFixedPoints(Escape(s));
  }

  /** The encoding is not injective: the four printable characters of the
      text "\x01" and the single character with code 1 print alike. */
  lemma EscapeNotInjective()
    ensures "\\x01" != [1 as char]
    ensures Escape("\\x01") == Escape([1 as char])
  {
    assert HexDigit(0) == '0' && HexDigit(1) == '1';
    assert EscapeChar(1 as char) == ['\\', 'x', '0', '1'];
    assert Escape([1 as char]) == EscapeChar(1 as char) + Escape([]);
    var printed := "\\x01";
    assert !IsControl(printed[0]) && !IsControl(printed[1]);
    assert !IsControl(printed[2]) && !IsControl(printed[3]);
    EscapeFixedPoints(printed);
  }
}
