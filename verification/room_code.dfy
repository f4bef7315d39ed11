/** Room codes (`CreateRoomService.generateRoomCode`): a draw of
    `nextInt(900000) + 100000` rendered with `String.format("%06d", …)`,
    redrawn while the code is already in use. */
module RoomCodes {
  import opened Common

  type Code = string

  const CODE_LENGTH: nat := 6
  const CODE_MIN: nat := 100000
  const CODE_SPAN: nat := 900000

  predicate IsDigit(c: char) {
    '0' <= c <= '9'
  }

  predicate AllDigits(s: string) {
    forall i :: 0 <= i < |s| ==> IsDigit(s[i])
  }

  function DigitChar(d: nat): (c: char)
    requires d < 10
    ensures IsDigit(c)
  {
    ['0', '1', '2', '3', '4', '5', '6', '7', '8', '9'][d]
  }

  function DigitValue(c: char): (d: nat)
    requires IsDigit(c)
    ensures d < 10
  {
    (c as int - '0' as int) as nat
  }

  lemma DigitRoundTrip(d: nat)
    requires d < 10
    ensures DigitValue(DigitChar(d)) == d
  {
  }

  /** Decimal digits of `n` without leading zeros ("0" for zero). */
  function Digits(n: nat): (s: string)
    ensures s != [] && AllDigits(s)
    ensures |s| > 1 ==> s[0] != '0'
    decreases n
  {
    if n < 10 then [DigitChar(n)]
    else Digits(n / 10) + [DigitChar(n % 10)]
  }

  /** `String.format("%06d", n)` for a non-negative `n`: the decimal digits,
      left-padded with zeros to at least six characters. */
  function Format06(n: nat): (s: string)
    ensures AllDigits(s)
    ensures |s| >= CODE_LENGTH
  {
    var ds := Digits(n);
    if |ds| < CODE_LENGTH then seq(CODE_LENGTH - |ds|, _ => '0') + ds else ds
  }

  /** Reading a digit string back as a number. */
  function ParseDecimal(s: string): (n: nat)
    requires AllDigits(s)
  {
    if s == [] then 0
    else ParseDecimal(s[..|s| - 1]) * 10 + DigitValue(s[|s| - 1])
  }

  function Pow10(k: nat): (p: nat)
    ensures p >= 1
  {
    if k == 0 then 1 else 10 * Pow10(k - 1)
  }

  /** A digit string is below ten to the power of its length. */
  lemma {:induction false} ParseBelowPow10(s: string)
    requires AllDigits(s)
    ensures ParseDecimal(s) < Pow10(|s|)
  {
    if s != [] {
      ParseBelowPow10(s[..|s| - 1]);
    }
  }

  /** Leading zeros add nothing. */
  lemma {:induction false} ParseLeadingZeros(k: nat, s: string)
    requires AllDigits(s)
    ensures AllDigits(seq(k, _ => '0') + s)
    ensures ParseDecimal(seq(k, _ => '0') + s) == ParseDecimal(s)
    decreases |s|
  {
    var z := seq(k, _ => '0');
    if s == [] {
      assert z + s == z;
      ZerosParseToZero(k);
    } else {
      assert (z + s)[..|z + s| - 1] == z + s[..|s| - 1];
      ParseLeadingZeros(k, s[..|s| - 1]);
    }
  }

  lemma {:induction false} ZerosParseToZero(k: nat)
    ensures ParseDecimal(seq(k, _ => '0')) == 0
  {
    if k > 0 {
      assert seq(k, _ => '0')[..k - 1] == seq(k - 1, _ => '0');
      ZerosParseToZero(k - 1);
    }
  }

  /** Round trip: the digits of `n` read back as `n`. */
  lemma {:induction false} ParseDigits(n: nat)
    ensures ParseDecimal(Digits(n)) == n
    decreases n
  {
    if n >= 10 {
      var ds := Digits(n);
      assert ds[..|ds| - 1] == Digits(n / 10);
      ParseDigits(n / 10);
    }
  }

  /** Round trip: formatting then parsing gives the number back. */
  lemma ParseFormat06(n: nat)
    ensures ParseDecimal(Format06(n)) == n
  {
    var ds := Digits(n);
    ParseDigits(n);
    if |ds| < CODE_LENGTH {
      ParseLeadingZeros(CODE_LENGTH - |ds|, ds);
    }
  }

  /** A number below `10^6` is at most six digits. */
  lemma {:induction false} DigitsLength(n: nat, k: nat)
    requires n < Pow10(k) && k >= 1
    ensures |Digits(n)| <= k
    decreases n
  {
    if n >= 10 {
      DigitsLength(n / 10, k - 1);
    }
  }

  /** A well-formed room code: six digits, the first not zero. */
  predicate IsRoomCode(s: string) {
    |s| == CODE_LENGTH && AllDigits(s) && s[0] != '0'
  }

  /** The code one draw of the random source produces. */
  function DrawnCode(draw: nat): (code: Code)
    ensures IsRoomCode(code)
    ensures CODE_MIN <= ParseDecimal(code) < CODE_MIN + CODE_SPAN
  {
    var n := NextInt(draw, CODE_SPAN) + CODE_MIN;
    DigitsLength(n, 6);
    LongDigitsStartNonZero(n);
    ParseFormat06(n);
    Format06(n)
  }

  /** At least six digits means no padding, and a number of 100000 or more
      has at least six digits. */
  lemma LongDigitsStartNonZero(n: nat)
    requires CODE_MIN <= n
    ensures |Digits(n)| >= CODE_LENGTH && Format06(n) == Digits(n)
  {
    var ds := Digits(n);
    ParseDigits(n);
    if |ds| < CODE_LENGTH {
      ParseBelowPow10(ds);
      PowMonotone(|ds|, 5);
      Pow10Values();
      assert false;
    }
  }

  lemma Pow10Values()
    ensures Pow10(5) == 100000 && Pow10(6) == 1000000
  {
    assert Pow10(2) == 100;
    assert Pow10(4) == 10000;
  }

  lemma {:induction false} PowMonotone(a: nat, b: nat)
    requires a <= b
    ensures Pow10(a) <= Pow10(b)
    decreases b
  {
    if a < b {
      PowMonotone(a, b - 1);
    }
  }

  /** `generateRoomCode`: the first drawn code not in use. Running out of
      draws stands for a loop that never ends: `None`. */
  function GenerateRoomCode(inUse: set<Code>, draws: seq<nat>): (r: Option<Code>)
    ensures r.Some? ==> IsRoomCode(r.value) && r.value !in inUse
    ensures r.Some? ==> exists i :: (0 <= i < |draws| && r.value == DrawnCode(draws[i])
      && forall j :: 0 <= j < i ==> DrawnCode(draws[j]) in inUse)
    ensures r.None? <==> forall i :: 0 <= i < |draws| ==> DrawnCode(draws[i]) in inUse
  {
    if draws == [] then None
    else if DrawnCode(draws[0]) !in inUse then Some(DrawnCode(draws[0]))
    else
      var r := GenerateRoomCode(inUse, draws[1..]);
      if r.Some? then
        ghost var i :| 0 <= i < |draws[1..]| && r.value == DrawnCode(draws[1..][i])
          && forall j :: 0 <= j < i ==> DrawnCode(draws[1..][j]) in inUse;
        assert r.value == DrawnCode(draws[i + 1]);
        assert forall j :: 0 <= j < i + 1 ==> DrawnCode(draws[j]) in inUse;
        r
      else
        assert forall i :: 0 <= i < |draws| ==> DrawnCode(draws[i]) in inUse by {
          forall i | 0 <= i < |draws|
            ensures DrawnCode(draws[i]) in inUse
          {
            if i > 0 {
              assert draws[i] == draws[1..][i - 1];
            }
          }
        }
        r
  }

  /** Every free code can come out: the draw that produces it. */
  lemma AnyFreeCodeCanBeGenerated(inUse: set<Code>, code: Code)
    requires IsRoomCode(code) && code !in inUse
    ensures exists draw: nat :: GenerateRoomCode(inUse, [draw]) == Some(code)
  {
    var n := ParseDecimal(code);
    FormatParse(code);
    ParseBelowPow10(code);
    Pow10Values();
    LeadingDigitBound(code);
    var draw: nat := n - CODE_MIN;
    assert NextInt(draw, CODE_SPAN) == draw;
    assert DrawnCode(draw) == code;
    assert GenerateRoomCode(inUse, [draw]) == Some(code);
  }

  /** A six-digit string whose first digit is not zero is at least 100000. */
  lemma LeadingDigitBound(s: string)
    requires IsRoomCode(s)
    ensures ParseDecimal(s) >= CODE_MIN
  {
    ParseAtLeast(s);
    Pow10Values();
  }

  /** Round trip in the other direction: a room code is the format of its
      value. */
  lemma FormatParse(s: string)
    requires IsRoomCode(s)
    ensures Format06(ParseDecimal(s)) == s
  {
    DigitsOfParse(s);
    LeadingDigitBound(s);
    LongDigitsStartNonZero(ParseDecimal(s));
  }

  /** A digit string without a leading zero is the digits of its value. */
  lemma {:induction false} DigitsOfParse(s: string)
    requires s != [] && AllDigits(s) && (|s| > 1 ==> s[0] != '0')
    ensures Digits(ParseDecimal(s)) == s
    decreases |s|, 1
  {
    if |s| == 1 {
      DigitRoundTrip(DigitValue(s[0]));
    } else {
      DigitsOfLonger(s);
    }
  }

  /** The step for two digits or more: the front is the digits of its value
      and is not zero, so the last digit is appended to it. */
  lemma {:induction false} DigitsOfLonger(s: string)
    requires |s| > 1 && AllDigits(s) && s[0] != '0'
    ensures Digits(ParseDecimal(s)) == s
    decreases |s|, 0
  {
    var front, last := s[..|s| - 1], s[|s| - 1];
    assert front[0] == s[0];
    DigitsOfParse(front);
    ParseAtLeast(front);
    var q, d := ParseDecimal(front), DigitValue(last);
    DigitRoundTrip(d);
    SplitLastDigit(q, d);
    assert s == front + [last];
  }

  /** Appending digit `d` to `q`: dividing by ten gives back both. */
  lemma SplitLastDigit(q: nat, d: nat)
    requires d < 10
    ensures (q * 10 + d) / 10 == q && (q * 10 + d) % 10 == d
  {
  }

  /** A digit string whose first digit is not zero is at least ten to the
      power of its length minus one. */
  lemma {:induction false} ParseAtLeast(s: string)
    requires s != [] && AllDigits(s) && s[0] != '0'
    ensures ParseDecimal(s) >= Pow10(|s| - 1)
    decreases |s|
  {
    if |s| > 1 {
      var front := s[..|s| - 1];
      assert front[0] == s[0];
      ParseAtLeast(front);
    }
  }

}
