// Integers as JSON text: Reader::decodeNumber, uintToString and valueToString.
module JsonNumber {
  import opened Options
  import opened Chars
  import opened JsonValue

  function DigitValue(c: char): nat
    requires IsDigit(c)
  {
    c as nat - '0' as nat
  }

  function DigitChar(d: nat): (c: char)
    requires d < 10
    ensures IsDigit(c) && DigitValue(c) == d
  {
    ('0' as nat + d) as char
  }

  predicate AllDigits(s: string) {
    forall i :: 0 <= i < |s| ==> IsDigit(s[i])
  }

  // The mathematical value of a run of digits; leading zeros and the empty run are allowed.
  function NatOf(s: string): nat
    requires AllDigits(s)
  {
    if s == "" then 0 else 10 * NatOf(s[..|s| - 1]) + DigitValue(s[|s| - 1])
  }

  // Appending digits never makes the value smaller.
  lemma {:induction false} NatOfGrows(s: string, n: nat)
    requires AllDigits(s) && n <= |s|
    ensures NatOf(s[..n]) <= NatOf(s)
    decreases |s|
  {
    if n < |s| {
      NatOfGrows(s[..|s| - 1], n);
      assert s[..|s| - 1][..n] == s[..n];
    } else {
      assert s[..n] == s;
    }
  }

  // The largest magnitude the integer path of decodeNumber accepts.
  function Limit(negative: bool): nat {
    if negative then MAX_LARGEST_INT + 1 else MAX_LARGEST_UINT
  }

  predicate Negative(token: string) { token != "" && token[0] == '-' }

  function Magnitude(token: string): string {
    if Negative(token) then token[1..] else token
  }

  // A token takes the integer path exactly when it is an optional minus and digits whose
  // value fits. A lone minus counts as no digits at all, so it denotes zero.
  predicate FitsInteger(token: string) {
    AllDigits(Magnitude(token)) && NatOf(Magnitude(token)) <= Limit(Negative(token))
  }

  function IntegerOf(token: string): int
    requires AllDigits(Magnitude(token))
  {
    if Negative(token) then 0 - NatOf(Magnitude(token)) else NatOf(Magnitude(token))
  }

  // What decodeNumber makes of a token. `isDouble` is whether stream extraction of a double
  // succeeds on the text.
  function DecodeNumber(token: string, isDouble: string -> bool): Option<Value> {
    if FitsInteger(token) then Some(NormalNumber(IntegerOf(token)))
    else if isDouble(token) then Some(Real(token))
    else None
  }

  // The digit loop of decodeNumber in 64-bit unsigned arithmetic: every intermediate value
  // stays within `Limit`, and the loop gives up exactly on the tokens that do not fit.
  method ReadInteger(token: string) returns (value: Option<Value>)
    ensures value == if FitsInteger(token) then Some(NormalNumber(IntegerOf(token))) else None
    ensures value.Some? ==> DoubleFree(value.value)
  {
    hide NatOf;
    var current := 0;
    var isNegative := token != "" && token[0] == '-';
    if isNegative {
      current := 1;
    }
    ghost var digits := token[current..];
    var maxIntegerValue: nat := if isNegative then MAX_LARGEST_INT + 1 else MAX_LARGEST_UINT;
    var threshold := maxIntegerValue / 10;
    var number: nat := 0;
    ghost var start := current;
    NatOfOneMore("", '0');
    assert digits[..0] == "";
    while current < |token|
      invariant start <= current <= |token| && digits == token[start..]
      invariant AllDigits(digits[..current - start])
      invariant number == NatOf(digits[..current - start]) <= maxIntegerValue
    {
      var c := token[current];
      ghost var seen := digits[..current - start];
      current := current + 1;
      assert digits[..current - start] == seen + [c];
      if !IsDigit(c) {
        assert digits[current - start - 1] == c;
        return None;
      }
      var digit := DigitValue(c);
      NatOfOneMore(seen, c);
      if number >= threshold {
        if number > threshold || current != |token| || digit > maxIntegerValue % 10 {
          if AllDigits(digits) {
            OverLimit(digits, current - start - 1, maxIntegerValue);
          }
          return None;
        }
      }
      number := number * 10 + digit;
    }
    assert digits[..current - start] == digits;
    if isNegative && number == maxIntegerValue {
      return Some(Int(MIN_LARGEST_INT));
    } else if isNegative {
      return Some(Int(0 - number));
    } else if number <= MAX_INT {
      return Some(Int(number));
    }
    return Some(UInt(number));
  }

  lemma {:induction false} NatOfOneMore(seen: string, c: char)
    requires AllDigits(seen) && IsDigit(c)
    ensures NatOf("") == 0
    ensures AllDigits(seen + [c]) && NatOf(seen + [c]) == 10 * NatOf(seen) + DigitValue(c)
  {
    assert (seen + [c])[..|seen|] == seen;
  }

  // Once the value read so far has reached a tenth of the limit, another digit oversteps it.
  lemma {:induction false} OverLimit(digits: string, n: nat, limit: nat)
    requires n < |digits| && AllDigits(digits) && limit >= 10
    requires NatOf(digits[..n]) >= limit / 10
    requires NatOf(digits[..n]) > limit / 10 || n + 1 != |digits| || DigitValue(digits[n]) > limit % 10
    ensures NatOf(digits) > limit
  {
    var before, digit := NatOf(digits[..n]), DigitValue(digits[n]);
    NatOfNext(digits, n);
    NatOfGrows(digits, n + 1);
    if n + 1 == |digits| {
      assert digits[..n + 1] == digits;
    } else {
      NatOfNext(digits, n + 1);
      NatOfGrows(digits, n + 2);
    }
  }

  lemma {:induction false} NatOfNext(digits: string, n: nat)
    requires n < |digits| && AllDigits(digits)
    ensures NatOf(digits[..n + 1]) == 10 * NatOf(digits[..n]) + DigitValue(digits[n])
  {
    assert digits[..n + 1][..n] == digits[..n];
  }

  // ---- writing ----

  function Digits(n: nat): (s: string)
    ensures s != ""
  {
    if n < 10 then [DigitChar(n)] else Digits(n / 10) + [DigitChar(n % 10)]
  }

  function IntText(n: int): string {
    if n < 0 then "-" + Digits(-n) else Digits(n)
  }

  lemma {:induction false} DigitsDenote(n: nat)
    ensures AllDigits(Digits(n)) && NatOf(Digits(n)) == n
  {
    if n < 10 {
      assert Digits(n)[..0] == "";
    } else {
      DigitsDenote(n / 10);
      assert Digits(n)[..|Digits(n)| - 1] == Digits(n / 10);
    }
  }

  function Pow10(k: nat): nat {
    if k == 0 then 1 else 10 * Pow10(k - 1)
  }

  lemma {:induction false} DigitsAreFew(n: nat, k: nat)
    requires k >= 1 && n < Pow10(k)
    ensures |Digits(n)| <= k
  {
    if n >= 10 {
      assert Pow10(k) == 10 * Pow10(k - 1);
      DigitsAreFew(n / 10, k - 1);
    }
  }

  // Decoding inverts printing for every 64-bit integer, signed or unsigned, and the text
  // never needs the double path.
  lemma {:induction false} IntTextDecodes(n: int)
    requires MIN_LARGEST_INT <= n <= MAX_LARGEST_UINT
    ensures FitsInteger(IntText(n)) && IntegerOf(IntText(n)) == n
  {
    if n < 0 {
      DigitsDenote(-n);
      assert IntText(n)[1..] == Digits(-n);
    } else {
      DigitsDenote(n);
      assert Digits(n)[0] != '-';
    }
  }

  // At most 19 digits and a sign, or 20 digits: with the terminator, 21 of the 25 bytes.
  lemma {:induction false} IntTextIsShort(n: int)
    requires MIN_LARGEST_INT <= n <= MAX_LARGEST_UINT
    ensures |IntText(n)| <= 20
  {
    assert Pow10(19) == 10_000_000_000_000_000_000 by {
      assert Pow10(4) == 10_000 && Pow10(8) == 10_000 * Pow10(4);
      assert Pow10(12) == 10_000 * Pow10(8) && Pow10(16) == 10_000 * Pow10(12);
    }
    if n < 0 {
      DigitsAreFew(-n, 19);
    } else {
      DigitsAreFew(n, 20);
    }
  }

  const BUFFER_SIZE := 25 // 3 * sizeof(LargestUInt) + 1

  lemma {:induction false} PeelDigit(n: nat, tail: string)
    ensures Digits(n) + tail == (if n < 10 then "" else Digits(n / 10)) + ([DigitChar(n % 10)] + tail)
    ensures |Digits(n) + tail| > |tail|
  {}

  lemma {:induction false} DigitsFit(value: nat)
    requires value <= MAX_LARGEST_UINT
    ensures |Digits(value)| <= 20
  {
    IntTextIsShort(value);
  }

  // uintToString: writes the terminator and then the digits, right to left, before `end`.
  method UIntToString(value: nat, buffer: array<char>, end: nat) returns (current: nat)
    requires value <= MAX_LARGEST_UINT && 21 <= end <= buffer.Length
    modifies buffer
    ensures current <= end - 1 && current + |Digits(value)| == end - 1
    ensures buffer[current..end] == Digits(value) + "\0"
  {
    hide Digits;
    DigitsFit(value);
    current := end - 1;
    buffer[current] := '\0';
    var rest := value;
    ghost var tail := "";
    // The test comes after the first digit, so that 0 gets one.
    var again := true;
    while again
      invariant current + |tail| == end - 1
      invariant buffer[current..end] == tail + "\0"
      invariant |tail| < |Digits(value)| <= 20 || !again
      invariant if again then Digits(value) == Digits(rest) + tail else Digits(value) == tail
      decreases again, rest
    {
      ghost var was := buffer[current..end];
      var digit := DigitChar(rest % 10);
      current := current - 1;
      buffer[current] := digit;
      assert buffer[current..end] == [digit] + was;
      PeelDigit(rest, tail);
      tail := [digit] + tail;
      rest := rest / 10;
      again := rest != 0;
    }
  }

  // valueToString(LargestInt) and valueToString(LargestUInt), with the 25-byte buffer.
  method ValueToString(value: int) returns (text: string)
    requires MIN_LARGEST_INT <= value <= MAX_LARGEST_UINT
    ensures text == IntText(value)
  {
    var buffer := new char[BUFFER_SIZE](_ => '\0');
    var magnitude: nat := if value == MIN_LARGEST_INT then MAX_LARGEST_INT + 1 else if value < 0 then -value else value;
    var current := UIntToString(magnitude, buffer, BUFFER_SIZE);
    DigitsFit(magnitude);
    assert buffer[current..BUFFER_SIZE - 1] == buffer[current..BUFFER_SIZE][..|Digits(magnitude)|];
    if value < 0 {
      ghost var was := buffer[current..BUFFER_SIZE - 1];
      current := current - 1;
      buffer[current] := '-';
      assert buffer[current..BUFFER_SIZE - 1] == "-" + was;
    }
    text := buffer[current..BUFFER_SIZE - 1];
  }
}
