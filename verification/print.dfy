/**
 * `Print(uint32_t)` of the example firmware (Example/App/Utils.hpp and the
 * identical copy in Example/App/Main.cpp): the digits are produced least
 * significant first into a ten-character buffer, which is then reversed and
 * written out. Zero prints nothing.
 */
module Print {
  import Decimal

  const U32_LIMIT: nat := 0x1_0000_0000

  function Reverse<T>(s: seq<T>): (r: seq<T>)
    ensures |r| == |s|
    ensures forall k :: 0 <= k < |s| ==> r[k] == s[|s| - 1 - k]
  {
    if s == [] then [] else Reverse(s[1..]) + [s[0]]
  }

  /** The loop of `Print`, followed by the `std::reverse` of the filled buffer. */
  method Print(i: nat) returns (out: string)
    requires i < U32_LIMIT
    ensures out == Decimal.Digits(i)
    ensures |out| <= 10
    ensures forall k :: 0 <= k < |out| ==> Decimal.IsDigit(out[k])
    ensures i == 0 <==> out == []
  {
    var buffer: seq<char> := [];
    var n: nat := i;
    while n != 0
      invariant Decimal.Digits(i) == Decimal.Digits(n) + Reverse(buffer)
      invariant |buffer| <= 10 && n < Decimal.Pow10(10 - |buffer|)
      decreases n
    {
      assert Decimal.Digits(n) == Decimal.Digits(n / 10) + [Decimal.DigitChar(n % 10)];
      ghost var old_buffer := buffer;
      buffer := buffer + [Decimal.DigitChar(n % 10)];
      assert Reverse(buffer) == [Decimal.DigitChar(n % 10)] + Reverse(old_buffer);
      n := n / 10;
    }
    out := Reverse(buffer);
    Decimal.DigitsAreDigits(i);
    Decimal.DigitsLength(i, 10);
    if i != 0 {
      Decimal.NoLeadingZero(i);
    }
  }
}
