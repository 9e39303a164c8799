// The in-place number formatter of hiutil.c, and what it leaves behind for zero.

module Numerals {
  import opened Bytes

  // The part of a character buffer that strlen sees.
  ghost predicate HoldsText(buf: seq<byte>, text: seq<byte>) {
    |text| < |buf| && buf[..|text|] == text && buf[|text|] == 0 && 0 !in text
  }

  lemma {:induction false} DecAtMost(n: nat, k: nat)
    requires k >= 1 && n < Pow10(k)
    ensures |Dec(n)| <= k
  {
    if n >= 10 {
      DecAtMost(n / 10, k - 1);
    }
  }

  function Pow10(k: nat): nat { if k == 0 then 1 else 10 * Pow10(k - 1) }

  lemma Dec32(n: nat)
    requires n < UINT32
    ensures |Dec(n)| <= 10
  {
    assert Pow10(5) == 100000;
    assert Pow10(10) == 10_000_000_000;
    DecAtMost(n, 10);
  }

  /** The digits of a non-zero number, lowest first. */
  method WriteDigits(s: array<byte>, n: nat) returns (len: nat)
    requires 0 < n && |Dec(n)| < s.Length
    modifies s
    ensures len == |Dec(n)| && forall i :: 0 <= i < len ==> s[i] == Dec(n)[len - 1 - i]
  {
    var v: nat := n;
    len := 0;
    ghost var d := Dec(n);
    while v % 10 != 0 || v / 10 != 0
      invariant len <= |d|
      invariant v > 0 ==> d[..|d| - len] == Dec(v)
      invariant v == 0 ==> len == |d|
      invariant forall i :: 0 <= i < len ==> s[i] == d[|d| - 1 - i]
      decreases v
    {
      var c := v % 10 + ZERO;
      assert d[|d| - 1 - len] == d[..|d| - len][|d| - len - 1] == c;
      assert v >= 10 ==> d[..|d| - len - 1] == d[..|d| - len][..|d| - len - 1] == Dec(v / 10);
      v := v / 10;
      s[len + 1] := s[len];
      s[len] := c;
      len := len + 1;
    }
  }

  method ReverseInPlace(s: array<byte>, len: nat)
    requires len <= s.Length
    modifies s
    ensures forall k :: 0 <= k < len ==> s[k] == old(s[len - 1 - k])
    ensures forall k :: len <= k < s.Length ==> s[k] == old(s[k])
  {
    for i := 0 to len / 2
      invariant forall k :: 0 <= k < i ==> s[k] == old(s[len - 1 - k])
      invariant forall k :: len - i <= k < len ==> s[k] == old(s[len - 1 - k])
      invariant forall k :: i <= k < len - i ==> s[k] == old(s[k])
      invariant forall k :: len <= k < s.Length ==> s[k] == old(s[k])
    {
      s[i], s[len - 1 - i] := s[len - 1 - i], s[i];
    }
  }

  /** Writes the number, digits from the right and then reversed in place. For zero only the digit is
      written: the byte after it, and so the text that is seen, is whatever was there before. */
  method HiItoa(s: array<byte>, num: int)
    requires |SignedDec(num)| < s.Length
    modifies s
    ensures num != 0 ==> HoldsText(s[..], SignedDec(num))
    ensures num == 0 ==> s[..] == old(s[..])[0 := ZERO]
  {
    if num == 0 {
      s[0] := ZERO;
      return;
    }
    ghost var t := SignedDec(num);
    var len := WriteDigits(s, if num < 0 then -num else num);
    if num < 0 {
      s[len] := MINUS;
      len := len + 1;
    }
    s[len] := 0;
    assert forall i :: 0 <= i < len ==> s[i] == t[len - 1 - i];
    ReverseInPlace(s, len);
    assert forall i :: 0 <= i < len ==> s[i] == t[i];
    assert s[..][..len] == t;
  }

  method StrLen(s: array<byte>, ghost text: seq<byte>) returns (len: nat)
    requires HoldsText(s[..], text)
    ensures len == |text|
  {
    assert forall i :: 0 <= i < |text| ==> s[i] == s[..][..|text|][i] == text[i];
    len := 0;
    while s[len] != 0
      invariant len <= |text|
      decreases |text| - len
    {
      len := len + 1;
    }
  }

  // ---------------------------------------------------------------- reading a number

  // The source's 32-bit int, wrapping around.
  function Wrap32(v: int): (w: int)
    ensures -0x8000_0000 <= w < 0x8000_0000 && (-0x8000_0000 <= v < 0x8000_0000 ==> w == v)
  {
    (v + 0x8000_0000) % UINT32 - 0x8000_0000
  }

  /** What the numeral reader answers: -1 for anything but digits, and for what wraps to a negative. */
  function Atoi(line: seq<byte>): int {
    if line == [] || !AllDigits(line) || Wrap32(DecValue(line)) < 0 then -1 else Wrap32(DecValue(line))
  }

  /** A numeral below 2^31 is read back. */
  lemma AtoiDec(n: nat)
    requires n < 0x8000_0000
    ensures Atoi(Dec(n)) == n
  {
    DecRoundTrip(n);
  }

  lemma WrapStep(v: int, d: int)
    ensures Wrap32(Wrap32(v) * 10 + d) == Wrap32(v * 10 + d)
  {
    var q := (v + 0x8000_0000) / UINT32;
    assert Wrap32(v) == v - q * UINT32;
    WrapShift(v * 10 + d, -10 * q);
  }

  lemma WrapShift(v: int, k: int)
    ensures Wrap32(v + k * UINT32) == Wrap32(v)
  {
    var u := v + 0x8000_0000;
    var q, r := u / UINT32, u % UINT32;
    assert u + k * UINT32 == (q + k) * UINT32 + r;
  }

  method HiAtoi(line: seq<byte>) returns (value: int)
    ensures value == Atoi(line)
  {
    if |line| == 0 {
      return -1;
    }
    value := 0;
    for i := 0 to |line|
      invariant AllDigits(line[..i]) && value == Wrap32(DecValue(line[..i]))
    {
      if line[i] < ZERO || line[i] > ZERO + 9 {
        return -1;
      }
      assert line[..i + 1][..i] == line[..i];
      WrapStep(DecValue(line[..i]), line[i] - ZERO);
      value := Wrap32(value * 10 + (line[i] - ZERO));
    }
    assert line[..|line|] == line;
    if value < 0 {
      return -1;
    }
  }

  /** The decimal length by repeated division. */
  method UintLen(num: nat) returns (n: nat)
    ensures n == |Dec(num)|
  {
    if num == 0 {
      return 1;
    }
    var v := num;
    n := 0;
    while v != 0
      invariant n + (if v == 0 then 0 else |Dec(v)|) == |Dec(num)|
    {
      n := n + 1;
      v := v / 10;
    }
  }

  // ---------------------------------------------------------------- stale digits

  /** The text in the buffer after formatting `n` over the text `prev`. */
  function Formatted(prev: seq<byte>, n: nat): seq<byte>
    requires prev != []
  {
    if n == 0 then prev[0 := ZERO] else Dec(n)
  }

  /** The length texts written for a run of keys, the buffer first holding `prev`. */
  function LengthTexts(prev: seq<byte>, lens: seq<nat>): (r: seq<seq<byte>>)
    requires prev != []
    ensures |r| == |lens|
    decreases |lens|
  {
    if lens == [] then [] else
    [Formatted(prev, lens[0])] + LengthTexts(Formatted(prev, lens[0]), lens[1..])
  }

  /** Every zero follows a number that was written with one digit. */
  predicate ZerosFollowDigits(prev: nat, lens: seq<nat>)
    decreases |lens|
  {
    lens == [] || ((lens[0] == 0 ==> prev < 10) && ZerosFollowDigits(lens[0], lens[1..]))
  }

  function TotalLength(texts: seq<seq<byte>>): nat {
    if texts == [] then 0 else |texts[0]| + TotalLength(texts[1..])
  }

  function DecTexts(lens: seq<nat>): (r: seq<seq<byte>>)
    ensures |r| == |lens|
  {
    if lens == [] then [] else [Dec(lens[0])] + DecTexts(lens[1..])
  }

  /** The texts are never shorter than the true numerals, whatever the buffer held. */
  lemma {:induction false} TextsAtLeast(prev: seq<byte>, lens: seq<nat>)
    requires prev != []
    ensures TotalLength(LengthTexts(prev, lens)) >= TotalLength(DecTexts(lens))
    decreases |lens|
  {
    if lens != [] {
      TextsAtLeast(Formatted(prev, lens[0]), lens[1..]);
    }
  }

  /** The numerals written take exactly the room reserved for them if and only if every empty key
      follows a key of fewer than ten bytes (the first: an argument count below ten). */
  lemma {:induction false} TextsExact(prev: nat, lens: seq<nat>)
    ensures TotalLength(LengthTexts(Dec(prev), lens)) == TotalLength(DecTexts(lens))
        <==> ZerosFollowDigits(prev, lens)
    ensures ZerosFollowDigits(prev, lens) ==> LengthTexts(Dec(prev), lens) == DecTexts(lens)
    decreases |lens|
  {
    if lens != [] {
      TextsAtLeast(Formatted(Dec(prev), lens[0]), lens[1..]);
      if lens[0] != 0 || prev < 10 {
        assert Formatted(Dec(prev), lens[0]) == Dec(lens[0]);
        TextsExact(lens[0], lens[1..]);
      } else {
        assert |Dec(prev)| > 1;
      }
    }
  }

  /** By how many bytes the texts written exceed the plain numerals. */
  function Excess(prev: seq<byte>, lens: seq<nat>): nat
    requires prev != []
  {
    TextsAtLeast(prev, lens);
    TotalLength(LengthTexts(prev, lens)) - TotalLength(DecTexts(lens))
  }

  /** One text, and the rest; without excess the text is the plain numeral. */
  lemma ExcessStep(prev: seq<byte>, lens: seq<nat>)
    requires prev != [] && lens != []
    ensures var t := Formatted(prev, lens[0]);
            && |t| >= |Dec(lens[0])| && Excess(prev, lens) == |t| - |Dec(lens[0])| + Excess(t, lens[1..])
            && (|t| == |Dec(lens[0])| ==> t == Dec(lens[0]))
  {
  }
}
