// Bytes, the characters the protocol names, and decimal numerals.

module Bytes {

  type byte = b: int | 0 <= b < 256

  const CR: byte := 13
  const LF: byte := 10
  const SPACE: byte := 32
  const DOLLAR: byte := 36
  const STAR: byte := 42
  const PLUS: byte := 43
  const MINUS: byte := 45
  const COLON: byte := 58
  const ZERO: byte := 48
  const CRLF: seq<byte> := [CR, LF]

  // The modulus of the source's uint32_t arithmetic.
  const UINT32: int := 0x1_0000_0000

  datatype Option<+T> = None | Some(value: T)

  lemma ConcatTwice<T>(a: seq<T>, b: seq<T>, c: seq<T>)
    ensures a + (b + c) == a + b + c
  {
  }

  predicate IsDigit(b: byte) { 48 <= b <= 57 }

  predicate AllDigits(s: seq<byte>) { forall i :: 0 <= i < |s| ==> IsDigit(s[i]) }

  /** What "%d", "%zu" and the hand-written itoa functions print. */
  function Dec(n: nat): (s: seq<byte>)
    ensures s != [] && AllDigits(s)
  {
    if n < 10 then [ZERO + n] else Dec(n / 10) + [ZERO + n % 10]
  }

  /** The value of a numeral read left to right, as value * 10 + digit. */
  function DecValue(s: seq<byte>): nat
    requires AllDigits(s)
  {
    if s == [] then 0 else 10 * DecValue(s[..|s| - 1]) + (s[|s| - 1] - ZERO)
  }

  lemma {:induction false} DecRoundTrip(n: nat)
    ensures DecValue(Dec(n)) == n
  {
    if n >= 10 {
      DecRoundTrip(n / 10);
      assert Dec(n)[..|Dec(n)| - 1] == Dec(n / 10);
    }
  }

  /** One more digit. */
  lemma DecValueGrows(s: seq<byte>, k: nat)
    requires k < |s| && AllDigits(s[..k])
    ensures IsDigit(s[k]) ==> AllDigits(s[..k + 1]) && DecValue(s[..k + 1]) == 10 * DecValue(s[..k]) + (s[k] - ZERO)
  {
    assert s[..k + 1][..k] == s[..k];
  }

  lemma {:induction false} DecValuePrefix(s: seq<byte>, k: nat)
    requires AllDigits(s) && k <= |s|
    ensures DecValue(s[..k]) <= DecValue(s)
  {
    if k == |s| {
      assert s[..k] == s;
    } else {
      DecValuePrefix(s[..|s| - 1], k);
      assert s[..|s| - 1][..k] == s[..k];
    }
  }

  /** A signed integer as the RESP printers write it. */
  function SignedDec(n: int): seq<byte> {
    if n < 0 then [MINUS] + Dec(-n) else Dec(n)
  }

  /** The first place of a byte at or after `from`, or the length when there is none. */
  function IndexOf(s: seq<byte>, b: byte, from: nat): (k: nat)
    requires from <= |s|
    ensures from <= k <= |s|
    ensures (k < |s| ==> s[k] == b) && forall i :: from <= i < k ==> s[i] != b
    decreases |s| - from
  {
    if from == |s| || s[from] == b then from else IndexOf(s, b, from + 1)
  }

  lemma IndexOfIs(s: seq<byte>, b: byte, from: nat, k: nat)
    requires from <= k < |s| && s[k] == b && b !in s[from..k]
    ensures IndexOf(s, b, from) == k
  {
    forall i | from <= i < k
      ensures s[i] != b
    {
      assert s[i] == s[from..k][i - from];
    }
  }

  lemma {:induction false} IndexOfNone(s: seq<byte>, b: byte, from: nat)
    requires from <= |s| && b !in s
    ensures IndexOf(s, b, from) == |s|
    decreases |s| - from
  {
    if from < |s| {
      IndexOfNone(s, b, from + 1);
    }
  }
}
