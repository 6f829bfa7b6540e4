/**
 * `formatHex`: the verbose log's rendering of a block as lower-case hex
 * byte pairs separated by single spaces ("0a ff 10").
 */
module HexFormat {
  import opened Bytes

  /** The digit `hex.EncodeToString` writes for a nibble, from the table "0123456789abcdef". */
  function HexDigit(n: int): (c: char)
    requires 0 <= n < 16
    ensures ('0' <= c <= '9' || 'a' <= c <= 'f') && DigitValue(c) == n
  {
    if n < 10 then ('0' as int + n) as char else ('a' as int + n - 10) as char
  }

  /** The nibble a lower-case hex digit stands for (0 for any other character). */
  function DigitValue(c: char): (n: int)
    ensures 0 <= n < 16
  {
    if '0' <= c <= '9' then c as int - '0' as int
    else if 'a' <= c <= 'f' then c as int - 'a' as int + 10
    else 0
  }

  /** `hex.EncodeToString`: two digits per byte, high nibble first. */
  function EncodeToString(b: seq<Byte>): (h: string)
    ensures |h| == 2 * |b|
    ensures forall k :: 0 <= k < |b| ==> h[2 * k] == HexDigit(b[k] / 16) && h[2 * k + 1] == HexDigit(b[k] % 16)
  {
    if b == [] then ""
    else
      var rest := EncodeToString(b[1..]);
      assert forall k :: 1 <= k < |b| ==> b[1..][k - 1] == b[k];
      [HexDigit(b[0] / 16), HexDigit(b[0] % 16)] + rest
  }

  /** The first `n` bytes of `b` have their two digits at positions 3k and 3k+1 of `s`. */
  predicate DigitsUpTo(s: string, b: seq<Byte>, n: nat)
    requires n <= |b| && 3 * n <= |s| + 1
  {
    forall k :: 0 <= k < n ==> s[3 * k] == HexDigit(b[k] / 16) && s[3 * k + 1] == HexDigit(b[k] % 16)
  }

  /** Every third character of `s`, from position 2 on, is a space. */
  predicate SpacesBetween(s: string) {
    forall p :: 0 <= p < |s| && p % 3 == 2 ==> s[p] == ' '
  }

  /**
   * `s` is the spaced hex form of `b`: for byte k, its two digits at
   * positions 3k and 3k+1, a single space at 3k+2 between bytes, and no
   * trailing space.
   */
  predicate SpacedHex(s: string, b: seq<Byte>) {
    && |s| == (if b == [] then 0 else 3 * |b| - 1)
    && DigitsUpTo(s, b, |b|)
    && SpacesBetween(s)
  }

  /**
   * One pass of the `formatHex` loop: appending byte n's two digits, and
   * a space unless it is the last byte, extends the spaced form by one byte.
   */
  lemma FormatHexStep(out: string, b: seq<Byte>, h: string, i: nat, n: nat)
    requires n < |b| && i == 2 * n && |out| == 3 * n && DigitsUpTo(out, b, n) && SpacesBetween(out)
    requires |h| == 2 * |b| && h[i] == HexDigit(b[n] / 16) && h[i + 1] == HexDigit(b[n] % 16)
    ensures i + 2 == |h| ==> DigitsUpTo(out + h[i..i + 2], b, n + 1) && SpacesBetween(out + h[i..i + 2])
    ensures i + 2 != |h| ==> DigitsUpTo(out + h[i..i + 2] + " ", b, n + 1) && SpacesBetween(out + h[i..i + 2] + " ")
  {
    var pair := out + h[i..i + 2];
    assert forall k :: 0 <= k < n ==> pair[3 * k] == out[3 * k] && pair[3 * k + 1] == out[3 * k + 1];
    assert pair[3 * n] == h[i] && pair[3 * n + 1] == h[i + 1];
    if i + 2 != |h| {
      var spaced := pair + " ";
      assert forall p :: 0 <= p < |pair| ==> spaced[p] == pair[p];
    }
  }

  /**
   * `formatHex`: walk the hex string two digits at a time, appending a
   * space after every pair but the last. The index stays even and never
   * passes the end of the hex string.
   */
  method FormatHex(b: seq<Byte>) returns (out: string)
    ensures SpacedHex(out, b)
  {
    var h := EncodeToString(b);
    out := "";
    var i := 0;
    ghost var n := 0;
    while i < |h|
      invariant 0 <= n <= |b| && i == 2 * n
      invariant |out| == (if n == 0 then 0 else if n == |b| then 3 * n - 1 else 3 * n)
      invariant DigitsUpTo(out, b, n) && SpacesBetween(out)
    {
      FormatHexStep(out, b, h, i, n);
      out := out + h[i..i + 2];
      i := i + 2;
      n := n + 1;
      if i != |h| {
        out := out + " ";
      }
    }
  }

  /** Read a spaced hex string back into bytes: two digits, then skip the separator. */
  function ParseSpacedHex(s: string): (b: seq<Byte>)
    decreases |s|
  {
    if |s| < 2 then []
    else [16 * DigitValue(s[0]) + DigitValue(s[1])] + (if |s| < 3 then [] else ParseSpacedHex(s[3..]))
  }

  /** Dropping the first byte and its following space leaves the spaced form of the remaining bytes. */
  lemma SpacedHexTail(s: string, b: seq<Byte>)
    requires SpacedHex(s, b) && |b| > 1
    ensures SpacedHex(s[3..], b[1..])
  {
    var s', b' := s[3..], b[1..];
    forall k | 0 <= k < |b'|
      ensures s'[3 * k] == HexDigit(b'[k] / 16) && s'[3 * k + 1] == HexDigit(b'[k] % 16)
    {
      assert s'[3 * k] == s[3 * (k + 1)] && s'[3 * k + 1] == s[3 * (k + 1) + 1];
    }
    forall p | 0 <= p < |s'| && p % 3 == 2
      ensures s'[p] == ' '
    {
      assert s'[p] == s[p + 3];
    }
  }

  /** The spaced hex form loses nothing: parsing it gives the bytes back. */
  lemma {:induction false} ParseSpacedHexInverse(s: string, b: seq<Byte>)
    requires SpacedHex(s, b)
    ensures ParseSpacedHex(s) == b
  {
    if b != [] {
      assert s[0] == HexDigit(b[0] / 16) && s[1] == HexDigit(b[0] % 16);
      if |b| > 1 {
        SpacedHexTail(s, b);
        ParseSpacedHexInverse(s[3..], b[1..]);
      }
    }
  }

  /** The spaced hex form of a byte sequence is unique. */
  lemma SpacedHexUnique(s: string, t: string, b: seq<Byte>)
    requires SpacedHex(s, b) && SpacedHex(t, b)
    ensures s == t
  {
    forall p | 0 <= p < |s|
      ensures s[p] == t[p]
    {
      var k := p / 3;
      if p % 3 == 0 {
        assert s[3 * k] == t[3 * k];
      } else if p % 3 == 1 {
        assert s[3 * k + 1] == t[3 * k + 1];
      }
    }
  }
}
