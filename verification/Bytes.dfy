/** Bytes, machine integers and their big-endian wire form. */
module Bytes {

  type byte = b: int | 0 <= b < 0x100
  type u32 = n: int | 0 <= n < 0x1_0000_0000
  type u64 = n: int | 0 <= n < 0x1_0000_0000_0000_0000
  type bytes = seq<byte>

  datatype Option<+T> = None | Some(value: T)

  const U32_LIMIT := 0x1_0000_0000

  /** `u32::to_be_bytes`. */
  function PutU32(n: u32): (r: bytes)
    ensures |r| == 4
  {
    [n / 0x100_0000, n / 0x1_0000 % 0x100, n / 0x100 % 0x100, n % 0x100]
  }

  /** `u32::from_be_bytes`. */
  function GetU32(s: bytes): (n: u32)
    requires |s| == 4
  {
    var a: int, b: int, c: int, d: int := s[0], s[1], s[2], s[3];
    a * 0x100_0000 + b * 0x1_0000 + c * 0x100 + d
  }

  /** `u64::to_be_bytes`. */
  function PutU64(n: u64): (r: bytes)
    ensures |r| == 8
  {
    PutU32(n / 0x1_0000_0000) + PutU32(n % 0x1_0000_0000)
  }

  /** `u64::from_be_bytes`. */
  function GetU64(s: bytes): (n: u64)
    requires |s| == 8
  {
    GetU32(s[..4]) * 0x1_0000_0000 + GetU32(s[4..])
  }

  /** A word survives a trip through its bytes. */
  lemma U32RoundTrip(n: u32)
    ensures GetU32(PutU32(n)) == n
  {
    var q1 := n / 0x100;
    var q2 := q1 / 0x100;
    var q3 := q2 / 0x100;
    Quotient(n, 0x1_0000, q2, (q1 % 0x100) * 0x100 + n % 0x100);
    Quotient(n, 0x100_0000, q3, (q2 % 0x100) * 0x1_0000 + (q1 % 0x100) * 0x100 + n % 0x100);
  }

  /** Four bytes survive a trip through their word. */
  lemma U32BytesRoundTrip(s: bytes)
    requires |s| == 4
    ensures PutU32(GetU32(s)) == s
  {
    Digits(s[0], s[1], s[2], s[3]);
  }

  lemma Digits(a: int, b: int, c: int, d: int)
    requires 0 <= b < 0x100 && 0 <= c < 0x100 && 0 <= d < 0x100
    ensures var n := a * 0x100_0000 + b * 0x1_0000 + c * 0x100 + d;
            n / 0x100_0000 == a && n / 0x1_0000 % 0x100 == b && n / 0x100 % 0x100 == c && n % 0x100 == d
  {
    var q1 := a * 0x1_0000 + b * 0x100 + c;
    var q2 := a * 0x100 + b;
    Quotient(q1 * 0x100 + d, 0x100, q1, d);
    Quotient(q2 * 0x1_0000 + c * 0x100 + d, 0x1_0000, q2, c * 0x100 + d);
    Quotient(a * 0x100_0000 + b * 0x1_0000 + c * 0x100 + d, 0x100_0000, a, b * 0x1_0000 + c * 0x100 + d);
    Quotient(q1, 0x100, q2, c);
    Quotient(q2, 0x100, a, b);
  }

  lemma Quotient(n: int, m: int, q: int, r: int)
    requires 0 <= r < m && n == q * m + r
    ensures n / m == q && n % m == r
  {
    var e := n / m - q;
    assert e * m == r - n % m;
    Multiple(e, m);
  }

  lemma Multiple(e: int, m: int)
    requires m > 0
    ensures e >= 1 ==> e * m >= m
    ensures e <= -1 ==> e * m <= -m
  {
  }

  lemma U64RoundTrip(n: u64)
    ensures GetU64(PutU64(n)) == n
  {
    var hi, lo := n / 0x1_0000_0000, n % 0x1_0000_0000;
    assert PutU64(n)[..4] == PutU32(hi) && PutU64(n)[4..] == PutU32(lo);
    U32RoundTrip(hi);
    U32RoundTrip(lo);
  }

  /** Eight bytes survive a trip through their word. */
  lemma U64BytesRoundTrip(s: bytes)
    requires |s| == 8
    ensures PutU64(GetU64(s)) == s
  {
    hide PutU32; hide GetU32;
    var hi, lo := GetU32(s[..4]), GetU32(s[4..]);
    Quotient(GetU64(s), 0x1_0000_0000, hi, lo);
    U32BytesRoundTrip(s[..4]);
    U32BytesRoundTrip(s[4..]);
    assert s == s[..4] + s[4..];
  }

  lemma ConcatAssociative<T>(a: seq<T>, b: seq<T>, c: seq<T>)
    ensures (a + b) + c == a + (b + c)
  {
  }
}
