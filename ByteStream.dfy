/**
 * Byte-level vocabulary shared by the PAA reader and writer: fixed-width
 * unsigned integers, little-endian encoding, the error outcomes of a read,
 * and the overwrite-at-offset that the writer's offset backpatch needs.
 */
module ByteStream {

  type byte = x: int | 0 <= x < 0x100
  type u16 = x: int | 0 <= x < 0x1_0000
  type u32 = x: int | 0 <= x < 0x1_0000_0000

  const U32_MODULUS: nat := 0x1_0000_0000

  /** Why a read stops: the stream ends before a declared field or payload,
      or one of the 4-byte scalar tags is shorter than the word read from it. */
  datatype Error = Truncated | ShortScalarTag(name: seq<byte>)

  datatype Option<+T> = None | Some(value: T)

  datatype Result<+T> = Ok(value: T) | Err(error: Error) {
    predicate IsFailure() { Err? }
    function PropagateFailure<U>(): Result<U> requires Err? { Err(error) }
    function Extract(): T requires Ok? { value }
  }

  function Pow256(k: nat): (p: nat)
    ensures p >= 1
  {
    if k == 0 then 1 else 0x100 * Pow256(k - 1)
  }

  /** The unsigned little-endian value of a byte string. */
  function LE(s: seq<byte>): (n: nat)
    ensures n < Pow256(|s|)
  {
    if s == [] then 0 else s[0] + 0x100 * LE(s[1..])
  }

  /** The k little-endian bytes of n (n must fit). */
  function Encode(n: nat, k: nat): (s: seq<byte>)
    requires n < Pow256(k)
    ensures |s| == k
  {
    if k == 0 then [] else [n % 0x100] + Encode(n / 0x100, k - 1)
  }

  function LE16(n: u16): (s: seq<byte>)
    ensures |s| == 2
  {
    Encode(n, 2)
  }

  function LE32(n: u32): (s: seq<byte>)
    ensures |s| == 4
  {
    Encode(n, 4)
  }

  /** Decoding what was encoded gives the number back. */
  lemma {:induction false} DecodeEncode(n: nat, k: nat)
    requires n < Pow256(k)
    ensures LE(Encode(n, k)) == n
  {
    if k > 0 {
      DecodeEncode(n / 0x100, k - 1);
    }
  }

  /** Encoding a decoded byte string gives the bytes back, so equal values
      mean equal byte strings of the same width. */
  lemma {:induction false} EncodeDecode(s: seq<byte>)
    ensures Encode(LE(s), |s|) == s
  {
    if s != [] {
      EncodeDecode(s[1..]);
      assert LE(s) % 0x100 == s[0];
      assert LE(s) / 0x100 == LE(s[1..]);
    }
  }

  /** LE is zero exactly when every byte is zero. */
  lemma {:induction false} LEZero(s: seq<byte>)
    ensures LE(s) == 0 <==> forall i :: 0 <= i < |s| ==> s[i] == 0
  {
    if s != [] {
      LEZero(s[1..]);
      assert forall i :: 1 <= i < |s| ==> s[i] == s[1..][i - 1];
    }
  }

  function Pow2(k: nat): (p: nat)
    ensures p >= 1
  {
    if k == 0 then 1 else 2 * Pow2(k - 1)
  }

  /** Bitwise AND of two naturals (the `&` of the unsigned integer types),
      defined bit by bit from the lowest bit. */
  function BitAnd(a: nat, b: nat): nat
  {
    if a == 0 || b == 0 then 0
    else 2 * BitAnd(a / 2, b / 2) + (if a % 2 == 1 && b % 2 == 1 then 1 else 0)
  }

  /** Bitwise OR of two naturals (the `|` of the unsigned integer types). */
  function BitOr(a: nat, b: nat): nat
  {
    if a == 0 then b
    else if b == 0 then a
    else 2 * BitOr(a / 2, b / 2) + (if a % 2 == 1 || b % 2 == 1 then 1 else 0)
  }

  /** Masking with 2^k - 1 keeps the low k bits. */
  lemma {:induction false} BitAndLowMask(a: nat, k: nat)
    ensures BitAnd(a, Pow2(k) - 1) == a % Pow2(k)
  {
    var q := Pow2(k);
    if k == 0 {
      assert q == 1;
      DivModUnique(a, 1, a, 0);
    } else if a == 0 {
      DivModUnique(0, q, 0, 0);
    } else {
      var p := Pow2(k - 1);
      assert q == 2 * p;
      var m := 2 * p - 1;
      assert m / 2 == p - 1 && m % 2 == 1 by {
        DivModUnique(m, 2, p - 1, 1);
      }
      BitAndLowMask(a / 2, k - 1);
      assert BitAnd(a, m) == 2 * ((a / 2) % p) + a % 2;
      ModHalf(a, p);
      assert a % q == a % (2 * p);
    }
  }

  lemma ModHalf(a: nat, q: nat)
    requires q >= 1
    ensures a % (2 * q) == 2 * ((a / 2) % q) + a % 2
  {
    var h := a / 2;
    assert h == q * (h / q) + h % q;
    assert a == (2 * q) * (h / q) + (2 * (h % q) + a % 2);
    DivModUnique(a, 2 * q, h / q, 2 * (h % q) + a % 2);
  }

  /** Quotient and remainder are the only ones of their kind. */
  lemma DivModUnique(a: int, m: int, d: int, r: int)
    requires m > 0 && a == m * d + r && 0 <= r < m
    ensures a / m == d && a % m == r
  {
    var q, s := a / m, a % m;
    assert m * (q - d) == r - s;
    if q > d {
      MulAtLeast(m, q - d);
    } else if q < d {
      MulAtLeast(m, d - q);
    }
  }

  lemma MulAtLeast(m: int, x: int)
    requires m > 0 && x >= 1
    ensures m * x >= m
  {
  }

  /** Setting bit k never changes the bits below it. */
  lemma {:induction false} BitOrHighBit(a: nat, k: nat)
    ensures BitAnd(BitOr(a, Pow2(k)), Pow2(k) - 1) == a % Pow2(k)
  {
    BitAndLowMask(BitOr(a, Pow2(k)), k);
    BitOrKeepsLowBits(a, k);
  }

  lemma {:induction false} BitOrKeepsLowBits(a: nat, k: nat)
    ensures BitOr(a, Pow2(k)) % Pow2(k) == a % Pow2(k)
  {
    var q := Pow2(k);
    if k == 0 {
      assert q == 1;
      DivModUnique(BitOr(a, q), 1, BitOr(a, q), 0);
      DivModUnique(a, 1, a, 0);
    } else if a == 0 {
      assert BitOr(0, q) == q;
      DivModUnique(q, q, 1, 0);
      DivModUnique(0, q, 0, 0);
    } else {
      var p := Pow2(k - 1);
      assert q == 2 * p;
      assert q / 2 == p && q % 2 == 0 by {
        DivModUnique(q, 2, p, 0);
      }
      var y := BitOr(a / 2, p);
      var x := BitOr(a, q);
      assert x == 2 * y + a % 2;
      assert x / 2 == y && x % 2 == a % 2 by {
        DivModUnique(x, 2, y, a % 2);
      }
      BitOrKeepsLowBits(a / 2, k - 1);
      ModHalf(a, p);
      ModHalf(x, p);
    }
  }

  /** Setting a bit below position n of a number below 2^n stays below 2^n. */
  lemma {:induction false} BitOrBelow(a: nat, k: nat, n: nat)
    requires k < n && a < Pow2(n)
    ensures BitOr(a, Pow2(k)) < Pow2(n)
  {
    if a > 0 && k > 0 {
      BitOrBelow(a / 2, k - 1, n - 1);
    } else if a > 0 {
      assert BitOr(a, 1) == 2 * (a / 2) + 1;
      assert Pow2(n) == 2 * Pow2(n - 1);
    } else {
      Pow2Monotone(k + 1, n);
    }
  }

  lemma {:induction false} Pow2Monotone(k: nat, n: nat)
    requires k <= n
    ensures Pow2(k) <= Pow2(n)
  {
    if k < n { Pow2Monotone(k, n - 1); }
  }

  function Zeros(n: nat): (s: seq<byte>)
    ensures |s| == n && forall i :: 0 <= i < n ==> s[i] == 0
  {
    seq(n, _ => 0)
  }

  /** The bytes at [pos, pos + n), or Truncated when the stream is shorter. */
  function ReadBytes(s: seq<byte>, pos: nat, n: nat): (r: Result<seq<byte>>)
    ensures r.Ok? <==> pos + n <= |s|
    ensures r.Ok? ==> |r.value| == n && r.value == s[pos..pos + n]
  {
    if pos + n <= |s| then Ok(s[pos..pos + n]) else Err(Truncated)
  }

  /** Writes w over s starting at position at, as a seek back followed by a
      write does on a file that is already long enough. */
  function Overwrite(s: seq<byte>, at: nat, w: seq<byte>): (r: seq<byte>)
    requires at + |w| <= |s|
    ensures |r| == |s|
    ensures forall i :: 0 <= i < |s| ==> r[i] == if at <= i < at + |w| then w[i - at] else s[i]
  {
    s[..at] + w + s[at + |w|..]
  }

  /** Two adjacent overwrites are one overwrite of their concatenation. */
  lemma OverwriteAdjacent(s: seq<byte>, at: nat, w1: seq<byte>, w2: seq<byte>)
    requires at + |w1| + |w2| <= |s|
    ensures Overwrite(Overwrite(s, at, w1), at + |w1|, w2) == Overwrite(s, at, w1 + w2)
  {
    var a := Overwrite(Overwrite(s, at, w1), at + |w1|, w2);
    var b := Overwrite(s, at, w1 + w2);
    assert |a| == |b|;
    forall i | 0 <= i < |a| ensures a[i] == b[i] {
      if at <= i < at + |w1| {
        assert b[i] == (w1 + w2)[i - at];
      } else if at + |w1| <= i < at + |w1| + |w2| {
        assert b[i] == (w1 + w2)[i - at];
      }
    }
  }
}
