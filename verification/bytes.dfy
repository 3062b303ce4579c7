/** Bytes, machine integers and the small result types shared by every layer. */
module Bytes {
  /** One octet, as the Rust `u8`. */
  newtype byte = b: int | 0 <= b < 256

  /** A length or size on a 64-bit target. */
  type usize = n: nat | n < USIZE_LIMIT

  const USIZE_LIMIT: nat := 0x1_0000_0000_0000_0000

  datatype Option<+T> = None | Some(value: T)

  datatype Result<+T, +E> = Success(value: T) | Failure(error: E)

  lemma Assoc<T>(a: seq<T>, b: seq<T>, c: seq<T>)
    ensures (a + b) + c == a + (b + c)
  {
  }

  lemma SplitAt<T>(a: seq<T>, s: seq<T>, n: nat)
    requires n <= |s|
    ensures a + s[..n] + s[n..] == a + s
  {
  }

  lemma CutAppend<T>(s: seq<T>, c: seq<T>, n: nat)
    requires n <= |s|
    ensures (s + c)[..n] == s[..n] && (s + c)[n..] == s[n..] + c
  {
  }

  lemma DropDrop<T>(s: seq<T>, n: nat, k: nat)
    requires n + k <= |s|
    ensures s[n..][k..] == s[n + k..]
  {
  }

  lemma TakeTake<T>(s: seq<T>, k: nat, n: nat)
    requires n <= k <= |s|
    ensures s[..k][..n] == s[..n] && s[..k][n..] == s[n..][..k - n]
  {
  }

  /** The number of values `k` bytes can hold. */
  function Pow256(k: nat): (p: nat)
    ensures p > 0
  {
    if k == 0 then 1 else 256 * Pow256(k - 1)
  }

  /** The value of an unsigned big-endian integer. */
  function FromBigEndian(b: seq<byte>): nat {
    if b == [] then 0 else 256 * FromBigEndian(b[..|b| - 1]) + b[|b| - 1] as nat
  }

  /** The low `k` bytes of `n`, most significant first; higher bytes are cut off as by a Rust `as` cast. */
  function ToBigEndian(n: nat, k: nat): (b: seq<byte>)
    ensures |b| == k
  {
    if k == 0 then [] else ToBigEndian(n / 256, k - 1) + [(n % 256) as byte]
  }

  lemma {:induction false} EncodeThenDecode(n: nat, k: nat)
    requires n < Pow256(k)
    ensures FromBigEndian(ToBigEndian(n, k)) == n
  {
    if k > 0 {
      EncodeThenDecode(n / 256, k - 1);
      var init, last := ToBigEndian(n / 256, k - 1), n % 256;
      SplitLast(init, last as byte);
    }
  }

  lemma SplitLast(init: seq<byte>, last: byte)
    ensures FromBigEndian(init + [last]) == 256 * FromBigEndian(init) + last as nat
  {
    assert (init + [last])[..|init|] == init;
  }

  lemma {:induction false} DecodeThenEncode(b: seq<byte>)
    ensures FromBigEndian(b) < Pow256(|b|)
    ensures ToBigEndian(FromBigEndian(b), |b|) == b
  {
    if b != [] {
      var init, last := b[..|b| - 1], b[|b| - 1];
      DecodeThenEncode(init);
      assert FromBigEndian(b) / 256 == FromBigEndian(init);
      assert FromBigEndian(b) % 256 == last as nat;
      assert b == init + [last];
    }
  }
}
