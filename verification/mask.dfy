/** Payload masking (`src/mask.rs`): the word-wise loop agrees with the octet-wise rule of RFC 6455, section 5.3. */
module Masking {
  import opened Bytes

  // ---------- Exclusive or ----------

  /** The exclusive or of the low `bits` bits of two unsigned integers. */
  function Xor(a: nat, b: nat, bits: nat): (r: nat) {
    if bits == 0 then 0 else 2 * Xor(a / 2, b / 2, bits - 1) + (a + b) % 2
  }

  function Pow2(bits: nat): nat {
    if bits == 0 then 1 else 2 * Pow2(bits - 1)
  }

  lemma {:induction false} XorBound(a: nat, b: nat, bits: nat)
    ensures Xor(a, b, bits) < Pow2(bits)
  {
    if bits > 0 {
      XorBound(a / 2, b / 2, bits - 1);
    }
  }

  lemma Pow2Byte()
    ensures Pow2(8) == 256
  {
    assert Pow2(4) == 16;
  }

  function XorByte(a: byte, b: byte): byte {
    XorBound(a as nat, b as nat, 8);
    Pow2Byte();
    Xor(a as nat, b as nat, 8) as byte
  }

  lemma {:induction false} XorTwice(a: nat, b: nat, bits: nat)
    requires a < Pow2(bits)
    ensures Xor(Xor(a, b, bits), b, bits) == a
  {
    if bits > 0 {
      XorUnfold(a, b, bits);
      hide Xor, Pow2;
      XorTwice(a / 2, b / 2, bits - 1);
      var half, odd := Xor(a / 2, b / 2, bits - 1), (a + b) % 2;
      HalfOfDouble(half, odd);
      ParityCancels(half, a, b);
      XorUnfold(2 * half + odd, b, bits);
    }
  }

  lemma HalfOfDouble(a: nat, a0: nat)
    ensures (2 * a + a0) / 2 == a + a0 / 2
  {
  }

  lemma ParityCancels(half: nat, a: nat, b: nat)
    ensures (2 * half + (a + b) % 2 + b) % 2 == a % 2
  {
  }

  lemma ParityOfDoubles(a: nat, a0: nat, b: nat, b0: nat)
    ensures (2 * a + a0 + (2 * b + b0)) % 2 == (a0 + b0) % 2
  {
  }

  lemma XorByteTwice(a: byte, b: byte)
    ensures XorByte(XorByte(a, b), b) == a
  {
    Pow2Byte();
    XorTwice(a as nat, b as nat, 8);
  }

  /** A mask that changes nothing is zero. */
  lemma {:induction false} XorKeeps(a: nat, b: nat, bits: nat)
    requires a < Pow2(bits) && b < Pow2(bits)
    ensures Xor(a, b, bits) == a <==> b == 0
  {
    if bits > 0 {
      XorUnfold(a, b, bits);
      hide Xor, Pow2;
      XorKeeps(a / 2, b / 2, bits - 1);
      SameHalves(a, b, Xor(a / 2, b / 2, bits - 1));
    }
  }

  lemma SameHalves(a: nat, b: nat, half: nat)
    ensures 2 * half + (a + b) % 2 == a <==> half == a / 2 && b % 2 == 0
    ensures b == 0 <==> b / 2 == 0 && b % 2 == 0
  {
    ParityEven(a, b);
  }

  lemma ParityEven(a: nat, b: nat)
    ensures (a + b) % 2 == a % 2 <==> b % 2 == 0
  {
  }

  lemma XorByteKeeps(a: byte, b: byte)
    ensures XorByte(a, b) == a <==> b == 0
  {
    Pow2Byte();
    XorKeeps(a as nat, b as nat, 8);
  }

  // The operator on bits, kept apart from the arithmetic.

  function Num(a: bv8): nat {
    a as nat
  }

  function Half(a: bv8): bv8 {
    a >> 1
  }

  predicate Odd(a: bv8) {
    a & 1 == 1
  }

  function BitXor(a: bv8, b: bv8): bv8 {
    a ^ b
  }

  lemma HalfOfBits(a: bv8)
    ensures Num(Half(a)) == Num(a) / 2
  {
  }

  lemma ParityOfBits(a: bv8)
    ensures Num(a) % 2 == if Odd(a) then 1 else 0
  {
  }

  lemma BitsOfXor(a: bv8, b: bv8)
    ensures Half(BitXor(a, b)) == BitXor(Half(a), Half(b))
    ensures Odd(BitXor(a, b)) <==> Odd(a) != Odd(b)
  {
  }

  lemma ZeroBits(a: bv8, b: bv8)
    requires Num(a) == 0 && Num(b) == 0
    ensures Num(BitXor(a, b)) == 0
  {
    assert a == 0 && b == 0;
  }

  lemma SumParity(a: nat, b: nat)
    ensures (a + b) % 2 == if a % 2 == b % 2 then 0 else 1
  {
  }

  lemma HalvesAdd(a: bv8, b: bv8)
    ensures Num(BitXor(a, b)) == 2 * Num(BitXor(Half(a), Half(b))) + (Num(a) + Num(b)) % 2
  {
    hide *;
    HalfOfBits(BitXor(a, b));
    BitsOfXor(a, b);
    ParityOfBits(a);
    ParityOfBits(b);
    ParityOfBits(BitXor(a, b));
    SumParity(Num(a), Num(b));
  }

  lemma XorUnfold(a: nat, b: nat, bits: nat)
    requires bits > 0
    ensures Xor(a, b, bits) == 2 * Xor(a / 2, b / 2, bits - 1) + (a + b) % 2
    ensures a < Pow2(bits) ==> a / 2 < Pow2(bits - 1)
    ensures b < Pow2(bits) ==> b / 2 < Pow2(bits - 1)
  {
  }

  lemma XorOfNothing(a: nat, b: nat)
    requires a < Pow2(0) && b < Pow2(0)
    ensures a == 0 && b == 0 && Xor(a, b, 0) == 0
  {
  }

  lemma {:induction false} XorIsBitwise(a: bv8, b: bv8, bits: nat)
    requires Num(a) < Pow2(bits) && Num(b) < Pow2(bits)
    ensures Xor(Num(a), Num(b), bits) == Num(BitXor(a, b))
    decreases bits
  {
    hide *;
    if bits == 0 {
      XorOfNothing(Num(a), Num(b));
      ZeroBits(a, b);
    } else {
      HalfOfBits(a);
      HalfOfBits(b);
      XorUnfold(Num(a), Num(b), bits);
      XorIsBitwise(Half(a), Half(b), bits - 1);
      HalvesAdd(a, b);
    }
  }

  /** The arithmetic above is the operator of the source. */
  lemma XorByteIsBitwise(a: bv8, b: bv8)
    ensures XorByte(a as byte, b as byte) as nat == (a ^ b) as nat
  {
    Pow2Byte();
    XorIsBitwise(a, b, 8);
  }

  // ---------- Machine words ----------

  function ShiftLeft(a: nat, bits: nat): nat {
    if bits == 0 then a else 2 * ShiftLeft(a, bits - 1)
  }

  lemma ShiftByte(a: nat)
    ensures ShiftLeft(a, 8) == 256 * a
  {
    assert ShiftLeft(a, 1) == 2 * a;
    assert ShiftLeft(a, 2) == 4 * a;
    assert ShiftLeft(a, 4) == 16 * a;
    assert ShiftLeft(a, 6) == 64 * a;
  }

  /** Exclusive or works on the low bits and on the rest separately. */
  lemma {:induction false} XorSplit(a: nat, a0: nat, b: nat, b0: nat, bits: nat, low: nat)
    requires a0 < Pow2(low) && b0 < Pow2(low)
    ensures Xor(ShiftLeft(a, low) + a0, ShiftLeft(b, low) + b0, bits + low)
         == ShiftLeft(Xor(a, b, bits), low) + Xor(a0, b0, low)
  {
    if low > 0 {
      XorUnfold(a0, b0, low);
      hide Xor, Pow2;
      XorSplit(a, a0 / 2, b, b0 / 2, bits, low - 1);
      XorShiftOnce(ShiftLeft(a, low - 1), a0, ShiftLeft(b, low - 1), b0, bits + low - 1,
                   ShiftLeft(Xor(a, b, bits), low - 1), Xor(a0 / 2, b0 / 2, low - 1));
      ShiftUnfold(a, low);
      ShiftUnfold(b, low);
      ShiftUnfold(Xor(a, b, bits), low);
    }
  }

  lemma XorShiftOnce(a: nat, a0: nat, b: nat, b0: nat, bits: nat, high: nat, low: nat)
    requires Xor(a + a0 / 2, b + b0 / 2, bits) == high + low
    ensures Xor(2 * a + a0, 2 * b + b0, bits + 1) == 2 * high + (2 * low + (a0 + b0) % 2)
  {
    XorOfDoubles(a, a0, b, b0, bits);
  }

  lemma ShiftUnfold(a: nat, low: nat)
    requires low > 0
    ensures ShiftLeft(a, low) == 2 * ShiftLeft(a, low - 1)
  {
  }

  lemma XorOfDoubles(a: nat, a0: nat, b: nat, b0: nat, bits: nat)
    ensures Xor(2 * a + a0, 2 * b + b0, bits + 1) == 2 * Xor(a + a0 / 2, b + b0 / 2, bits) + (a0 + b0) % 2
  {
    HalfOfDouble(a, a0);
    HalfOfDouble(b, b0);
    ParityOfDoubles(a, a0, b, b0);
  }

  lemma XorAppend(a: nat, a0: byte, b: nat, b0: byte, bits: nat)
    ensures Xor(256 * a + a0 as nat, 256 * b + b0 as nat, bits + 8)
         == 256 * Xor(a, b, bits) + XorByte(a0, b0) as nat
  {
    Pow2Byte();
    ShiftByte(a);
    ShiftByte(b);
    ShiftByte(Xor(a, b, bits));
    XorSplit(a, a0 as nat, b, b0 as nat, bits, 8);
  }

  /** A 32-bit word. */
  type u32 = w: nat | w < 0x1_0000_0000

  /** The word with the octets `b3` to `b0`, most significant first. */
  function Word(b3: byte, b2: byte, b1: byte, b0: byte): u32 {
    256 * (256 * (256 * b3 as nat + b2 as nat) + b1 as nat) + b0 as nat
  }

  function Octet(w: u32, i: nat): byte
    requires i < 4
  {
    match i
    case 0 => (w % 256) as byte
    case 1 => (w / 256 % 256) as byte
    case 2 => (w / 0x10000 % 256) as byte
    case 3 => (w / 0x100_0000) as byte
  }

  lemma OctetsOfWord(b3: byte, b2: byte, b1: byte, b0: byte)
    ensures var w := Word(b3, b2, b1, b0);
            Octet(w, 3) == b3 && Octet(w, 2) == b2 && Octet(w, 1) == b1 && Octet(w, 0) == b0
  {
  }

  /** `u32::rotate_left(8)`: what is shifted out at the top comes back in at the bottom. */
  function RotateLeft8(w: u32): u32 {
    w * 0x100 % 0x1_0000_0000 + w / 0x100_0000
  }

  /** `u32::rotate_right(8)` */
  function RotateRight8(w: u32): u32 {
    w / 0x100 + w % 0x100 * 0x100_0000
  }

  lemma RotateLeftOctets(b3: byte, b2: byte, b1: byte, b0: byte)
    ensures RotateLeft8(Word(b3, b2, b1, b0)) == Word(b2, b1, b0, b3)
  {
    var w: nat, low: nat := Word(b3, b2, b1, b0), Word(0, b2, b1, b0);
    assert w == 0x100_0000 * b3 as nat + low;
    assert w * 0x100 == 0x1_0000_0000 * b3 as nat + 0x100 * low;
    assert w / 0x100_0000 == b3 as nat;
    assert w * 0x100 % 0x1_0000_0000 == 0x100 * low;
  }

  lemma RotateRightOctets(b3: byte, b2: byte, b1: byte, b0: byte)
    ensures RotateRight8(Word(b3, b2, b1, b0)) == Word(b0, b3, b2, b1)
  {
  }

  function XorWord(v: u32, w: u32): nat {
    Xor(v, w, 32)
  }

  lemma XorWordOctets(a3: byte, a2: byte, a1: byte, a0: byte, b3: byte, b2: byte, b1: byte, b0: byte)
    ensures XorWord(Word(a3, a2, a1, a0), Word(b3, b2, b1, b0))
         == Word(XorByte(a3, b3), XorByte(a2, b2), XorByte(a1, b1), XorByte(a0, b0))
  {
    hide Xor;
    var a, b := 256 * a3 as nat + a2 as nat, 256 * b3 as nat + b2 as nat;
    XorAppend(a3 as nat, a2, b3 as nat, b2, 8);
    XorAppend(a, a1, b, b1, 16);
    XorAppend(256 * a + a1 as nat, a0, 256 * b + b1 as nat, b0, 24);
  }

  // ---------- Keys ----------

  /** A masking key. */
  type Key = k: seq<byte> | |k| == 4 witness [0, 0, 0, 0]

  /** Octet `i` of the transformed data is octet `i` of the original XOR octet `i` modulo 4 of the key. */
  function Xored(s: seq<byte>, key: Key): (r: seq<byte>)
    ensures |r| == |s|
    ensures forall i :: 0 <= i < |s| ==> r[i] == XorByte(s[i], key[i % 4])
  {
    seq(|s|, i requires 0 <= i < |s| => XorByte(s[i], key[i % 4]))
  }

  lemma XoredTwice(s: seq<byte>, key: Key)
    ensures Xored(Xored(s, key), key) == s
  {
    forall i | 0 <= i < |s| ensures Xored(Xored(s, key), key)[i] == s[i] {
      XorByteTwice(s[i], key[i % 4]);
    }
  }

  /** `u32::from_ne_bytes` on a machine of either byte order. */
  function FromMemory(b: Key, bigEndian: bool): u32 {
    if bigEndian then Word(b[0], b[1], b[2], b[3]) else Word(b[3], b[2], b[1], b[0])
  }

  /** `u32::to_ne_bytes` */
  function ToMemory(w: u32, bigEndian: bool): Key {
    if bigEndian then [Octet(w, 3), Octet(w, 2), Octet(w, 1), Octet(w, 0)]
    else [Octet(w, 0), Octet(w, 1), Octet(w, 2), Octet(w, 3)]
  }

  lemma MemoryRoundTrip(b: Key, bigEndian: bool)
    ensures ToMemory(FromMemory(b, bigEndian), bigEndian) == b
  {
    if bigEndian {
      OctetsOfWord(b[0], b[1], b[2], b[3]);
    } else {
      OctetsOfWord(b[3], b[2], b[1], b[0]);
    }
  }

  /** The key word rotated by `head` octets, in the direction the byte order asks for. */
  function Rotated(w: u32, head: nat, bigEndian: bool): u32
    decreases head
  {
    if head == 0 then w
    else Rotated(if bigEndian then RotateLeft8(w) else RotateRight8(w), head - 1, bigEndian)
  }

  /** The key as seen from octet `head`. */
  function Turned(key: Key, head: nat): Key
    decreases head
  {
    if head == 0 then key else Turned([key[1], key[2], key[3], key[0]], head - 1)
  }

  lemma {:induction false} TurnedIndex(key: Key, head: nat, i: nat)
    ensures Turned(key, head)[i % 4] == key[(head + i) % 4]
    decreases head
  {
    if head > 0 {
      var next := [key[1], key[2], key[3], key[0]];
      TurnedIndex(next, head - 1, i);
      var k := (head - 1 + i) % 4;
      assert (head + i) % 4 == if k == 3 then 0 else k + 1;
    }
  }

  /** Rotating the word in the machine's byte order turns the key. */
  lemma {:induction false} RotatedIsTurned(key: Key, head: nat, bigEndian: bool)
    ensures Rotated(FromMemory(key, bigEndian), head, bigEndian) == FromMemory(Turned(key, head), bigEndian)
    decreases head
  {
    if head > 0 {
      var next := [key[1], key[2], key[3], key[0]];
      RotatedIsTurned(next, head - 1, bigEndian);
      if bigEndian {
        RotateLeftOctets(key[0], key[1], key[2], key[3]);
      } else {
        RotateRightOctets(key[3], key[2], key[1], key[0]);
      }
    }
  }

  /** One exclusive or of words is four of octets. */
  lemma XorInMemory(b: Key, key: Key, bigEndian: bool)
    ensures XorWord(FromMemory(b, bigEndian), FromMemory(key, bigEndian)) == FromMemory(Xored(b, key), bigEndian)
  {
    if bigEndian {
      XorWordOctets(b[0], b[1], b[2], b[3], key[0], key[1], key[2], key[3]);
    } else {
      XorWordOctets(b[3], b[2], b[1], b[0], key[3], key[2], key[1], key[0]);
    }
  }

  // ---------- The loops ----------

  /** `r` is `s` with the octets `lo..hi` masked. */
  ghost predicate IsXoredSlice(r: seq<byte>, s: seq<byte>, lo: nat, hi: nat, key: Key) {
    && lo <= hi <= |s| == |r|
    && forall j :: 0 <= j < |s| ==> r[j] == if lo <= j < hi then XorByte(s[j], key[(j - lo) % 4]) else s[j]
  }

  /** `unmask_easy` on the slice `a[lo..hi]`. */
  method UnmaskEasy(a: array<byte>, lo: nat, hi: nat, key: Key)
    requires lo <= hi <= a.Length
    modifies a
    ensures IsXoredSlice(a[..], old(a[..]), lo, hi, key)
  {
    ghost var s := a[..];
    for i := 0 to hi - lo
      invariant IsXoredSlice(a[..], s, lo, lo + i, key)
    {
      a[lo + i] := XorByte(a[lo + i], key[i % 4]);
    }
  }

  /** One word of the loop over whole words. */
  method UnmaskWord(a: array<byte>, at: nat, word: u32, bigEndian: bool, ghost key: Key)
    requires at + 4 <= a.Length && word == FromMemory(key, bigEndian)
    modifies a
    ensures IsXoredSlice(a[..], old(a[..]), at, at + 4, key)
  {
    var b := a[at..at + 4];
    var w := XorWord(FromMemory(b, bigEndian), word);
    XorInMemory(b, key, bigEndian);
    MemoryRoundTrip(Xored(b, key), bigEndian);
    var x := ToMemory(w, bigEndian);
    a[at], a[at + 1], a[at + 2], a[at + 3] := x[0], x[1], x[2], x[3];
  }

  /** The loop over whole words: `a[lo..lo + 4 * words]`, one 32-bit exclusive or at a time. */
  method UnmaskWords(a: array<byte>, lo: nat, words: nat, word: u32, bigEndian: bool, ghost key: Key)
    requires lo + 4 * words <= a.Length && word == FromMemory(key, bigEndian)
    modifies a
    ensures IsXoredSlice(a[..], old(a[..]), lo, lo + 4 * words, key)
  {
    ghost var s := a[..];
    for i := 0 to words
      invariant IsXoredSlice(a[..], s, lo, lo + 4 * i, key)
    {
      ghost var before := a[..];
      UnmaskWord(a, lo + 4 * i, word, bigEndian, key);
      ExtendByWord(before, a[..], s, lo, i, key);
    }
  }

  lemma ExtendByWord(before: seq<byte>, after: seq<byte>, s: seq<byte>, lo: nat, words: nat, key: Key)
    requires IsXoredSlice(before, s, lo, lo + 4 * words, key)
    requires IsXoredSlice(after, before, lo + 4 * words, lo + 4 * words + 4, key)
    ensures IsXoredSlice(after, s, lo, lo + 4 * words + 4, key)
  {
    var at := lo + 4 * words;
    forall j | 0 <= j < |s|
      ensures after[j] == if lo <= j < at + 4 then XorByte(s[j], key[(j - lo) % 4]) else s[j]
    {
      if at <= j < at + 4 {
        ModuloWords(j - at, words);
      }
    }
  }

  /** Masking in three parts, the later two with the key turned to where they start, is masking in one. */
  lemma XoredInParts(s: seq<byte>, s1: seq<byte>, s2: seq<byte>, s3: seq<byte>, key: Key, prefix: nat, words: nat)
    requires IsXoredSlice(s1, s, 0, prefix, key)
    requires IsXoredSlice(s2, s1, prefix, prefix + 4 * words, Turned(key, prefix % 4))
    requires IsXoredSlice(s3, s2, prefix + 4 * words, |s|, Turned(key, prefix % 4))
    ensures s3 == Xored(s, key)
  {
    var mid, turned := prefix + 4 * words, Turned(key, prefix % 4);
    forall j | 0 <= j < |s| ensures s3[j] == XorByte(s[j], key[j % 4]) {
      if j < prefix {
        assert s3[j] == s2[j] == s1[j];
      } else {
        TurnedPart(key, prefix, j - prefix);
        assert s1[j] == s[j];
        if j < mid {
          assert s3[j] == s2[j] == XorByte(s1[j], turned[(j - prefix) % 4]);
        } else {
          ModuloWords(j - mid, words);
          assert s2[j] == s1[j];
        }
      }
    }
  }

  lemma TurnedPart(key: Key, prefix: nat, i: nat)
    ensures Turned(key, prefix % 4)[i % 4] == key[(prefix + i) % 4]
  {
    TurnedIndex(key, prefix % 4, i);
    ModuloSum(prefix, i);
  }

  lemma ModuloSum(p: nat, i: nat)
    ensures (p % 4 + i) % 4 == (p + i) % 4
  {
  }

  lemma ModuloWords(i: nat, words: nat)
    ensures (i + 4 * words) % 4 == i % 4
  {
  }

  /** `unmask_fallback`: `prefix` and `words` are the split `align_to_mut` chose, the rest being the suffix. */
  method UnmaskFallback(buf: array<byte>, mask: Key, prefix: nat, words: nat, bigEndian: bool)
    requires prefix + 4 * words <= buf.Length
    modifies buf
    ensures buf[..] == Xored(old(buf[..]), mask)
  {
    var head := prefix % 4;
    var word := Rotated(FromMemory(mask, bigEndian), head, bigEndian);
    ghost var turned := Turned(mask, head);
    RotatedInMemory(mask, head, bigEndian);

    ghost var s := buf[..];
    UnmaskEasy(buf, 0, prefix, mask);
    ghost var s1 := buf[..];
    UnmaskWords(buf, prefix, words, word, bigEndian, turned);
    ghost var s2 := buf[..];
    UnmaskEasy(buf, prefix + 4 * words, buf.Length, ToMemory(word, bigEndian));
    XoredInParts(s, s1, s2, buf[..], mask, prefix, words);
  }

  lemma RotatedInMemory(key: Key, head: nat, bigEndian: bool)
    ensures var w := Rotated(FromMemory(key, bigEndian), head, bigEndian);
            w == FromMemory(Turned(key, head), bigEndian) && ToMemory(w, bigEndian) == Turned(key, head)
  {
    RotatedIsTurned(key, head, bigEndian);
    MemoryRoundTrip(Turned(key, head), bigEndian);
  }

  /** `align_to_mut` as its documentation allows it: any prefix and any number of whole words. */
  method AnySplit(len: nat) returns (prefix: nat, words: nat)
    ensures prefix + 4 * words <= len
  {
    assert 0 + 4 * 0 <= len;
    prefix, words :| 0 <= prefix && 0 <= words && prefix + 4 * words <= len;
  }

  /** `unmask`, whatever the alignment of the buffer and the byte order of the machine. */
  method Unmask(payload: array<byte>, mask: Key)
    modifies payload
    ensures payload[..] == Xored(old(payload[..]), mask)
  {
    var bigEndian: bool := *;
    var prefix, words := AnySplit(payload.Length);
    UnmaskFallback(payload, mask, prefix, words, bigEndian);
  }
}
