/**
  UTF-8 as section 4 of RFC 3629 defines it, the one-shot and resumable decoders
  that `src/fragment.rs` calls, and the byte-at-a-time automaton both refine.
 */
module Utf8 {
  import opened Bytes

  // ---------- The grammar of section 4 of RFC 3629 ----------

  predicate IsTail(b: byte) {
    0x80 <= b <= 0xBF
  }

  /** `c` is one encoded code point: the rules UTF8-1 to UTF8-4. */
  predicate IsChar(c: seq<byte>) {
    match |c|
    case 1 => c[0] <= 0x7F
    case 2 => 0xC2 <= c[0] <= 0xDF && IsTail(c[1])
    case 3 =>
      && IsTail(c[2])
      && (|| (c[0] == 0xE0 && 0xA0 <= c[1] <= 0xBF)
          || (0xE1 <= c[0] <= 0xEC && IsTail(c[1]))
          || (c[0] == 0xED && 0x80 <= c[1] <= 0x9F)
          || (0xEE <= c[0] <= 0xEF && IsTail(c[1])))
    case 4 =>
      && IsTail(c[2]) && IsTail(c[3])
      && (|| (c[0] == 0xF0 && 0x90 <= c[1] <= 0xBF)
          || (0xF1 <= c[0] <= 0xF3 && IsTail(c[1]))
          || (c[0] == 0xF4 && 0x80 <= c[1] <= 0x8F))
    case _ => false
  }

  /** A Unicode scalar value: a code point that is no surrogate. */
  predicate IsScalar(v: nat) {
    v < 0xD800 || 0xE000 <= v < 0x11_0000
  }

  /** The table of section 3 of RFC 3629: the bits of the value, six to a following byte. */
  function EncodeScalar(v: nat): seq<byte> {
    if v < 0x80 then [v as byte]
    else if v < 0x800 then [(0xC0 + v / 0x40) as byte, SixBits(v)]
    else if v < 0x1_0000 then [(0xE0 + v / 0x40 / 0x40) as byte, SixBits(v / 0x40), SixBits(v)]
    else if v < 0x11_0000 then
      [(0xF0 + v / 0x40 / 0x40 / 0x40) as byte, SixBits(v / 0x40 / 0x40), SixBits(v / 0x40), SixBits(v)]
    else []
  }

  function SixBits(v: nat): (b: byte)
    ensures IsTail(b)
  {
    (0x80 + v % 0x40) as byte
  }

  /** The value of an encoded code point. */
  function ScalarOf(c: seq<byte>): nat
    requires IsChar(c)
  {
    match |c|
    case 1 => c[0] as nat
    case 2 => Append(c[0] as nat - 0xC0, c[1])
    case 3 => Append(Append(c[0] as nat - 0xE0, c[1]), c[2])
    case _ => Append(Append(Append(c[0] as nat - 0xF0, c[1]), c[2]), c[3])
  }

  /** Six more bits at the low end. */
  function Append(high: nat, b: byte): nat
    requires IsTail(b)
  {
    0x40 * high + (b as nat - 0x80)
  }

  lemma AppendThenSplit(high: nat, b: byte)
    requires IsTail(b)
    ensures Append(high, b) / 0x40 == high && SixBits(Append(high, b)) == b
  {
  }

  lemma SplitThenAppend(v: nat)
    ensures Append(v / 0x40, SixBits(v)) == v
  {
  }

  /** The grammar describes exactly the encodings of scalar values. */
  lemma CharsAreScalars(c: seq<byte>)
    ensures IsChar(c) <==> exists v :: IsScalar(v) && c == EncodeScalar(v)
  {
    if IsChar(c) {
      CharOfScalar(c);
      assert IsScalar(ScalarOf(c));
    }
    if exists v :: IsScalar(v) && c == EncodeScalar(v) {
      var v :| IsScalar(v) && c == EncodeScalar(v);
      ScalarIsChar(v);
    }
  }

  lemma CharOfScalar(c: seq<byte>)
    requires IsChar(c)
    ensures IsScalar(ScalarOf(c)) && EncodeScalar(ScalarOf(c)) == c
  {
    if |c| == 2 {
      AppendThenSplit(c[0] as nat - 0xC0, c[1]);
    } else if |c| == 3 {
      ThreeBytes(c);
    } else if |c| == 4 {
      FourBytes(c);
    }
  }

  lemma ThreeBytes(c: seq<byte>)
    requires IsChar(c) && |c| == 3
    ensures IsScalar(ScalarOf(c)) && EncodeScalar(ScalarOf(c)) == c
  {
    var x := c[0] as nat - 0xE0;
    var y := Append(x, c[1]);
    AppendThenSplit(x, c[1]);
    AppendThenSplit(y, c[2]);
    assert 0x20 <= y && !(0x360 <= y < 0x380) && y < 0x400;
    hide SixBits;
  }

  lemma FourBytes(c: seq<byte>)
    requires IsChar(c) && |c| == 4
    ensures IsScalar(ScalarOf(c)) && EncodeScalar(ScalarOf(c)) == c
  {
    var x := c[0] as nat - 0xF0;
    var y := Append(x, c[1]);
    var z := Append(y, c[2]);
    AppendThenSplit(x, c[1]);
    AppendThenSplit(y, c[2]);
    AppendThenSplit(z, c[3]);
    assert 0x10 <= y < 0x110;
    hide SixBits;
  }

  lemma ScalarIsChar(v: nat)
    requires IsScalar(v)
    ensures IsChar(EncodeScalar(v)) && ScalarOf(EncodeScalar(v)) == v
  {
    SplitThenAppend(v);
    SplitThenAppend(v / 0x40);
    SplitThenAppend(v / 0x40 / 0x40);
    if v >= 0x1_0000 {
      FourByteForm(v);
    } else if v >= 0x800 {
      ThreeByteForm(v);
    }
    hide SixBits, Append;
  }

  lemma ThreeByteForm(v: nat)
    requires IsScalar(v) && 0x800 <= v < 0x1_0000
    ensures IsChar(EncodeScalar(v))
  {
    var high := v / 0x40 / 0x40;
    assert high == 0 ==> v / 0x40 >= 0x20;
    assert high == 13 ==> v / 0x40 < 0x360 && v / 0x40 % 0x40 < 0x20;
  }

  lemma FourByteForm(v: nat)
    requires 0x1_0000 <= v < 0x11_0000
    ensures IsChar(EncodeScalar(v))
  {
    var high, mid := v / 0x40 / 0x40 / 0x40, v / 0x40 / 0x40;
    assert 0x10 <= mid < 0x110;
    assert high == 0 ==> mid % 0x40 >= 0x10;
    assert high == 4 ==> mid % 0x40 < 0x10;
  }

  /** `s` is a string of encoded code points. */
  ghost predicate Valid(s: seq<byte>) {
    s == [] || exists n {:trigger Valid(s[n..])} :: 1 <= n <= |s| && IsChar(s[..n]) && Valid(s[n..])
  }

  /** `s` can still be continued to a valid string. */
  ghost predicate Viable(s: seq<byte>) {
    exists t :: Valid(s + t)
  }

  // ---------- The decoders ----------

  /** How many bytes the code point starting with `lead` takes; 0 when no code point does. */
  function Width(lead: byte): nat {
    if lead <= 0x7F then 1
    else if 0xC2 <= lead <= 0xDF then 2
    else if 0xE0 <= lead <= 0xEF then 3
    else if 0xF0 <= lead <= 0xF4 then 4
    else 0
  }

  /** The second bytes that exclude overlong forms, surrogates and values above U+10FFFF. */
  predicate IsSecond(lead: byte, b: byte) {
    if lead == 0xE0 then 0xA0 <= b <= 0xBF
    else if lead == 0xED then 0x80 <= b <= 0x9F
    else if lead == 0xF0 then 0x90 <= b <= 0xBF
    else if lead == 0xF4 then 0x80 <= b <= 0x8F
    else IsTail(b)
  }

  /** No byte of `p` is out of place after its lead byte. */
  predicate InPlace(p: seq<byte>)
    requires p != []
  {
    && |p| <= Width(p[0])
    && (|p| >= 2 ==> IsSecond(p[0], p[1]))
    && (|p| >= 3 ==> IsTail(p[2]))
    && (|p| >= 4 ==> IsTail(p[3]))
  }

  predicate IsWhole(c: seq<byte>) {
    c != [] && InPlace(c) && |c| == Width(c[0])
  }

  /** `p` is the beginning of a code point whose end has not arrived. */
  predicate IsPartial(p: seq<byte>) {
    p != [] && InPlace(p) && |p| < Width(p[0])
  }

  /** `utf8::decode`: the longest valid prefix has `validUpTo` bytes and what follows it is the start of a code point
      or not. */
  datatype Decoded = Ok | Incomplete(validUpTo: nat) | Invalid(validUpTo: nat)

  function Decode(s: seq<byte>): (d: Decoded)
    ensures !d.Ok? ==> d.validUpTo < |s|
    ensures d.Incomplete? ==> IsPartial(s[d.validUpTo..])
  {
    if s == [] then Ok
    else
      var n := Width(s[0]);
      if 0 < n <= |s| && IsWhole(s[..n]) then
        match Decode(s[n..])
        case Ok => Ok
        case Incomplete(k) => DropDrop(s, n, k); Incomplete(n + k)
        case Invalid(k) => Invalid(n + k)
      else if IsPartial(s) then Incomplete(0)
      else Invalid(0)
  }

  /** `Incomplete::try_complete`: not enough input, or the code points that the held bytes begin and the input left
      after them, or an error. */
  datatype Completed = NeedMore(held: seq<byte>) | Text(text: seq<byte>, rest: seq<byte>) | Error

  /** The held bytes live in a 4-byte buffer that is filled up from the input and decoded. */
  function TryComplete(held: seq<byte>, input: seq<byte>): Completed
    requires IsPartial(held)
  {
    var m := if 4 - |held| <= |input| then 4 - |held| else |input|;
    var spliced := held + input[..m];
    match Decode(spliced)
    case Ok => Text(spliced, input[m..])
    case Incomplete(0) => NeedMore(spliced)
    case Invalid(0) => Error
    case _ =>
      var k := Decode(spliced).validUpTo;
      if |held| <= k then Text(spliced[..k], input[k - |held|..]) else Error
  }

  // ---------- The automaton ----------

  /** What has been read: complete code points and the bytes of an incomplete one, or the complete code points before
      the first byte that fits nowhere. */
  datatype Scan = Good(text: seq<byte>, pending: seq<byte>) | Bad(text: seq<byte>)

  function Feed(text: seq<byte>, pending: seq<byte>, input: seq<byte>): Scan
    decreases |input|
  {
    if input == [] then Good(text, pending)
    else
      var p := pending + [input[0]];
      if IsWhole(p) then Feed(text + p, [], input[1..])
      else if IsPartial(p) then Feed(text, p, input[1..])
      else Bad(text)
  }

  function Resume(s: Scan, input: seq<byte>): Scan {
    match s
    case Good(text, pending) => Feed(text, pending, input)
    case Bad(_) => s
  }

  /** Cutting the input anywhere changes nothing. */
  lemma {:induction false} FeedConcat(text: seq<byte>, pending: seq<byte>, a: seq<byte>, b: seq<byte>)
    ensures Feed(text, pending, a + b) == Resume(Feed(text, pending, a), b)
    decreases |a|
  {
    if a == [] {
      assert a + b == b;
    } else {
      assert (a + b)[1..] == a[1..] + b;
      var p := pending + [a[0]];
      if IsWhole(p) {
        FeedConcat(text + p, [], a[1..], b);
      } else if IsPartial(p) {
        FeedConcat(text, p, a[1..], b);
      }
    }
  }

  lemma {:induction false} FeedPartial(text: seq<byte>, p: seq<byte>)
    requires p == [] || IsPartial(p)
    ensures Feed(text, [], p) == Good(text, p)
    decreases |p|
  {
    if p != [] {
      var q, b := p[..|p| - 1], p[|p| - 1];
      assert p == q + [b];
      FeedPartial(text, q);
      FeedConcat(text, [], q, [b]);
      assert Feed(text, q, [b]) == Good(text, p);
    }
  }

  lemma FeedWhole(text: seq<byte>, c: seq<byte>)
    requires IsWhole(c)
    ensures Feed(text, [], c) == Good(text + c, [])
  {
    var q, b := c[..|c| - 1], c[|c| - 1];
    assert c == q + [b];
    FeedPartial(text, q);
    FeedConcat(text, [], q, [b]);
    assert Feed(text, q, [b]) == Good(text + c, []);
  }

  lemma {:induction false} FeedBroken(text: seq<byte>, pending: seq<byte>, s: seq<byte>)
    requires pending == [] || IsPartial(pending)
    requires s != [] && !IsPartial(pending + s)
    requires forall n :: 1 <= n <= |s| ==> !IsWhole(pending + s[..n])
    ensures Feed(text, pending, s) == Bad(text)
    decreases |s|
  {
    var p := pending + [s[0]];
    assert s[..1] == [s[0]];
    assert !IsWhole(p);
    if IsPartial(p) {
      assert p + s[1..] == pending + s;
      forall n | 1 <= n <= |s[1..]| ensures !IsWhole(p + s[1..][..n]) {
        assert p + s[1..][..n] == pending + s[..n + 1];
      }
      FeedBroken(text, p, s[1..]);
    }
  }

  // ---------- The decoders refine the automaton ----------

  /** The scan a decoder outcome stands for. */
  function Outcome(text: seq<byte>, s: seq<byte>, d: Decoded): Scan
    requires !d.Ok? ==> d.validUpTo <= |s|
  {
    match d
    case Ok => Good(text + s, [])
    case Incomplete(k) => Good(text + s[..k], s[k..])
    case Invalid(k) => Bad(text + s[..k])
  }

  lemma {:induction false} DecodeRefines(text: seq<byte>, s: seq<byte>)
    ensures Outcome(text, s, Decode(s)) == Feed(text, [], s)
    decreases |s|
  {
    hide *;
    if s == [] {
      DecodeNothing(text);
    } else if 0 < Width(s[0]) <= |s| && IsWhole(s[..Width(s[0])]) {
      var n := Width(s[0]);
      DecodeAfter(s, n);
      FeedWholeThen(text, s, n);
      DecodeRefines(text + s[..n], s[n..]);
      OutcomeShift(text, s, n, Decode(s[n..]));
    } else {
      DecodeRefinesHere(text, s);
    }
  }

  lemma DecodeNothing(text: seq<byte>)
    ensures Outcome(text, [], Decode([])) == Feed(text, [], [])
  {
    assert text + [] == text;
  }

  lemma DecodeAfter(s: seq<byte>, n: nat)
    requires s != [] && n == Width(s[0]) && 0 < n <= |s| && IsWhole(s[..n])
    ensures var d := Decode(s[n..]);
            Decode(s) == if d.Ok? then d else d.(validUpTo := n + d.validUpTo)
  {
    hide InPlace;
  }

  /** The string begins with no whole code point. */
  lemma DecodeRefinesHere(text: seq<byte>, s: seq<byte>)
    requires s != [] && (0 < Width(s[0]) <= |s| ==> !IsWhole(s[..Width(s[0])]))
    ensures Outcome(text, s, Decode(s)) == Feed(text, [], s)
  {
    assert text + s[..0] == text && s[0..] == s;
    if IsPartial(s) {
      FeedPartial(text, s);
    } else {
      FeedBrokenStart(text, s);
    }
  }

  lemma FeedWholeThen(text: seq<byte>, s: seq<byte>, n: nat)
    requires n <= |s| && IsWhole(s[..n])
    ensures Feed(text, [], s) == Feed(text + s[..n], [], s[n..])
  {
    assert s == s[..n] + s[n..];
    FeedWhole(text, s[..n]);
    FeedConcat(text, [], s[..n], s[n..]);
  }

  lemma OutcomeShift(text: seq<byte>, s: seq<byte>, n: nat, d: Decoded)
    requires n <= |s| && (!d.Ok? ==> d.validUpTo <= |s| - n)
    ensures Outcome(text + s[..n], s[n..], d) ==
            Outcome(text, s, if d.Ok? then d else d.(validUpTo := n + d.validUpTo))
  {
    if d.Ok? {
      assert text + s[..n] + s[n..] == text + s;
    } else {
      var k := d.validUpTo;
      assert text + s[..n] + s[n..][..k] == text + s[..n + k];
      assert s[n..][k..] == s[n + k..];
    }
  }

  lemma FeedBrokenStart(text: seq<byte>, s: seq<byte>)
    requires s != [] && !IsPartial(s)
    requires Width(s[0]) <= |s| ==> !IsWhole(s[..Width(s[0])])
    ensures Feed(text, [], s) == Bad(text)
  {
    forall m | 1 <= m <= |s| ensures !IsWhole([] + s[..m]) {
      assert [] + s[..m] == s[..m];
    }
    assert [] + s == s;
    FeedBroken(text, [], s);
  }

  /** A decoded prefix that begins with a partial code point contains all of it. */
  lemma DecodeCoversPartial(held: seq<byte>, s: seq<byte>)
    requires IsPartial(held) && held <= s
    requires !Decode(s).Ok? && Decode(s).validUpTo > 0
    ensures |held| < Decode(s).validUpTo
  {
    assert s[0] == held[0];
  }

  /** Resuming with held bytes and decoding what is left reads the input as the automaton does. */
  lemma TryCompleteRefines(text: seq<byte>, held: seq<byte>, input: seq<byte>)
    requires IsPartial(held)
    ensures var c := TryComplete(held, input);
            Feed(text, held, input) ==
              if c.NeedMore? then Good(text, c.held) else if c.Text? then Feed(text + c.text, [], c.rest) else Bad(text)
    ensures TryComplete(held, input).NeedMore? ==> IsPartial(TryComplete(held, input).held)
  {
    hide Feed, Decode, InPlace;
    var m := if 4 - |held| <= |input| then 4 - |held| else |input|;
    var spliced := held + input[..m];
    var d := Decode(spliced);
    if !d.Ok? && d.validUpTo > 0 {
      DecodeCoversPartial(held, spliced);
      SplicedPrefix(held, input, m);
      CompletedPrefix(text, held, input, spliced);
    } else {
      SplicedAtOnce(text, held, input, m);
    }
  }

  lemma SplicedPrefix(held: seq<byte>, input: seq<byte>, m: nat)
    requires m <= |input|
    ensures held <= held + input[..m] <= held + input
  {
  }

  /** The held bytes and the start of the input decode to nothing but one piece. */
  lemma SplicedAtOnce(text: seq<byte>, held: seq<byte>, input: seq<byte>, m: nat)
    requires IsPartial(held) && m <= |input| && (m == |input| || m == 4 - |held|)
    requires var d := Decode(held + input[..m]); d.Ok? || d.validUpTo == 0
    ensures var spliced := held + input[..m];
            var d := Decode(spliced);
            && (d.Ok? ==> Feed(text, held, input) == Feed(text + spliced, [], input[m..]))
            && (d.Incomplete? ==> Feed(text, held, input) == Good(text, spliced) && IsPartial(spliced))
            && (d.Invalid? ==> Feed(text, held, input) == Bad(text))
  {
    var spliced := held + input[..m];
    FeedHeld(text, held, input);
    DecodeRefines(text, spliced);
    Resplice(held, input, m);
    FeedConcat(text, [], spliced, input[m..]);
    assert text + spliced[..0] == text && spliced[0..] == spliced;
    if Decode(spliced).Incomplete? {
      assert input[m..] == [];
    }
  }

  lemma Resplice(held: seq<byte>, input: seq<byte>, m: nat)
    requires m <= |input|
    ensures held + input == held + input[..m] + input[m..]
  {
  }

  lemma FeedHeld(text: seq<byte>, held: seq<byte>, input: seq<byte>)
    requires IsPartial(held)
    ensures Feed(text, [], held + input) == Feed(text, held, input)
  {
    FeedPartial(text, held);
    FeedConcat(text, [], held, input);
  }

  lemma CompletedPrefix(text: seq<byte>, held: seq<byte>, input: seq<byte>, spliced: seq<byte>)
    requires IsPartial(held) && held <= spliced <= held + input
    requires !Decode(spliced).Ok? && |held| <= Decode(spliced).validUpTo
    ensures var k := Decode(spliced).validUpTo;
            Feed(text, held, input) == Feed(text + spliced[..k], [], input[k - |held|..])
  {
    var k := Decode(spliced).validUpTo;
    FeedHeld(text, held, input);
    SplitWithin(held, input, spliced, k);
    DecodePrefix(spliced);
    DecodeRefines(text, spliced[..k]);
    FeedConcat(text, [], spliced[..k], input[k - |held|..]);
  }

  lemma SplitWithin(held: seq<byte>, input: seq<byte>, spliced: seq<byte>, k: nat)
    requires held <= spliced <= held + input && |held| <= k <= |spliced|
    ensures held + input == spliced[..k] + input[k - |held|..]
  {
  }

  /** The prefix a decoder reports as valid decodes without error. */
  lemma {:induction false} DecodePrefix(s: seq<byte>)
    requires !Decode(s).Ok?
    ensures Decode(s[..Decode(s).validUpTo]) == Ok
    decreases |s|
  {
    hide *;
    NotNothing(s);
    var n := Width(s[0]);
    if 0 < n <= |s| && IsWhole(s[..n]) {
      DecodeAfter(s, n);
      DecodePrefix(s[n..]);
      TakeTake(s, Decode(s).validUpTo, n);
      DecodeAfter(s[..Decode(s).validUpTo], n);
    }
  }

  lemma NotNothing(s: seq<byte>)
    requires !Decode(s).Ok?
    ensures s != []
    ensures !(0 < Width(s[0]) <= |s| && IsWhole(s[..Width(s[0])])) ==> Decode(s).validUpTo == 0
    ensures Decode(s[..0]) == Ok
  {
    hide InPlace, IsWhole;
  }

  // ---------- The automaton decides the grammar ----------

  lemma WholeIsChar(c: seq<byte>)
    ensures IsWhole(c) <==> IsChar(c)
  {
  }

  /** A held prefix is exactly a non-empty proper prefix of some encoded code point. */
  lemma PartialIsProperPrefix(p: seq<byte>)
    ensures IsPartial(p) <==> p != [] && exists t :: t != [] && IsChar(p + t)
  {
    if IsPartial(p) {
      var second: byte := if p[0] == 0xE0 then 0xA0 else if p[0] == 0xF0 then 0x90 else 0x80;
      var t: seq<byte> :=
        if |p| == 1 then [second, 0x80, 0x80][..Width(p[0]) - 1] else [0x80, 0x80][..Width(p[0]) - |p|];
      assert IsWhole(p + t);
      WholeIsChar(p + t);
    }
    if p != [] && exists t :: t != [] && IsChar(p + t) {
      var t :| t != [] && IsChar(p + t);
      WholeIsChar(p + t);
      assert (p + t)[0] == p[0];
    }
  }

  lemma {:induction false} ValidAppend(s: seq<byte>, c: seq<byte>)
    requires Valid(s) && IsChar(c)
    ensures Valid(s + c)
    decreases |s|
  {
    if s == [] {
      assert s + c == c && c[..|c|] == c && c[|c|..] == [];
      ValidStep(c, |c|);
    } else {
      var n :| 1 <= n <= |s| && IsChar(s[..n]) && Valid(s[n..]);
      hide Valid, IsChar;
      ValidAppend(s[n..], c);
      CutAppend(s, c, n);
      ValidStep(s + c, n);
    }
  }

  lemma ValidStep(s: seq<byte>, n: nat)
    requires n <= |s| && IsChar(s[..n]) && Valid(s[n..])
    ensures Valid(s)
  {
    assert s[..n] != [];
    hide IsChar;
  }

  /** The automaton drops no byte. */
  lemma {:induction false} FeedKeeps(text: seq<byte>, pending: seq<byte>, input: seq<byte>)
    requires pending == [] || IsPartial(pending)
    ensures var r := Feed(text, pending, input);
            && text <= r.text
            && (r.Good? ==> r.text + r.pending == text + (pending + input) && (r.pending == [] || IsPartial(r.pending)))
            && (r.Bad? ==> r.text < text + (pending + input))
    decreases |input|
  {
    if input == [] {
      assert pending + input == pending;
    } else {
      var p := pending + [input[0]];
      assert pending + input == p + input[1..];
      if IsWhole(p) {
        FeedKeeps(text + p, [], input[1..]);
        assert text + p + ([] + input[1..]) == text + (p + input[1..]);
      } else if IsPartial(p) {
        FeedKeeps(text, p, input[1..]);
      }
    }
  }

  /** Its text stays valid. */
  lemma {:induction false} FeedTextValid(text: seq<byte>, pending: seq<byte>, input: seq<byte>)
    requires Valid(text)
    ensures Valid(Feed(text, pending, input).text)
    decreases |input|
  {
    if input != [] {
      var p := pending + [input[0]];
      if IsWhole(p) {
        WholeIsChar(p);
        ValidAppend(text, p);
        FeedTextValid(text + p, [], input[1..]);
      } else if IsPartial(p) {
        FeedTextValid(text, p, input[1..]);
      }
    }
  }

  /** From the start. */
  lemma FeedFromStart(s: seq<byte>)
    ensures var r := Feed([], [], s);
            && r.text <= s && Valid(r.text)
            && (r.Good? ==> r.text + r.pending == s && (r.pending == [] || IsPartial(r.pending)))
  {
    FeedKeeps([], [], s);
    FeedTextValid([], [], s);
    assert [] + ([] + s) == s;
  }

  lemma FeedChar(text: seq<byte>, s: seq<byte>, n: nat)
    requires n <= |s| && IsChar(s[..n])
    ensures Feed(text, [], s) == Feed(text + s[..n], [], s[n..])
  {
    WholeIsChar(s[..n]);
    FeedWholeThen(text, s, n);
  }

  lemma {:induction false} FeedValid(text: seq<byte>, s: seq<byte>)
    requires Valid(s)
    ensures Feed(text, [], s) == Good(text + s, [])
    decreases |s|
  {
    if s == [] {
      assert text + s == text;
    } else {
      var n :| 1 <= n <= |s| && IsChar(s[..n]) && Valid(s[n..]);
      FeedChar(text, s, n);
      FeedValid(text + s[..n], s[n..]);
      SplitAt(text, s, n);
    }
  }

  /** The automaton rejects exactly the byte strings that no valid string begins with. */
  lemma FeedDecidesViable(s: seq<byte>)
    ensures Feed([], [], s).Good? <==> Viable(s)
  {
    if Viable(s) {
      var t :| Valid(s + t);
      FeedValid([], s + t);
      FeedConcat([], [], s, t);
    }
    if Feed([], [], s).Good? {
      var text, p := Feed([], [], s).text, Feed([], [], s).pending;
      FeedFromStart(s);
      PartialExtends(text, p);
    }
  }

  lemma PartialExtends(text: seq<byte>, p: seq<byte>)
    requires Valid(text) && (p == [] || IsPartial(p))
    ensures Viable(text + p)
  {
    if p == [] {
      assert text + p + [] == text;
    } else {
      PartialIsProperPrefix(p);
      var t :| t != [] && IsChar(p + t);
      ValidAppend(text, p + t);
      assert text + (p + t) == text + p + t;
    }
  }

  /** Its text is the longest valid prefix of what it read. */
  lemma FeedLongest(s: seq<byte>, k: nat)
    requires k <= |s| && Valid(s[..k])
    ensures |Feed([], [], s).text| >= k
  {
    FeedValid([], s[..k]);
    assert s == s[..k] + s[k..] && [] + s[..k] == s[..k];
    FeedConcat([], [], s[..k], s[k..]);
    FeedKeeps(s[..k], [], s[k..]);
  }

  /** One-shot decoding accepts exactly the strings of the grammar. */
  lemma {:induction false} DecodeDecidesValid(s: seq<byte>)
    ensures Decode(s).Ok? <==> Valid(s)
  {
    DecodeRefines([], s);
    FeedFromStart(s);
    assert [] + s == s;
    if Valid(s) {
      FeedValid([], s);
    }
  }
}
