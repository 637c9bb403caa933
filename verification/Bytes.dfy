// Byte strings and little-endian 32-bit words.
module Bytes {

  type Byte = x: nat | x < 256

  const U32_LIMIT := 0x1_0000_0000

  predicate AllZero(s: seq<Byte>) { forall i | 0 <= i < |s| :: s[i] == 0 }

  function Zeros(n: nat): seq<Byte> { seq(n, _ => 0) }

  predicate Printable(text: seq<Byte>) { forall i | 0 <= i < |text| :: 0x20 <= text[i] <= 0x7E }

  function AlignUp4(value: nat): nat { (value + 3) / 4 * 4 }

  function Padding(length: nat): (p: nat)
    ensures p < 4 && (length + p) % 4 == 0
  {
    (4 - length % 4) % 4
  }

  lemma PaddingIsAlignment(start: nat, length: nat)
    requires start % 4 == 0
    ensures AlignUp4(start + length) == start + length + Padding(length)
  {
  }

  lemma Reassociate(a: seq<Byte>, b: seq<Byte>, c: seq<Byte>)
    ensures (a + b) + c == a + (b + c)
  {
  }

  lemma ZeroBytes(s: seq<Byte>)
    requires AllZero(s)
    ensures s == Zeros(|s|)
  {
  }

  function U32At(data: seq<Byte>, at: nat): (r: nat)
    requires at + 4 <= |data|
    ensures r < U32_LIMIT
  {
    var a: nat, b: nat, c: nat, d: nat := data[at], data[at + 1], data[at + 2], data[at + 3];
    a + 256 * b + 0x1_0000 * c + 0x100_0000 * d
  }

  function U32Bytes(x: nat): (r: seq<Byte>)
    requires x < U32_LIMIT
    ensures |r| == 4
  {
    [x % 256, x / 256 % 256, x / 0x1_0000 % 256, x / 0x100_0000]
  }

  lemma U32RoundTrip(x: nat, before: seq<Byte>, after: seq<Byte>)
    requires x < U32_LIMIT
    ensures U32At(before + U32Bytes(x) + after, |before|) == x
  {
    var b := U32Bytes(x);
    var data := before + b + after;
    assert data[|before|] == b[0] && data[|before| + 1] == b[1];
    assert data[|before| + 2] == b[2] && data[|before| + 3] == b[3];
    assert x / 0x1_0000 == x / 256 / 256 && x / 0x100_0000 == x / 0x1_0000 / 256;
  }

  lemma LowestByte(low: nat, high: nat)
    requires low < 256
    ensures (low + 256 * high) % 256 == low && (low + 256 * high) / 256 == high
  {
  }

  lemma U32Unique(data: seq<Byte>, at: nat)
    requires at + 4 <= |data|
    ensures U32Bytes(U32At(data, at)) == data[at..at + 4]
  {
    var a: nat, b: nat, c: nat, d: nat := data[at], data[at + 1], data[at + 2], data[at + 3];
    var x := U32At(data, at);
    LowestByte(a, b + 256 * (c + 256 * d));
    LowestByte(b, c + 256 * d);
    LowestByte(c, d);
    assert x / 0x1_0000 == x / 256 / 256 && x / 0x100_0000 == x / 0x1_0000 / 256;
  }

  // Each byte weighs 256 times as much as the one before it: the low byte stands first.
  lemma ByteWeighs(data: seq<Byte>, at: nat, k: nat, x: Byte)
    requires at + 4 <= |data| && k < 4
    ensures var d: int := x - data[at + k];
      U32At(data[at + k := x], at) - U32At(data, at) ==
      if k == 0 then d else if k == 1 then 0x100 * d else if k == 2 then 0x1_0000 * d else 0x100_0000 * d
  {
    var changed := data[at + k := x];
    assert forall i | at <= i < at + 4 && i != at + k :: changed[i] == data[i];
  }

  // ---------- words and lists written out ----------

  predicate IsWord(x: nat) { x < 0x1_0000_0000 }

  // The four bytes of a word, low byte first.
  function WordAs(x: nat): (b: seq<Byte>)
    ensures |b| == 4
  {
    [x % 256, x / 0x100 % 256, x / 0x1_0000 % 256, x / 0x100_0000 % 256]
  }

  lemma WordIs(x: nat)
    requires IsWord(x)
    ensures U32Bytes(x) == WordAs(x)
  {
  }

  // The prints of a list of values, one behind the other.
  function Joined<T>(write: T -> seq<Byte>, vs: seq<T>): seq<Byte> {
    if vs == [] then [] else Joined(write, vs[..|vs| - 1]) + write(vs[|vs| - 1])
  }

  // ---------- tables of words ----------

  function Words(data: seq<Byte>, at: nat, n: nat): (r: seq<nat>)
    requires at + 4 * n <= |data|
    ensures |r| == n
  {
    seq(n, i requires 0 <= i < n => U32At(data, at + 4 * i))
  }

  function WordBytes(words: seq<nat>): (r: seq<Byte>)
    requires forall i | 0 <= i < |words| :: words[i] < U32_LIMIT
    ensures |r| == 4 * |words|
  {
    if words == [] then [] else WordBytes(words[..|words| - 1]) + U32Bytes(words[|words| - 1])
  }

  lemma {:induction false} WordBytesAt(words: seq<nat>, before: seq<Byte>, after: seq<Byte>, i: nat)
    requires forall j | 0 <= j < |words| :: words[j] < U32_LIMIT
    requires i < |words|
    ensures U32At(before + WordBytes(words) + after, |before| + 4 * i) == words[i]
  {
    var n := |words| - 1;
    var init, last := WordBytes(words[..n]), U32Bytes(words[n]);
    if i == n {
      assert before + WordBytes(words) + after == (before + init) + last + after;
      U32RoundTrip(words[n], before + init, after);
    } else {
      assert before + WordBytes(words) + after == before + init + (last + after);
      WordBytesAt(words[..n], before, last + after, i);
    }
  }

  lemma {:induction false} WordsStand(file: seq<Byte>, at: nat, n: nat)
    requires at + 4 * n <= |file|
    ensures WordBytes(Words(file, at, n)) == file[at..at + 4 * n]
  {
    if n > 0 {
      var k: nat := n - 1;
      WordsStand(file, at, k);
      assert Words(file, at, n)[..k] == Words(file, at, k);
      U32Unique(file, at + 4 * k);
      assert file[at..at + 4 * n] == file[at..at + 4 * k] + file[at + 4 * k..at + 4 * k + 4];
    }
  }

  lemma WordLimits(file: seq<Byte>, at: nat, n: nat)
    requires at + 4 * n <= |file|
    ensures forall i | 0 <= i < n :: Words(file, at, n)[i] < U32_LIMIT
  {
  }
}
