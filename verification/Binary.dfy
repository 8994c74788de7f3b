/** Bytes and the fixed-width integers binary formats are made of. */
module Binary {
  import opened Text

  type Byte = x: int | 0 <= x < 256

  type Bytes = seq<Byte>

  const TWO32: nat := 0x1_0000_0000
  const TWO64: nat := 0x1_0000_0000_0000_0000

  /** `struct.unpack_from("<I", ...)`, or `">I"`. */
  function U32(data: Bytes, off: nat, little: bool): (n: nat)
    requires off + 4 <= |data|
    ensures n < TWO32
  {
    if little then Word(data[off], data[off + 1], data[off + 2], data[off + 3])
    else Word(data[off + 3], data[off + 2], data[off + 1], data[off])
  }

  /** Four bytes, the lowest first. */
  function Word(b0: nat, b1: nat, b2: nat, b3: nat): nat {
    b0 + 0x100 * b1 + 0x10000 * b2 + 0x1000000 * b3
  }

  /** `struct.pack("<I", n)`, or `">I"`. */
  function Pack32(n: nat, little: bool): (b: Bytes)
    requires n < TWO32
    ensures |b| == 4
  {
    var b0, b1, b2, b3 := n % 0x100, n / 0x100 % 0x100, n / 0x10000 % 0x100, n / 0x1000000;
    if little then [b0, b1, b2, b3] else [b3, b2, b1, b0]
  }

  lemma Unpack32(n: nat, little: bool)
    requires n < TWO32
    ensures U32(Pack32(n, little), 0, little) == n
  {
    var q1, q2 := n / 0x100, n / 0x10000;
    assert q2 == q1 / 0x100;
    assert n / 0x1000000 == q2 / 0x100;
  }

  /** `part` stands in `data` at `at`. */
  predicate StandsAt(data: Bytes, at: nat, part: Bytes) {
    at + |part| <= |data| && data[at..at + |part|] == part
  }

  lemma StandsFirst(data: Bytes, at: nat, first: Bytes, rest: Bytes)
    requires StandsAt(data, at, first + rest)
    ensures StandsAt(data, at, first) && StandsAt(data, at + |first|, rest)
  {
    var n := |first + rest|;
    SliceOfSlice(data, at, at + n, 0, |first|);
    SliceOfSlice(data, at, at + n, |first|, n);
    assert (first + rest)[0..|first|] == first && (first + rest)[|first|..n] == rest;
  }

  /** Reading inside a part of a larger text is reading the part. */
  lemma U32Inside(data: Bytes, part: Bytes, at: nat, k: nat, little: bool)
    requires StandsAt(data, at, part) && k + 4 <= |part|
    ensures U32(data, at + k, little) == U32(part, k, little)
  {
    assert forall i :: 0 <= i < |part| ==> data[at + i] == part[i];
  }

  lemma SliceOfSlice(s: Bytes, i: nat, j: nat, p: nat, q: nat)
    requires i <= j <= |s| && p <= q <= j - i
    ensures s[i..j][p..q] == s[i + p..i + q]
  {
    var t := s[i..j];
    assert forall k :: 0 <= k < |t| ==> t[k] == s[i + k];
    var u, v := t[p..q], s[i + p..i + q];
    assert |u| == |v| == q - p;
    assert forall k :: 0 <= k < q - p ==> u[k] == t[p + k];
    assert forall k :: 0 <= k < q - p ==> v[k] == s[i + p + k];
    assert u == v;
  }

  /** `struct.unpack_from("<Q", ...)`, or `">Q"`. */
  function U64(data: Bytes, off: nat, little: bool): nat
    requires off + 8 <= |data|
  {
    if little then U32(data, off, little) + TWO32 * U32(data, off + 4, little)
    else U32(data, off + 4, little) + TWO32 * U32(data, off, little)
  }

  function Pack64(n: nat, little: bool): (b: Bytes)
    requires n < TWO64
    ensures |b| == 8
  {
    if little then Pack32(n % TWO32, little) + Pack32(n / TWO32, little)
    else Pack32(n / TWO32, little) + Pack32(n % TWO32, little)
  }

  /** `struct.unpack_from("<H", ...)`, or `">H"`. */
  function U16(data: Bytes, off: nat, little: bool): nat
    requires off + 2 <= |data|
  {
    if little then Word(data[off], data[off + 1], 0, 0) else Word(data[off + 1], data[off], 0, 0)
  }

  function Pack16(n: nat, little: bool): (b: Bytes)
    requires n < 0x10000
    ensures |b| == 2
  {
    if little then [n % 0x100, n / 0x100] else [n / 0x100, n % 0x100]
  }

  /** A packed number is read back wherever it stands. */
  lemma U32At(data: Bytes, at: nat, n: nat, little: bool)
    requires n < TWO32 && StandsAt(data, at, Pack32(n, little))
    ensures U32(data, at, little) == n
  {
    Unpack32(n, little);
    U32Inside(data, Pack32(n, little), at, 0, little);
  }

  lemma U64At(data: Bytes, at: nat, n: nat, little: bool)
    requires n < TWO64 && StandsAt(data, at, Pack64(n, little))
    ensures U64(data, at, little) == n
  {
    hide U32, Pack32, StandsAt;
    var lo, hi := n % TWO32, n / TWO32;
    if little {
      StandsFirst(data, at, Pack32(lo, little), Pack32(hi, little));
      U32At(data, at, lo, little);
      U32At(data, at + 4, hi, little);
    } else {
      StandsFirst(data, at, Pack32(hi, little), Pack32(lo, little));
      U32At(data, at, hi, little);
      U32At(data, at + 4, lo, little);
    }
  }

  lemma U16At(data: Bytes, at: nat, n: nat, little: bool)
    requires n < 0x10000 && StandsAt(data, at, Pack16(n, little))
    ensures U16(data, at, little) == n
  {
    var b := Pack16(n, little);
    assert data[at] == b[0] && data[at + 1] == b[1];
  }

  /** `data.index(b"\x00", start, end)`, or None where it raises. */
  function FindZero(data: Bytes, start: nat, end: nat): (r: Option<nat>)
    requires end <= |data|
    ensures r.Some? ==> start <= r.value < end && data[r.value] == 0
    decreases end - start
  {
    if start >= end then None
    else if data[start] == 0 then Some(start)
    else FindZero(data, start + 1, end)
  }

  predicate NoZero(s: Bytes) {
    forall i :: 0 <= i < |s| ==> s[i] != 0
  }

  /** A name without zeros, up to the zero behind it. */
  lemma {:induction false} FindZeroBehind(data: Bytes, start: nat, end: nat, name: Bytes)
    requires start + |name| < end <= |data|
    requires data[start..start + |name|] == name && NoZero(name) && data[start + |name|] == 0
    ensures FindZero(data, start, end) == Some(start + |name|)
    decreases |name|
  {
    if name != [] {
      assert data[start] == name[0];
      assert data[start + 1..start + 1 + |name[1..]|] == name[1..];
      FindZeroBehind(data, start + 1, end, name[1..]);
    }
  }
}
