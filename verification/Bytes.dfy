/** Bytes, machine-integer ranges and the little- and big-endian field encodings used by every format. */
module Bytes {

  type byte = x: int | 0 <= x < 256

  const U32_LIMIT := 0x1_0000_0000
  const U64_LIMIT := 0x1_0000_0000_0000_0000
  const U64_MAX: u64 := 0xffff_ffff_ffff_ffff

  type u32 = x: int | 0 <= x < U32_LIMIT
  type u64 = x: int | 0 <= x < U64_LIMIT

  datatype Option<+T> = None | Some(value: T)

  datatype Result<+T, +E> = Ok(value: T) | Err(error: E) {
    predicate IsFailure() {
      Err?
    }

    function PropagateFailure<U>(): Result<U, E>
      requires Err?
    {
      Err(error)
    }

    function Extract(): T
      requires Ok?
    {
      value
    }
  }

  function Zeros(n: nat): (s: seq<byte>)
    ensures |s| == n
    ensures forall i :: 0 <= i < n ==> s[i] == 0
  {
    seq(n, _ => 0)
  }

  /** The bytes of a Latin-1 string literal. */
  function Ascii(s: string): (b: seq<byte>)
    ensures |b| == |s|
  {
    seq(|s|, i requires 0 <= i < |s| => (s[i] as int) % 256)
  }

  function Min(a: int, b: int): int {
    if a <= b then a else b
  }

  // ----- fixed-width integers

  function Pow256(k: nat): (r: nat)
    ensures r >= 1
  {
    if k == 0 then 1 else 256 * Pow256(k - 1)
  }

  /** `n` as `k` little-endian bytes; the value is reduced modulo 256^k. */
  function Le(n: nat, k: nat): (s: seq<byte>)
    ensures |s| == k
  {
    if k == 0 then [] else [n % 256] + Le(n / 256, k - 1)
  }

  function FromLe(s: seq<byte>): nat {
    if s == [] then 0 else s[0] + 256 * FromLe(s[1..])
  }

  lemma {:induction false} FromLeOfLe(n: nat, k: nat)
    requires n < Pow256(k)
    ensures FromLe(Le(n, k)) == n
  {
    if k == 0 {
    } else {
      FromLeOfLe(n / 256, k - 1);
      assert Le(n, k)[1..] == Le(n / 256, k - 1);
    }
  }

  lemma {:induction false} LeOfFromLe(s: seq<byte>)
    ensures FromLe(s) < Pow256(|s|)
    ensures Le(FromLe(s), |s|) == s
  {
    if s == [] {
    } else {
      LeOfFromLe(s[1..]);
      var n := FromLe(s);
      assert n % 256 == s[0] && n / 256 == FromLe(s[1..]);
      assert s == [s[0]] + s[1..];
    }
  }

  lemma Pow256Values()
    ensures Pow256(2) == 0x1_0000
    ensures Pow256(4) == U32_LIMIT
    ensures Pow256(8) == U64_LIMIT
  {
    assert Pow256(3) == 256 * Pow256(2);
    assert Pow256(5) == 256 * Pow256(4);
    assert Pow256(6) == 256 * Pow256(5);
    assert Pow256(7) == 256 * Pow256(6);
  }

  function Le16(n: nat): (s: seq<byte>)
    ensures |s| == 2
  {
    Le(n, 2)
  }

  function Le32(n: nat): (s: seq<byte>)
    ensures |s| == 4
  {
    Le(n, 4)
  }

  function Le64(n: nat): (s: seq<byte>)
    ensures |s| == 8
  {
    Le(n, 8)
  }

  function FromLe32(s: seq<byte>): u32
    requires |s| == 4
  {
    LeOfFromLe(s);
    Pow256Values();
    FromLe(s)
  }

  function FromLe64(s: seq<byte>): u64
    requires |s| == 8
  {
    LeOfFromLe(s);
    Pow256Values();
    FromLe(s)
  }

  lemma Le16RoundTrip(n: nat)
    requires n < 0x1_0000
    ensures FromLe(Le16(n)) == n
  {
    Pow256Values();
    FromLeOfLe(n, 2);
  }

  lemma Le32RoundTrip(n: u32)
    ensures FromLe32(Le32(n)) == n
  {
    Pow256Values();
    FromLeOfLe(n, 4);
  }

  lemma Le64RoundTrip(n: u64)
    ensures FromLe64(Le64(n)) == n
  {
    Pow256Values();
    FromLeOfLe(n, 8);
  }

  /** The value of a field, digit by digit: the lowest byte comes first. */
  lemma LittleEndian(s: seq<byte>)
    ensures |s| == 2 ==> FromLe(s) == s[0] as int + 0x100 * s[1] as int
    ensures |s| == 4 ==> FromLe32(s) == FromLe(s[..2]) + 0x1_0000 * FromLe(s[2..])
    ensures |s| == 8 ==> FromLe64(s) == FromLe32(s[..4]) + 0x1_0000_0000 * FromLe32(s[4..])
  {
    if |s| == 2 {
      FirstTwo(s);
      assert s[2..] == [];
    } else if |s| == 4 {
      FromLeSplit(s, 2);
    } else if |s| == 8 {
      FromLeSplit(s, 4);
    }
  }

  lemma {:induction false} FromLeSplit(s: seq<byte>, k: nat)
    requires k <= |s|
    ensures FromLe(s) == FromLe(s[..k]) + Pow256(k) * FromLe(s[k..])
    decreases k
  {
    if k == 0 {
      assert s[0..] == s;
    } else {
      FromLeSplit(s[1..], k - 1);
      assert s[..k][1..] == s[1..][..k - 1] && s[1..][k - 1..] == s[k..];
      MulAssociates(Pow256(k - 1), FromLe(s[k..]));
    }
  }

  lemma MulAssociates(a: int, b: int)
    ensures 256 * (a * b) == (256 * a) * b
  {
  }

  lemma FirstTwo(s: seq<byte>)
    requires |s| >= 2
    ensures FromLe(s) == s[0] + 0x100 * s[1] + 0x1_0000 * FromLe(s[2..])
  {
    assert s[1..][1..] == s[2..];
  }

  lemma AsciiChar(s: string, i: nat)
    requires i < |s| && s[i] as int < 256
    ensures Ascii(s)[i] == s[i] as int
  {
  }

  /** Equal strings of bytes name equal labels. */
  lemma AsciiInjective(s: string, t: string)
    requires forall i :: 0 <= i < |s| ==> s[i] as int < 256
    requires forall i :: 0 <= i < |t| ==> t[i] as int < 256
    requires Ascii(s) == Ascii(t)
    ensures s == t
  {
    forall i | 0 <= i < |s|
      ensures s[i] == t[i]
    {
      AsciiChar(s, i);
      AsciiChar(t, i);
    }
  }

  // ----- slices of concatenations

  lemma SliceMiddle(pre: seq<byte>, mid: seq<byte>, post: seq<byte>)
    ensures (pre + mid + post)[|pre|..|pre| + |mid|] == mid
  {
  }

  lemma SliceOfSlice(s: seq<byte>, a: nat, b: nat, lo: nat, hi: nat)
    requires a <= lo <= hi <= b <= |s|
    ensures s[a..b][lo - a..hi - a] == s[lo..hi]
  {
    var inner, direct := s[a..b][lo - a..hi - a], s[lo..hi];
    assert |inner| == |direct|;
    forall i | 0 <= i < hi - lo
      ensures inner[i] == direct[i]
    {
      assert inner[i] == s[a..b][lo - a + i] == s[lo + i];
    }
  }

  /** Equal slices stay equal when narrowed. */
  lemma NarrowSlice(s: seq<byte>, t: seq<byte>, a: nat, b: nat, lo: nat, hi: nat)
    requires a <= lo <= hi <= b <= |s| && b <= |t| && s[a..b] == t[a..b]
    ensures s[lo..hi] == t[lo..hi]
  {
    SliceOfSlice(s, a, b, lo, hi);
    SliceOfSlice(t, a, b, lo, hi);
  }

  function Concat(parts: seq<seq<byte>>): seq<byte> {
    if parts == [] then [] else Concat(parts[..|parts| - 1]) + parts[|parts| - 1]
  }

  lemma {:induction false} ConcatAppend(a: seq<seq<byte>>, b: seq<seq<byte>>)
    ensures Concat(a + b) == Concat(a) + Concat(b)
  {
    if b == [] {
      assert a + b == a;
    } else {
      var n := |b| - 1;
      assert (a + b)[..|a + b| - 1] == a + b[..n];
      ConcatAppend(a, b[..n]);
    }
  }

  // ----- filling a fixed buffer in place

  /** `copy_from_slice` into `a[at..at + |data|]`. */
  method CopyInto(a: array<byte>, at: nat, data: seq<byte>)
    requires at + |data| <= a.Length
    modifies a
    ensures a[..] == old(a[..at]) + data + old(a[at + |data|..])
  {
    forall i | 0 <= i < |data| {
      a[at + i] := data[i];
    }
  }

  /** Fills the next field of a zeroed buffer whose first bytes are already `done`. */
  method FillNext(a: array<byte>, ghost done: seq<byte>, at: nat, data: seq<byte>)
    requires at == |done| && at + |data| <= a.Length
    requires a[..] == done + Zeros(a.Length - at)
    modifies a
    ensures a[..] == done + data + Zeros(a.Length - at - |data|)
  {
    CopyInto(a, at, data);
    assert old(a[..at]) == done;
    assert old(a[at + |data|..]) == Zeros(a.Length - at - |data|);
  }
}
