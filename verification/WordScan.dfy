/** Scanning and moving bytes: strlen and memchr look at a machine word at a time, memmove copies in place.

    Memory is a sequence or an array of bytes indexed by address, and its end is where reading would fault:
    the contracts ask for no more readable bytes than the source may touch. */
module WordScan {
  import Bits

  const ONES: bv64 := 0xFFFF_FFFF_FFFF_FFFF / 255
  const HIGHS: bv64 := ONES * 128

  function HasZero(x: bv64): bv64 { (x - ONES) & !x & HIGHS }

  // The test is exact: no false alarms from borrows, no zero byte missed.
  lemma HasZeroExact(x: bv64)
    ensures HasZero(x) != 0 <==> (
       x & 0xFF == 0 || (x >> 8) & 0xFF == 0 || (x >> 16) & 0xFF == 0 || (x >> 24) & 0xFF == 0
       || (x >> 32) & 0xFF == 0 || (x >> 40) & 0xFF == 0 || (x >> 48) & 0xFF == 0 || (x >> 56) & 0xFF == 0)
  {
  }

  // Exclusive or with a broadcast byte makes zero bytes of the bytes that are equal to it, and of no others.
  lemma HasByteExact(x: bv64, v: bv8)
    ensures HasZero(x ^ (ONES * (v as bv64))) != 0 <==> (
       x & 0xFF == v as bv64 || (x >> 8) & 0xFF == v as bv64
       || (x >> 16) & 0xFF == v as bv64 || (x >> 24) & 0xFF == v as bv64
       || (x >> 32) & 0xFF == v as bv64 || (x >> 40) & 0xFF == v as bv64
       || (x >> 48) & 0xFF == v as bv64 || (x >> 56) & 0xFF == v as bv64)
  {
  }

  // ----- memory -----

  // x is the little-endian word at address a.
  predicate WordAt(m: seq<bv8>, a: nat, x: bv64) {
    a + 8 <= |m|
    && x & 0xFF == m[a] as bv64 && (x >> 8) & 0xFF == m[a + 1] as bv64
    && (x >> 16) & 0xFF == m[a + 2] as bv64 && (x >> 24) & 0xFF == m[a + 3] as bv64
    && (x >> 32) & 0xFF == m[a + 4] as bv64 && (x >> 40) & 0xFF == m[a + 5] as bv64
    && (x >> 48) & 0xFF == m[a + 6] as bv64 && (x >> 56) & 0xFF == m[a + 7] as bv64
  }

  method Load(m: seq<bv8>, a: nat) returns (x: bv64)
    requires a % 8 == 0 && a + 8 <= |m|
    ensures WordAt(m, a, x)
  {
    x := (m[a] as bv64) | (m[a + 1] as bv64 << 8) | (m[a + 2] as bv64 << 16) | (m[a + 3] as bv64 << 24)
      | (m[a + 4] as bv64 << 32) | (m[a + 5] as bv64 << 40) | (m[a + 6] as bv64 << 48) | (m[a + 7] as bv64 << 56);
  }

  predicate ByteIn(m: seq<bv8>, from: nat, to: nat, v: bv8) {
    exists i :: from <= i < to && i < |m| && m[i] == v
  }

  lemma WordHasByte(m: seq<bv8>, a: nat, x: bv64, v: bv8)
    requires WordAt(m, a, x)
    ensures HasZero(x ^ (ONES * (v as bv64))) != 0 <==> ByteIn(m, a, a + 8, v)
  {
    HasByteExact(x, v);
  }

  lemma BroadcastZero(x: bv64)
    ensures x ^ (ONES * (0 as bv8 as bv64)) == x
  {
  }

  lemma WordHasZero(m: seq<bv8>, a: nat, x: bv64)
    requires WordAt(m, a, x)
    ensures HasZero(x) != 0 <==> ByteIn(m, a, a + 8, 0)
  {
    WordHasByte(m, a, x, 0);
    BroadcastZero(x);
  }

  // One step of the word loops: is there a byte of that value in the word at a?
  method ZeroInWord(m: seq<bv8>, a: nat) returns (found: bool)
    requires a % 8 == 0 && a + 8 <= |m|
    ensures found <==> ByteIn(m, a, a + 8, 0)
  {
    var w := Load(m, a);
    WordHasZero(m, a, w);
    return HasZero(w) != 0;
  }

  method ByteInWord(m: seq<bv8>, a: nat, v: bv8) returns (found: bool)
    requires a % 8 == 0 && a + 8 <= |m|
    ensures found <==> ByteIn(m, a, a + 8, v)
  {
    var w := Load(m, a);
    found := HasZero(w ^ (ONES * (v as bv64))) != 0;
    WordHasByte(m, a, w, v);
  }

  // The low three bits of an address are its distance from a word boundary.
  lemma LowBits(a: nat)
    ensures Bits.And(a, 7) == a % 8
  {
    Bits.MaskIsModulo(a, 3);
  }

  // From an aligned address at or before z, a word reaches no further than the end of z's word.
  lemma AlignedWord(s: nat, z: nat)
    requires s % 8 == 0 && s <= z
    ensures s + 8 <= z / 8 * 8 + 8
  {
  }

  lemma NextWord(s: nat)
    requires s % 8 == 0
    ensures (s + 8) % 8 == 0
  {
  }

  // The byte loop up to a word boundary: false means that the terminator came first.
  method SkipToAligned(m: seq<bv8>, p: nat, ghost z: nat) returns (s: nat, aligned: bool)
    requires p <= z < |m| && m[z] == 0 && forall i :: p <= i < z ==> m[i] != 0
    ensures p <= s <= z && if aligned then s % 8 == 0 else s == z
  {
    s := p;
    while Bits.And(s, 7) != 0
      invariant p <= s <= z
      decreases z - s
    {
      if m[s] == 0 { return s, false; }
      s := s + 1;
    }
    LowBits(s);
    return s, true;
  }

  // strlen of the string at p, whose terminator is at z: only bytes up to the end of z's word need be readable.
  method StrLen(m: seq<bv8>, p: nat, ghost z: nat) returns (n: nat)
    requires p <= z && z / 8 * 8 + 8 <= |m| && m[z] == 0 && forall i :: p <= i < z ==> m[i] != 0
    ensures p + n == z
  {
    var s, aligned := SkipToAligned(m, p, z);
    if !aligned { return s - p; }
    AlignedWord(s, z);
    var found := ZeroInWord(m, s);
    while !found
      invariant p <= s <= z && s % 8 == 0 && s + 8 <= |m| && (found <==> ByteIn(m, s, s + 8, 0))
      decreases z - s
    {
      NextWord(s);
      s := s + 8;
      AlignedWord(s, z);
      found := ZeroInWord(m, s);
    }
    while m[s] != 0
      invariant p <= s <= z
      decreases z - s
    {
      s := s + 1;
    }
    return s - p;
  }

  // memchr over `count` bytes at p, of which none beyond need be readable: the first match, or -1.
  method MemChr(m: seq<bv8>, p: nat, val: bv8, count: nat) returns (r: int)
    requires p + count <= |m|
    ensures r < 0 ==> r == -1 && !ByteIn(m, p, p + count, val)
    ensures r >= 0 ==> p <= r < p + count && m[r] == val && !ByteIn(m, p, r, val)
  {
    var s: nat, left: nat := p, count;
    while left != 0 && Bits.And(s, 7) != 0
      invariant p <= s && s + left == p + count && !ByteIn(m, p, s, val)
    {
      if m[s] == val { return s; }
      s, left := s + 1, left - 1;
    }
    LowBits(s);
    if left >= 8 {
      while left >= 8
        invariant s % 8 == 0 && p <= s && s + left == p + count && !ByteIn(m, p, s, val)
      {
        NextWord(s);
        var found := ByteInWord(m, s, val);
        if found { break; }
        s, left := s + 8, left - 8;
      }
    }
    while left != 0
      invariant p <= s && s + left == p + count && !ByteIn(m, p, s, val)
    {
      if m[s] == val { return s; }
      s, left := s + 1, left - 1;
    }
    return -1;
  }

  lemma PieceMoved(m: seq<bv8>, before: seq<bv8>, d: nat, s: nat, count: nat)
    requires d + count <= |m| == |before| && s + count <= |m|
    requires forall j :: d <= j < d + count ==> m[j] == before[j - d + s]
    ensures m[d..d + count] == before[s..s + count]
  {
  }

  method CopyUp(a: array<bv8>, d: nat, s: nat, count: nat)
    requires d + count <= a.Length && s + count <= a.Length && d < s
    modifies a
    ensures a[d..d + count] == old(a[s..s + count])
    ensures forall j :: 0 <= j < a.Length && !(d <= j < d + count) ==> a[j] == old(a[j])
  {
    for i := 0 to count
      invariant forall j :: d <= j < d + i ==> a[j] == old(a[j - d + s])
      invariant forall j :: 0 <= j < a.Length && !(d <= j < d + i) ==> a[j] == old(a[j])
    {
      a[d + i] := a[s + i];
    }
    PieceMoved(a[..], old(a[..]), d, s, count);
  }

  method CopyDown(a: array<bv8>, d: nat, s: nat, count: nat)
    requires d + count <= a.Length && s + count <= a.Length && d >= s
    modifies a
    ensures a[d..d + count] == old(a[s..s + count])
    ensures forall j :: 0 <= j < a.Length && !(d <= j < d + count) ==> a[j] == old(a[j])
  {
    for i := count downto 0
      invariant forall j :: d + i <= j < d + count ==> a[j] == old(a[j - d + s])
      invariant forall j :: 0 <= j < a.Length && !(d + i <= j < d + count) ==> a[j] == old(a[j])
    {
      a[d + i] := a[s + i];
    }
    PieceMoved(a[..], old(a[..]), d, s, count);
  }

  // memmove inside one memory: the destination gets the bytes that the source held, however the two overlap.
  method MemMove(a: array<bv8>, d: nat, s: nat, count: nat)
    requires d + count <= a.Length && s + count <= a.Length
    modifies a
    ensures a[d..d + count] == old(a[s..s + count])
    ensures a[..d] == old(a[..d]) && a[d + count..] == old(a[d + count..])
  {
    if d < s {
      CopyUp(a, d, s, count);
    } else {
      CopyDown(a, d, s, count);
    }
  }
}
