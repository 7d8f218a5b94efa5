/**
 * The growable bitset of `internal/bitset.go`: a slice of bytes, bit
 * `pos % 8` of byte `pos / 8` standing for position `pos`. Positions are Go
 * `uint`s. The abstract view of a bitset is the set of its positions
 * (`Elems`).
 */
module ByteBitset {
  import opened Bits
  import opened Ordered

  /** A Go `byte`. */
  type Byte = x: nat | x < 0x100

  /** A Go `uint` (64 bits). */
  type UInt = x: nat | x < 0x1_0000_0000_0000_0000

  /** A Go `uint32`, the element type `ActiveIndices` is used with. */
  type UInt32 = x: nat | x < 0x1_0000_0000

  /** A Go `int` (64 bits). */
  type Int64 = x: int | -0x8000_0000_0000_0000 <= x < 0x8000_0000_0000_0000

  /** Bytes that cover every `uint32` position. */
  const MaxBytes: nat := 0x2000_0000

  // ----- bytes -----

  lemma ByteMask(k: nat)
    requires k < 8
    ensures Pow2(k) < 0x100
  {
    Pow2Monotone(k, 8);
    Pow2Byte();
  }

  /** `a | b` on bytes. */
  function OrByte(a: Byte, b: Byte): Byte {
    Pow2Byte();
    OrBelow(a, b, 8);
    Or(a, b)
  }

  /** `a & b` on bytes. */
  function AndByte(a: Byte, b: Byte): Byte {
    AndBelow(a, b);
    And(a, b)
  }

  /** `a &^ b` on bytes. */
  function AndNotByte(a: Byte, b: Byte): Byte {
    AndNotBelow(a, b);
    AndNot(a, b)
  }

  /** `v |= 1 << k`. */
  function SetBit(v: Byte, k: nat): Byte
    requires k < 8
  {
    ByteMask(k);
    OrByte(v, Pow2(k))
  }

  /** `v &^= 1 << k`. */
  function ClearBit(v: Byte, k: nat): Byte
    requires k < 8
  {
    ByteMask(k);
    AndNotByte(v, Pow2(k))
  }

  /** A byte has no bit from 8 on. */
  lemma ByteBits(v: Byte, x: nat)
    ensures Bit(v, x) ==> x < 8
  {
    Pow2Byte();
    if x >= 8 {
      BitsBelow(v, 8, x);
    }
  }

  // ----- the abstract view -----

  /** Position `i` is set in `data` (beyond the slice: unset). */
  predicate Has(data: seq<Byte>, i: nat) {
    i / 8 < |data| && Bit(data[i / 8], i % 8)
  }

  /** The set of positions held by a byte slice. */
  ghost function Members(data: seq<Byte>): set<nat> {
    set i: nat | i < 8 * |data| && Has(data, i)
  }

  lemma HasMember(data: seq<Byte>, i: nat)
    ensures i in Members(data) <==> Has(data, i)
  {
  }

  lemma MembersByHas(data: seq<Byte>, s: set<nat>)
    requires forall i: nat :: i in s <==> Has(data, i)
    ensures Members(data) == s
  {
  }

  function Zeros(n: nat): (r: seq<Byte>)
    ensures |r| == n && forall k :: 0 <= k < n ==> r[k] == 0
  {
    seq(n, _ => 0)
  }

  lemma ZerosEmpty(n: nat)
    ensures Members(Zeros(n)) == {}
  {
    forall i: nat | Has(Zeros(n), i) ensures false {
      BitZero(i % 8);
    }
  }

  /** Byte at `k`, or the zero byte beyond the slice. */
  function ByteAt(data: seq<Byte>, k: nat): Byte {
    if k < |data| then data[k] else 0
  }

  // ----- Minint -----

  /** The corrected `Minint`: the smaller of two Go `int`s. */
  function Minint(v1: int, v2: int): (r: int)
    ensures r <= v1 && r <= v2
    ensures r == v1 || r == v2
  {
    if v1 < v2 then v1 else v2
  }

  /** The two's-complement bit pattern of an `int`, as an unsigned word. */
  function Unsigned64(x: Int64): nat {
    x % 0x1_0000_0000_0000_0000
  }

  /** Go's wrap-around of an `int` result to 64 bits. */
  function Wrap64(x: int): Int64 {
    var u := x % 0x1_0000_0000_0000_0000;
    if u < 0x8000_0000_0000_0000 then u else u - 0x1_0000_0000_0000_0000
  }

  /** `Minint` as written: `v2 + ((v1 - v2) & ((v1 - v2) >> 31))` on 64-bit
      `int`s. The shift is arithmetic, so it is the floor of a division by
      2^31; the `&` works on the two's-complement bit patterns. */
  function MinintAsWritten(v1: Int64, v2: Int64): (r: Int64)
    ensures -0x8000_0000 <= v1 - v2 < 0x8000_0000 ==> r == Minint(v1, v2)
  {
    var r := MaskedMin(v1, v2);
    if -0x8000_0000 <= v1 - v2 < 0x8000_0000 then MinintInRange(v1, v2); r else r
  }

  /** The formula itself: `v2 + (d & (d >> 31))` with `d = v1 - v2`. */
  function MaskedMin(v1: Int64, v2: Int64): Int64 {
    var d := Wrap64(v1 - v2);
    var mask: Int64 := d / 0x8000_0000;
    Wrap64(v2 + Wrap64(And(Unsigned64(d), Unsigned64(mask))))
  }

  lemma {:induction false} AndLowOnes(x: nat, n: nat)
    requires x < Pow2(n)
    ensures And(x, Pow2(n) - 1) == x
    decreases n
  {
    if x != 0 {
      assert n > 0;
      assert (Pow2(n) - 1) / 2 == Pow2(n - 1) - 1;
      assert (Pow2(n) - 1) % 2 == 1;
      AndLowOnes(x / 2, n - 1);
    }
  }

  lemma AndOne(x: nat)
    ensures And(x, 1) == x % 2
  {
  }

  /** The sign mask `(v1 - v2) >> 31` is all zeros or all ones, so the bit
      trick gives the minimum, whenever the difference fits in 32 signed
      bits. */
  lemma MinintInRange(v1: Int64, v2: Int64)
    requires -0x8000_0000 <= v1 - v2 < 0x8000_0000
    ensures MaskedMin(v1, v2) == Minint(v1, v2)
  {
    var d := v1 - v2;
    WrapInRange(d);
    if d < 0 {
      SignMaskNegative(d);
      AndAllOnes(Unsigned64(d));
      WrapInRange(v1);
    } else {
      SignMaskNonNegative(d);
      WrapInRange(v2);
    }
  }

  lemma WrapInRange(x: int)
    requires -0x8000_0000_0000_0000 <= x < 0x8000_0000_0000_0000
    ensures Wrap64(x) == x
  {
  }

  /** The sign mask of a small negative difference is all ones. */
  lemma SignMaskNegative(d: Int64)
    requires -0x8000_0000 <= d < 0
    ensures d / 0x8000_0000 == -1
    ensures Unsigned64(d / 0x8000_0000) == 0x1_0000_0000_0000_0000 - 1
    ensures Unsigned64(d) == d + 0x1_0000_0000_0000_0000
    ensures Wrap64(Unsigned64(d)) == d
  {
  }

  /** The sign mask of a small non-negative difference is all zeros. */
  lemma SignMaskNonNegative(d: Int64)
    requires 0 <= d < 0x8000_0000
    ensures d / 0x8000_0000 == 0 && Unsigned64(0) == 0
    ensures And(Unsigned64(d), 0) == 0 && Wrap64(0) == 0
  {
  }

  lemma AndAllOnes(x: nat)
    requires x < 0x1_0000_0000_0000_0000
    ensures And(x, 0x1_0000_0000_0000_0000 - 1) == x
  {
    Pow2Word();
    AndLowOnes(x, 64);
  }

  /** A difference of 2^31 + 1 leaves a mask of 1, not of all zeros: the
      bit trick returns 1 where the minimum is 0. */
  lemma MinintOutOfRange()
    ensures MinintAsWritten(0x8000_0001, 0) == 1
    ensures Minint(0x8000_0001, 0) == 0
  {
    var d: Int64 := 0x8000_0001;
    WrapInRange(d);
    assert d / 0x8000_0000 == 1;
    assert Unsigned64(d) == d && Unsigned64(1) == 1;
    AndOne(d);
    WrapInRange(1);
  }

  // ----- byte-wise combinations (the loops of And, Or and AndNot) -----

  function AndBytes(a: seq<Byte>, b: seq<Byte>): (r: seq<Byte>)
    ensures |r| == Minint(|a|, |b|)
  {
    seq(Minint(|a|, |b|), k requires 0 <= k < Minint(|a|, |b|) => AndByte(a[k], b[k]))
  }

  function OrBytes(a: seq<Byte>, b: seq<Byte>): (r: seq<Byte>)
    ensures |r| == Max(|a|, |b|)
  {
    seq(Max(|a|, |b|), k requires 0 <= k => OrByte(ByteAt(a, k), ByteAt(b, k)))
  }

  /** AND-NOT over the common bytes; the receiver keeps its later bytes. */
  function AndNotBytes(a: seq<Byte>, b: seq<Byte>): (r: seq<Byte>)
    ensures |r| == |a|
  {
    seq(|a|, k requires 0 <= k < |a| => if k < |b| then AndNotByte(a[k], b[k]) else a[k])
  }

  /** Byte-wise AND gives exactly the common positions. */
  lemma MembersAnd(a: seq<Byte>, b: seq<Byte>)
    ensures Members(AndBytes(a, b)) == Members(a) * Members(b)
  {
    forall i: nat ensures Has(AndBytes(a, b), i) == (i in Members(a) * Members(b)) {
      HasMember(a, i);
      HasMember(b, i);
      if i / 8 < Minint(|a|, |b|) {
        BitAnd(a[i / 8], b[i / 8], i % 8);
      }
    }
    MembersByHas(AndBytes(a, b), Members(a) * Members(b));
  }

  /** Byte-wise OR, padding the shorter slice with zero bytes, gives the union. */
  lemma MembersOr(a: seq<Byte>, b: seq<Byte>)
    ensures Members(OrBytes(a, b)) == Members(a) + Members(b)
  {
    forall i: nat ensures Has(OrBytes(a, b), i) == (i in Members(a) + Members(b)) {
      HasMember(a, i);
      HasMember(b, i);
      var k := i / 8;
      if k < Max(|a|, |b|) {
        BitOr(ByteAt(a, k), ByteAt(b, k), i % 8);
        BitZero(i % 8);
      }
    }
    MembersByHas(OrBytes(a, b), Members(a) + Members(b));
  }

  /** Byte-wise AND-NOT removes exactly the positions of `b`: beyond `b`'s
      bytes there is nothing to remove, and those bytes are kept. */
  lemma MembersAndNot(a: seq<Byte>, b: seq<Byte>)
    ensures Members(AndNotBytes(a, b)) == Members(a) - Members(b)
  {
    forall i: nat ensures Has(AndNotBytes(a, b), i) == (i in Members(a) - Members(b)) {
      HasMember(a, i);
      HasMember(b, i);
      if i / 8 < |a| && i / 8 < |b| {
        BitAndNot(a[i / 8], b[i / 8], i % 8);
      }
    }
    MembersByHas(AndNotBytes(a, b), Members(a) - Members(b));
  }

  lemma SameByteSameBit(i: nat, j: nat)
    requires i / 8 == j / 8 && i % 8 == j % 8
    ensures i == j
  {
  }

  /** Setting bit `i % 8` of byte `i / 8` adds exactly position `i`. */
  lemma MembersSetBit(data: seq<Byte>, i: nat)
    requires i / 8 < |data|
    ensures Members(data[i / 8 := SetBit(data[i / 8], i % 8)]) == Members(data) + {i}
  {
    var data' := data[i / 8 := SetBit(data[i / 8], i % 8)];
    forall j: nat ensures Has(data', j) == (j in Members(data) + {i}) {
      HasMember(data, j);
      ByteMask(i % 8);
      BitSetOne(data[i / 8], i % 8, j % 8);
      if j / 8 == i / 8 && j % 8 == i % 8 {
        SameByteSameBit(i, j);
      }
    }
    MembersByHas(data', Members(data) + {i});
  }

  /** Clearing bit `i % 8` of byte `i / 8` removes exactly position `i`. */
  lemma MembersClearBit(data: seq<Byte>, i: nat)
    requires i / 8 < |data|
    ensures Members(data[i / 8 := ClearBit(data[i / 8], i % 8)]) == Members(data) - {i}
  {
    var data' := data[i / 8 := ClearBit(data[i / 8], i % 8)];
    forall j: nat ensures Has(data', j) == (j in Members(data) - {i}) {
      HasMember(data, j);
      BitClearOne(data[i / 8], i % 8, j % 8);
      if j / 8 == i / 8 && j % 8 == i % 8 {
        SameByteSameBit(i, j);
      }
    }
    MembersByHas(data', Members(data) - {i});
  }

  /** Appending zero bytes adds no position. */
  lemma MembersPad(data: seq<Byte>, n: nat)
    ensures Members(data + Zeros(n)) == Members(data)
  {
    forall i: nat ensures Has(data + Zeros(n), i) == (i in Members(data)) {
      HasMember(data, i);
      if |data| <= i / 8 < |data| + n {
        BitZero(i % 8);
      }
    }
    MembersByHas(data + Zeros(n), Members(data));
  }

  // ----- enumeration (ActiveIndices) -----

  /** The bits of `v` below `n`, tested from bit 0 up. */
  function LowBits(v: nat, n: nat): seq<nat>
    decreases n
  {
    if n == 0 then [] else LowBits(v, n - 1) + (if Bit(v, n - 1) then [n - 1] else [])
  }

  lemma {:induction false} LowBitsSpec(v: nat, n: nat)
    ensures Ascending(LowBits(v, n))
    ensures forall j: nat :: j in LowBits(v, n) <==> j < n && Bit(v, j)
    decreases n
  {
    if n > 0 {
      LowBitsSpec(v, n - 1);
      var tail: seq<nat> := if Bit(v, n - 1) then [n - 1] else [];
      AscendingAppend(LowBits(v, n - 1), tail, n - 1);
    }
  }

  /** Testing the bits of a value below `2^n` one by one finds all of them. */
  lemma LowBitsAll(v: nat, n: nat)
    requires v < Pow2(n)
    ensures LowBits(v, n) == Positions(v)
  {
    LowBitsSpec(v, n);
    PositionsAscending(v);
    forall j: nat ensures j in LowBits(v, n) <==> j in Positions(v) {
      PositionsMember(v, j);
      if j >= n {
        BitsBelow(v, n, j);
      }
    }
    AscendingUnique(LowBits(v, n), Positions(v));
  }

  /** The positions of a byte slice, byte by byte, lowest first. */
  function Indices(data: seq<Byte>): seq<nat>
    decreases |data|
  {
    if data == [] then [] else Indices(data[..|data| - 1]) + Shifted(8 * (|data| - 1), Positions(data[|data| - 1]))
  }

  /** Go's conversion `T(pos)` to a `uint32`, element by element. */
  function Truncated(s: seq<nat>): (r: seq<UInt32>)
    ensures |r| == |s|
  {
    seq(|s|, i requires 0 <= i < |s| => s[i] % 0x1_0000_0000)
  }

  lemma TruncatedSmall(s: seq<nat>)
    requires forall x :: x in s ==> x < 0x1_0000_0000
    ensures Truncated(s) == s
  {
    forall i | 0 <= i < |s| ensures Truncated(s)[i] == s[i] {
      assert s[i] in s;
    }
  }

  lemma ByteOfPosition(x: nat, n: nat)
    ensures x / 8 == n <==> 8 * n <= x < 8 * n + 8
    ensures x / 8 == n ==> x % 8 == x - 8 * n
  {
  }

  /** The positions listed for the byte at index `n`. */
  lemma ShiftedByteMember(v: Byte, n: nat, x: nat)
    ensures x in Shifted(8 * n, Positions(v)) <==> x / 8 == n && Bit(v, x % 8)
  {
    var base := 8 * n;
    ShiftedMember(base, Positions(v), x);
    ByteOfPosition(x, n);
    if x >= base {
      PositionsMember(v, x - base);
      ByteBits(v, x - base);
    }
  }

  lemma FrontHas(data: seq<Byte>, x: nat)
    requires data != []
    ensures Has(data[..|data| - 1], x) <==> x / 8 < |data| - 1 && Has(data, x)
  {
  }

  lemma {:induction false} IndicesMember(data: seq<Byte>, x: nat)
    ensures x in Indices(data) <==> Has(data, x)
    decreases |data|
  {
    if data != [] {
      var n := |data| - 1;
      IndicesMember(data[..n], x);
      ShiftedByteMember(data[n], n, x);
      FrontHas(data, x);
    }
  }

  lemma {:induction false} IndicesAscending(data: seq<Byte>)
    ensures Ascending(Indices(data))
    ensures forall x :: x in Indices(data) ==> x < 8 * |data|
    decreases |data|
  {
    if data != [] {
      var n := |data| - 1;
      IndicesAscending(data[..n]);
      var tail := Shifted(8 * n, Positions(data[n]));
      PositionsAscending(data[n]);
      ShiftedAscending(8 * n, Positions(data[n]));
      forall x | x in tail ensures 8 * n <= x < 8 * |data| {
        ShiftedByteMember(data[n], n, x);
        ByteOfPosition(x, n);
      }
      AscendingAppend(Indices(data[..n]), tail, 8 * n);
    }
  }

  /** Listing one more byte appends its positions. */
  lemma IndicesSnoc(data: seq<Byte>, k: nat)
    requires k < |data|
    ensures Indices(data[..k + 1]) == Indices(data[..k]) + Shifted(8 * k, Positions(data[k]))
  {
    assert data[..k + 1][..k] == data[..k];
  }

  /** `Indices` lists exactly the members, ascending, each once. */
  lemma IndicesSpec(data: seq<Byte>)
    ensures Ascending(Indices(data))
    ensures forall x: nat :: x in Indices(data) <==> x in Members(data)
    ensures |Indices(data)| == |Members(data)|
  {
    IndicesAscending(data);
    forall x: nat ensures x in Indices(data) <==> x in Members(data) {
      IndicesMember(data, x);
      HasMember(data, x);
    }
    AscendingCard(Indices(data));
    assert Elements(Indices(data)) == Members(data);
  }

  /** A bitset (Go: `internal.BitSet`; its mutex is not modelled). The zero
      value is the empty slice. */
  class BitSet {
    var data: seq<Byte>

    /** The set positions. */
    ghost function Elems(): set<nat>
      reads this
    {
      Members(data)
    }

    /** The zero value `BitSet{}`. */
    constructor ()
      ensures data == [] && Elems() == {}
    {
      data := [];
    }

    /** `Set(pos)`: grows the slice to exactly `pos/8 + 1` bytes when it is
        too short, then sets the bit. */
    method Set(pos: UInt)
      modifies this
      ensures |data| == Max(old(|data|), pos / 8 + 1)
      ensures forall k :: 0 <= k < old(|data|) && k != pos / 8 ==> data[k] == old(data[k])
      ensures Elems() == old(Elems()) + {pos}
    {
      var byteIndex := pos / 8;
      var bitIndex := pos % 8;
      if byteIndex >= |data| {
        MembersPad(data, byteIndex + 1 - |data|);
        data := data + Zeros(byteIndex + 1 - |data|);
      }
      MembersSetBit(data, pos);
      data := data[byteIndex := SetBit(data[byteIndex], bitIndex)];
    }

    /** `Unset(pos)`: clears the bit; a no-op beyond the slice. */
    method Unset(pos: UInt)
      modifies this
      ensures |data| == old(|data|)
      ensures pos / 8 >= |data| ==> data == old(data)
      ensures forall k :: 0 <= k < |data| && k != pos / 8 ==> data[k] == old(data[k])
      ensures Elems() == old(Elems()) - {pos}
    {
      var byteIndex := pos / 8;
      if byteIndex >= |data| {
        HasMember(data, pos);
        return;
      }
      var bitIndex := pos % 8;
      MembersClearBit(data, pos);
      data := data[byteIndex := ClearBit(data[byteIndex], bitIndex)];
    }

    /** `IsSet(pos)`: whether the bit is set; false beyond the slice. */
    function IsSet(pos: UInt): (r: bool)
      reads this
      ensures r <==> pos in Elems()
      ensures pos / 8 >= |data| ==> !r
    {
      HasMember(data, pos);
      MaskTest(if pos / 8 < |data| then data[pos / 8] else 0, pos % 8);
      var byteIndex := pos / 8;
      if byteIndex >= |data| then false
      else Bits.And(data[byteIndex], Pow2(pos % 8)) != 0
    }

    /** `And(other)`: intersects the first `Minint` bytes, then truncates the
        receiver when it was longer. */
    method And(other: BitSet)
      modifies this
      ensures data == AndBytes(old(data), old(other.data))
      ensures Elems() == old(Elems()) * old(other.Elems())
      ensures |old(data)| < 0x8000_0000 && |old(other.data)| < 0x8000_0000 ==>
                |data| == MinintAsWritten(|old(data)|, |old(other.data)|)
    {
      var theirs := other.data;
      var bLen := |data|;
      var minLen := Minint(bLen, |theirs|);
      for i := 0 to minLen
        invariant |data| == bLen
        invariant forall j :: 0 <= j < i ==> data[j] == AndByte(old(data[j]), theirs[j])
        invariant forall j :: i <= j < bLen ==> data[j] == old(data[j])
      {
        data := data[i := AndByte(data[i], theirs[i])];
      }
      if bLen > minLen {
        data := data[..minLen];
      }
      MembersAnd(old(data), theirs);
    }

    /** `Or(other)`: zero-pads the receiver to `other`'s length when shorter,
        then ORs in every byte of `other`. */
    method Or(other: BitSet)
      modifies this
      ensures data == OrBytes(old(data), old(other.data))
      ensures Elems() == old(Elems()) + old(other.Elems())
    {
      var theirs := other.data;
      var otherLen := |theirs|;
      var bLen := |data|;
      if otherLen > bLen {
        data := data + Zeros(otherLen - bLen);
      }
      ghost var padded := data;
      for i := 0 to otherLen
        invariant |data| == |padded|
        invariant forall j :: 0 <= j < i ==> data[j] == OrByte(padded[j], theirs[j])
        invariant forall j :: i <= j < |data| ==> data[j] == padded[j]
      {
        data := data[i := OrByte(data[i], theirs[i])];
      }
      forall k | 0 <= k < |data| ensures data[k] == OrBytes(old(data), theirs)[k] {
        OrZero(ByteAt(theirs, k));
        OrZero(ByteAt(old(data), k));
      }
      MembersOr(old(data), theirs);
    }

    /** `AndNot(other)`: clears the bits of `other` within the first
        `Minint` bytes; the receiver keeps its length. */
    method AndNot(other: BitSet)
      modifies this
      ensures data == AndNotBytes(old(data), old(other.data))
      ensures Elems() == old(Elems()) - old(other.Elems())
      ensures |old(data)| < 0x8000_0000 && |old(other.data)| < 0x8000_0000 ==>
                data[MinintAsWritten(|old(data)|, |old(other.data)|)..] ==
                old(data)[MinintAsWritten(|old(data)|, |old(other.data)|)..]
    {
      var theirs := other.data;
      var minLen := Minint(|data|, |theirs|);
      for i := 0 to minLen
        invariant |data| == old(|data|)
        invariant forall j :: 0 <= j < i ==> data[j] == AndNotByte(old(data[j]), theirs[j])
        invariant forall j :: i <= j < |data| ==> data[j] == old(data[j])
      {
        data := data[i := AndNotByte(data[i], theirs[i])];
      }
      MembersAndNot(old(data), theirs);
    }

    /** `Clone()`: a new bitset with a copy of the bytes. */
    method Clone() returns (c: BitSet)
      ensures fresh(c)
      ensures c.data == data && c.Elems() == Elems()
    {
      c := new BitSet();
      c.data := data;
    }
  }

  /** The inner loop of `ActiveIndices` on one byte: test bits 0 to 7 and
      record `base` plus each one that is set. */
  method ByteIndices(v: Byte, base: nat) returns (ret: seq<nat>)
    ensures ret == Shifted(base, Positions(v))
  {
    ret := [];
    var nthBit := 0;
    while nthBit < 8
      invariant 0 <= nthBit <= 8
      invariant ret == Shifted(base, LowBits(v, nthBit))
    {
      MaskTest(v, nthBit);
      if And(v, Pow2(nthBit)) != 0 {
        assert LowBits(v, nthBit + 1) == LowBits(v, nthBit) + [nthBit];
        ShiftedSnoc(base, LowBits(v, nthBit), nthBit);
        ret := ret + [base + nthBit];
      } else {
        assert LowBits(v, nthBit + 1) == LowBits(v, nthBit);
      }
      nthBit := nthBit + 1;
    }
    Pow2Byte();
    LowBitsAll(v, nthBit);
  }

  /** The unordered loop over all bytes of `ActiveIndices`. */
  method SliceIndices(data: seq<Byte>) returns (ret: seq<nat>)
    ensures ret == Indices(data)
  {
    ret := [];
    for nthByte := 0 to |data|
      invariant ret == Indices(data[..nthByte])
    {
      var found := ByteIndices(data[nthByte], nthByte * 8);
      ret := ret + found;
      IndicesSnoc(data, nthByte);
    }
    assert data[..|data|] == data;
  }

  /** `ActiveIndices[uint32](b)`: the set positions, byte by byte and bit 0
      to 7, each converted to a `uint32`. Within `MaxBytes` bytes no
      position wraps, so the result is exactly the members, ascending. */
  method ActiveIndices(b: BitSet) returns (ret: seq<UInt32>)
    ensures ret == Truncated(Indices(b.data))
    ensures |b.data| <= MaxBytes ==> Ascending(ret)
    ensures |b.data| <= MaxBytes ==> forall x: nat :: x in ret <==> x in b.Elems()
    ensures |ret| == |b.Elems()|
  {
    var all := SliceIndices(b.data);
    ret := Truncated(all);
    IndicesSpec(b.data);
    if |b.data| <= MaxBytes {
      IndicesAscending(b.data);
      TruncatedSmall(all);
    }
  }
}
