/**
 * The growable bitset of `bitset.go`: a slice of 64-bit words, bit `i % 64`
 * of word `i / 64` standing for position `i`. Positions are Go `uint32`s.
 * The abstract view of a bitset is the set of its positions (`Elems`).
 */
module WordBitset {
  import opened Bits
  import opened Ordered

  /** A position, a Go `uint32`. */
  type Pos = x: nat | x < 0x1_0000_0000

  /** A Go `uint64`. */
  type Word = x: nat | x < 0x1_0000_0000_0000_0000

  /** Number of words that covers every `uint32` position. */
  const MaxWords: nat := 0x400_0000

  // ----- words -----

  lemma MaskIsWord(k: nat)
    requires k < 64
    ensures Pow2(k) < 0x1_0000_0000_0000_0000
  {
    Pow2Monotone(k, 64);
    Pow2Word();
  }

  lemma OrIsWord(a: Word, b: Word)
    ensures Or(a, b) < 0x1_0000_0000_0000_0000
  {
    Pow2Word();
    OrBelow(a, b, 64);
  }

  /** `w | (1 << k)` on `uint64`. */
  function SetBit(w: Word, k: nat): Word
    requires k < 64
  {
    MaskIsWord(k);
    OrIsWord(w, Pow2(k));
    Or(w, Pow2(k))
  }

  /** Setting bit `k` adds exactly bit `k`. */
  lemma SetBitSpec(w: Word, k: nat, j: nat)
    requires k < 64
    ensures Bit(SetBit(w, k), j) <==> j == k || Bit(w, j)
  {
    BitSetOne(w, k, j);
  }

  /** `w &^ (1 << k)` on `uint64`. */
  function ClearBit(w: Word, k: nat): Word {
    AndNotBelow(w, Pow2(k));
    AndNot(w, Pow2(k))
  }

  /** Clearing bit `k` removes exactly bit `k`. */
  lemma ClearBitSpec(w: Word, k: nat, j: nat)
    ensures Bit(ClearBit(w, k), j) <==> j != k && Bit(w, j)
  {
    BitClearOne(w, k, j);
  }

  /** Go's `bits.TrailingZeros64`: the number of clear bits below the lowest
      set bit, 64 for the zero word. */
  function TrailingZeros64(w: Word): nat {
    if w == 0 then 64 else LowestBit(w)
  }

  /** `TrailingZeros64(w)` is the index of the lowest set bit of a non-zero
      word, and 64 exactly for the zero word. */
  lemma TrailingZerosSpec(w: Word)
    ensures var t := TrailingZeros64(w);
      t <= 64 && (t == 64 <==> w == 0) &&
      (t < 64 ==> Bit(w, t)) &&
      (forall j: nat :: j < t && j < 64 ==> !Bit(w, j))
  {
    if w == 0 {
      forall j: nat ensures !Bit(0, j) {
        BitZero(j);
      }
    } else {
      LowestBitSpec(w);
      Pow2Word();
      LowestBitBelow(w, 64);
    }
  }

  // ----- the abstract view -----

  /** Position `i` is set in the word slice `ws` (beyond the slice: unset). */
  predicate Has(ws: seq<Word>, i: nat) {
    i / 64 < |ws| && Bit(ws[i / 64], i % 64)
  }

  /** The set of positions held by a word slice. */
  ghost function Members(ws: seq<Word>): set<nat> {
    set i: nat | i < 64 * |ws| && Has(ws, i)
  }

  lemma HasMember(ws: seq<Word>, i: nat)
    ensures i in Members(ws) <==> Has(ws, i)
  {
  }

  lemma MembersByHas(ws: seq<Word>, s: set<nat>)
    requires forall i: nat :: i in s <==> Has(ws, i)
    ensures Members(ws) == s
  {
  }

  /** The members of `s` below `n`. */
  ghost function Within(s: set<nat>, n: nat): set<nat> {
    set x | x in s && x < n
  }

  function Zeros(n: nat): (r: seq<Word>)
    ensures |r| == n && forall k :: 0 <= k < n ==> r[k] == 0
  {
    seq(n, _ => 0)
  }

  lemma ZerosEmpty(n: nat)
    ensures Members(Zeros(n)) == {}
  {
    forall i: nat | Has(Zeros(n), i) ensures false {
      BitZero(i % 64);
    }
  }

  // ----- word-wise combinations (the loops of And, Or and AndNot) -----


  /** Word at `k`, or the zero word beyond the slice. */
  function WordAt(ws: seq<Word>, k: nat): Word {
    if k < |ws| then ws[k] else 0
  }

  /** `a & b` on `uint64`. */
  function AndWord(a: Word, b: Word): Word {
    AndBelow(a, b);
    And(a, b)
  }

  /** `a | b` on `uint64`. */
  function OrWord(a: Word, b: Word): Word {
    OrIsWord(a, b);
    Or(a, b)
  }

  /** `a &^ b` on `uint64`. */
  function AndNotWord(a: Word, b: Word): Word {
    AndNotBelow(a, b);
    AndNot(a, b)
  }

  function AndSlices(a: seq<Word>, b: seq<Word>): (r: seq<Word>)
    ensures |r| == Min(|a|, |b|)
  {
    seq(Min(|a|, |b|), k requires 0 <= k < Min(|a|, |b|) => AndWord(a[k], b[k]))
  }

  function OrSlices(a: seq<Word>, b: seq<Word>): (r: seq<Word>)
    ensures |r| == Max(|a|, |b|)
  {
    seq(Max(|a|, |b|), k requires 0 <= k => OrWord(WordAt(a, k), WordAt(b, k)))
  }

  function AndNotSlices(a: seq<Word>, b: seq<Word>): (r: seq<Word>)
    ensures |r| == Min(|a|, |b|)
  {
    seq(Min(|a|, |b|), k requires 0 <= k < Min(|a|, |b|) => AndNotWord(a[k], b[k]))
  }

  /** Word-wise AND gives exactly the common positions. */
  lemma MembersAnd(a: seq<Word>, b: seq<Word>)
    ensures Members(AndSlices(a, b)) == Members(a) * Members(b)
  {
    forall i: nat ensures Has(AndSlices(a, b), i) == (i in Members(a) * Members(b)) {
      HasMember(a, i);
      HasMember(b, i);
      if i / 64 < Min(|a|, |b|) {
        BitAnd(a[i / 64], b[i / 64], i % 64);
      }
    }
    MembersByHas(AndSlices(a, b), Members(a) * Members(b));
  }

  /** Word-wise OR, padding the shorter slice with zero words, gives the union. */
  lemma MembersOr(a: seq<Word>, b: seq<Word>)
    ensures Members(OrSlices(a, b)) == Members(a) + Members(b)
  {
    forall i: nat ensures Has(OrSlices(a, b), i) == (i in Members(a) + Members(b)) {
      HasMember(a, i);
      HasMember(b, i);
      var k := i / 64;
      if k < Max(|a|, |b|) {
        BitOr(WordAt(a, k), WordAt(b, k), i % 64);
        BitZero(i % 64);
      }
    }
    MembersByHas(OrSlices(a, b), Members(a) + Members(b));
  }

  /** Word-wise AND-NOT keeps the positions of `a` that are not in `b`, but
      only within the words that `b` has: the rest of `a` is cut off. */
  lemma MembersAndNot(a: seq<Word>, b: seq<Word>)
    ensures Members(AndNotSlices(a, b)) == Within(Members(a) - Members(b), 64 * |b|)
  {
    var s := Within(Members(a) - Members(b), 64 * |b|);
    forall i: nat ensures Has(AndNotSlices(a, b), i) == (i in s) {
      HasMember(a, i);
      HasMember(b, i);
      if i / 64 < Min(|a|, |b|) {
        BitAndNot(a[i / 64], b[i / 64], i % 64);
      }
    }
    MembersByHas(AndNotSlices(a, b), s);
  }

  lemma SameWordSameBit(i: nat, j: nat)
    requires i / 64 == j / 64 && i % 64 == j % 64
    ensures i == j
  {
  }

  /** Setting bit `i % 64` of word `i / 64` adds exactly position `i`. */
  lemma MembersSetBit(ws: seq<Word>, i: nat)
    requires i / 64 < |ws|
    ensures Members(ws[i / 64 := SetBit(ws[i / 64], i % 64)]) == Members(ws) + {i}
  {
    var ws' := ws[i / 64 := SetBit(ws[i / 64], i % 64)];
    forall j: nat ensures Has(ws', j) == (j in Members(ws) + {i}) {
      HasMember(ws, j);
      SetBitSpec(ws[i / 64], i % 64, j % 64);
      if j / 64 == i / 64 && j % 64 == i % 64 {
        SameWordSameBit(i, j);
      }
    }
    MembersByHas(ws', Members(ws) + {i});
  }

  /** Clearing bit `i % 64` of word `i / 64` removes exactly position `i`. */
  lemma MembersClearBit(ws: seq<Word>, i: nat)
    requires i / 64 < |ws|
    ensures Members(ws[i / 64 := ClearBit(ws[i / 64], i % 64)]) == Members(ws) - {i}
  {
    var ws' := ws[i / 64 := ClearBit(ws[i / 64], i % 64)];
    forall j: nat ensures Has(ws', j) == (j in Members(ws) - {i}) {
      HasMember(ws, j);
      ClearBitSpec(ws[i / 64], i % 64, j % 64);
      if j / 64 == i / 64 && j % 64 == i % 64 {
        SameWordSameBit(i, j);
      }
    }
    MembersByHas(ws', Members(ws) - {i});
  }

  /** Appending zero words adds no position. */
  lemma MembersPad(ws: seq<Word>, n: nat)
    ensures Members(ws + Zeros(n)) == Members(ws)
  {
    forall i: nat ensures Has(ws + Zeros(n), i) == (i in Members(ws)) {
      HasMember(ws, i);
      if |ws| <= i / 64 < |ws| + n {
        BitZero(i % 64);
      }
    }
    MembersByHas(ws + Zeros(n), Members(ws));
  }

  /** Words allocated by `newBitset(size)`: `(size+63)/64` in `uint32`
      arithmetic, so the addition wraps for sizes above 2^32 - 64. */
  function WordsFor(size: Pos): nat {
    ((size + 63) % 0x1_0000_0000) / 64
  }

  /** `newBitset(size)` covers positions `0 .. size-1` unless `size + 63`
      overflows, in which case it allocates no word at all. */
  lemma WordsForCovers(size: Pos)
    ensures size <= 0x1_0000_0000 - 64 ==> size <= 64 * WordsFor(size) < size + 64
    ensures size > 0x1_0000_0000 - 64 ==> WordsFor(size) == 0
    ensures WordsFor(size) <= MaxWords
  {
  }

  // ----- enumeration (ActiveIDs) -----

  /** The bookkeeping of one step of the inner loop of ActiveIDs. */
  lemma TakeLowest(base: nat, done: seq<nat>, w: Word)
    requires w != 0
    ensures var t := TrailingZeros64(w);
      Shifted(base, done + [t]) == Shifted(base, done) + [base + t] &&
      (done + [t]) + Positions(ClearBit(w, t)) == done + Positions(w) &&
      |Positions(ClearBit(w, t))| < |Positions(w)|
  {
    var t := TrailingZeros64(w);
    PopLowest(w);
    ShiftedSnoc(base, done, t);
    assert (done + [t]) + Positions(ClearBit(w, t)) == done + ([t] + Positions(ClearBit(w, t)));
  }

  /** The positions of a word slice, word by word, lowest first. */
  function Ids(ws: seq<Word>): seq<nat>
    decreases |ws|
  {
    if ws == [] then [] else Ids(ws[..|ws| - 1]) + Shifted(64 * (|ws| - 1), Positions(ws[|ws| - 1]))
  }

  /** A word has no bit from 64 on. */
  lemma WordBits(w: Word, x: nat)
    ensures Bit(w, x) ==> x < 64
  {
    Pow2Word();
    if x >= 64 {
      BitsBelow(w, 64, x);
    }
  }

  /** One step of the inner loop of ActiveIDs: the lowest set bit comes
      first, and clearing it leaves the rest of the list. */
  lemma PopLowest(w: Word)
    requires w != 0
    ensures var t := TrailingZeros64(w);
      t < 64 && Positions(w) == [t] + Positions(ClearBit(w, t))
  {
    TrailingZerosSpec(w);
    PositionsPop(w);
  }

  lemma WordOfPosition(x: nat, n: nat)
    ensures x / 64 == n <==> 64 * n <= x < 64 * n + 64
    ensures x / 64 == n ==> x % 64 == x - 64 * n
  {
  }

  /** The positions listed for the word at index `n`. */
  lemma ShiftedWordMember(w: Word, n: nat, x: nat)
    ensures x in Shifted(64 * n, Positions(w)) <==> x / 64 == n && Bit(w, x % 64)
  {
    var base := 64 * n;
    ShiftedMember(base, Positions(w), x);
    WordOfPosition(x, n);
    if x >= base {
      PositionsMember(w, x - base);
      WordBits(w, x - base);
    }
  }

  lemma FrontHas(ws: seq<Word>, x: nat)
    requires ws != []
    ensures Has(ws[..|ws| - 1], x) <==> x / 64 < |ws| - 1 && Has(ws, x)
  {
  }

  lemma {:induction false} IdsMember(ws: seq<Word>, x: nat)
    ensures x in Ids(ws) <==> Has(ws, x)
    decreases |ws|
  {
    if ws != [] {
      var n := |ws| - 1;
      IdsMember(ws[..n], x);
      ShiftedWordMember(ws[n], n, x);
      FrontHas(ws, x);
    }
  }

  lemma {:induction false} IdsAscending(ws: seq<Word>)
    ensures Ascending(Ids(ws))
    ensures forall x :: x in Ids(ws) ==> x < 64 * |ws|
    decreases |ws|
  {
    if ws != [] {
      var n := |ws| - 1;
      IdsAscending(ws[..n]);
      var tail := Shifted(64 * n, Positions(ws[n]));
      PositionsAscending(ws[n]);
      ShiftedAscending(64 * n, Positions(ws[n]));
      forall x | x in tail ensures 64 * n <= x < 64 * |ws| {
        ShiftedWordMember(ws[n], n, x);
        WordOfPosition(x, n);
      }
      AscendingAppend(Ids(ws[..n]), tail, 64 * n);
    }
  }

  /** Listing one more word appends its positions. */
  lemma IdsSnoc(ws: seq<Word>, k: nat)
    requires k < |ws|
    ensures Ids(ws[..k + 1]) == Ids(ws[..k]) + Shifted(64 * k, Positions(ws[k]))
  {
    assert ws[..k + 1][..k] == ws[..k];
  }

  /** The enumeration lists each member once: its length is the number of
      set bits. */
  lemma IdsCount(ws: seq<Word>)
    ensures |Ids(ws)| == |Members(ws)|
  {
    IdsAscending(ws);
    AscendingCard(Ids(ws));
    forall x: nat ensures x in Elements(Ids(ws)) <==> x in Members(ws) {
      IdsMember(ws, x);
      HasMember(ws, x);
    }
    assert Elements(Ids(ws)) == Members(ws);
  }

  /** `Ids` lists exactly the members, ascending, each once. */
  lemma IdsSpec(ws: seq<Word>)
    ensures Ascending(Ids(ws))
    ensures forall x: nat :: x in Ids(ws) <==> x in Members(ws)
    ensures |Ids(ws)| == |Members(ws)|
  {
    IdsAscending(ws);
    IdsCount(ws);
    forall x: nat ensures x in Ids(ws) <==> x in Members(ws) {
      IdsMember(ws, x);
      HasMember(ws, x);
    }
  }

  /** A bitset (Go: `*bitSet`). */
  class BitSet {
    var bits: seq<Word>

    /** Only positions that fit a `uint32` are ever set, so the slice stays
        within `MaxWords` words. */
    ghost predicate Valid()
      reads this
    {
      |bits| <= MaxWords
    }

    /** The set positions. */
    ghost function Elems(): set<nat>
      reads this
    {
      Members(bits)
    }

    /** `newBitset(size)`: `(size+63)/64` zero words. */
    constructor (size: Pos)
      ensures Valid()
      ensures bits == Zeros(WordsFor(size))
      ensures Elems() == {}
    {
      bits := Zeros(WordsFor(size));
      new;
      WordsForCovers(size);
      ZerosEmpty(WordsFor(size));
    }

    /** `Get(i)`: whether position `i` is set; false beyond the slice. */
    function Get(i: Pos): (r: bool)
      reads this
      ensures r <==> i in Elems()
      ensures i / 64 >= |bits| ==> !r
    {
      HasMember(bits, i);
      MaskTest(if i / 64 < |bits| then bits[i / 64] else 0, i % 64);
      var word := i / 64;
      if word >= |bits| then false
      else Bits.And(bits[word], Pow2(i % 64)) != 0
    }

    /** `Set(i)`: grows the slice to exactly `i/64 + 1` words when it is too
        short, then sets the bit. */
    method Set(i: Pos)
      requires Valid()
      modifies this
      ensures Valid()
      ensures |bits| == Max(old(|bits|), i / 64 + 1)
      ensures forall k :: 0 <= k < old(|bits|) && k != i / 64 ==> bits[k] == old(bits[k])
      ensures Elems() == old(Elems()) + {i}
    {
      var word := i / 64;
      var bit := i % 64;
      if word >= |bits| {
        MembersPad(bits, word + 1 - |bits|);
        bits := bits + Zeros(word + 1 - |bits|);
      }
      MembersSetBit(bits, i);
      bits := bits[word := SetBit(bits[word], bit)];
    }

    /** `Clear(i)`: clears the bit; a no-op beyond the slice. */
    method Clear(i: Pos)
      requires Valid()
      modifies this
      ensures Valid()
      ensures |bits| == old(|bits|)
      ensures i / 64 >= |bits| ==> bits == old(bits)
      ensures Elems() == old(Elems()) - {i}
    {
      var word := i / 64;
      if word >= |bits| {
        HasMember(bits, i);
        return;
      }
      var bit := i % 64;
      MembersClearBit(bits, i);
      bits := bits[word := ClearBit(bits[word], bit)];
    }

    /** `And(other)`: intersects the common words and truncates to them. */
    method And(other: BitSet)
      requires Valid() && other.Valid()
      modifies this
      ensures Valid()
      ensures bits == AndSlices(old(bits), old(other.bits))
      ensures Elems() == old(Elems()) * old(other.Elems())
    {
      var theirs := other.bits;
      var n := Min(|bits|, |theirs|);
      for k := 0 to n
        invariant |bits| == old(|bits|)
        invariant forall j :: 0 <= j < k ==> bits[j] == AndWord(old(bits[j]), theirs[j])
        invariant forall j :: k <= j < |bits| ==> bits[j] == old(bits[j])
      {
        bits := bits[k := AndWord(bits[k], theirs[k])];
      }
      bits := bits[..n];
      MembersAnd(old(bits), theirs);
    }

    /** `Or(other)`: ORs the common words, then appends the words of `other`
        beyond this slice. */
    method Or(other: BitSet)
      requires Valid() && other.Valid()
      modifies this
      ensures Valid()
      ensures bits == OrSlices(old(bits), old(other.bits))
      ensures Elems() == old(Elems()) + old(other.Elems())
    {
      var theirs := other.bits;
      var n := Min(|bits|, |theirs|);
      for k := 0 to n
        invariant |bits| == old(|bits|)
        invariant forall j :: 0 <= j < k ==> bits[j] == OrWord(old(bits[j]), theirs[j])
        invariant forall j :: k <= j < |bits| ==> bits[j] == old(bits[j])
      {
        bits := bits[k := OrWord(bits[k], theirs[k])];
      }
      if |theirs| > |bits| {
        bits := bits + theirs[|bits|..];
      }
      OrTail(old(bits), theirs, bits);
      MembersOr(old(bits), theirs);
    }

    /** `AndNot(other)`: clears the positions of `other` within the common
        words and truncates to them, dropping this bitset's later words. */
    method AndNot(other: BitSet)
      requires Valid() && other.Valid()
      modifies this
      ensures Valid()
      ensures bits == AndNotSlices(old(bits), old(other.bits))
      ensures Elems() == Within(old(Elems()) - old(other.Elems()), 64 * old(|other.bits|))
    {
      var theirs := other.bits;
      var n := Min(|bits|, |theirs|);
      for k := 0 to n
        invariant |bits| == old(|bits|)
        invariant forall j :: 0 <= j < k ==> bits[j] == AndNotWord(old(bits[j]), theirs[j])
        invariant forall j :: k <= j < |bits| ==> bits[j] == old(bits[j])
      {
        bits := bits[k := AndNotWord(bits[k], theirs[k])];
      }
      bits := bits[..n];
      MembersAndNot(old(bits), theirs);
    }

    /** `Clone()`: a new bitset with a copy of the words. */
    method Clone() returns (c: BitSet)
      requires Valid()
      ensures fresh(c) && c.Valid()
      ensures c.bits == bits && c.Elems() == Elems()
    {
      c := new BitSet(0);
      c.bits := bits;
    }

    /** `ActiveIDs()`: the set positions, ascending, found by repeatedly
        taking and clearing the lowest set bit of each word. */
    method ActiveIDs() returns (ids: seq<nat>)
      requires Valid()
      ensures ids == Ids(bits)
      ensures Ascending(ids)
      ensures forall x: nat :: x in ids <==> x in Elems()
      ensures |ids| == |Elems()|
    {
      ids := SliceIDs(bits);
      IdsSpec(bits);
    }
  }

  /** The loop of `ActiveIDs` over the words of a slice. */
  method SliceIDs(ws: seq<Word>) returns (ids: seq<nat>)
    ensures ids == Ids(ws)
  {
    ids := [];
    for wi := 0 to |ws|
      invariant ids == Ids(ws[..wi])
    {
      var found := WordIDs(ws[wi], wi * 64);
      ids := ids + found;
      IdsSnoc(ws, wi);
    }
    assert ws[..|ws|] == ws;
  }

  /** The inner loop of `ActiveIDs` on one word: take the lowest set bit,
      record `base` plus its position, clear it, until the word is zero. */
  method WordIDs(w0: Word, base: nat) returns (ids: seq<nat>)
    ensures ids == Shifted(base, Positions(w0))
  {
    var w := w0;
    ids := [];
    ghost var done: seq<nat> := [];
    while w != 0
      invariant ids == Shifted(base, done)
      invariant done + Positions(w) == Positions(w0)
      decreases |Positions(w)|
    {
      var t := TrailingZeros64(w);
      TakeLowest(base, done, w);
      ids := ids + [base + t];
      done := done + [t];
      w := ClearBit(w, t);
    }
    assert Positions(w) == [];
    assert done + [] == done;
  }

  /** The words the loop and the append of `Or` leave behind are `OrSlices`. */
  lemma OrTail(a: seq<Word>, b: seq<Word>, r: seq<Word>)
    requires |r| == Max(|a|, |b|)
    requires forall j :: 0 <= j < Min(|a|, |b|) ==> r[j] == OrWord(a[j], b[j])
    requires forall j :: Min(|a|, |b|) <= j < |a| ==> r[j] == a[j]
    requires forall j :: Min(|a|, |b|) <= j < |b| && |a| <= j ==> r[j] == b[j]
    ensures r == OrSlices(a, b)
  {
    forall j | 0 <= j < |r| ensures r[j] == OrSlices(a, b)[j] {
      OrZero(WordAt(a, j));
      OrZero(WordAt(b, j));
    }
  }
}
