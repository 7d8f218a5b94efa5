/**
 * Bits of unsigned machine words, shared by both bitset revisions. A word
 * (Go `uint64` or `byte`) is a natural number below `2^width`; its bitwise
 * operators `|`, `&`, `&^` and the mask `1 << k` are defined bit by bit,
 * lowest bit first.
 */
module Bits {
  import opened Ordered

  /** `2^k`, the word `1 << k`. */
  function Pow2(k: nat): (r: nat)
    ensures r >= 1
  {
    if k == 0 then 1 else 2 * Pow2(k - 1)
  }

  /** The shorter and the longer of two slice lengths. */
  function Min(a: nat, b: nat): nat { if a < b then a else b }
  function Max(a: nat, b: nat): nat { if a < b then b else a }

  /** Bit `k` of `x`, counting from the least significant bit. */
  predicate Bit(x: nat, k: nat) {
    if k == 0 then x % 2 == 1 else Bit(x / 2, k - 1)
  }

  /** Bitwise OR (Go `|`), bit by bit from the lowest. */
  function Or(a: nat, b: nat): nat
    decreases a + b
  {
    if a == 0 && b == 0 then 0
    else 2 * Or(a / 2, b / 2) + (if a % 2 == 1 || b % 2 == 1 then 1 else 0)
  }

  /** Bitwise AND (Go `&`). */
  function And(a: nat, b: nat): nat
    decreases a
  {
    if a == 0 || b == 0 then 0
    else 2 * And(a / 2, b / 2) + (if a % 2 == 1 && b % 2 == 1 then 1 else 0)
  }

  /** Bit clear (Go `&^`): the bits of `a` that are not in `b`. */
  function AndNot(a: nat, b: nat): nat
    decreases a
  {
    if a == 0 then 0
    else 2 * AndNot(a / 2, b / 2) + (if a % 2 == 1 && b % 2 == 0 then 1 else 0)
  }

  lemma {:induction false} BitZero(k: nat)
    ensures !Bit(0, k)
  {
    if k > 0 {
      BitZero(k - 1);
    }
  }

  lemma {:induction false} BitOr(a: nat, b: nat, k: nat)
    ensures Bit(Or(a, b), k) == (Bit(a, k) || Bit(b, k))
    decreases k
  {
    if a == 0 && b == 0 {
      BitZero(k);
    } else if k > 0 {
      BitOr(a / 2, b / 2, k - 1);
    }
  }

  lemma {:induction false} BitAnd(a: nat, b: nat, k: nat)
    ensures Bit(And(a, b), k) == (Bit(a, k) && Bit(b, k))
    decreases k
  {
    if a == 0 || b == 0 {
      BitZero(k);
    } else if k > 0 {
      BitAnd(a / 2, b / 2, k - 1);
    }
  }

  lemma {:induction false} BitAndNot(a: nat, b: nat, k: nat)
    ensures Bit(AndNot(a, b), k) == (Bit(a, k) && !Bit(b, k))
    decreases k
  {
    if a == 0 {
      BitZero(k);
    } else if k > 0 {
      BitAndNot(a / 2, b / 2, k - 1);
    }
  }

  /** The only bit of `2^j` is bit `j`. */
  lemma {:induction false} BitPow2(j: nat, k: nat)
    ensures Bit(Pow2(j), k) == (k == j)
    decreases j
  {
    if j == 0 {
      if k > 0 {
        BitZero(k - 1);
      }
    } else if k > 0 {
      BitPow2(j - 1, k - 1);
    }
  }

  lemma BitSetOne(a: nat, j: nat, k: nat)
    ensures Bit(Or(a, Pow2(j)), k) == (k == j || Bit(a, k))
  {
    BitOr(a, Pow2(j), k);
    BitPow2(j, k);
  }

  lemma BitClearOne(a: nat, j: nat, k: nat)
    ensures Bit(AndNot(a, Pow2(j)), k) == (k != j && Bit(a, k))
  {
    BitAndNot(a, Pow2(j), k);
    BitPow2(j, k);
  }

  /** Go's test `w&(1<<k) != 0` reads bit `k`. */
  lemma MaskTest(w: nat, k: nat)
    ensures (And(w, Pow2(k)) != 0) == Bit(w, k)
  {
    var m := And(w, Pow2(k));
    BitAnd(w, Pow2(k), k);
    BitPow2(k, k);
    if m != 0 {
      LowestBitSpec(m);
      BitAnd(w, Pow2(k), LowestBit(m));
      BitPow2(k, LowestBit(m));
    } else {
      BitZero(k);
    }
  }

  lemma {:induction false} OrZero(a: nat)
    ensures Or(a, 0) == a && Or(0, a) == a
    decreases a
  {
    if a != 0 {
      OrZero(a / 2);
    }
  }

  /** A value below `2^n` has no bit from `n` on. */
  lemma {:induction false} BitsBelow(x: nat, n: nat, k: nat)
    requires x < Pow2(n) && n <= k
    ensures !Bit(x, k)
    decreases k
  {
    if n == 0 {
      assert x == 0;
      BitZero(k);
    } else {
      BitsBelow(x / 2, n - 1, k - 1);
    }
  }

  lemma {:induction false} OrBelow(a: nat, b: nat, n: nat)
    requires a < Pow2(n) && b < Pow2(n)
    ensures Or(a, b) < Pow2(n)
    decreases n
  {
    if n > 0 && !(a == 0 && b == 0) {
      OrBelow(a / 2, b / 2, n - 1);
    }
  }

  lemma {:induction false} AndBelow(a: nat, b: nat)
    ensures And(a, b) <= a
    decreases a
  {
    if a != 0 && b != 0 {
      AndBelow(a / 2, b / 2);
    }
  }

  lemma {:induction false} AndNotBelow(a: nat, b: nat)
    ensures AndNot(a, b) <= a
    decreases a
  {
    if a != 0 {
      AndNotBelow(a / 2, b / 2);
    }
  }

  lemma {:induction false} Pow2Monotone(j: nat, k: nat)
    requires j < k
    ensures Pow2(j) < Pow2(k)
    decreases k
  {
    if j < k - 1 {
      Pow2Monotone(j, k - 1);
    }
  }

  lemma Pow2Byte()
    ensures Pow2(3) == 8 && Pow2(6) == 64 && Pow2(8) == 0x100
  {
  }

  lemma Pow2Half()
    ensures Pow2(32) == 0x1_0000_0000
  {
    Pow2Byte();
    Pow2Add(8, 8);
    Pow2Add(16, 16);
  }

  lemma Pow2Word()
    ensures Pow2(64) == 0x1_0000_0000_0000_0000
  {
    Pow2Half();
    Pow2Add(32, 32);
  }

  lemma {:induction false} Pow2Add(j: nat, k: nat)
    ensures Pow2(j + k) == Pow2(j) * Pow2(k)
    decreases k
  {
    if k > 0 {
      Pow2Add(j, k - 1);
    }
  }

  /** Index of the lowest set bit of a non-zero value. */
  function LowestBit(x: nat): nat
    requires x > 0
  {
    if x % 2 == 1 then 0 else 1 + LowestBit(x / 2)
  }

  lemma LowestBitBelow(x: nat, n: nat)
    requires 0 < x < Pow2(n)
    ensures LowestBit(x) < n
  {
    LowestBitSpec(x);
    if LowestBit(x) >= n {
      BitsBelow(x, n, LowestBit(x));
    }
  }

  lemma {:induction false} LowestBitSpec(x: nat)
    requires x > 0
    ensures Bit(x, LowestBit(x))
    ensures forall j: nat :: j < LowestBit(x) ==> !Bit(x, j)
  {
    if x % 2 == 0 {
      LowestBitSpec(x / 2);
      forall j: nat | j < LowestBit(x) ensures !Bit(x, j) {
        if j > 0 {
          assert Bit(x, j) == Bit(x / 2, j - 1);
        }
      }
    }
  }

  /** The indices of the set bits of `x`, lowest first. */
  function Positions(x: nat): seq<nat>
    decreases x
  {
    if x == 0 then [] else (if x % 2 == 1 then [0] else []) + Shifted(1, Positions(x / 2))
  }

  lemma {:induction false} PositionsMember(x: nat, j: nat)
    ensures j in Positions(x) <==> Bit(x, j)
    decreases x
  {
    if x == 0 {
      BitZero(j);
    } else {
      ShiftedMember(1, Positions(x / 2), j);
      if j > 0 {
        PositionsMember(x / 2, j - 1);
      }
    }
  }

  lemma {:induction false} PositionsAscending(x: nat)
    ensures Ascending(Positions(x))
    decreases x
  {
    if x != 0 {
      PositionsAscending(x / 2);
      var rest := Shifted(1, Positions(x / 2));
      ShiftedAscending(1, Positions(x / 2));
      forall y | y in rest ensures 1 <= y {
        ShiftedMember(1, Positions(x / 2), y);
      }
      var head: seq<nat> := if x % 2 == 1 then [0] else [];
      AscendingAppend(head, rest, 1);
    }
  }

  /** Taking the lowest set bit off: it heads the list, and clearing it
      leaves the rest. */
  lemma PositionsPop(x: nat)
    requires x > 0
    ensures Positions(x) == [LowestBit(x)] + Positions(AndNot(x, Pow2(LowestBit(x))))
  {
    var t := LowestBit(x);
    var y := AndNot(x, Pow2(t));
    LowestBitSpec(x);
    PositionsAscending(x);
    PositionsAscending(y);
    var c := [t] + Positions(y);
    forall e | e in Positions(y) ensures t + 1 <= e {
      PositionsMember(y, e);
      BitClearOne(x, t, e);
    }
    AscendingAppend([t], Positions(y), t + 1);
    forall e ensures e in Positions(x) <==> e in c {
      PositionsMember(x, e);
      PositionsMember(y, e);
      BitClearOne(x, t, e);
    }
    AscendingUnique(Positions(x), c);
  }
}
