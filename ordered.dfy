/** Facts about ascending lists of positions, shared by both bitset revisions. */
module Ordered {

  /** Strictly ascending: no duplicates, each element smaller than the next. */
  predicate Ascending(s: seq<nat>) {
    forall i, j :: 0 <= i < j < |s| ==> s[i] < s[j]
  }

  /** Every element of `s` increased by `base` (Go: `base + uint32(t)`). */
  function Shifted(base: nat, s: seq<nat>): (r: seq<nat>)
    ensures |r| == |s|
    ensures forall i :: 0 <= i < |s| ==> r[i] == base + s[i]
  {
    seq(|s|, i requires 0 <= i < |s| => base + s[i])
  }

  /** The set of elements of a sequence. */
  ghost function Elements(s: seq<nat>): set<nat> {
    set x | x in s
  }

  lemma ShiftedSnoc(base: nat, s: seq<nat>, t: nat)
    ensures Shifted(base, s + [t]) == Shifted(base, s) + [base + t]
  {
  }

  lemma ShiftedMember(base: nat, s: seq<nat>, x: nat)
    ensures x in Shifted(base, s) <==> x >= base && x - base in s
  {
    if x in Shifted(base, s) {
      var i :| 0 <= i < |s| && Shifted(base, s)[i] == x;
      assert s[i] == x - base;
    }
    if x >= base && x - base in s {
      var i :| 0 <= i < |s| && s[i] == x - base;
      assert Shifted(base, s)[i] == x;
    }
  }

  /** Two ascending lists whose elements are separated by a bound concatenate
      to an ascending list. */
  lemma AscendingAppend(a: seq<nat>, b: seq<nat>, bound: nat)
    requires Ascending(a) && Ascending(b)
    requires forall x :: x in a ==> x < bound
    requires forall y :: y in b ==> bound <= y
    ensures Ascending(a + b)
  {
    forall i, j | 0 <= i < j < |a + b| ensures (a + b)[i] < (a + b)[j] {
      if j < |a| {
      } else if i >= |a| {
        assert (a + b)[i] == b[i - |a|] && (a + b)[j] == b[j - |a|];
      } else {
        assert (a + b)[i] == a[i] && a[i] in a;
        assert (a + b)[j] == b[j - |a|] && b[j - |a|] in b;
      }
    }
  }

  /** An ascending list has no duplicates, so its length is the number of
      distinct values it holds. */
  lemma {:induction false} AscendingCard(s: seq<nat>)
    requires Ascending(s)
    ensures |Elements(s)| == |s|
  {
    if s != [] {
      AscendingTail(s);
      AscendingCard(s[1..]);
      ElementsCons(s);
      HeadNotInTail(s);
    }
  }

  lemma ElementsCons(s: seq<nat>)
    requires s != []
    ensures Elements(s) == {s[0]} + Elements(s[1..])
  {
    assert s == [s[0]] + s[1..];
  }

  lemma HeadNotInTail(s: seq<nat>)
    requires Ascending(s) && s != []
    ensures s[0] !in Elements(s[1..])
  {
    forall i | 0 <= i < |s| - 1 ensures s[1..][i] != s[0] {
      assert s[1..][i] == s[i + 1];
    }
  }

  lemma AscendingTail(s: seq<nat>)
    requires Ascending(s) && s != []
    ensures Ascending(s[1..])
  {
    forall i, j | 0 <= i < j < |s| - 1 ensures s[1..][i] < s[1..][j] {
      assert s[1..][i] == s[i + 1] && s[1..][j] == s[j + 1];
    }
  }

  lemma ShiftedAscending(base: nat, s: seq<nat>)
    requires Ascending(s)
    ensures Ascending(Shifted(base, s))
  {
  }

  /** The elements after the head of an ascending list are all above it. */
  lemma HeadBelowRest(s: seq<nat>, x: nat)
    requires Ascending(s) && s != []
    ensures x in s <==> x == s[0] || x in s[1..]
    ensures x in s[1..] ==> s[0] < x
  {
    assert s == [s[0]] + s[1..];
    if x in s[1..] {
      var i :| 0 <= i < |s| - 1 && s[1..][i] == x;
      assert s[i + 1] == x;
    }
  }

  lemma HeadIn(s: seq<nat>)
    requires s != []
    ensures s[0] in s
  {
  }

  /** An ascending list is determined by the values it holds. */
  lemma {:induction false} AscendingUnique(a: seq<nat>, b: seq<nat>)
    requires Ascending(a) && Ascending(b)
    requires forall x :: x in a <==> x in b
    ensures a == b
    decreases |a|
  {
    if a == [] {
      if b != [] {
        HeadIn(b);
        assert false;
      }
    } else {
      assert a[0] in b;
      assert b != [];
      HeadBelowRest(a, b[0]);
      HeadBelowRest(b, a[0]);
      assert a[0] == b[0];
      forall x ensures x in a[1..] <==> x in b[1..] {
        HeadBelowRest(a, x);
        HeadBelowRest(b, x);
      }
      AscendingTail(a);
      AscendingTail(b);
      AscendingUnique(a[1..], b[1..]);
      assert a == [a[0]] + a[1..] && b == [b[0]] + b[1..];
    }
  }
}
