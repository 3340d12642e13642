/**
  The in-place Fisher-Yates shuffle.  The numbers drawn from the random generator are a parameter;
  the theorems say that the possible draws correspond one to one to the orders of the range.
 */
module Shuffle {
  import opened Common

  function Swap<E>(s: seq<E>, i: nat, j: nat): (t: seq<E>)
    requires i < |s| && j < |s|
    ensures |t| == |s|
  {
    s[i := s[j]][j := s[i]]
  }

  // The generator is asked for a number below width, then below width - 1, and so on down to 2.
  ghost predicate ValidDraws(draws: seq<nat>, width: nat) {
    && |draws| == (if width < 2 then 0 else width - 1)
    && forall k | 0 <= k < |draws| :: draws[k] < width - k
  }

  lemma DrawsTail(draws: seq<nat>, width: nat)
    requires width >= 2
    ensures ValidDraws(draws, width) <==> draws != [] && draws[0] < width && ValidDraws(draws[1..], width - 1)
  {
    if draws != [] && draws[0] < width && ValidDraws(draws[1..], width - 1) {
      forall k | 0 < k < |draws|
        ensures draws[k] < width - k
      {
        assert draws[k] == draws[1..][k - 1];
      }
    }
  }

  // The shuffle of a whole sequence: the element drawn first goes to the end, the last element takes
  // its place, and the shorter prefix is shuffled with the remaining draws.
  ghost function Shuffled<E>(r: seq<E>, draws: seq<nat>): (t: seq<E>)
    requires ValidDraws(draws, |r|)
    ensures |t| == |r|
    decreases |r|
  {
    if |r| < 2 then r else
      DrawsTail(draws, |r|);
      Shuffled(Taken(r, draws[0]), draws[1..]) + [r[draws[0]]]
  }

  // r with its last element moved to position first, where r[first] has been taken out.
  function Taken<E>(r: seq<E>, first: nat): (u: seq<E>)
    requires first < |r|
    ensures |u| == |r| - 1
  {
    Swap(r, first, |r| - 1)[..|r| - 1]
  }

  // The element drawn first lands at the end; the one it replaces is shuffled with the others.
  lemma FirstDrawLandsLast<E>(r: seq<E>, draws: seq<nat>)
    requires |r| >= 2 && ValidDraws(draws, |r|)
    ensures draws != [] && draws[0] < |r| && ValidDraws(draws[1..], |r| - 1)
    ensures Shuffled(r, draws) == Shuffled(r[draws[0] := r[|r| - 1]][..|r| - 1], draws[1..]) + [r[draws[0]]]
  {
    DrawsTail(draws, |r|);
    assert Taken(r, draws[0]) == r[draws[0] := r[|r| - 1]][..|r| - 1];
  }

  lemma SwapInMiddle<E>(prefix: seq<E>, r: seq<E>, tail: seq<E>, first: nat)
    requires first < |r|
    ensures Swap(prefix + r + tail, |prefix| + first, |prefix| + |r| - 1)
            == prefix + Taken(r, first) + ([r[first]] + tail)
  {
  }

  lemma ShuffledStep<E>(prefix: seq<E>, r: seq<E>, draws: seq<nat>, tail: seq<E>)
    requires |r| >= 2 && ValidDraws(draws, |r|)
    ensures draws != [] && draws[0] < |r| && ValidDraws(draws[1..], |r| - 1)
    ensures prefix + Shuffled(r, draws) + tail ==
      prefix + Shuffled(Taken(r, draws[0]), draws[1..]) + ([r[draws[0]]] + tail)
  {
    DrawsTail(draws, |r|);
    var u, x := Shuffled(Taken(r, draws[0]), draws[1..]), [r[draws[0]]];
    assert Shuffled(r, draws) == u + x;
    assert prefix + (u + x) + tail == prefix + u + (x + tail);
  }

  method SwapElements<E>(v: array<E>, i: nat, j: nat)
    requires i < v.Length && j < v.Length
    modifies v
    ensures v[..] == Swap(old(v[..]), i, j)
  {
    v[i], v[j] := v[j], v[i];
  }

  // Swaps the selected element of the range r, which lies between prefix and tail, to its end.
  method SwapToEnd<E>(v: array<E>, selected: nat, lastInRange: nat, ghost prefix: seq<E>, ghost r: seq<E>,
          ghost tail: seq<E>, ghost first: nat)
    requires v[..] == prefix + r + tail && first < |r| && selected == |prefix| + first
      && lastInRange == |prefix| + |r| - 1
    modifies v
    ensures v[..] == prefix + Taken(r, first) + ([r[first]] + tail)
  {
    SwapInMiddle(prefix, r, tail, first);
    SwapElements(v, selected, lastInRange);
  }

  lemma ThreeParts<E>(s: seq<E>, i: nat, j: nat)
    requires i <= j <= |s|
    ensures s == s[..i] + s[i..j] + s[j..]
  {
  }

  // The range [begin, end) is shuffled in place and nothing outside it is touched.
  method ShuffleRange<E>(draws: seq<nat>, begin: nat, end: nat, v: array<E>)
    requires begin <= end <= v.Length && ValidDraws(draws, end - begin)
    modifies v
    ensures v[..] == old(v[..begin]) + Shuffled(old(v[begin..end]), draws) + old(v[end..])
  {
    ghost var prefix, r, tail, rest := v[..begin], v[begin..end], v[end..], draws;
    ghost var target := prefix + Shuffled(r, draws) + tail;
    ThreeParts(v[..], begin, end);
    assert v[..][..begin] == prefix && v[..][begin..end] == r && v[..][end..] == tail;
    var rangeWidth := end - begin;
    var drawn := 0;
    while rangeWidth >= 2
      invariant |prefix| == begin && 0 <= rangeWidth == |r| && drawn == end - begin - rangeWidth
      invariant 0 <= drawn <= |draws| && rest == draws[drawn..] && ValidDraws(rest, |r|)
      invariant v[..] == prefix + r + tail
      invariant prefix + Shuffled(r, rest) + tail == target
    {
      ShuffledStep(prefix, r, rest, tail);
      ghost var first := rest[0];
      assert draws[drawn] == first;
      var lastInRange := begin + rangeWidth - 1;
      var selected := begin + draws[drawn];
      SwapToEnd(v, selected, lastInRange, prefix, r, tail, first);
      r, tail := Taken(r, first), [r[first]] + tail;
      drawn := drawn + 1;
      rest := rest[1..];
      rangeWidth := rangeWidth - 1;
    }
  }

  method ShuffleAll<E>(draws: seq<nat>, v: array<E>)
    requires ValidDraws(draws, v.Length)
    modifies v
    ensures v[..] == Shuffled(old(v[..]), draws)
  {
    assert v[..] == v[0..v.Length];
    ShuffleRange(draws, 0, v.Length, v);
  }

  // ---------- every order is reached, and by one sequence of draws only ----------

  ghost predicate Distinct<E>(s: seq<E>) {
    forall i, j | 0 <= i < j < |s| :: s[i] != s[j]
  }

  lemma TakenElements<E>(r: seq<E>, first: nat)
    requires first < |r|
    ensures multiset(Taken(r, first)) == multiset(r) - multiset{r[first]}
  {
    var last := |r| - 1;
    if first == last {
      assert r == Taken(r, first) + [r[first]];
    } else {
      var a, b := r[..first], r[first + 1..last];
      assert r == a + [r[first]] + b + [r[last]];
      assert Taken(r, first) == a + [r[last]] + b;
    }
  }

  lemma TakenIsDistinct<E>(r: seq<E>, first: nat)
    requires first < |r| && Distinct(r)
    ensures Distinct(Taken(r, first))
  {
  }

  lemma {:induction false} ShuffledIsReorder<E>(r: seq<E>, draws: seq<nat>)
    requires ValidDraws(draws, |r|)
    ensures multiset(Shuffled(r, draws)) == multiset(r)
    decreases |r|
  {
    if |r| >= 2 {
      DrawsTail(draws, |r|);
      ShuffledIsReorder(Taken(r, draws[0]), draws[1..]);
      TakenElements(r, draws[0]);
    }
  }

  // Over distinct elements the result determines the draws, starting with the last element.
  lemma {:induction false} DrawsAreDetermined<E>(r: seq<E>, draws: seq<nat>, other: seq<nat>)
    requires Distinct(r) && ValidDraws(draws, |r|) && ValidDraws(other, |r|)
    requires Shuffled(r, draws) == Shuffled(r, other)
    ensures draws == other
    decreases |r|
  {
    if |r| >= 2 {
      var t := Shuffled(r, draws);
      DrawsTail(draws, |r|);
      DrawsTail(other, |r|);
      assert r[draws[0]] == t[|r| - 1] == r[other[0]];
      TakenIsDistinct(r, draws[0]);
      assert Shuffled(Taken(r, draws[0]), draws[1..]) == t[..|r| - 1];
      assert Shuffled(Taken(r, other[0]), other[1..]) == t[..|r| - 1];
      DrawsAreDetermined(Taken(r, draws[0]), draws[1..], other[1..]);
      assert draws == [draws[0]] + draws[1..] && other == [other[0]] + other[1..];
    }
  }

  lemma {:induction false} EveryOrderIsDrawn<E>(r: seq<E>, t: seq<E>) returns (draws: seq<nat>)
    requires multiset(t) == multiset(r)
    ensures ValidDraws(draws, |r|) && Shuffled(r, draws) == t
    decreases |r|
  {
    SameElementsSameSize(r, t);
    if |r| < 2 {
      draws := [];
      ShortOrder(r, t);
    } else {
      var first := FirstDraw(r, t);
      var rest := EveryOrderIsDrawn(Taken(r, first), t[..|t| - 1]);
      draws := [first] + rest;
      assert draws[1..] == rest;
      DrawsTail(draws, |r|);
      SplitOffLast(t);
    }
  }

  lemma SameElementsSameSize<E>(r: seq<E>, t: seq<E>)
    requires multiset(t) == multiset(r)
    ensures |t| == |r|
  {
    assert |t| == |multiset(t)| == |multiset(r)| == |r|;
  }

  lemma ShortOrder<E>(r: seq<E>, t: seq<E>)
    requires multiset(t) == multiset(r) && |t| == |r| < 2
    ensures r == t
  {
    if |r| == 1 {
      assert t[0] in multiset(t);
      assert t[0] in r;
    }
  }

  // The element drawn first is the one that ends up last; the others fill the rest of the order.
  lemma FirstDraw<E>(r: seq<E>, t: seq<E>) returns (first: nat)
    requires multiset(t) == multiset(r) && t != []
    ensures first < |r| && r[first] == t[|t| - 1]
    ensures multiset(t[..|t| - 1]) == multiset(Taken(r, first))
  {
    var last := t[|t| - 1];
    assert last in multiset(t);
    assert last in r;
    first :| first < |r| && r[first] == last;
    TakenElements(r, first);
    SplitOffLast(t);
    assert multiset(t) == multiset(t[..|t| - 1]) + multiset{last};
  }

  // Over distinct elements, each order comes from exactly one sequence of draws, and nothing but
  // orders comes out.
  lemma ShuffleIsBijection<E>(r: seq<E>, t: seq<E>)
    requires Distinct(r)
    ensures multiset(t) == multiset(r) <==> exists draws :: ValidDraws(draws, |r|) && Shuffled(r, draws) == t
    ensures forall draws, other | ValidDraws(draws, |r|) && ValidDraws(other, |r|)
              && Shuffled(r, draws) == t && Shuffled(r, other) == t :: draws == other
  {
    if multiset(t) == multiset(r) {
      var draws := EveryOrderIsDrawn(r, t);
    }
    forall draws | ValidDraws(draws, |r|) && Shuffled(r, draws) == t
      ensures multiset(t) == multiset(r)
    {
      ShuffledIsReorder(r, draws);
    }
    forall draws, other | ValidDraws(draws, |r|) && ValidDraws(other, |r|)
        && Shuffled(r, draws) == t && Shuffled(r, other) == t
      ensures draws == other
    {
      DrawsAreDetermined(r, draws, other);
    }
  }

  // ---------- there are width! sequences of draws ----------

  ghost function Prefixed(tails: set<seq<nat>>, k: nat): set<seq<nat>> {
    set tail | tail in tails :: [k] + tail
  }

  ghost function Extend(tails: set<seq<nat>>, n: nat): set<seq<nat>> {
    if n == 0 then {} else Extend(tails, n - 1) + Prefixed(tails, n - 1)
  }

  lemma {:induction false} ExtendMembers(tails: set<seq<nat>>, n: nat, draws: seq<nat>)
    ensures draws in Extend(tails, n) <==> draws != [] && draws[0] < n && draws[1..] in tails
  {
    if n > 0 {
      ExtendMembers(tails, n - 1, draws);
      if draws != [] {
        assert draws == [draws[0]] + draws[1..];
      }
      assert forall tail | tail in tails :: ([n - 1] + tail)[1..] == tail;
    }
  }

  lemma {:induction false} PrefixedSize(tails: set<seq<nat>>, k: nat)
    ensures |Prefixed(tails, k)| == |tails|
  {
    if tails != {} {
      var x :| x in tails;
      PrefixedSize(tails - {x}, k);
      assert Prefixed(tails, k) == Prefixed(tails - {x}, k) + {[k] + x};
      assert forall tail | tail in tails :: ([k] + tail)[1..] == tail;
      assert [k] + x !in Prefixed(tails - {x}, k);
    }
  }

  lemma ExtendIsDisjoint(tails: set<seq<nat>>, n: nat)
    ensures Extend(tails, n) !! Prefixed(tails, n)
  {
    var smaller := Extend(tails, n);
    forall draws | draws in smaller
      ensures draws !in Prefixed(tails, n)
    {
      ExtendMembers(tails, n, draws);
    }
  }

  lemma ExtendGrows(tails: set<seq<nat>>, n: nat)
    ensures |Extend(tails, n + 1)| == |Extend(tails, n)| + |tails|
  {
    ExtendIsDisjoint(tails, n);
    PrefixedSize(tails, n);
    var a, b := Extend(tails, n), Prefixed(tails, n);
    assert a * b == {} && Extend(tails, n + 1) == a + b;
  }

  lemma {:induction false} ExtendSize(tails: set<seq<nat>>, n: nat)
    ensures |Extend(tails, n)| == n * |tails|
  {
    if n > 0 {
      ExtendSize(tails, n - 1);
      ExtendGrows(tails, n - 1);
      MulStep(n, |tails|);
    }
  }

  lemma MulStep(n: nat, m: nat)
    requires n > 0
    ensures n * m == (n - 1) * m + m
  {
  }

  ghost function AllDraws(width: nat): set<seq<nat>> {
    if width < 2 then {[]} else Extend(AllDraws(width - 1), width)
  }

  lemma {:induction false} DrawsAreCounted(width: nat)
    ensures forall draws :: draws in AllDraws(width) <==> ValidDraws(draws, width)
    ensures |AllDraws(width)| == Factorial(width)
  {
    if width >= 2 {
      DrawsAreCounted(width - 1);
      forall draws: seq<nat>
        ensures draws in AllDraws(width) <==> ValidDraws(draws, width)
      {
        ExtendMembers(AllDraws(width - 1), width, draws);
        DrawsTail(draws, width);
      }
      ExtendSize(AllDraws(width - 1), width);
    }
  }
}
