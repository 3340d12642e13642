/** Small definitions used by several modules. */
module Common {

  datatype Option<+T> = None | Some(value: T)

  type byte = b: int | 0 <= b < 256

  lemma Assoc<T>(a: seq<T>, b: seq<T>, c: seq<T>)
    ensures a + b + c == a + (b + c)
  {
  }

  lemma SplitOffLast<T>(s: seq<T>)
    requires s != []
    ensures s == s[..|s| - 1] + [s[|s| - 1]]
  {
  }

  lemma MulMonotonic(a: int, x: int, y: int)
    requires 0 <= a && x <= y
    ensures a * x <= a * y
  {
  }

  ghost function Factorial(n: nat): (f: nat)
    ensures f >= 1
  {
    if n == 0 then 1 else MulMonotonic(n, 1, Factorial(n - 1)); n * Factorial(n - 1)
  }

  // The elements of s that satisfy p, in order.
  function Filter<T>(p: T -> bool, s: seq<T>): seq<T> {
    if s == [] then [] else Filter(p, s[..|s| - 1]) + if p(s[|s| - 1]) then [s[|s| - 1]] else []
  }

  lemma FilterLast<T>(p: T -> bool, s: seq<T>, x: T)
    ensures Filter(p, s + [x]) == Filter(p, s) + if p(x) then [x] else []
  {
    assert (s + [x])[..|s|] == s;
  }

  lemma {:induction false} FilterMembers<T>(p: T -> bool, s: seq<T>)
    ensures forall x :: x in Filter(p, s) <==> x in s && p(x)
    ensures |Filter(p, s)| <= |s|
    ensures |Filter(p, s)| == |s| <==> forall x | x in s :: p(x)
  {
    if s != [] {
      FilterMembers(p, s[..|s| - 1]);
      SplitOffLast(s);
    }
  }

  lemma {:induction false} FiltersCommute<T>(p: T -> bool, q: T -> bool, s: seq<T>)
    ensures Filter(p, Filter(q, s)) == Filter(q, Filter(p, s))
  {
    if s != [] {
      var rest, x := s[..|s| - 1], s[|s| - 1];
      FiltersCommute(p, q, rest);
      FilterLast(p, Filter(q, rest), x);
      FilterLast(q, Filter(p, rest), x);
      assert Filter(q, s) == if q(x) then Filter(q, rest) + [x] else Filter(q, rest);
      assert Filter(p, s) == if p(x) then Filter(p, rest) + [x] else Filter(p, rest);
    }
  }

  lemma {:induction false} FilterConcat<T>(p: T -> bool, s: seq<T>, t: seq<T>)
    ensures Filter(p, s + t) == Filter(p, s) + Filter(p, t)
  {
    if t == [] {
      assert s + t == s;
    } else {
      var rest, x := t[..|t| - 1], t[|t| - 1];
      FilterConcat(p, s, rest);
      assert s + t == s + rest + [x];
      FilterLast(p, s + rest, x);
    }
  }

  // One filter for the conjunction of two.
  lemma {:induction false} FilterTwice<T>(p: T -> bool, q: T -> bool, both: T -> bool, s: seq<T>)
    requires forall x :: both(x) == (p(x) && q(x))
    ensures Filter(p, Filter(q, s)) == Filter(both, s)
  {
    if s != [] {
      var rest, x := s[..|s| - 1], s[|s| - 1];
      FilterTwice(p, q, both, rest);
      FilterLast(p, Filter(q, rest), x);
      assert Filter(q, s) == if q(x) then Filter(q, rest) + [x] else Filter(q, rest);
      assert Filter(both, s) == if both(x) then Filter(both, rest) + [x] else Filter(both, rest);
    }
  }

  lemma {:induction false} FilterNone<T>(p: T -> bool, s: seq<T>)
    requires forall i | 0 <= i < |s| :: !p(s[i])
    ensures Filter(p, s) == []
  {
    if s != [] {
      FilterNone(p, s[..|s| - 1]);
    }
  }

  lemma {:induction false} FilterAll<T>(p: T -> bool, s: seq<T>)
    requires forall i | 0 <= i < |s| :: p(s[i])
    ensures Filter(p, s) == s
  {
    if s != [] {
      FilterAll(p, s[..|s| - 1]);
      SplitOffLast(s);
    }
  }

  lemma FilterMiddle<T>(p: T -> bool, s: seq<T>, x: T, t: seq<T>)
    ensures Filter(p, s + [x] + t) == if p(x) then Filter(p, s) + [x] + Filter(p, t) else Filter(p, s) + Filter(p, t)
  {
    FilterLast(p, s, x);
    FilterConcat(p, s + [x], t);
  }

  lemma SplitAround<T>(s: seq<T>, k: nat)
    requires k < |s|
    ensures s == s[..k] + [s[k]] + s[k + 1..]
  {
  }

  lemma FilterAllBut<T>(p: T -> bool, s: seq<T>, k: nat)
    requires k < |s| && forall i | 0 <= i < |s| :: p(s[i]) <==> i != k
    ensures Filter(p, s) == s[..k] + s[k + 1..]
  {
    var before, after := s[..k], s[k + 1..];
    FilterAll(p, before);
    FilterAll(p, after);
    FilterMiddle(p, before, s[k], after);
    SplitAround(s, k);
  }

  // Taking out element k takes out one element of the filtered sequence, or none.
  lemma FilterWithout<T>(p: T -> bool, s: seq<T>, k: nat)
    requires k < |s|
    ensures !p(s[k]) ==> Filter(p, s[..k] + s[k + 1..]) == Filter(p, s)
    ensures p(s[k]) ==> |Filter(p, s[..k] + s[k + 1..])| == |Filter(p, s)| - 1
  {
    var before, after := s[..k], s[k + 1..];
    FilterMiddle(p, before, s[k], after);
    FilterConcat(p, before, after);
    SplitAround(s, k);
  }

  lemma FilterOne<T>(p: T -> bool, s: seq<T>, k: nat)
    requires k < |s| && forall i | 0 <= i < |s| :: p(s[i]) <==> i == k
    ensures Filter(p, s) == [s[k]]
  {
    var before, after := s[..k], s[k + 1..];
    FilterNone(p, before);
    FilterNone(p, after);
    FilterMiddle(p, before, s[k], after);
    SplitAround(s, k);
  }

  function Map<T, U>(f: T -> U, s: seq<T>): (t: seq<U>)
    ensures |t| == |s|
  {
    seq(|s|, i requires 0 <= i < |s| => f(s[i]))
  }

  lemma MapConcat<T, U>(f: T -> U, s: seq<T>, t: seq<T>)
    ensures Map(f, s + t) == Map(f, s) + Map(f, t)
  {
  }

  // Filtering images is filtering by the composed test.
  lemma {:induction false} FilterOfMap<T, U>(p: U -> bool, f: T -> U, q: T -> bool, s: seq<T>)
    requires forall x :: q(x) == p(f(x))
    ensures Filter(p, Map(f, s)) == Map(f, Filter(q, s))
  {
    if s != [] {
      var n := |s| - 1;
      assert Map(f, s) == Map(f, s[..n]) + [f(s[n])];
      FilterOfMap(p, f, q, s[..n]);
      FilterLast(p, Map(f, s[..n]), f(s[n]));
      assert Map(f, Filter(q, s[..n]) + [s[n]]) == Map(f, Filter(q, s[..n])) + [f(s[n])];
    }
  }
}
