/**
  The worklists that walk the prerequisites of a mock expectation.

  The checking worklist keeps no record of visited nodes.  It ends because the number of paths still
  to be walked drops with every iteration, which presupposes that no expectation is its own
  prerequisite.  The retiring worklist marks what it has seen; it is right on every graph, provided
  that nothing was retired before its prerequisites were.
 */
module Prerequisites {
  import opened Common

  // ---------- prerequisite graphs ----------

  type Graph<N> = map<N, seq<N>>

  ghost predicate ClosedGraph<N>(g: Graph<N>) {
    forall n, m | n in g && m in g[n] :: m in g
  }

  // b is a prerequisite of a, at most k links away.
  ghost predicate Within<N>(g: Graph<N>, a: N, b: N, k: nat)
    requires ClosedGraph(g) && a in g
  {
    k > 0 && (b in g[a] || exists m | m in g[a] :: Within(g, m, b, k - 1))
  }

  ghost predicate IsPrerequisite<N>(g: Graph<N>, a: N, b: N)
    requires ClosedGraph(g) && a in g
  {
    exists k: nat :: Within(g, a, b, k)
  }

  ghost predicate Acyclic<N>(g: Graph<N>)
    requires ClosedGraph(g)
  {
    forall n | n in g :: !IsPrerequisite(g, n, n)
  }

  // All direct and transitive prerequisites of n.
  ghost function Needed<N>(g: Graph<N>, n: N): set<N>
    requires ClosedGraph(g) && n in g
  {
    set m | m in g.Keys && IsPrerequisite(g, n, m)
  }

  lemma {:induction false} WithinChain<N>(g: Graph<N>, a: N, b: N, c: N, k: nat, j: nat)
    requires ClosedGraph(g) && a in g && b in g && Within(g, a, b, k) && Within(g, b, c, j)
    ensures Within(g, a, c, k + j)
  {
    if b in g[a] {
      WithinMore(g, b, c, j, k + j - 1);
    } else {
      var m :| m in g[a] && Within(g, m, b, k - 1);
      WithinChain(g, m, b, c, k - 1, j);
    }
  }

  lemma {:induction false} WithinMore<N>(g: Graph<N>, a: N, b: N, k: nat, j: nat)
    requires ClosedGraph(g) && a in g && Within(g, a, b, k) && k <= j
    ensures Within(g, a, b, j)
  {
    if b !in g[a] {
      var m :| m in g[a] && Within(g, m, b, k - 1);
      WithinMore(g, m, b, k - 1, j - 1);
    }
  }

  lemma PrerequisiteChain<N>(g: Graph<N>, a: N, b: N, c: N)
    requires ClosedGraph(g) && a in g && b in g && IsPrerequisite(g, a, b) && IsPrerequisite(g, b, c)
    ensures IsPrerequisite(g, a, c)
  {
    var k: nat :| Within(g, a, b, k);
    var j: nat :| Within(g, b, c, j);
    WithinChain(g, a, b, c, k, j);
  }

  // The prerequisites of n are its direct ones and theirs.
  lemma NeededStep<N>(g: Graph<N>, n: N, m: N)
    requires ClosedGraph(g) && n in g
    ensures m in Needed(g, n) <==> exists d | d in g[n] :: m == d || m in Needed(g, d)
  {
    if m in Needed(g, n) {
      var k: nat :| Within(g, n, m, k);
      if m !in g[n] {
        var d :| d in g[n] && Within(g, d, m, k - 1);
        assert m in Needed(g, d);
      }
    }
    if d :| d in g[n] && (m == d || m in Needed(g, d)) {
      assert Within(g, n, d, 1);
      if m != d {
        PrerequisiteChain(g, n, d, m);
      }
    }
  }

  // On an acyclic graph a direct prerequisite needs strictly less.
  lemma NeededShrinks<N>(g: Graph<N>, n: N, d: N)
    requires ClosedGraph(g) && Acyclic(g) && n in g && d in g[n]
    ensures Needed(g, d) < Needed(g, n)
  {
    NeededStep(g, n, d);
    forall m | m in Needed(g, d)
      ensures m in Needed(g, n)
    {
      NeededStep(g, n, m);
    }
    assert d !in Needed(g, d);
  }

  // ---------- the termination measure ----------

  // The number of paths that start at n.
  ghost function Paths<N>(g: Graph<N>, n: N): nat
    requires ClosedGraph(g) && Acyclic(g) && n in g
    decreases Needed(g, n), |g[n]| + 1
  {
    1 + PathsThrough(g, n, |g[n]|)
  }

  ghost function PathsThrough<N>(g: Graph<N>, n: N, k: nat): nat
    requires ClosedGraph(g) && Acyclic(g) && n in g && k <= |g[n]|
    decreases Needed(g, n), k
  {
    if k == 0 then 0 else
      NeededShrinks(g, n, g[n][k - 1]);
      PathsThrough(g, n, k - 1) + Paths(g, g[n][k - 1])
  }

  ghost function Remaining<N>(g: Graph<N>, worklist: seq<N>): nat
    requires ClosedGraph(g) && Acyclic(g) && forall n | n in worklist :: n in g
  {
    if worklist == [] then 0 else
      Remaining(g, worklist[..|worklist| - 1]) + Paths(g, worklist[|worklist| - 1])
  }

  // Pushing the direct prerequisites of n adds the paths that continue from n.
  lemma {:induction false} PushedPaths<N>(g: Graph<N>, worklist: seq<N>, n: N, k: nat)
    requires ClosedGraph(g) && Acyclic(g) && n in g && k <= |g[n]|
    requires forall m | m in worklist :: m in g
    ensures Remaining(g, worklist + g[n][..k]) == Remaining(g, worklist) + PathsThrough(g, n, k)
  {
    var pushed := worklist + g[n][..k];
    if k == 0 {
      assert pushed == worklist;
    } else {
      PushedPaths(g, worklist, n, k - 1);
      assert pushed[..|pushed| - 1] == worklist + g[n][..k - 1];
    }
  }

  lemma DirectIsNeeded<N>(g: Graph<N>, a: N, n: N, d: N)
    requires ClosedGraph(g) && a in g && n in g && d in g[n]
    requires n == a || n in Needed(g, a)
    ensures d in Needed(g, a)
  {
    assert Within(g, n, d, 1);
    if n != a {
      PrerequisiteChain(g, a, n, d);
    }
  }

  // A set closed under direct prerequisites contains every transitive one.
  lemma NeededWithin<N>(g: Graph<N>, a: N, r: set<N>)
    requires ClosedGraph(g) && a in g
    requires forall n, d | n in g && (n == a || n in r) && d in g[n] :: d in r
    ensures Needed(g, a) <= r
  {
    forall m | m in Needed(g, a)
      ensures m in r
    {
      var k: nat :| Within(g, a, m, k);
      StaysWithin(g, a, m, k, r);
    }
  }

  lemma {:induction false} StaysWithin<N>(g: Graph<N>, a: N, b: N, k: nat, r: set<N>)
    requires ClosedGraph(g) && a in g && Within(g, a, b, k)
    requires forall n, d | n in g && (n == a || n in r) && d in g[n] :: d in r
    ensures b in r
  {
    if b !in g[a] {
      var m :| m in g[a] && Within(g, m, b, k - 1);
      StaysWithin(g, m, b, k - 1, r);
    }
  }

  ghost function GraphOf(nodes: set<Expectation>): Graph<Expectation>
    reads nodes`immediatePrerequisites
  {
    map n | n in nodes :: n.immediatePrerequisites
  }

  ghost function Retired(nodes: set<Expectation>): set<Expectation>
    reads nodes`retired
  {
    set n | n in nodes && n.retired
  }

  ghost predicate DirectIn<N>(g: Graph<N>, n: N, r: set<N>)
    requires n in g
  {
    forall d | d in g[n] :: d in r
  }

  // Every expectation of r, and the start, is on the worklist or has its direct prerequisites in r.
  ghost predicate Expanded<N>(g: Graph<N>, start: N, r: set<N>, worklist: set<N>) {
    forall n | n in g && (n == start || n in r) && n !in worklist :: DirectIn(g, n, r)
  }

  ghost predicate PrerequisitesRetireFirst(nodes: set<Expectation>)
    reads nodes`retired, nodes`immediatePrerequisites
  {
    forall n | n in nodes && n in Retired(nodes) :: DirectIn(GraphOf(nodes), n, Retired(nodes))
  }

  ghost function Elements<N>(s: seq<N>): set<N> {
    set n | n in s
  }

  lemma PopOne<N>(s: seq<N>)
    requires s != []
    ensures Elements(s) == Elements(s[..|s| - 1]) + {s[|s| - 1]}
  {
    assert s == s[..|s| - 1] + [s[|s| - 1]];
  }

  lemma PushOne<N>(s: seq<N>, n: N)
    ensures Elements(s + [n]) == Elements(s) + {n}
  {
  }

  // Retiring the direct prerequisites of n, and putting the new ones on the worklist, expands n.
  lemma ExpandOne<N>(g: Graph<N>, start: N, r: set<N>, worklist: set<N>, n: N)
    requires n in g && Expanded(g, start, r, worklist + {n})
    ensures Expanded(g, start, r + Elements(g[n]), worklist + (Elements(g[n]) - r))
  {
  }

  lemma DirectAreNeeded<N>(g: Graph<N>, a: N, n: N)
    requires ClosedGraph(g) && a in g && n in Needed(g, a) + {a}
    ensures Elements(g[n]) <= Needed(g, a)
  {
    forall d | d in g[n]
      ensures d in Needed(g, a)
    {
      DirectIsNeeded(g, a, n, d);
    }
  }

  // With nothing left on the worklist, r contains all prerequisites of the start.
  lemma ExpandedContainsNeeded<N>(g: Graph<N>, start: N, r: set<N>)
    requires ClosedGraph(g) && start in g && Expanded(g, start, r, {})
    ensures Needed(g, start) <= r
  {
    assert forall n, d | n in g && (n == start || n in r) && d in g[n] :: DirectIn(g, n, r);
    NeededWithin(g, start, r);
  }

  // ---------- expectations ----------

  // Whatever is unmet is a prerequisite of something on the worklist.
  ghost predicate Covered<N>(g: Graph<N>, unmet: set<N>, worklist: seq<N>)
    requires ClosedGraph(g) && forall n | n in worklist :: n in g
  {
    forall m | m in unmet :: exists e | e in worklist :: m in Needed(g, e)
  }

  lemma StillCovered<N>(g: Graph<N>, unmet: set<N>, worklist: seq<N>, n: N)
    requires ClosedGraph(g) && n in g && forall e | e in worklist :: e in g
    requires Covered(g, unmet, worklist + [n]) && forall d | d in g[n] :: d !in unmet
    ensures Covered(g, unmet, worklist + g[n])
  {
    forall m | m in unmet
      ensures exists e | e in worklist + g[n] :: m in Needed(g, e)
    {
      var e :| e in worklist + [n] && m in Needed(g, e);
      if e in worklist {
        assert e in worklist + g[n];
      } else {
        NeededStep(g, n, m);
        var d :| d in g[n] && m in Needed(g, d);
        assert d in worklist + g[n];
      }
    }
  }

  lemma ReplacedByDirect<N>(g: Graph<N>, worklist: seq<N>, n: N)
    requires ClosedGraph(g) && Acyclic(g) && n in g && forall m | m in worklist :: m in g
    ensures Remaining(g, worklist + g[n]) < Remaining(g, worklist + [n])
  {
    assert g[n][..|g[n]|] == g[n];
    PushedPaths(g, worklist, n, |g[n]|);
    assert (worklist + [n])[..|worklist|] == worklist;
  }

  class Expectation {
    var immediatePrerequisites: seq<Expectation>
    var callCount: nat
    var retired: bool
    const satisfiedBy: nat -> bool  // the cardinality clause

    constructor (satisfiedBy: nat -> bool)
      ensures immediatePrerequisites == [] && callCount == 0 && !retired && this.satisfiedBy == satisfiedBy
    {
      immediatePrerequisites, callCount, retired := [], 0, false;
      this.satisfiedBy := satisfiedBy;
    }

    predicate IsSatisfied()
      reads this`callCount
    {
      satisfiedBy(callCount)
    }

    method Retire()
      modifies this`retired
      ensures retired
    {
      retired := true;
    }

    // True exactly when every direct or transitive prerequisite is satisfied.
    method AllPrerequisitesAreSatisfied(ghost nodes: set<Expectation>) returns (all: bool)
      requires this in nodes && ClosedGraph(GraphOf(nodes)) && Acyclic(GraphOf(nodes))
      ensures all <==> forall m | m in Needed(GraphOf(nodes), this) :: m.IsSatisfied()
    {
      ghost var g: map<Expectation, seq<Expectation>> := GraphOf(nodes);
      ghost var unmet := set m | m in Needed(g, this) && !m.IsSatisfied();
      var expectations := [this];
      while expectations != []
        invariant forall e | e in expectations :: e in g && (e == this || e in Needed(g, this))
        invariant Covered(g, unmet, expectations)
        decreases Remaining(g, expectations)
      {
        SplitOffLast(expectations);
        var exp := expectations[|expectations| - 1];
        expectations := expectations[..|expectations| - 1];
        ghost var below := expectations;
        DirectAreNeeded(g, this, exp);
        ReplacedByDirect(g, below, exp);
        var satisfied;
        satisfied, expectations := exp.PushSatisfied(expectations);
        if !satisfied {
          return false;
        }
        StillCovered(g, unmet, below, exp);
      }
      assert unmet == {};
      assert forall m | m in Needed(g, this) :: m.IsSatisfied() || m in unmet;
      return true;
    }

    // The inner loop: pushes the direct prerequisites, up to the first that is not satisfied.
    method PushSatisfied(expectations: seq<Expectation>) returns (all: bool, pushed: seq<Expectation>)
      ensures all <==> forall e | e in immediatePrerequisites :: e.IsSatisfied()
      ensures all ==> pushed == expectations + immediatePrerequisites
    {
      pushed := expectations;
      for k := 0 to |immediatePrerequisites|
        invariant pushed == expectations + immediatePrerequisites[..k]
        invariant forall j | 0 <= j < k :: immediatePrerequisites[j].IsSatisfied()
      {
        var next := immediatePrerequisites[k];
        if !next.IsSatisfied() {
          return false, pushed;
        }
        pushed := pushed + [next];
      }
      return true, pushed;
    }

    // Retires exactly the direct and transitive prerequisites.  The early return and the skipping of
    // retired expectations are justified by the invariant that prerequisites retire first.
    method RetireAllPreRequisites(ghost nodes: set<Expectation>)
      requires this in nodes && ClosedGraph(GraphOf(nodes)) && PrerequisitesRetireFirst(nodes)
      modifies nodes`retired
      ensures PrerequisitesRetireFirst(nodes)
      ensures Retired(nodes) == old(Retired(nodes)) + Needed(GraphOf(nodes), this)
    {
      ghost var g: map<Expectation, seq<Expectation>> := GraphOf(nodes);
      ghost var start := Retired(nodes);
      if retired {
        ExpandedContainsNeeded(g, this, start);
        return;
      }
      var expectations := [this];
      while expectations != []
        invariant start <= Retired(nodes) <= start + Needed(g, this)
        invariant Elements(expectations) <= Needed(g, this) + {this}
        invariant Expanded(g, this, Retired(nodes), Elements(expectations))
        decreases nodes - Retired(nodes), |expectations|
      {
        PopOne(expectations);
        var exp := expectations[|expectations| - 1];
        expectations := expectations[..|expectations| - 1];
        ExpandOne(g, this, Retired(nodes), Elements(expectations), exp);
        DirectAreNeeded(g, this, exp);
        expectations := exp.RetireDirectOnes(nodes, expectations);
      }
      assert Elements(expectations) == {};
      ExpandedContainsNeeded(g, this, Retired(nodes));
    }

    // The inner loop: retires the direct prerequisites and pushes those that were not yet retired.
    method RetireDirectOnes(ghost nodes: set<Expectation>, expectations: seq<Expectation>)
      returns (pushed: seq<Expectation>)
      requires Elements(immediatePrerequisites) <= nodes
      modifies nodes`retired
      ensures Retired(nodes) == old(Retired(nodes)) + Elements(immediatePrerequisites)
      ensures Elements(pushed) == Elements(expectations) + (Elements(immediatePrerequisites) - old(Retired(nodes)))
      ensures old(Retired(nodes)) == Retired(nodes) ==> pushed == expectations
    {
      pushed := expectations;
      ghost var before, r, done := Retired(nodes), Retired(nodes), {};
      var prerequisites := immediatePrerequisites;
      for k := 0 to |prerequisites|
        invariant done == Elements(prerequisites[..k])
        invariant r == Retired(nodes) == before + done
        invariant Elements(pushed) == Elements(expectations) + (done - before)
        invariant r == before ==> pushed == expectations
      {
        var next := prerequisites[k];
        assert next in nodes;
        assert prerequisites[..k + 1] == prerequisites[..k] + [next];
        PushOne(prerequisites[..k], next);
        done := done + {next};
        if !next.retired {
          assert next !in r;
          PushOne(pushed, next);
          next.Retire();
          r := r + {next};
          pushed := pushed + [next];
        }
      }
      assert prerequisites[..|prerequisites|] == prerequisites;
    }
  }
}
