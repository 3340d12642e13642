/**
  Maximum bipartite matching, as used by UnorderedElementsAre, IsSupersetOf and IsSubsetOf.

  Elements are the left nodes, matchers are the right nodes.  MaxBipartiteMatchState runs one
  augmenting search per left node.  The correctness argument has three parts:
    - a successful search flips a simple alternating path (Flip), which keeps the two arrays
      mutually referent and covers exactly one more node on either side;
    - a failed search leaves a set of right nodes that is closed under alternating reachability,
      and no later augmentation can enter that set, so one attempt per left node is enough;
    - the matched left nodes outside the closed set, together with the closed set, cover every
      edge, and a matching is never larger than an edge cover.
 */
module BipartiteMatching {

  const UNUSED: int := -1

  // The abstract bipartite graph.
  datatype Graph = Graph(lhs: nat, rhs: nat, edges: set<(int, int)>) {
    ghost predicate Edge(l: int, r: int) {
      0 <= l < lhs && 0 <= r < rhs && (l, r) in edges
    }
  }

  // ---------- matchings and alternating paths ----------

  ghost predicate IsMatching(g: Graph, m: set<(int, int)>) {
    && (forall p | p in m :: g.Edge(p.0, p.1))
    && (forall p, q | p in m && q in m && (p.0 == q.0 || p.1 == q.1) :: p == q)
  }

  // The class invariant: every entry is unused or the two arrays refer to each other along an edge.
  ghost predicate Mutual(g: Graph, left: seq<int>, right: seq<int>) {
    && |left| == g.lhs && |right| == g.rhs
    && (forall l | 0 <= l < |left| && left[l] != UNUSED :: g.Edge(l, left[l]) && right[left[l]] == l)
    && (forall r | 0 <= r < |right| && right[r] != UNUSED :: g.Edge(right[r], r) && left[right[r]] == r)
  }

  // path lists the edges (l0, r0), (l1, r1), ... taken from left to right by a simple alternating
  // path from l to a free right node; it returns from each ri to the left node matched to ri.
  ghost predicate Augmenting(g: Graph, right: seq<int>, l: int, path: seq<(int, int)>) {
    && |path| > 0 && path[0].0 == l
    && |right| == g.rhs
    && (forall i | 0 <= i < |path| :: g.Edge(path[i].0, path[i].1))
    && (forall i | 0 <= i < |path| - 1 :: path[i + 1].0 == right[path[i].1])
    && right[path[|path| - 1].1] == UNUSED
    && (forall i, j | 0 <= i < j < |path| :: path[i].1 != path[j].1)
  }

  ghost predicate HasAugmentingPath(g: Graph, right: seq<int>, l: int) {
    exists path :: Augmenting(g, right, l, path)
  }

  ghost predicate InBounds(path: seq<(int, int)>, lhs: nat, rhs: nat) {
    forall i | 0 <= i < |path| :: 0 <= path[i].0 < lhs && 0 <= path[i].1 < rhs
  }

  // The effect of augmenting along path, in the order in which the recursion unwinds.
  ghost function Flip(left: seq<int>, right: seq<int>, path: seq<(int, int)>): (lr: (seq<int>, seq<int>))
    requires InBounds(path, |left|, |right|)
    ensures |lr.0| == |left| && |lr.1| == |right|
  {
    if path == [] then (left, right) else
      var (left1, right1) := Flip(left, right, path[1..]);
      (left1[path[0].0 := path[0].1], right1[path[0].1 := path[0].0])
  }

  // What Flip does at each index, provided the path repeats no node on either side.
  lemma {:induction false} FlipPointwise(left: seq<int>, right: seq<int>, path: seq<(int, int)>)
    requires InBounds(path, |left|, |right|)
    requires forall i, j | 0 <= i < j < |path| :: path[i].0 != path[j].0 && path[i].1 != path[j].1
    ensures var (left', right') := Flip(left, right, path);
      && (forall i | 0 <= i < |path| :: left'[path[i].0] == path[i].1 && right'[path[i].1] == path[i].0)
      && (forall k | 0 <= k < |left| :: left'[k] == left[k] || (k, left'[k]) in path)
      && (forall r | 0 <= r < |right| :: right'[r] == right[r] || (right'[r], r) in path)
  {
    if path != [] {
      var rest := path[1..];
      FlipPointwise(left, right, rest);
      var (left1, right1) := Flip(left, right, rest);
      var (left', right') := Flip(left, right, path);
      assert path[0] == (path[0].0, path[0].1);
      assert forall e | e in rest :: e in path;
      forall i | 0 < i < |path|
        ensures left'[path[i].0] == path[i].1 && right'[path[i].1] == path[i].0
      {
        assert path[i] == rest[i - 1];
      }
    }
  }

  // An augmenting path repeats no left node either, because right is injective where it is used.
  lemma AugmentingIsSimple(g: Graph, left: seq<int>, right: seq<int>, l: int, path: seq<(int, int)>)
    requires Mutual(g, left, right) && Augmenting(g, right, l, path)
    requires forall i | 0 <= i < |path| :: right[path[i].1] != l
    ensures forall i, j | 0 <= i < j < |path| :: path[i].0 != path[j].0
  {
    forall i, j | 0 <= i < j < |path|
      ensures path[i].0 != path[j].0
    {
      assert path[j - 1 + 1].0 == right[path[j - 1].1];
      if i > 0 {
        assert path[i - 1 + 1].0 == right[path[i - 1].1];
      }
    }
  }

  // A left node is either on the path, and then linked to the next right node of the path, or it
  // keeps its entry together with its partner.
  lemma FlipLeftEntry(g: Graph, left: seq<int>, right: seq<int>, l: int, path: seq<(int, int)>, k: int)
    requires Mutual(g, left, right) && Augmenting(g, right, l, path) && left[l] == UNUSED
    requires 0 <= k < |left|
    ensures var (left', right') := Flip(left, right, path);
      && (left'[k] == UNUSED <==> left[k] == UNUSED && k != l)
      && (left'[k] != UNUSED ==> g.Edge(k, left'[k]) && right'[left'[k]] == k)
  {
    if i :| 0 <= i < |path| && path[i].0 == k {
      AugmentingIsSimple(g, left, right, l, path);
      FlipPointwise(left, right, path);
      assert i > 0 ==> path[i - 1 + 1].0 == right[path[i - 1].1];
    } else {
      OffPathLeft(g, left, right, l, path, k);
    }
  }

  lemma OffPathLeft(g: Graph, left: seq<int>, right: seq<int>, l: int, path: seq<(int, int)>, k: int)
    requires Mutual(g, left, right) && Augmenting(g, right, l, path) && left[l] == UNUSED
    requires 0 <= k < |left| && forall i | 0 <= i < |path| :: path[i].0 != k
    ensures k != l
    ensures var (left', right') := Flip(left, right, path);
      left'[k] == left[k] && (left[k] != UNUSED ==> right'[left[k]] == k)
  {
    assert path[0].0 == l;
    AugmentingIsSimple(g, left, right, l, path);
    FlipPointwise(left, right, path);
    forall i | 0 <= i < |path|
      ensures left[k] != UNUSED ==> path[i].1 != left[k]
    {
      assert i < |path| - 1 ==> path[i + 1].0 == right[path[i].1];
    }
  }

  lemma FlipRightEntry(g: Graph, left: seq<int>, right: seq<int>, l: int, path: seq<(int, int)>, r: int)
    requires Mutual(g, left, right) && Augmenting(g, right, l, path) && left[l] == UNUSED
    requires 0 <= r < |right|
    ensures var (left', right') := Flip(left, right, path);
      && (right'[r] == UNUSED <==> right[r] == UNUSED && r != path[|path| - 1].1)
      && (right'[r] != UNUSED ==> g.Edge(right'[r], r) && left'[right'[r]] == r)
  {
    AugmentingIsSimple(g, left, right, l, path);
    FlipPointwise(left, right, path);
    if i :| 0 <= i < |path| && path[i].1 == r {
      if i < |path| - 1 {
        assert path[i + 1].0 == right[path[i].1];
      }
    } else if right[r] != UNUSED {
      forall i | 0 <= i < |path|
        ensures path[i].0 != right[r]
      {
        assert i > 0 ==> path[i - 1 + 1].0 == right[path[i - 1].1];
      }
    }
  }

  // Augmenting from an unused left node re-establishes mutual reference; it turns l and the free end
  // of the path from unused to used and changes the status of no other node.
  lemma FlipAugments(g: Graph, left: seq<int>, right: seq<int>, l: int, path: seq<(int, int)>)
    requires Mutual(g, left, right) && Augmenting(g, right, l, path) && left[l] == UNUSED
    ensures var (left', right') := Flip(left, right, path);
      && Mutual(g, left', right')
      && (forall k | 0 <= k < |left| :: left'[k] == UNUSED <==> left[k] == UNUSED && k != l)
      && (forall r | 0 <= r < |right| :: right'[r] == UNUSED <==> right[r] == UNUSED && r != path[|path| - 1].1)
  {
    var (left', right') := Flip(left, right, path);
    forall k | 0 <= k < |left|
      ensures left'[k] == UNUSED <==> left[k] == UNUSED && k != l
      ensures left'[k] != UNUSED ==> g.Edge(k, left'[k]) && right'[left'[k]] == k
    {
      FlipLeftEntry(g, left, right, l, path, k);
    }
    forall r | 0 <= r < |right|
      ensures right'[r] == UNUSED <==> right[r] == UNUSED && r != path[|path| - 1].1
      ensures right'[r] != UNUSED ==> g.Edge(right'[r], r) && left'[right'[r]] == r
    {
      FlipRightEntry(g, left, right, l, path, r);
    }
  }

  // ---------- failed searches ----------

  ghost predicate Expanded(g: Graph, l: int, s: set<int>) {
    forall r | g.Edge(l, r) :: r in s
  }

  // Every right node of s is matched, and alternating steps from s stay inside s.
  ghost predicate Closed(g: Graph, right: seq<int>, s: set<int>) {
    forall r | r in s :: 0 <= r < |right| && right[r] != UNUSED && Expanded(g, right[r], s)
  }

  lemma {:induction false} PathAvoidsClosed(g: Graph, right: seq<int>, l: int, path: seq<(int, int)>, s: set<int>,
          i: nat)
    requires Augmenting(g, right, l, path) && Closed(g, right, s) && i < |path|
    ensures path[i].1 !in s
    decreases |path| - i
  {
    if i < |path| - 1 {
      PathAvoidsClosed(g, right, l, path, s, i + 1);
      assert path[i + 1].0 == right[path[i].1];
      assert g.Edge(path[i + 1].0, path[i + 1].1);
    }
  }

  lemma PathLeavesClosed(g: Graph, right: seq<int>, l: int, path: seq<(int, int)>, s: set<int>)
    requires Augmenting(g, right, l, path) && Closed(g, right, s)
    ensures !Expanded(g, l, s)
  {
    PathAvoidsClosed(g, right, l, path, s, 0);
    assert g.Edge(path[0].0, path[0].1);
  }

  lemma NoPathIntoClosed(g: Graph, right: seq<int>, l: int, s: set<int>)
    requires Closed(g, right, s) && Expanded(g, l, s)
    ensures !HasAugmentingPath(g, right, l)
  {
    if path :| Augmenting(g, right, l, path) {
      PathLeavesClosed(g, right, l, path, s);
    }
  }

  // A closed set is never entered by an augmentation, so it stays closed for good.
  lemma FlipKeepsClosed(g: Graph, left: seq<int>, right: seq<int>, l: int, path: seq<(int, int)>, s: set<int>)
    requires Mutual(g, left, right) && Augmenting(g, right, l, path) && left[l] == UNUSED
    requires Closed(g, right, s)
    ensures Closed(g, Flip(left, right, path).1, s)
  {
    AugmentingIsSimple(g, left, right, l, path);
    FlipPointwise(left, right, path);
    var right' := Flip(left, right, path).1;
    forall r | r in s
      ensures right'[r] == right[r]
    {
      if (right'[r], r) in path {
        var i :| 0 <= i < |path| && path[i] == (right'[r], r);
        PathAvoidsClosed(g, right, l, path, s, i);
      }
    }
  }

  // ---------- a matching is never larger than a cover ----------

  // An injective map has as many values as keys.
  lemma {:induction false} InjectiveValues<A, B>(f: map<A, B>)
    requires forall a, b | a in f && b in f && f[a] == f[b] :: a == b
    ensures |f.Values| == |f|
  {
    if a :| a in f {
      var g := f - {a};
      InjectiveValues(g);
      assert f == g[a := f[a]];
      assert f.Values == g.Values + {f[a]};
    }
  }

  lemma {:induction false} SubsetSize<T>(a: set<T>, b: set<T>)
    requires a <= b
    ensures |a| <= |b|
  {
    if x :| x in a {
      SubsetSize(a - {x}, b - {x});
    }
  }

  // The end points of the edges of a matching are as many as the edges.
  lemma EndpointCounts(g: Graph, m: set<(int, int)>)
    requires IsMatching(g, m)
    ensures |Lefts(m)| == |m| == |Rights(m)|
  {
    var left := map p | p in m :: p.0;
    var right := map p | p in m :: p.1;
    InjectiveValues(left);
    InjectiveValues(right);
    assert left.Keys == m && right.Keys == m;
    assert left.Values == Lefts(m) && right.Values == Rights(m);
  }

  ghost function Lefts(m: set<(int, int)>): set<int> { set p | p in m :: p.0 }

  ghost function Rights(m: set<(int, int)>): set<int> { set p | p in m :: p.1 }

  ghost function MatchedLefts(left: seq<int>): set<int> {
    set l | 0 <= l < |left| && left[l] != UNUSED
  }

  // The edges currently matched.
  ghost function MatchedEdges(left: seq<int>): set<(int, int)> {
    set l | 0 <= l < |left| && left[l] != UNUSED :: (l, left[l])
  }

  lemma MatchedEdgesMatch(g: Graph, left: seq<int>, right: seq<int>)
    requires Mutual(g, left, right)
    ensures IsMatching(g, MatchedEdges(left))
  {
  }

  // Right nodes of a closed set are matched to as many different left nodes.
  lemma ClosedPartners(g: Graph, left: seq<int>, right: seq<int>, s: set<int>) returns (partners: set<int>)
    requires Mutual(g, left, right) && Closed(g, right, s)
    ensures partners <= MatchedLefts(left) && |s| <= |partners|
    ensures forall l | l in partners :: Expanded(g, l, s)
  {
    partners := set r | r in s :: right[r];
    var partner := map r | r in s :: right[r];
    assert partner.Keys == s && partner.Values == partners;
    InjectiveValues(partner);
  }

  // An edge that avoids the closed set starts at a used left node that is not a partner of the set.
  lemma OutsideEdge(g: Graph, left: seq<int>, s: set<int>, partners: set<int>, l: int, r: int)
    requires |left| == g.lhs && g.Edge(l, r) && r !in s
    requires forall k | 0 <= k < |left| && left[k] == UNUSED :: Expanded(g, k, s)
    requires forall k | k in partners :: Expanded(g, k, s)
    ensures l in MatchedLefts(left) - partners
  {
    assert !Expanded(g, l, s);
  }

  // Koenig's bound: if the unused left nodes only reach the closed set s, no matching is larger
  // than the number of used left nodes.
  lemma MatchingBound(g: Graph, left: seq<int>, right: seq<int>, s: set<int>, m: set<(int, int)>)
    requires Mutual(g, left, right) && Closed(g, right, s)
    requires forall l | 0 <= l < |left| && left[l] == UNUSED :: Expanded(g, l, s)
    requires IsMatching(g, m)
    ensures |m| <= |MatchedLefts(left)|
  {
    var partners := ClosedPartners(g, left, right, s);
    var inside := set p | p in m && p.1 in s;
    var outside := m - inside;
    assert |inside| <= |s| by {
      EndpointCounts(g, inside);
      SubsetSize(Rights(inside), s);
    }
    assert |outside| <= |MatchedLefts(left) - partners| by {
      forall p | p in outside
        ensures p.0 in MatchedLefts(left) - partners
      {
        OutsideEdge(g, left, s, partners, p.0, p.1);
      }
      EndpointCounts(g, outside);
      SubsetSize(Lefts(outside), MatchedLefts(left) - partners);
    }
  }

  // ---------- the connectivity matrix ----------

  // The matrix stores its cells in one sequence, in left-major order.
  datatype RawMatrix = RawMatrix(lhs: nat, rhs: nat, matched: seq<bool>) {
    predicate Valid() {
      |matched| == lhs * rhs
    }

    function SpaceIndex(l: nat, r: nat): (i: nat)
      requires l < lhs && r < rhs
      ensures i < lhs * rhs
    {
      assert (l + 1) * rhs <= lhs * rhs;
      l * rhs + r
    }

    predicate HasEdge(l: nat, r: nat)
      requires Valid() && l < lhs && r < rhs
    {
      matched[SpaceIndex(l, r)]
    }

    // Every cell has a place of its own, so setting one changes no other.
    function SetEdge(l: nat, r: nat, b: bool): (m: RawMatrix)
      requires Valid() && l < lhs && r < rhs
      ensures m.Valid() && m.lhs == lhs && m.rhs == rhs && (m.HasEdge(l, r) <==> b)
      ensures forall l': nat, r': nat | l' < lhs && r' < rhs && (l' != l || r' != r) ::
                m.HasEdge(l', r') <==> HasEdge(l', r')
    {
      assert forall l': nat, r': nat | l' < lhs && r' < rhs && (l' != l || r' != r) ::
          SpaceIndex(l', r') != SpaceIndex(l, r) by {
        forall l': nat, r': nat | l' < lhs && r' < rhs && (l' != l || r' != r)
          ensures SpaceIndex(l', r') != SpaceIndex(l, r)
        {
          CellsAreDistinct(rhs, l, r, l', r');
        }
      }
      RawMatrix(lhs, rhs, matched[SpaceIndex(l, r) := b])
    }
  }

  lemma CellsAreDistinct(width: nat, l: nat, r: nat, l': nat, r': nat)
    requires r < width && r' < width && (l != l' || r != r')
    ensures l * width + r != l' * width + r'
  {
    if l < l' {
      assert (l + 1) * width <= l' * width;
    } else if l > l' {
      assert (l' + 1) * width <= l * width;
    }
  }

  type MatchMatrix = m: RawMatrix | m.Valid() witness RawMatrix(0, 0, [])

  ghost function ToGraph(m: MatchMatrix): (g: Graph)
    ensures g.lhs == m.lhs && g.rhs == m.rhs
    ensures forall l: nat, r: nat | l < m.lhs && r < m.rhs :: m.HasEdge(l, r) <==> g.Edge(l, r)
  {
    Graph(m.lhs, m.rhs,
          set l: nat, r: nat | l < m.lhs && r < m.rhs && m.HasEdge(l, r) :: (l as int, r as int))
  }

  // ---------- the search ----------

  ghost function Marked(seen: seq<bool>): set<int> {
    set r | 0 <= r < |seen| && seen[r]
  }

  ghost function Unmarked(seen: seq<bool>): set<int> {
    set r | 0 <= r < |seen| && !seen[r]
  }

  // Every right node marked by a failed search is matched, and its partner has been expanded.
  ghost predicate DeadEnds(g: Graph, right: seq<int>, before: set<int>, after: set<int>) {
    forall r | r in after && r !in before ::
      0 <= r < |right| && right[r] != UNUSED && Expanded(g, right[r], after)
  }

  // A failed search changes no entry and has expanded everything it marked.
  ghost predicate FailedSearch(g: Graph, left: seq<int>, right: seq<int>, before: set<int>, l: int, left': seq<int>,
          right': seq<int>, after: set<int>)
  {
    && left' == left && right' == right
    && Expanded(g, l, after) && DeadEnds(g, right, before, after)
  }

  // A successful search has flipped an augmenting path through nodes that were not yet marked.
  ghost predicate SuccessfulSearch(g: Graph, left: seq<int>, right: seq<int>, before: set<int>, l: int,
          path: seq<(int, int)>, left': seq<int>, right': seq<int>)
  {
    && Augmenting(g, right, l, path)
    && (forall i | 0 <= i < |path| :: path[i].1 !in before)
    && InBounds(path, |left|, |right|)
    && (left', right') == Flip(left, right, path)
  }

  // A search from an unused left node with nothing marked: success and failure are decided by the
  // existence of an augmenting path, only l turns from unused to used, and no node is unmatched.
  lemma SearchFromSource(g: Graph, left: seq<int>, right: seq<int>, l: int, found: bool, path: seq<(int, int)>,
          left': seq<int>, right': seq<int>, after: set<int>)
    requires Mutual(g, left, right) && 0 <= l < |left| && left[l] == UNUSED
    requires found ==> SuccessfulSearch(g, left, right, {}, l, path, left', right')
    requires !found ==> FailedSearch(g, left, right, {}, l, left', right', after)
    ensures Mutual(g, left', right')
    ensures found <==> HasAugmentingPath(g, right, l)
    ensures forall k | 0 <= k < |left| :: left'[k] == UNUSED <==> left[k] == UNUSED && !(found && k == l)
    ensures forall r | 0 <= r < |right| && right[r] != UNUSED :: right'[r] != UNUSED
    ensures !found ==> Closed(g, right', after)
    ensures forall s | found && Closed(g, right, s) :: Closed(g, right', s)
  {
    if found {
      FlipAugments(g, left, right, l, path);
      forall s | Closed(g, right, s)
        ensures Closed(g, right', s)
      {
        FlipKeepsClosed(g, left, right, l, path, s);
      }
    } else {
      NoPathIntoClosed(g, right, l, after);
    }
  }

  lemma DeadEndsExtend(g: Graph, right: seq<int>, before: set<int>, mid: set<int>, r: int, after: set<int>)
    requires DeadEnds(g, right, before, mid) && DeadEnds(g, right, mid + {r}, after)
    requires mid + {r} <= after && 0 <= r < |right| && right[r] != UNUSED
    requires Expanded(g, right[r], after)
    ensures DeadEnds(g, right, before, after)
  {
  }

  lemma AugmentingExtend(g: Graph, left: seq<int>, right: seq<int>, l: int, r: int, rest: seq<(int, int)>)
    requires g.Edge(l, r) && |left| == g.lhs && |right| == g.rhs && right[r] != UNUSED
    requires Augmenting(g, right, right[r], rest)
    requires forall i | 0 <= i < |rest| :: rest[i].1 != r
    ensures Augmenting(g, right, l, [(l, r)] + rest)
    ensures InBounds([(l, r)] + rest, |left|, |right|) && InBounds(rest, |left|, |right|)
    ensures Flip(left, right, [(l, r)] + rest) ==
      (Flip(left, right, rest).0[l := r], Flip(left, right, rest).1[r := l])
  {
    var path := [(l, r)] + rest;
    assert path[1..] == rest;
    assert forall i | 0 <= i < |path| :: path[i] == if i == 0 then (l, r) else rest[i - 1];
  }

  lemma MarkOne(seen: seq<bool>, r: int)
    requires 0 <= r < |seen|
    ensures Marked(seen[r := true]) == Marked(seen) + {r}
    ensures !seen[r] ==> Unmarked(seen[r := true]) < Unmarked(seen)
  {
    assert !seen[r] ==> r in Unmarked(seen);
  }

  class MaxBipartiteMatchState {
    const matrix: MatchMatrix
    const left: array<int>
    const right: array<int>

    ghost predicate Valid()
      reads left, right
    {
      left != right && Mutual(ToGraph(matrix), left[..], right[..])
    }

    constructor (matrix: MatchMatrix)
      ensures this.matrix == matrix && fresh(left) && fresh(right)
      ensures Valid() && forall l | 0 <= l < left.Length :: left[l] == UNUSED
    {
      this.matrix := matrix;
      left := new int[matrix.lhs](_ => UNUSED);
      right := new int[matrix.rhs](_ => UNUSED);
    }

    // Depth-first search from left node l to a free right node.  The nested call is made on a left
    // node that is still matched to the right node just marked; the entry of that right node is
    // stale until this call overwrites it.
    method TryAugment(l: nat, seen: array<bool>) returns (found: bool, ghost path: seq<(int, int)>)
      requires Valid()
      requires seen.Length == matrix.rhs && l < matrix.lhs
      modifies left, right, seen
      ensures Marked(old(seen[..])) <= Marked(seen[..]) && Unmarked(seen[..]) <= Unmarked(old(seen[..]))
      ensures !found ==> FailedSearch(ToGraph(matrix), old(left[..]), old(right[..]), Marked(old(seen[..])), l,
                                      left[..], right[..], Marked(seen[..]))
      ensures found ==> SuccessfulSearch(ToGraph(matrix), old(left[..]), old(right[..]), Marked(old(seen[..])), l, path,
                                         left[..], right[..])
      decreases Unmarked(seen[..])
    {
      ghost var g := ToGraph(matrix);
      ghost var before := Marked(seen[..]);
      ghost var left0, right0 := left[..], right[..];
      for r := 0 to matrix.rhs
        invariant left[..] == left0 && right[..] == right0
        invariant before <= Marked(seen[..]) && Unmarked(seen[..]) <= Unmarked(old(seen[..]))
        invariant forall k | 0 <= k < r && g.Edge(l, k) :: k in Marked(seen[..])
        invariant DeadEnds(g, right0, before, Marked(seen[..]))
      {
        if seen[r] || !matrix.HasEdge(l, r) {
          continue;
        }
        ghost var mid := Marked(seen[..]);
        MarkOne(seen[..], r);
        ghost var marked := seen[..][r := true];
        seen[r] := true;
        assert seen[..] == marked;
        if right[r] == UNUSED {
          path := [(l, r)];
          left[l], right[r] := r, l;
          assert path[1..] == [];
          return true, path;
        }
        var nested, rest := TryAugment(right[r], seen);
        if nested {
          path := [(l, r)] + rest;
          AugmentingExtend(g, left0, right0, l, r, rest);
          left[l], right[r] := r, l;
          return true, path;
        }
        DeadEndsExtend(g, right0, before, mid, r, Marked(seen[..]));
      }
      return false, [];
    }

    // Returns the edges of a maximum matching.  One attempt per left node suffices: reached collects
    // the right nodes marked by the failed attempts, and stays closed under later augmentations.
    method Compute() returns (result: seq<(int, int)>)
      requires Valid() && forall l | 0 <= l < left.Length :: left[l] == UNUSED
      modifies left, right
      ensures Valid()
      ensures IsMaximum(ToGraph(matrix), result)
    {
      ghost var g := ToGraph(matrix);
      ghost var reached: set<int> := {};
      for l := 0 to matrix.lhs
        invariant Valid()
        invariant forall k | l <= k < left.Length :: left[k] == UNUSED
        invariant Closed(g, right[..], reached)
        invariant forall k | 0 <= k < l && left[k] == UNUSED :: Expanded(g, k, reached)
      {
        assert left[l] == UNUSED;
        var seen := new bool[matrix.rhs](_ => false);
        ghost var left0, right0 := left[..], right[..];
        assert Marked(seen[..]) == {};
        var found, path := TryAugment(l, seen);
        SearchFromSource(g, left0, right0, l, found, path, left[..], right[..], Marked(seen[..]));
        if !found {
          reached := reached + Marked(seen[..]);
        }
      }
      result := [];
      for l := 0 to left.Length
        invariant result == Pairs(left[..l])
      {
        assert left[..l + 1][..l] == left[..l];
        var r := left[l];
        if r == UNUSED {
          continue;
        }
        result := result + [(l, r)];
      }
      assert left[..left.Length] == left[..];
      PairsAreMaximum(g, left[..], right[..], reached);
    }
  }

  // The matched pairs, in the order of the left nodes.
  ghost function Pairs(left: seq<int>): seq<(int, int)> {
    if left == [] then [] else
      var n := |left| - 1;
      Pairs(left[..n]) + if left[n] == UNUSED then [] else [(n, left[n])]
  }

  lemma {:induction false} PairsAreMatched(left: seq<int>)
    ensures (set p | p in Pairs(left)) == MatchedEdges(left)
    ensures |Pairs(left)| == |MatchedLefts(left)|
  {
    if left != [] {
      var n := |left| - 1;
      PairsAreMatched(left[..n]);
      MatchedLast(left);
    }
  }

  lemma MatchedLast(left: seq<int>)
    requires left != []
    ensures var n := |left| - 1;
      && MatchedEdges(left) == MatchedEdges(left[..n]) + (if left[n] == UNUSED then {} else {(n, left[n])})
      && MatchedLefts(left) == MatchedLefts(left[..n]) + (if left[n] == UNUSED then {} else {n})
      && n !in MatchedLefts(left[..n])
  {
  }

  // pairs lists, without repetition, the edges of a matching that no matching exceeds.
  ghost predicate IsMaximum(g: Graph, pairs: seq<(int, int)>) {
    var edges := set p | p in pairs;
    && IsMatching(g, edges) && |edges| == |pairs|
    && forall m | IsMatching(g, m) :: |m| <= |pairs|
  }

  lemma PairsAreMatching(g: Graph, left: seq<int>, right: seq<int>)
    requires Mutual(g, left, right)
    ensures var edges := set p | p in Pairs(left); IsMatching(g, edges) && |edges| == |Pairs(left)|
  {
    PairsAreMatched(left);
    MatchedEdgesMatch(g, left, right);
    EndpointCounts(g, MatchedEdges(left));
    LeftsOfMatched(left);
  }

  lemma LeftsOfMatched(left: seq<int>)
    ensures Lefts(MatchedEdges(left)) == MatchedLefts(left)
  {
    forall l | l in MatchedLefts(left)
      ensures l in Lefts(MatchedEdges(left))
    {
      assert (l, left[l]) in MatchedEdges(left);
    }
  }

  lemma PairsAreMaximum(g: Graph, left: seq<int>, right: seq<int>, reached: set<int>)
    requires Mutual(g, left, right) && Closed(g, right, reached)
    requires forall l | 0 <= l < |left| && left[l] == UNUSED :: Expanded(g, l, reached)
    ensures IsMaximum(g, Pairs(left))
  {
    PairsAreMatching(g, left, right);
    PairsAreMatched(left);
    forall m | IsMatching(g, m)
      ensures |m| <= |Pairs(left)|
    {
      MatchingBound(g, left, right, reached, m);
    }
  }

  method FindMaxBipartiteMatching(matrix: MatchMatrix) returns (pairs: seq<(int, int)>)
    ensures IsMaximum(ToGraph(matrix), pairs)
  {
    var state := new MaxBipartiteMatchState(matrix);
    pairs := state.Compute();
  }

  // ---------- UnorderedElementsAre, IsSupersetOf, IsSubsetOf ----------

  // Two bits: Superset is 1, Subset is 2, and ExactMatch is both.
  datatype MatchFlags = Superset | Subset | ExactMatch {
    predicate EveryMatcher() { Superset? || ExactMatch? }
    predicate EveryElement() { Subset? || ExactMatch? }
  }

  // m assigns elements to matchers injectively and covers the sides that the flags ask for.
  ghost predicate IsPairing(g: Graph, flags: MatchFlags, m: set<(int, int)>) {
    && IsMatching(g, m)
    && (flags == Superset || flags == ExactMatch ==> forall r | 0 <= r < g.rhs :: r in Rights(m))
    && (flags == Subset || flags == ExactMatch ==> forall l | 0 <= l < g.lhs :: l in Lefts(m))
  }

  ghost function Below(n: nat): (s: set<int>)
    ensures |s| == n && forall k :: k in s <==> 0 <= k < n
  {
    if n == 0 then {} else Below(n - 1) + {n - 1}
  }

  lemma {:induction false} SubsetOfSameSize<T>(a: set<T>, b: set<T>)
    requires a <= b && |a| >= |b|
    ensures a == b
  {
    if x :| x in a {
      SubsetOfSameSize(a - {x}, b - {x});
    }
  }

  lemma FullBelow(s: set<int>, n: nat)
    requires s <= Below(n)
    ensures |s| <= n
    ensures (forall k | 0 <= k < n :: k in s) <==> |s| >= n
  {
    SubsetSize(s, Below(n));
    if |s| >= n {
      SubsetOfSameSize(s, Below(n));
    } else if forall k | 0 <= k < n :: k in s {
      SubsetSize(Below(n), s);
    }
  }

  // A matching covers a side exactly when it has as many edges as that side has nodes.
  lemma FullSide(g: Graph, m: set<(int, int)>)
    requires IsMatching(g, m)
    ensures |m| <= g.rhs && |m| <= g.lhs
    ensures (forall r | 0 <= r < g.rhs :: r in Rights(m)) <==> |m| >= g.rhs
    ensures (forall l | 0 <= l < g.lhs :: l in Lefts(m)) <==> |m| >= g.lhs
  {
    EndpointCounts(g, m);
    forall p | p in m
      ensures p.0 in Below(g.lhs) && p.1 in Below(g.rhs)
    {
      assert g.Edge(p.0, p.1);
    }
    FullBelow(Rights(m), g.rhs);
    FullBelow(Lefts(m), g.lhs);
  }

  // The size of a maximum matching decides whether a pairing exists.
  lemma MaximumDecides(g: Graph, flags: MatchFlags, pairs: seq<(int, int)>)
    requires IsMaximum(g, pairs)
    ensures (exists m :: IsPairing(g, flags, m)) <==>
            (flags == Superset || flags == ExactMatch ==> |pairs| >= g.rhs) &&
            (flags == Subset || flags == ExactMatch ==> |pairs| >= g.lhs)
  {
    FullSide(g, set p | p in pairs);
    if (flags != Subset ==> |pairs| >= g.rhs) && (flags != Superset ==> |pairs| >= g.lhs) {
      assert IsPairing(g, flags, set p | p in pairs);
    }
    if m :| IsPairing(g, flags, m) {
      FullSide(g, m);
    }
  }

  // Returns true exactly when the required pairing exists.
  method FindPairing(flags: MatchFlags, matrix: MatchMatrix) returns (found: bool)
    ensures found <==> exists m :: IsPairing(ToGraph(matrix), flags, m)
  {
    var matches := FindMaxBipartiteMatching(matrix);
    MaximumDecides(ToGraph(matrix), flags, matches);
    var maxFlow := |matches|;
    if flags.EveryMatcher() && maxFlow < matrix.rhs {
      return false;
    }
    if flags.EveryElement() && maxFlow < matrix.lhs {
      return false;
    }
    return true;
  }

  // The quick test made before the search: equal sizes for an exact match, and no required node
  // without a neighbour.
  ghost predicate NoIsolated(g: Graph, flags: MatchFlags) {
    && (flags == ExactMatch ==> g.lhs == g.rhs)
    && (flags == Superset || flags == ExactMatch ==> forall r | 0 <= r < g.rhs :: MatcherHasElement(g, r))
    && (flags == Subset || flags == ExactMatch ==> forall l | 0 <= l < g.lhs :: ElementHasMatcher(g, l))
  }

  ghost predicate MatcherHasElement(g: Graph, r: int) {
    exists l :: g.Edge(l, r)
  }

  ghost predicate ElementHasMatcher(g: Graph, l: int) {
    exists r :: g.Edge(l, r)
  }

  // The same, among the first n elements or matchers.
  ghost predicate MatcherSeen(g: Graph, n: int, r: int) {
    exists l :: l < n && g.Edge(l, r)
  }

  ghost predicate ElementSeen(g: Graph, l: int, n: int) {
    exists r :: r < n && g.Edge(l, r)
  }

  lemma SeenStep(g: Graph, l: int, r: int)
    ensures ElementSeen(g, l, r + 1) <==> ElementSeen(g, l, r) || g.Edge(l, r)
    ensures MatcherSeen(g, l + 1, r) <==> MatcherSeen(g, l, r) || g.Edge(l, r)
  {
    assert g.Edge(l, r) ==> ElementSeen(g, l, r + 1) && MatcherSeen(g, l + 1, r);
  }

  lemma SeenAll(g: Graph)
    ensures forall l :: ElementSeen(g, l, g.rhs) <==> ElementHasMatcher(g, l)
    ensures forall r :: MatcherSeen(g, g.lhs, r) <==> MatcherHasElement(g, r)
  {
  }

  // Collects which elements and which matchers have an edge.
  method CollectMatched(matrix: MatchMatrix) returns (elementMatched: array<bool>, matcherMatched: array<bool>)
    ensures fresh(elementMatched) && elementMatched.Length == matrix.lhs
    ensures fresh(matcherMatched) && matcherMatched.Length == matrix.rhs
    ensures forall l | 0 <= l < matrix.lhs :: elementMatched[l] <==> ElementHasMatcher(ToGraph(matrix), l)
    ensures forall r | 0 <= r < matrix.rhs :: matcherMatched[r] <==> MatcherHasElement(ToGraph(matrix), r)
  {
    ghost var g := ToGraph(matrix);
    elementMatched := new bool[matrix.lhs](_ => false);
    matcherMatched := new bool[matrix.rhs](_ => false);
    for l := 0 to matrix.lhs
      invariant forall k | 0 <= k < l :: elementMatched[k] <==> ElementSeen(g, k, g.rhs)
      invariant forall k | l <= k < matrix.lhs :: !elementMatched[k]
      invariant forall r | 0 <= r < matrix.rhs :: matcherMatched[r] <==> MatcherSeen(g, l, r)
    {
      CollectRow(matrix, l, elementMatched, matcherMatched);
    }
    SeenAll(g);
  }

  // The inner loop, over the matchers.
  method CollectRow(matrix: MatchMatrix, l: nat, elementMatched: array<bool>, matcherMatched: array<bool>)
    requires l < matrix.lhs == elementMatched.Length && matrix.rhs == matcherMatched.Length
    requires elementMatched != matcherMatched && !elementMatched[l]
    requires forall r | 0 <= r < matrix.rhs :: matcherMatched[r] <==> MatcherSeen(ToGraph(matrix), l, r)
    modifies elementMatched, matcherMatched
    ensures forall r | 0 <= r < matrix.rhs :: matcherMatched[r] <==> MatcherSeen(ToGraph(matrix), l + 1, r)
    ensures elementMatched[l] <==> ElementSeen(ToGraph(matrix), l, matrix.rhs)
    ensures forall k | 0 <= k < matrix.lhs && k != l :: elementMatched[k] == old(elementMatched[k])
  {
    ghost var g := ToGraph(matrix);
    for r := 0 to matrix.rhs
      invariant forall k | 0 <= k < matrix.lhs && k != l :: elementMatched[k] == old(elementMatched[k])
      invariant elementMatched[l] <==> ElementSeen(g, l, r)
      invariant forall j | 0 <= j < r :: matcherMatched[j] <==> MatcherSeen(g, l + 1, j)
      invariant forall j | r <= j < matrix.rhs :: matcherMatched[j] <==> MatcherSeen(g, l, j)
    {
      SeenStep(g, l, r);
      var matched := matrix.HasEdge(l, r);
      elementMatched[l] := elementMatched[l] || matched;
      matcherMatched[r] := matcherMatched[r] || matched;
    }
  }

  method VerifyMatchMatrix(flags: MatchFlags, matrix: MatchMatrix) returns (result: bool)
    ensures result <==> NoIsolated(ToGraph(matrix), flags)
  {
    ghost var g := ToGraph(matrix);
    if matrix.lhs == 0 && matrix.rhs == 0 {
      return true;
    }
    if flags.ExactMatch? && matrix.lhs != matrix.rhs {
      return false;
    }
    result := true;
    var elementMatched, matcherMatched := CollectMatched(matrix);
    if flags.EveryMatcher() {
      for m := 0 to matcherMatched.Length
        invariant result <==> forall r | 0 <= r < m :: matcherMatched[r]
      {
        if matcherMatched[m] {
          continue;
        }
        result := false;
      }
    }
    ghost var matchersOk := result;
    if flags.EveryElement() {
      for e := 0 to elementMatched.Length
        invariant result <==> matchersOk && forall l | 0 <= l < e :: elementMatched[l]
      {
        if elementMatched[e] {
          continue;
        }
        result := false;
      }
    }
  }

  // The quick test rejects no matrix that has a pairing, so it may run before the search.
  lemma PairingPassesQuickTest(g: Graph, flags: MatchFlags, m: set<(int, int)>)
    requires IsPairing(g, flags, m)
    ensures NoIsolated(g, flags)
  {
    FullSide(g, m);
    forall r | r in Rights(m)
      ensures MatcherHasElement(g, r)
    {
      var p :| p in m && p.1 == r;
      assert g.Edge(p.0, p.1);
    }
    forall l | l in Lefts(m)
      ensures ElementHasMatcher(g, l)
    {
      var p :| p in m && p.0 == l;
      assert g.Edge(p.0, p.1);
    }
  }

  // MatchAndExplain runs both tests; together they decide the existence of a pairing.
  method MatchAndExplain(flags: MatchFlags, matrix: MatchMatrix) returns (matches: bool)
    ensures matches <==> exists m :: IsPairing(ToGraph(matrix), flags, m)
  {
    matches := VerifyMatchMatrix(flags, matrix);
    if matches {
      matches := FindPairing(flags, matrix);
    } else if m :| IsPairing(ToGraph(matrix), flags, m) {
      PairingPassesQuickTest(ToGraph(matrix), flags, m);
    }
  }
}
