/**
 * `AbstractAnalyticsService.EndpointPart`: a trie over URI path segments whose
 * nodes count how often they were reached, with insert-or-increment, merge,
 * collapse of dense levels into a `*` wildcard, and expansion back into endpoints.
 *
 * The trie is a value here. Where the Java code updates a node in place and hands
 * back a reference to a child, the functions below return the updated node (and the
 * child). Children are iterated in ascending key order where the Java code iterates
 * a `HashMap`.
 */
module EndpointTree {
  import opened Wrappers
  import opened Ordering
  import opened ApmModel
  import opened SeqFacts

  /** `EndpointPart.CHILD_THRESHOLD`. */
  const ChildThreshold: nat := 10

  /** An `EndpointPart`; a `null` children map is the empty map. */
  datatype Part = Part(
    count: int,
    children: map<string, Part>,
    endpointType: Option<string>,
    qualifier: bool)

  /** `new EndpointPart()`. */
  function NewPart(): Part
  {
    Part(1, map[], None, false)
  }

  /**
   * `addChild(name)`: returns the updated parent and the child now stored under
   * `name`, a fresh part if there was none, otherwise the old one counted once more.
   */
  function AddChild(p: Part, name: string): (r: (Part, Part))
    ensures r.0.children.Keys == p.children.Keys + {name}
    ensures r.0.children[name] == r.1
    ensures name !in p.children ==> r.1 == NewPart()
    ensures name in p.children ==>
      r.1 == p.children[name].(count := p.children[name].count + 1)
    ensures forall k :: k in p.children && k != name ==> r.0.children[k] == p.children[k]
    ensures r.0.count == p.count && r.0.endpointType == p.endpointType
    ensures r.0.qualifier == p.qualifier
  {
    var child := if name in p.children
      then p.children[name].(count := p.children[name].count + 1)
      else NewPart();
    (p.(children := p.children[name := child]), child)
  }

  /**
   * `a.merge(b)`: counts add up, `a`'s endpoint type wins when it has one, shared
   * children merge recursively and children only `b` has move over unchanged.
   */
  function Merge(a: Part, b: Part): (r: Part)
    ensures r.count == a.count + b.count
    ensures r.endpointType == if a.endpointType.Some? then a.endpointType else b.endpointType
    ensures r.qualifier == a.qualifier
    ensures r.children.Keys == a.children.Keys + b.children.Keys
    ensures forall k :: k in a.children && k !in b.children ==> r.children[k] == a.children[k]
    ensures forall k :: k in b.children && k !in a.children ==> r.children[k] == b.children[k]
    decreases b, 1
  {
    Part(
      a.count + b.count,
      map k | k in a.children.Keys + b.children.Keys :: MergeChild(a, b, k),
      if a.endpointType.Some? then a.endpointType else b.endpointType,
      a.qualifier)
  }

  /** The child under `k` after `a.merge(b)`. */
  function MergeChild(a: Part, b: Part, k: string): Part
    requires k in a.children || k in b.children
    decreases b, 0
  {
    if k !in b.children then a.children[k]
    else if k !in a.children then b.children[k]
    else Merge(a.children[k], b.children[k])
  }

  /** Children under a key both parts have are merged recursively. */
  lemma MergeShared(a: Part, b: Part, k: string)
    requires k in a.children && k in b.children
    ensures Merge(a, b).children[k] == Merge(a.children[k], b.children[k])
  {
  }

  /** Merging is associative, so the order in which merges are grouped does not matter. */
  lemma {:induction false} MergeAssociative(a: Part, b: Part, c: Part)
    ensures Merge(Merge(a, b), c) == Merge(a, Merge(b, c))
    decreases c
  {
    var ab, bc := Merge(a, b), Merge(b, c);
    var left, right := Merge(ab, c), Merge(a, bc);
    assert left.children.Keys == right.children.Keys;
    forall k | k in left.children
      ensures left.children[k] == right.children[k]
    {
      var inA, inB, inC := k in a.children, k in b.children, k in c.children;
      if inA && inB && inC {
        MergeShared(a, b, k);
        MergeShared(b, c, k);
        MergeShared(ab, c, k);
        MergeShared(a, bc, k);
        MergeAssociative(a.children[k], b.children[k], c.children[k]);
        assert left.children[k] == Merge(Merge(a.children[k], b.children[k]), c.children[k]);
        assert right.children[k] == Merge(a.children[k], Merge(b.children[k], c.children[k]));
      } else if inA && inB {
        MergeShared(a, b, k);
        MergeShared(a, bc, k);
        assert left.children[k] == ab.children[k];
        assert right.children[k] == Merge(a.children[k], bc.children[k]);
      } else if inA && inC {
        MergeShared(ab, c, k);
        MergeShared(a, bc, k);
        assert left.children[k] == Merge(ab.children[k], c.children[k]);
        assert right.children[k] == Merge(a.children[k], bc.children[k]);
      } else if inB && inC {
        MergeShared(b, c, k);
        MergeShared(ab, c, k);
        assert left.children[k] == Merge(ab.children[k], c.children[k]);
        assert right.children[k] == bc.children[k];
      } else if inA {
        assert left.children[k] == ab.children[k];
      } else if inB {
        assert left.children[k] == ab.children[k];
        assert right.children[k] == bc.children[k];
      } else {
        assert right.children[k] == bc.children[k];
      }
    }
    assert left.children == right.children;
  }

  /** Folds `merge` over `parts` from left to right, as the collapse loop does. */
  function MergeAll(acc: Part, parts: seq<Part>): Part
    decreases |parts|
  {
    if parts == [] then acc else MergeAll(Merge(acc, parts[0]), parts[1..])
  }

  /** The children of a node in the order they are visited. */
  function ChildrenInOrder(m: map<string, Part>): (r: seq<Part>)
    ensures |r| == |m|
  {
    var ks := SortedKeys(m.Keys);
    seq(|ks|, i requires 0 <= i < |ks| => m[ks[i]])
  }

  function SumCounts(parts: seq<Part>): int
  {
    if parts == [] then 0 else parts[0].count + SumCounts(parts[1..])
  }

  /** The union of the children's key sets. */
  function ChildKeys(parts: seq<Part>): set<string>
  {
    if parts == [] then {} else parts[0].children.Keys + ChildKeys(parts[1..])
  }

  /** The endpoint type `acc` ends with after merging `parts` into it: the first one set. */
  function FirstType(acc: Option<string>, parts: seq<Part>): Option<string>
    decreases |parts|
  {
    if acc.Some? || parts == [] then acc else FirstType(parts[0].endpointType, parts[1..])
  }

  lemma {:induction false} MergeAllFacts(acc: Part, parts: seq<Part>)
    ensures MergeAll(acc, parts).count == acc.count + SumCounts(parts)
    ensures MergeAll(acc, parts).children.Keys == acc.children.Keys + ChildKeys(parts)
    ensures MergeAll(acc, parts).endpointType == FirstType(acc.endpointType, parts)
    ensures MergeAll(acc, parts).qualifier == acc.qualifier
    decreases |parts|
  {
    if parts != [] {
      MergeAllFacts(Merge(acc, parts[0]), parts[1..]);
    }
  }

  /** The merged type is set exactly when some part has one, and is then one of theirs. */
  lemma {:induction false} FirstTypeFacts(parts: seq<Part>)
    ensures FirstType(None, parts).Some? <==> exists i :: 0 <= i < |parts| && parts[i].endpointType.Some?
    ensures FirstType(None, parts).Some? ==>
      exists i :: 0 <= i < |parts| && parts[i].endpointType == FirstType(None, parts)
  {
    if parts != [] {
      FirstTypeFacts(parts[1..]);
      if parts[0].endpointType.None? {
        assert forall i :: 1 <= i < |parts| ==> parts[i] == parts[1..][i - 1];
        if exists i :: 0 <= i < |parts| && parts[i].endpointType.Some? {
          var i :| 0 <= i < |parts| && parts[i].endpointType.Some?;
          assert parts[1..][i - 1].endpointType.Some?;
        }
      }
    }
  }

  lemma {:induction false} ChildKeysMember(parts: seq<Part>, k: string)
    ensures k in ChildKeys(parts) <==> exists i :: 0 <= i < |parts| && k in parts[i].children
  {
    if parts != [] {
      ChildKeysMember(parts[1..], k);
      assert forall i :: 1 <= i < |parts| ==> parts[i] == parts[1..][i - 1];
      if exists i :: 0 <= i < |parts| && k in parts[i].children {
        var i :| 0 <= i < |parts| && k in parts[i].children;
        if i > 0 {
          assert k in parts[1..][i - 1].children;
        }
      }
    }
  }

  // ---- Height, the measure under which collapse terminates ----

  function Max(x: nat, y: nat): nat
  {
    if x < y then y else x
  }

  function Height(p: Part): nat
    decreases p, 1
  {
    if p.children == map[] then 0 else 1 + MaxHeight(p, SortedKeys(p.children.Keys))
  }

  function MaxHeight(p: Part, ks: seq<string>): nat
    requires forall k :: k in ks ==> k in p.children
    decreases p, 0, |ks|
  {
    if ks == [] then 0 else Max(Height(p.children[ks[0]]), MaxHeight(p, ks[1..]))
  }

  lemma {:induction false} MaxHeightBounds(p: Part, ks: seq<string>, k: string)
    requires forall j :: j in ks ==> j in p.children
    requires k in ks
    ensures Height(p.children[k]) <= MaxHeight(p, ks)
    decreases |ks|
  {
    if ks[0] != k {
      MaxHeightBounds(p, ks[1..], k);
    }
  }

  lemma {:induction false} MaxHeightAtMost(p: Part, ks: seq<string>, n: nat)
    requires forall j :: j in ks ==> j in p.children
    requires forall j :: j in ks ==> Height(p.children[j]) <= n
    ensures MaxHeight(p, ks) <= n
    decreases |ks|
  {
    if ks != [] {
      MaxHeightAtMost(p, ks[1..], n);
    }
  }

  /** A node is at most `n` high exactly when each of its children is lower than `n`. */
  lemma HeightAtMost(p: Part, n: nat)
    ensures Height(p) <= n <==> forall k :: k in p.children ==> Height(p.children[k]) < n
  {
    if p.children != map[] {
      var ks := SortedKeys(p.children.Keys);
      if Height(p) <= n {
        forall k | k in p.children
          ensures Height(p.children[k]) < n
        {
          MaxHeightBounds(p, ks, k);
        }
      }
      if forall k :: k in p.children ==> Height(p.children[k]) < n {
        var k0 :| k0 in p.children;
        assert Height(p.children[k0]) < n;
        MaxHeightAtMost(p, ks, n - 1);
      }
    }
  }

  lemma ChildrenAreLower(p: Part)
    ensures forall k :: k in p.children ==> Height(p.children[k]) < Height(p)
  {
    HeightAtMost(p, Height(p));
  }

  lemma {:induction false} MergeHeight(a: Part, b: Part, n: nat)
    requires Height(a) <= n && Height(b) <= n
    ensures Height(Merge(a, b)) <= n
    decreases b
  {
    var r := Merge(a, b);
    HeightAtMost(a, n);
    HeightAtMost(b, n);
    forall k | k in r.children
      ensures Height(r.children[k]) < n
    {
      if k in a.children && k in b.children {
        MergeShared(a, b, k);
        MergeHeight(a.children[k], b.children[k], n - 1);
      } else if k in a.children {
        assert r.children[k] == a.children[k];
      } else {
        assert r.children[k] == b.children[k];
      }
    }
    HeightAtMost(r, n);
  }

  lemma {:induction false} MergeAllHeight(acc: Part, parts: seq<Part>, n: nat)
    requires Height(acc) <= n
    requires forall i :: 0 <= i < |parts| ==> Height(parts[i]) <= n
    ensures Height(MergeAll(acc, parts)) <= n
    decreases |parts|
  {
    if parts != [] {
      MergeHeight(acc, parts[0], n);
      MergeAllHeight(Merge(acc, parts[0]), parts[1..], n);
    }
  }

  /** The node all children merge into is lower than their parent. */
  lemma MergedChildrenAreLower(p: Part)
    requires p.children != map[]
    ensures Height(MergeAll(NewPart(), ChildrenInOrder(p.children))) < Height(p)
  {
    var parts := ChildrenInOrder(p.children);
    var ks := SortedKeys(p.children.Keys);
    ChildrenAreLower(p);
    forall i | 0 <= i < |parts|
      ensures Height(parts[i]) <= Height(p) - 1
    {
      assert ks[i] in ks && parts[i] == p.children[ks[i]];
    }
    MergeAllHeight(NewPart(), parts, Height(p) - 1);
  }

  // ---- Collapse ----

  /** The single child a dense node collapses into, before it is collapsed itself. */
  function WildcardOf(p: Part): Part
  {
    MergeAll(NewPart(), ChildrenInOrder(p.children))
  }

  /**
   * `collapse()`: a node with at least `ChildThreshold` children gets the one child
   * `*`, the merge of them all, collapsed in turn; any other node collapses each child.
   */
  function Collapse(p: Part): (r: Part)
    ensures r.count == p.count && r.endpointType == p.endpointType && r.qualifier == p.qualifier
    ensures |p.children| >= ChildThreshold ==> r.children.Keys == {Wildcard}
    ensures |p.children| < ChildThreshold ==> r.children.Keys == p.children.Keys
    decreases Height(p), 1
  {
    if p.children == map[] then p
    else if |p.children| >= ChildThreshold then
      MergedChildrenAreLower(p);
      p.(children := map[Wildcard := Collapse(WildcardOf(p))])
    else
      p.(children := CollapseChildren(p))
  }

  /** Each child collapsed in place. */
  function CollapseChildren(p: Part): (r: map<string, Part>)
    ensures r.Keys == p.children.Keys
    decreases Height(p), 0
  {
    ChildrenAreLower(p);
    map k | k in p.children :: Collapse(p.children[k])
  }

  /** The merge of all children: count 1 (from `new EndpointPart()`) plus theirs, not a qualifier, and the first type found. */
  lemma WildcardOfFacts(p: Part)
    ensures WildcardOf(p).count == 1 + SumCounts(ChildrenInOrder(p.children))
    ensures !WildcardOf(p).qualifier
    ensures WildcardOf(p).endpointType.Some? <==>
      exists k :: k in p.children && p.children[k].endpointType.Some?
    ensures WildcardOf(p).endpointType.Some? ==>
      exists k :: k in p.children && p.children[k].endpointType == WildcardOf(p).endpointType
  {
    var parts := ChildrenInOrder(p.children);
    var ks := SortedKeys(p.children.Keys);
    MergeAllFacts(NewPart(), parts);
    FirstTypeFacts(parts);
    if exists k :: k in p.children && p.children[k].endpointType.Some? {
      var k :| k in p.children && p.children[k].endpointType.Some?;
      assert k in ks;
      var i :| 0 <= i < |ks| && ks[i] == k;
      assert parts[i].endpointType.Some?;
    }
    if FirstType(None, parts).Some? {
      var i :| 0 <= i < |parts| && parts[i].endpointType == FirstType(None, parts);
      assert ks[i] in p.children;
    }
  }

  /**
   * A node with at least `ChildThreshold` children ends with the single child `*`,
   * whose count is 1 plus the sum of the former children's counts, which is not a
   * qualifier, and which has an endpoint type exactly when a former child had one
   * (then one of theirs).
   */
  lemma CollapseWildcard(p: Part)
    requires |p.children| >= ChildThreshold
    ensures Collapse(p).children.Keys == {Wildcard}
    ensures Collapse(p).children[Wildcard].count == 1 + SumCounts(ChildrenInOrder(p.children))
    ensures !Collapse(p).children[Wildcard].qualifier
    ensures Collapse(p).children[Wildcard].endpointType.Some? <==>
      exists k :: k in p.children && p.children[k].endpointType.Some?
    ensures Collapse(p).children[Wildcard].endpointType.Some? ==>
      exists k :: k in p.children && p.children[k].endpointType == Collapse(p).children[Wildcard].endpointType
  {
    assert Collapse(p).children[Wildcard] == Collapse(WildcardOf(p));
    WildcardOfFacts(p);
  }

  /** The wildcard's own children are the union of the replaced children's children. */
  lemma WildcardKeys(p: Part)
    ensures forall k :: k in WildcardOf(p).children <==>
      exists c :: c in p.children && k in p.children[c].children
  {
    var parts := ChildrenInOrder(p.children);
    var ks := SortedKeys(p.children.Keys);
    MergeAllFacts(NewPart(), parts);
    forall k
      ensures k in WildcardOf(p).children <==> exists c :: c in p.children && k in p.children[c].children
    {
      ChildKeysMember(parts, k);
      if exists c :: c in p.children && k in p.children[c].children {
        var c :| c in p.children && k in p.children[c].children;
        assert c in ks;
        var i :| 0 <= i < |ks| && ks[i] == c;
        assert k in parts[i].children;
      }
    }
  }

  /** A node below the threshold keeps its keys and holds the collapse of each former child. */
  lemma CollapseSparse(p: Part)
    requires |p.children| < ChildThreshold
    ensures forall k :: k in p.children ==> Collapse(p).children[k] == Collapse(p.children[k])
  {
  }

  /** No node anywhere in the tree reaches the threshold. */
  ghost predicate Compact(p: Part)
    decreases p
  {
    |p.children| < ChildThreshold && forall k :: k in p.children ==> Compact(p.children[k])
  }

  lemma {:induction false} CollapseIsCompact(p: Part)
    ensures Compact(Collapse(p))
    decreases Height(p)
  {
    if p.children == map[] {
    } else if |p.children| >= ChildThreshold {
      MergedChildrenAreLower(p);
      CollapseIsCompact(WildcardOf(p));
    } else {
      ChildrenAreLower(p);
      forall k | k in p.children
        ensures Compact(Collapse(p.children[k]))
      {
        CollapseIsCompact(p.children[k]);
      }
    }
  }

  /** Below the threshold everywhere, collapsing changes nothing. */
  lemma {:induction false} CollapseCompactIsIdentity(p: Part)
    requires Compact(p)
    ensures Collapse(p) == p
    decreases p
  {
    if p.children != map[] {
      forall k | k in p.children
        ensures Collapse(p.children[k]) == p.children[k]
      {
        CollapseCompactIsIdentity(p.children[k]);
      }
      assert Collapse(p).children == p.children;
    }
  }

  /** Collapsing twice gives what collapsing once gives. */
  lemma CollapseIdempotent(p: Part)
    ensures Collapse(Collapse(p)) == Collapse(p)
  {
    CollapseIsCompact(p);
    CollapseCompactIsIdentity(Collapse(p));
  }

  // ---- Paths through the trie ----

  /** `path` is a sequence of keys leading from `p` down to some node. */
  predicate IsPath(p: Part, path: seq<string>)
    decreases |path|
  {
    path == [] || (path[0] in p.children && IsPath(p.children[path[0]], path[1..]))
  }

  /** The node `path` leads to. */
  function At(p: Part, path: seq<string>): Part
    requires IsPath(p, path)
    decreases |path|
  {
    if path == [] then p else At(p.children[path[0]], path[1..])
  }

  /** What goes between a parent's endpoint and a child's key: nothing for an operation qualifier. */
  function Separator(child: Part): string
  {
    if child.qualifier then "" else "/"
  }

  /** The endpoint string of the node `path` leads to, when `p` itself stands for `endpoint`. */
  function Render(p: Part, path: seq<string>, endpoint: string): string
    requires IsPath(p, path)
    decreases |path|
  {
    if path == [] then endpoint
    else
      var c := p.children[path[0]];
      Render(c, path[1..], endpoint + Separator(c) + path[0])
  }

  /** One step down: a path from a child, with the child's key in front, is a path from the parent. */
  lemma PathCons(p: Part, k: string, q: seq<string>, endpoint: string)
    requires k in p.children
    ensures IsPath(p, [k] + q) == IsPath(p.children[k], q)
    ensures IsPath(p, [k] + q) ==>
      At(p, [k] + q) == At(p.children[k], q) &&
      Render(p, [k] + q, endpoint) == Render(p.children[k], q, endpoint + Separator(p.children[k]) + k)
  {
    assert ([k] + q)[0] == k && ([k] + q)[1..] == q;
  }

  // ---- Typed nodes through merge and collapse ----

  /** `path` leads from `p` to a node with an endpoint type. */
  predicate TypedAt(p: Part, path: seq<string>)
  {
    IsPath(p, path) && At(p, path).endpointType.Some?
  }

  lemma TypedAtCons(p: Part, k: string, q: seq<string>)
    ensures TypedAt(p, [k] + q) <==> k in p.children && TypedAt(p.children[k], q)
  {
    assert ([k] + q)[0] == k && ([k] + q)[1..] == q;
  }

  lemma NewPartUntyped(path: seq<string>)
    ensures !TypedAt(NewPart(), path)
  {
  }

  /** A merge has a typed node at a path exactly when one of the two parts has. */
  lemma {:induction false} MergeTypedAt(a: Part, b: Part, path: seq<string>)
    ensures TypedAt(Merge(a, b), path) <==> TypedAt(a, path) || TypedAt(b, path)
    decreases |path|
  {
    if path != [] {
      var k, q := path[0], path[1..];
      assert path == [k] + q;
      TypedAtCons(Merge(a, b), k, q);
      TypedAtCons(a, k, q);
      TypedAtCons(b, k, q);
      if k in a.children && k in b.children {
        MergeShared(a, b, k);
        MergeTypedAt(a.children[k], b.children[k], q);
      }
    }
  }

  lemma {:induction false} MergeAllTypedAt(acc: Part, parts: seq<Part>, path: seq<string>)
    ensures TypedAt(MergeAll(acc, parts), path) <==>
      TypedAt(acc, path) || exists j :: 0 <= j < |parts| && TypedAt(parts[j], path)
    decreases |parts|
  {
    if parts != [] {
      MergeAllTypedAt(Merge(acc, parts[0]), parts[1..], path);
      MergeTypedAt(acc, parts[0], path);
      if exists j :: 0 <= j < |parts[1..]| && TypedAt(parts[1..][j], path) {
        var j :| 0 <= j < |parts[1..]| && TypedAt(parts[1..][j], path);
        assert parts[j + 1] == parts[1..][j];
      }
      if exists j :: 0 <= j < |parts| && TypedAt(parts[j], path) {
        var j :| 0 <= j < |parts| && TypedAt(parts[j], path);
        if j > 0 {
          assert parts[1..][j - 1] == parts[j];
        }
      }
    }
  }

  /**
   * The node the children of a dense level are merged into has a typed node at a
   * path exactly when one of those children has.
   */
  lemma WildcardTypedAt(p: Part, path: seq<string>)
    ensures TypedAt(WildcardOf(p), path) <==> exists k :: k in p.children && TypedAt(p.children[k], path)
  {
    var parts := ChildrenInOrder(p.children);
    var ks := SortedKeys(p.children.Keys);
    MergeAllTypedAt(NewPart(), parts, path);
    NewPartUntyped(path);
    if exists k :: k in p.children && TypedAt(p.children[k], path) {
      var k :| k in p.children && TypedAt(p.children[k], path);
      assert k in ks;
      var i :| 0 <= i < |ks| && ks[i] == k;
      assert parts[i] == p.children[k];
    }
    if exists j :: 0 <= j < |parts| && TypedAt(parts[j], path) {
      var j :| 0 <= j < |parts| && TypedAt(parts[j], path);
      assert ks[j] in ks && parts[j] == p.children[ks[j]];
    }
  }

  /** `q` is `path` with some of its keys replaced by `*`. */
  predicate Generalises(q: seq<string>, path: seq<string>)
  {
    |q| == |path| && forall i :: 0 <= i < |q| ==> q[i] == path[i] || q[i] == Wildcard
  }

  lemma GeneralisesCons(a: string, q: seq<string>, b: string, path: seq<string>)
    requires (a == b || a == Wildcard) && Generalises(q, path)
    ensures Generalises([a] + q, [b] + path)
  {
    forall i | 0 <= i < |q| + 1
      ensures ([a] + q)[i] == ([b] + path)[i] || ([a] + q)[i] == Wildcard
    {
      if i > 0 {
        assert ([a] + q)[i] == q[i - 1] && ([b] + path)[i] == path[i - 1];
      }
    }
  }

  /**
   * Collapse keeps every typed node: it is found at the same path, except that the
   * key of each level that collapsed is now `*`.
   */
  lemma {:induction false} CollapseKeepsTyped(p: Part, path: seq<string>) returns (q: seq<string>)
    requires TypedAt(p, path)
    ensures Generalises(q, path) && TypedAt(Collapse(p), q)
    decreases Height(p)
  {
    if path == [] {
      q := [];
    } else {
      var k, rest := path[0], path[1..];
      assert path == [k] + rest;
      TypedAtCons(p, k, rest);
      var q': seq<string>;
      if |p.children| >= ChildThreshold {
        MergedChildrenAreLower(p);
        WildcardTypedAt(p, rest);
        q' := CollapseKeepsTyped(WildcardOf(p), rest);
        q := [Wildcard] + q';
        assert Collapse(p).children[Wildcard] == Collapse(WildcardOf(p));
      } else {
        ChildrenAreLower(p);
        CollapseSparse(p);
        q' := CollapseKeepsTyped(p.children[k], rest);
        q := [k] + q';
      }
      TypedAtCons(Collapse(p), q[0], q');
      assert q == [q[0]] + q';
      GeneralisesCons(q[0], q', k, rest);
    }
  }

  /** Collapse makes up no typed node: each one afterwards is a former typed node, keys of collapsed levels read as `*`. */
  lemma {:induction false} CollapseTypedFrom(p: Part, q: seq<string>) returns (path: seq<string>)
    requires TypedAt(Collapse(p), q)
    ensures Generalises(q, path) && TypedAt(p, path)
    decreases Height(p)
  {
    if q == [] {
      path := [];
    } else {
      var k, rest := q[0], q[1..];
      assert q == [k] + rest;
      TypedAtCons(Collapse(p), k, rest);
      var path': seq<string>;
      if |p.children| >= ChildThreshold {
        MergedChildrenAreLower(p);
        assert Collapse(p).children[Wildcard] == Collapse(WildcardOf(p));
        path' := CollapseTypedFrom(WildcardOf(p), rest);
        WildcardTypedAt(p, path');
        var c :| c in p.children && TypedAt(p.children[c], path');
        path := [c] + path';
      } else {
        ChildrenAreLower(p);
        CollapseSparse(p);
        path' := CollapseTypedFrom(p.children[k], rest);
        path := [k] + path';
      }
      TypedAtCons(p, path[0], path');
      assert path == [path[0]] + path';
      GeneralisesCons(k, rest, path[0], path');
    }
  }

  // ---- Extraction ----

  /** What `extractEndpointInfo(endpoints, endpoint)` appends: the node itself if typed, then its children's. */
  function Extract(p: Part, endpoint: string): seq<EndpointInfo>
    decreases p, 1
  {
    (if p.endpointType.Some? then [NewEndpointInfo(endpoint, p.endpointType)] else [])
      + ExtractChildren(p, SortedKeys(p.children.Keys), endpoint)
  }

  function ExtractChildren(p: Part, ks: seq<string>, endpoint: string): seq<EndpointInfo>
    requires forall k :: k in ks ==> k in p.children
    decreases p, 0, |ks|
  {
    if ks == [] then []
    else
      var c := p.children[ks[0]];
      Extract(c, endpoint + Separator(c) + ks[0]) + ExtractChildren(p, ks[1..], endpoint)
  }

  /**
   * `extractEndpointInfo(endpoints, endpoint)`: appends to `endpoints` one record per
   * typed node below `p`, visiting children in key order.
   */
  method ExtractEndpointInfo(p: Part, endpoints: seq<EndpointInfo>, endpoint: string)
    returns (r: seq<EndpointInfo>)
    ensures r == endpoints + Extract(p, endpoint)
    decreases p
  {
    ghost var own := if p.endpointType.Some? then [NewEndpointInfo(endpoint, p.endpointType)] else [];
    r := endpoints;
    if p.endpointType.Some? {
      r := r + [NewEndpointInfo(endpoint, p.endpointType)];
    }
    assert r == endpoints + own;
    var rest := SortedKeys(p.children.Keys);
    ghost var target := r + ExtractChildren(p, rest, endpoint);
    AppendAssociative(endpoints, own, ExtractChildren(p, rest, endpoint));
    while rest != []
      invariant forall k :: k in rest ==> k in p.children
      invariant r + ExtractChildren(p, rest, endpoint) == target
      decreases |rest|
    {
      var part := p.children[rest[0]];
      var sub := endpoint + Separator(part) + rest[0];
      ghost var tail := ExtractChildren(p, rest[1..], endpoint);
      ExtractChildrenUnfold(p, rest, endpoint);
      var r' := ExtractEndpointInfo(part, r, sub);
      AppendAssociative(r, Extract(part, sub), tail);
      r, rest := r', rest[1..];
    }
  }

  lemma ExtractChildrenUnfold(p: Part, ks: seq<string>, endpoint: string)
    requires forall k :: k in ks ==> k in p.children
    requires ks != []
    ensures forall k :: k in ks[1..] ==> k in p.children
    ensures ExtractChildren(p, ks, endpoint) ==
      Extract(p.children[ks[0]], endpoint + Separator(p.children[ks[0]]) + ks[0])
        + ExtractChildren(p, ks[1..], endpoint)
  {
    assert forall k :: k in ks[1..] ==> k in ks;
  }

  /** The static `extractEndpointInfo(root)`: the records of the whole tree. */
  method ExtractAll(root: Part) returns (r: seq<EndpointInfo>)
    ensures r == Extract(root, "")
  {
    r := ExtractEndpointInfo(root, [], "");
  }

  /** Puts `k` in front of each path. */
  function Prefixed(k: string, paths: seq<seq<string>>): (r: seq<seq<string>>)
    ensures |r| == |paths|
    ensures forall i :: 0 <= i < |r| ==> r[i] == [k] + paths[i]
  {
    seq(|paths|, i requires 0 <= i < |paths| => [k] + paths[i])
  }

  /** The paths to the typed nodes of `p`, in the order extraction visits them. */
  function TypedPaths(p: Part): seq<seq<string>>
    decreases p, 1
  {
    (if p.endpointType.Some? then [[]] else []) + TypedPathsBelow(p, SortedKeys(p.children.Keys))
  }

  function TypedPathsBelow(p: Part, ks: seq<string>): seq<seq<string>>
    requires forall k :: k in ks ==> k in p.children
    decreases p, 0, |ks|
  {
    if ks == [] then [] else Prefixed(ks[0], TypedPaths(p.children[ks[0]])) + TypedPathsBelow(p, ks[1..])
  }

  /**
   * The `i`-th extracted record belongs to the `i`-th typed path: its endpoint is the
   * keys along the path, each after a `/` unless its node is a qualifier, and its
   * type is that node's.
   */
  lemma {:induction false} ExtractRenders(p: Part, endpoint: string)
    ensures |Extract(p, endpoint)| == |TypedPaths(p)|
    ensures forall i :: 0 <= i < |TypedPaths(p)| ==>
      IsPath(p, TypedPaths(p)[i]) &&
      Extract(p, endpoint)[i] ==
        NewEndpointInfo(Render(p, TypedPaths(p)[i], endpoint), At(p, TypedPaths(p)[i]).endpointType)
    decreases p, 1
  {
    var ks := SortedKeys(p.children.Keys);
    ExtractChildrenRenders(p, ks, endpoint);
    var own := if p.endpointType.Some? then [[]] else [];
    var below := TypedPathsBelow(p, ks);
    var infos := ExtractChildren(p, ks, endpoint);
    assert TypedPaths(p) == own + below;
    forall i | 0 <= i < |TypedPaths(p)|
      ensures IsPath(p, TypedPaths(p)[i]) &&
        Extract(p, endpoint)[i] ==
          NewEndpointInfo(Render(p, TypedPaths(p)[i], endpoint), At(p, TypedPaths(p)[i]).endpointType)
    {
      if i >= |own| {
        assert TypedPaths(p)[i] == below[i - |own|];
        assert Extract(p, endpoint)[i] == infos[i - |own|];
      }
    }
  }

  lemma {:induction false} ExtractChildrenRenders(p: Part, ks: seq<string>, endpoint: string)
    requires forall k :: k in ks ==> k in p.children
    ensures |ExtractChildren(p, ks, endpoint)| == |TypedPathsBelow(p, ks)|
    ensures forall i :: 0 <= i < |TypedPathsBelow(p, ks)| ==>
      IsPath(p, TypedPathsBelow(p, ks)[i]) &&
      ExtractChildren(p, ks, endpoint)[i] ==
        NewEndpointInfo(Render(p, TypedPathsBelow(p, ks)[i], endpoint), At(p, TypedPathsBelow(p, ks)[i]).endpointType)
    decreases p, 0, |ks|
  {
    if ks != [] {
      var k := ks[0];
      var c := p.children[k];
      var sub := endpoint + Separator(c) + k;
      ExtractRenders(c, sub);
      ExtractChildrenRenders(p, ks[1..], endpoint);
      var paths := TypedPathsBelow(p, ks);
      var infos := ExtractChildren(p, ks, endpoint);
      var head := Prefixed(k, TypedPaths(c));
      forall i | 0 <= i < |paths|
        ensures IsPath(p, paths[i]) &&
          infos[i] == NewEndpointInfo(Render(p, paths[i], endpoint), At(p, paths[i]).endpointType)
      {
        if i < |head| {
          var q := TypedPaths(c)[i];
          assert paths[i] == [k] + q;
          PathCons(p, k, q, endpoint);
          assert infos[i] == Extract(c, sub)[i];
        } else {
          assert paths[i] == TypedPathsBelow(p, ks[1..])[i - |head|];
          assert infos[i] == ExtractChildren(p, ks[1..], endpoint)[i - |head|];
        }
      }
    }
  }

  lemma {:induction false} TypedPathsBelowMember(p: Part, ks: seq<string>, path: seq<string>)
    requires forall k :: k in ks ==> k in p.children
    ensures path in TypedPathsBelow(p, ks) <==>
      path != [] && path[0] in ks && path[1..] in TypedPaths(p.children[path[0]])
    decreases |ks|
  {
    if ks != [] {
      TypedPathsBelowMember(p, ks[1..], path);
      var head := Prefixed(ks[0], TypedPaths(p.children[ks[0]]));
      if path in head {
        var i :| 0 <= i < |head| && head[i] == path;
        assert path[1..] == TypedPaths(p.children[ks[0]])[i];
      }
      if path != [] && path[0] == ks[0] && path[1..] in TypedPaths(p.children[ks[0]]) {
        var i :| 0 <= i < |TypedPaths(p.children[ks[0]])| && TypedPaths(p.children[ks[0]])[i] == path[1..];
        assert head[i] == path;
      }
    }
  }

  /** Extraction visits exactly the nodes that carry an endpoint type. */
  lemma {:induction false} TypedPathsIff(p: Part, path: seq<string>)
    ensures path in TypedPaths(p) <==> IsPath(p, path) && At(p, path).endpointType.Some?
    decreases |path|
  {
    var ks := SortedKeys(p.children.Keys);
    TypedPathsBelowMember(p, ks, path);
    if path != [] && path[0] in p.children {
      TypedPathsIff(p.children[path[0]], path[1..]);
    }
  }

  lemma {:induction false} TypedPathsBelowDistinct(p: Part, ks: seq<string>)
    requires forall k :: k in ks ==> k in p.children
    requires forall i, j :: 0 <= i < j < |ks| ==> ks[i] != ks[j]
    ensures forall i, j :: 0 <= i < j < |TypedPathsBelow(p, ks)| ==>
      TypedPathsBelow(p, ks)[i] != TypedPathsBelow(p, ks)[j]
    decreases p, 0, |ks|
  {
    if ks != [] {
      var c := p.children[ks[0]];
      TypedPathsDistinct(c);
      TypedPathsBelowDistinct(p, ks[1..]);
      var head := Prefixed(ks[0], TypedPaths(c));
      var tail := TypedPathsBelow(p, ks[1..]);
      PrefixedDistinct(ks[0], TypedPaths(c));
      forall j | 0 <= j < |tail|
        ensures tail[j] != [] && tail[j][0] != ks[0]
      {
        assert tail[j] in tail;
        TypedPathsBelowMember(p, ks[1..], tail[j]);
        assert ks[0] !in ks[1..];
      }
      ApartDistinct(head, tail, ks[0]);
    }
  }

  lemma PrefixedDistinct(k: string, paths: seq<seq<string>>)
    requires forall i, j :: 0 <= i < j < |paths| ==> paths[i] != paths[j]
    ensures forall i, j :: 0 <= i < j < |paths| ==> Prefixed(k, paths)[i] != Prefixed(k, paths)[j]
    ensures forall i :: 0 <= i < |paths| ==> Prefixed(k, paths)[i] != [] && Prefixed(k, paths)[i][0] == k
  {
    var r := Prefixed(k, paths);
    assert forall i :: 0 <= i < |paths| ==> r[i][0] == k;
    forall i, j | 0 <= i < j < |paths|
      ensures r[i] != r[j]
    {
      assert r[i][1..] == paths[i] && r[j][1..] == paths[j];
    }
  }

  /** Two lists without repeats, one all starting with `k` and one none, concatenate without repeats. */
  lemma ApartDistinct(head: seq<seq<string>>, tail: seq<seq<string>>, k: string)
    requires forall i, j :: 0 <= i < j < |head| ==> head[i] != head[j]
    requires forall i, j :: 0 <= i < j < |tail| ==> tail[i] != tail[j]
    requires forall i :: 0 <= i < |head| ==> head[i] != [] && head[i][0] == k
    requires forall j :: 0 <= j < |tail| ==> tail[j] != [] && tail[j][0] != k
    ensures forall i, j :: 0 <= i < j < |head + tail| ==> (head + tail)[i] != (head + tail)[j]
  {
    var all := head + tail;
    forall i, j | 0 <= i < j < |all|
      ensures all[i] != all[j]
    {
      if j >= |head| {
        assert all[j] == tail[j - |head|];
        if i >= |head| {
          assert all[i] == tail[i - |head|];
        }
      }
    }
  }

  /** No node is visited twice, so extraction yields one record per typed node. */
  lemma {:induction false} TypedPathsDistinct(p: Part)
    ensures forall i, j :: 0 <= i < j < |TypedPaths(p)| ==> TypedPaths(p)[i] != TypedPaths(p)[j]
    decreases p, 1
  {
    var ks := SortedKeys(p.children.Keys);
    TypedPathsBelowDistinct(p, ks);
    var below := TypedPathsBelow(p, ks);
    forall i | 0 <= i < |below|
      ensures below[i] != []
    {
      assert below[i] in below;
      TypedPathsBelowMember(p, ks, below[i]);
    }
  }

  // ---- A dense level, end to end ----

  /** A typed leaf, as `buildTree` leaves the last node of an endpoint of type `t`. */
  function Leaf(t: string): Part
  {
    Part(1, map[], Some(t), false)
  }

  /** The keys `0` to `9`. */
  function Digits(): set<string>
  {
    {"0", "1", "2", "3", "4", "5", "6", "7", "8", "9"}
  }

  lemma DigitsCount()
    ensures |Digits()| == 10
  {
    var ks := ["0", "1", "2", "3", "4", "5", "6", "7", "8", "9"];
    forall i, j | 0 <= i < j < 10
      ensures ks[i] != ks[j]
    {
      assert ks[i][0] != ks[j][0];
    }
  }

  /** The `users` node of the ten endpoints `/users/0` to `/users/9`, all of type `t`. */
  function Users(t: string): Part
  {
    Part(11, map k | k in Digits() :: Leaf(t), None, false)
  }

  /** The trie of the ten endpoints `/users/0` to `/users/9`. */
  function TenUsers(t: string): Part
  {
    Part(1, map["users" := Users(t)], None, false)
  }

  /**
   * A dense level of typed leaves collapses into one `*` leaf of their type, so the
   * node's own record (if any) is followed by a single record ending in `/` and `*`.
   */
  lemma DenseLeavesCollapse(p: Part, t: string, endpoint: string)
    requires |p.children| >= ChildThreshold
    requires forall k :: k in p.children ==> p.children[k] == Leaf(t)
    ensures Extract(Collapse(p), endpoint) ==
      (if p.endpointType.Some? then [NewEndpointInfo(endpoint, p.endpointType)] else [])
        + [NewEndpointInfo(endpoint + "/" + Wildcard, Some(t))]
  {
    var w := WildcardOf(p);
    WildcardKeys(p);
    WildcardOfFacts(p);
    assert w.children == map[];
    var p' := Collapse(p);
    assert p'.children[Wildcard] == w;
    var ks := SortedKeys(p'.children.Keys);
    assert ks == [Wildcard] by {
      assert Wildcard in ks;
    }
    assert SortedKeys(w.children.Keys) == [];
    assert Extract(w, endpoint + "/" + Wildcard) == [NewEndpointInfo(endpoint + "/" + Wildcard, Some(t))];
    ExtractChildrenUnfold(p', ks, endpoint);
  }

  /** Below an untyped node with a single child, extraction is that of the collapsed child. */
  lemma OnlyChildExtract(p: Part, k: string, endpoint: string)
    requires p.children.Keys == {k} && p.endpointType.None? && !p.children[k].qualifier
    ensures Extract(Collapse(p), endpoint) == Extract(Collapse(p.children[k]), endpoint + "/" + k)
  {
    var p' := Collapse(p);
    CollapseSparse(p);
    var ks := SortedKeys(p'.children.Keys);
    assert ks == [k] by {
      assert k in ks;
    }
    ExtractChildrenUnfold(p', ks, endpoint);
    assert ExtractChildren(p', ks[1..], endpoint) == [];
    assert Extract(p', endpoint) == [] + Extract(p'.children[k], endpoint + "/" + k) + [];
  }

  /** The ten endpoints `/users/0` to `/users/9` of one type become the single record of `/users/` and the wildcard. */
  lemma TenUsersCollapse(t: string)
    ensures Extract(Collapse(TenUsers(t)), "") == [NewEndpointInfo("/users/*", Some(t))]
  {
    DigitsCount();
    assert Users(t).children.Keys == Digits();
    UsersStrings();
    OnlyChildExtract(TenUsers(t), "users", "");
    DenseLeavesCollapse(Users(t), t, "/users");
  }

  lemma UsersStrings()
    ensures "" + "/" + "users" == "/users"
    ensures "/users" + "/" + Wildcard == "/users/*"
  {
  }

  // ---- Building the tree from one endpoint ----

  /**
   * Records one endpoint along `path`: each node on the way is added fresh or counted
   * once more, and the last one takes the endpoint type and, when `qualifier`, is
   * marked as an operation qualifier.
   */
  function Insert(p: Part, path: seq<string>, endpointType: Option<string>, qualifier: bool): (r: Part)
    requires path != []
    ensures r.count == p.count && r.endpointType == p.endpointType && r.qualifier == p.qualifier
    ensures r.children.Keys == p.children.Keys + {path[0]}
    decreases |path|
  {
    var (p1, child) := AddChild(p, path[0]);
    var child' :=
      if |path| == 1 then child.(endpointType := endpointType, qualifier := qualifier || child.qualifier)
      else Insert(child, path[1..], endpointType, qualifier);
    p1.(children := p1.children[path[0] := child'])
  }

  /** `q` is an initial part of `path` (possibly all of it). */
  predicate IsPrefix(q: seq<string>, path: seq<string>)
  {
    |q| <= |path| && path[..|q|] == q
  }

  lemma PrefixCons(q: seq<string>, path: seq<string>)
    requires q != [] && path != []
    ensures IsPrefix(q, path) <==> q[0] == path[0] && IsPrefix(q[1..], path[1..])
  {
    if q[0] == path[0] && IsPrefix(q[1..], path[1..]) {
      assert path[..|q|] == [path[0]] + path[1..][..|q| - 1];
      assert q == [q[0]] + q[1..];
    }
  }

  lemma {:induction false} InsertReaches(p: Part, path: seq<string>, endpointType: Option<string>, qualifier: bool)
    requires path != []
    ensures IsPath(Insert(p, path, endpointType, qualifier), path)
    ensures At(Insert(p, path, endpointType, qualifier), path).endpointType == endpointType
    ensures qualifier ==> At(Insert(p, path, endpointType, qualifier), path).qualifier
    decreases |path|
  {
    var r := Insert(p, path, endpointType, qualifier);
    if |path| > 1 {
      var child := AddChild(p, path[0]).1;
      InsertReaches(child, path[1..], endpointType, qualifier);
      assert r.children[path[0]] == Insert(child, path[1..], endpointType, qualifier);
    }
  }

  /**
   * Every node on `path` is counted once more if it was there, and starts at 1 if it
   * is new; nodes on the way keep their endpoint type and qualifier flag.
   */
  lemma {:induction false} InsertCounts(p: Part, path: seq<string>, endpointType: Option<string>, qualifier: bool, j: nat)
    requires 1 <= j <= |path|
    ensures IsPath(Insert(p, path, endpointType, qualifier), path[..j])
    ensures At(Insert(p, path, endpointType, qualifier), path[..j]).count ==
      if IsPath(p, path[..j]) then At(p, path[..j]).count + 1 else 1
    ensures j < |path| && IsPath(p, path[..j]) ==>
      At(Insert(p, path, endpointType, qualifier), path[..j]).endpointType == At(p, path[..j]).endpointType &&
      At(Insert(p, path, endpointType, qualifier), path[..j]).qualifier == At(p, path[..j]).qualifier
    ensures j < |path| && !IsPath(p, path[..j]) ==>
      At(Insert(p, path, endpointType, qualifier), path[..j]).endpointType.None? &&
      !At(Insert(p, path, endpointType, qualifier), path[..j]).qualifier
    decreases |path|
  {
    var r := Insert(p, path, endpointType, qualifier);
    var k := path[0];
    var child := AddChild(p, k).1;
    assert path[..j][0] == k && path[..j][1..] == path[1..][..j - 1];
    if j == 1 {
      assert path[..j][1..] == [];
    } else {
      InsertCounts(child, path[1..], endpointType, qualifier, j - 1);
      assert r.children[k] == Insert(child, path[1..], endpointType, qualifier);
      if k in p.children {
        assert child == p.children[k].(count := p.children[k].count + 1);
        SameChildrenPaths(child, p.children[k], path[1..][..j - 1]);
      } else {
        assert !IsPath(p, path[..j]);
        NewPartPaths(path[1..][..j - 1]);
      }
    }
  }

  /** Two parts with the same children have the same paths and the same nodes below them. */
  lemma SameChildrenPaths(a: Part, b: Part, q: seq<string>)
    requires a.children == b.children
    ensures IsPath(a, q) == IsPath(b, q)
    ensures q != [] && IsPath(a, q) ==> At(a, q) == At(b, q)
  {
  }

  /** A fresh part has no path but the empty one. */
  lemma NewPartPaths(q: seq<string>)
    ensures IsPath(NewPart(), q) <==> q == []
  {
  }

  /** Nodes off `path` are left exactly as they were. */
  lemma {:induction false} InsertKeepsOthers(p: Part, path: seq<string>, endpointType: Option<string>, qualifier: bool, q: seq<string>)
    requires path != []
    requires IsPath(p, q) && !IsPrefix(q, path)
    ensures IsPath(Insert(p, path, endpointType, qualifier), q)
    ensures At(Insert(p, path, endpointType, qualifier), q) == At(p, q)
    decreases |path|
  {
    var r := Insert(p, path, endpointType, qualifier);
    var k := path[0];
    assert q != [];
    if q[0] != k {
      assert r.children[q[0]] == p.children[q[0]];
    } else {
      var child := AddChild(p, k).1;
      assert child == p.children[k].(count := p.children[k].count + 1);
      PrefixCons(q, path);
      assert q[1..] != [];
      SameChildrenPaths(child, p.children[k], q[1..]);
      if |path| == 1 {
        SameChildrenPaths(r.children[k], p.children[k], q[1..]);
      } else {
        InsertKeepsOthers(child, path[1..], endpointType, qualifier, q[1..]);
        assert r.children[k] == Insert(child, path[1..], endpointType, qualifier);
      }
    }
  }

  /** Every path that existed before the insertion still exists. */
  lemma {:induction false} InsertKeepsPaths(p: Part, path: seq<string>, endpointType: Option<string>, qualifier: bool, q: seq<string>)
    requires path != [] && IsPath(p, q)
    ensures IsPath(Insert(p, path, endpointType, qualifier), q)
  {
    if IsPrefix(q, path) {
      if q != [] {
        InsertCounts(p, path, endpointType, qualifier, |q|);
      }
    } else {
      InsertKeepsOthers(p, path, endpointType, qualifier, q);
    }
  }

  /** The keys `buildTree(parent, parts, index, type)` walks: the segments, the last one decoded, then any operation. */
  function InsertedPath(parts: seq<string>, index: nat, codec: EndpointCodec): (r: seq<string>)
    requires index < |parts|
    ensures |r| >= |parts| - index
  {
    var last := parts[|parts| - 1];
    parts[index..|parts| - 1] + [codec.decodeUri(last)]
      + (match codec.decodeOperation(last) case Some(q) => [q] case None => [])
  }

  /**
   * `buildTree(parent, parts, index, endpointType)`: walks `parts` from `index`,
   * adding or counting a child per segment; the last segment is decoded, and an
   * operation encoded in it becomes a qualifier child that takes the endpoint type.
   */
  function BuildTree(parent: Part, parts: seq<string>, index: nat, endpointType: Option<string>, codec: EndpointCodec): (r: Part)
    requires index < |parts|
    decreases |parts| - index
  {
    var last := index == |parts| - 1;
    var qualifier := if last then codec.decodeOperation(parts[index]) else None;
    var name := if last then codec.decodeUri(parts[index]) else parts[index];
    var (p1, child) := AddChild(parent, name);
    var child' :=
      if !last then BuildTree(child, parts, index + 1, endpointType, codec)
      else if qualifier.Some? then
        var (c1, q) := AddChild(child, qualifier.value);
        c1.(children := c1.children[qualifier.value := q.(qualifier := true, endpointType := endpointType)])
      else child.(endpointType := endpointType);
    p1.(children := p1.children[name := child'])
  }

  /** Building the tree from a split endpoint is inserting its path. */
  lemma {:induction false} BuildTreeInserts(parent: Part, parts: seq<string>, index: nat, endpointType: Option<string>, codec: EndpointCodec)
    requires index < |parts|
    ensures BuildTree(parent, parts, index, endpointType, codec) ==
      Insert(parent, InsertedPath(parts, index, codec), endpointType,
        codec.decodeOperation(parts[|parts| - 1]).Some?)
    decreases |parts| - index
  {
    var path := InsertedPath(parts, index, codec);
    var qual := codec.decodeOperation(parts[|parts| - 1]).Some?;
    if index < |parts| - 1 {
      BuildTreeInserts(AddChild(parent, parts[index]).1, parts, index + 1, endpointType, codec);
      assert path[0] == parts[index];
      assert path[1..] == InsertedPath(parts, index + 1, codec);
    } else {
      var name := codec.decodeUri(parts[index]);
      assert path[0] == name;
      match codec.decodeOperation(parts[index])
      case Some(op) =>
        assert path == [name, op] && path[1..] == [op];
      case None =>
        assert path == [name];
    }
  }
}
