/**
 * `compressEndpointInfo`: endpoints that look like URI paths are gathered into a
 * trie, the trie is collapsed where a level has too many distinct segments, and
 * the result is read back out, followed by the endpoints that are not paths;
 * every record is then initialised with its regular expressions and template.
 */
module EndpointCompression {
  import opened Wrappers
  import opened JavaStrings
  import opened ApmModel
  import opened EndpointTree
  import opened EndpointMetadata

  /** The test that sends an endpoint into the trie: longer than one character and starting with `/`. */
  predicate IsPathShaped(endpoint: string)
  {
    |endpoint| > 1 && endpoint[0] == '/'
  }

  /** Every character is a slash: such a path splits into no segments at all. */
  predicate AllSlashes(s: string)
  {
    forall i :: 0 <= i < |s| ==> s[i] == '/'
  }

  /** A path-shaped endpoint whose split has a segment after the leading empty one. */
  predicate Splittable(e: EndpointInfo)
  {
    IsPathShaped(e.endpoint) && |Split(e.endpoint, '/')| >= 2
  }

  /** The keys under which `buildTree(rootPart, parts, 1, type)` records `e`. */
  function PathOf(e: EndpointInfo, codec: EndpointCodec): seq<string>
    requires Splittable(e)
  {
    InsertedPath(Split(e.endpoint, '/'), 1, codec)
  }

  /** Whether `buildTree` marks the last node of `e`'s path as an operation qualifier. */
  predicate HasOperation(e: EndpointInfo, codec: EndpointCodec)
    requires Splittable(e)
  {
    var parts := Split(e.endpoint, '/');
    codec.decodeOperation(parts[|parts| - 1]).Some?
  }

  /** The state of the gathering loop: the trie so far and the endpoints kept aside. */
  datatype Gathered = Gathered(root: Part, others: seq<EndpointInfo>)

  /** One turn of the gathering loop, for endpoint `e`. */
  function GatherStep(g: Gathered, e: EndpointInfo, codec: EndpointCodec): Outcome<Gathered>
  {
    if IsPathShaped(e.endpoint) then
      var parts := Split(e.endpoint, '/');
      if |parts| < 2 then Thrown(IndexOutOfBounds)
      else Returned(g.(root := BuildTree(g.root, parts, 1, e.endpointType, codec)))
    else Returned(g.(others := g.others + [e]))
  }

  /** The gathering loop over `es`, stopped by the first exception. */
  function Gather(es: seq<EndpointInfo>, codec: EndpointCodec): Outcome<Gathered>
  {
    if es == [] then Returned(Gathered(NewPart(), []))
    else
      match Gather(es[..|es| - 1], codec)
      case Thrown(x) => Thrown(x)
      case Returned(g) => GatherStep(g, es[|es| - 1], codec)
  }

  /** Every record initialised, in order. */
  function InitialisedAll(es: seq<EndpointInfo>, codec: EndpointCodec): (r: seq<EndpointInfo>)
    ensures |r| == |es|
    ensures forall i :: 0 <= i < |r| ==> r[i] == Initialised(es[i], codec)
  {
    seq(|es|, i requires 0 <= i < |es| => Initialised(es[i], codec))
  }

  /** What `compressEndpointInfo(endpoints)` returns or throws. */
  function Compressed(es: seq<EndpointInfo>, codec: EndpointCodec): Outcome<seq<EndpointInfo>>
  {
    match Gather(es, codec)
    case Thrown(x) => Thrown(x)
    case Returned(g) =>
      var info := if |g.others| != |es| then Extract(Collapse(g.root), "") + g.others else g.others;
      Returned(InitialisedAll(info, codec))
  }

  /** Once the loop has thrown, the rest of the input does not matter. */
  lemma {:induction false} GatherThrownPersists(es: seq<EndpointInfo>, n: nat, codec: EndpointCodec)
    requires n <= |es| && Gather(es[..n], codec).Thrown?
    ensures Gather(es, codec) == Gather(es[..n], codec)
    decreases |es| - n
  {
    if n < |es| {
      assert es[..n + 1][..n] == es[..n];
      GatherThrownPersists(es, n + 1, codec);
    } else {
      assert es[..n] == es;
    }
  }

  /** `compressEndpointInfo(List<EndpointInfo>)`. */
  method CompressEndpointInfo(endpoints: seq<EndpointInfo>, codec: EndpointCodec)
    returns (r: Outcome<seq<EndpointInfo>>)
    ensures r == Compressed(endpoints, codec)
  {
    var others: seq<EndpointInfo> := [];
    var rootPart := NewPart();
    var i := 0;
    while i < |endpoints|
      invariant 0 <= i <= |endpoints|
      invariant Gather(endpoints[..i], codec) == Returned(Gathered(rootPart, others))
    {
      var endpoint := endpoints[i];
      assert endpoints[..i + 1][..i] == endpoints[..i];
      if |endpoint.endpoint| > 1 && endpoint.endpoint[0] == '/' {
        var parts := Split(endpoint.endpoint, '/');
        if |parts| < 2 {
          assert Gather(endpoints[..i + 1], codec) == Thrown(IndexOutOfBounds);
          GatherThrownPersists(endpoints, i + 1, codec);
          return Thrown(IndexOutOfBounds);
        }
        rootPart := BuildTree(rootPart, parts, 1, endpoint.endpointType, codec);
      } else {
        others := others + [endpoint];
      }
      i := i + 1;
    }
    assert endpoints[..i] == endpoints;
    var info: seq<EndpointInfo>;
    if |endpoints| != |others| {
      rootPart := Collapse(rootPart);
      info := ExtractAll(rootPart);
      info := info + others;
    } else {
      info := others;
    }
    var initialised := InitEndpointInfos(info, codec);
    assert initialised == InitialisedAll(info, codec);
    r := Returned(initialised);
  }

  // ---- What the gathering loop does ----

  /** The endpoints that are not paths, in input order. */
  function NonPaths(es: seq<EndpointInfo>): (r: seq<EndpointInfo>)
  {
    if es == [] then []
    else NonPaths(es[..|es| - 1]) + (if IsPathShaped(es[|es| - 1].endpoint) then [] else [es[|es| - 1]])
  }

  lemma {:induction false} NonPathsMember(es: seq<EndpointInfo>, e: EndpointInfo)
    ensures e in NonPaths(es) <==> e in es && !IsPathShaped(e.endpoint)
  {
    if es != [] {
      NonPathsMember(es[..|es| - 1], e);
      assert es == es[..|es| - 1] + [es[|es| - 1]];
    }
  }

  lemma {:induction false} NonPathsShorter(es: seq<EndpointInfo>, i: nat)
    requires i < |es| && IsPathShaped(es[i].endpoint)
    ensures |NonPaths(es)| < |es|
  {
    if i < |es| - 1 {
      NonPathsShorter(es[..|es| - 1], i);
    } else {
      NonPathsAtMost(es[..|es| - 1]);
    }
  }

  lemma {:induction false} NonPathsAtMost(es: seq<EndpointInfo>)
    ensures |NonPaths(es)| <= |es|
  {
    if es != [] {
      NonPathsAtMost(es[..|es| - 1]);
    }
  }

  lemma {:induction false} NonPathsAll(es: seq<EndpointInfo>)
    requires forall i :: 0 <= i < |es| ==> !IsPathShaped(es[i].endpoint)
    ensures NonPaths(es) == es
  {
    if es != [] {
      NonPathsAll(es[..|es| - 1]);
      assert es == es[..|es| - 1] + [es[|es| - 1]];
    }
  }

  /**
   * The loop throws `ArrayIndexOutOfBoundsException` exactly when some endpoint is a
   * path made of slashes only, such as `//`.
   */
  lemma {:induction false} GatherThrowsIff(es: seq<EndpointInfo>, codec: EndpointCodec)
    ensures Gather(es, codec).Thrown? <==>
      exists i :: 0 <= i < |es| && IsPathShaped(es[i].endpoint) && AllSlashes(es[i].endpoint)
    ensures Gather(es, codec).Thrown? ==> Gather(es, codec).exception == IndexOutOfBounds
  {
    if es != [] {
      var init := es[..|es| - 1];
      var e := es[|es| - 1];
      GatherThrowsIff(init, codec);
      assert forall i :: 0 <= i < |init| ==> init[i] == es[i];
      if IsPathShaped(e.endpoint) {
        SplitHasSegmentIff(e.endpoint);
      }
      if exists i :: 0 <= i < |es| && IsPathShaped(es[i].endpoint) && AllSlashes(es[i].endpoint) {
        var i :| 0 <= i < |es| && IsPathShaped(es[i].endpoint) && AllSlashes(es[i].endpoint);
        if i < |init| {
          assert IsPathShaped(init[i].endpoint) && AllSlashes(init[i].endpoint);
        }
      }
    }
  }

  /** When the loop completes, the endpoints kept aside are the non-paths, in input order. */
  lemma {:induction false} GatherOthers(es: seq<EndpointInfo>, codec: EndpointCodec)
    requires Gather(es, codec).Returned?
    ensures Gather(es, codec).value.others == NonPaths(es)
  {
    if es != [] {
      GatherOthers(es[..|es| - 1], codec);
    }
  }

  /** The root of the trie stays an untyped, non-qualifier node counted once. */
  lemma {:induction false} GatherRoot(es: seq<EndpointInfo>, codec: EndpointCodec)
    requires Gather(es, codec).Returned?
    ensures Gather(es, codec).value.root.count == 1
    ensures Gather(es, codec).value.root.endpointType.None?
    ensures !Gather(es, codec).value.root.qualifier
  {
    if es != [] {
      var init := es[..|es| - 1];
      var e := es[|es| - 1];
      GatherRoot(init, codec);
      if IsPathShaped(e.endpoint) {
        var g := Gather(init, codec).value;
        var parts := Split(e.endpoint, '/');
        BuildTreeInserts(g.root, parts, 1, e.endpointType, codec);
      }
    }
  }

  /** Inserting along `path` leaves the type of every other node that was already there. */
  lemma InsertKeepsType(p: Part, path: seq<string>, endpointType: Option<string>, qualifier: bool, q: seq<string>)
    requires path != [] && IsPath(p, q) && q != path
    ensures IsPath(Insert(p, path, endpointType, qualifier), q)
    ensures At(Insert(p, path, endpointType, qualifier), q).endpointType == At(p, q).endpointType
  {
    if !IsPrefix(q, path) {
      InsertKeepsOthers(p, path, endpointType, qualifier, q);
    } else if q != [] {
      assert |q| < |path|;
      assert path[..|q|] == q;
      InsertCounts(p, path, endpointType, qualifier, |q|);
    }
  }

  /** `e` comes after position `i` in `es` and is recorded under the same keys as `es[i]`. */
  predicate Overwrites(es: seq<EndpointInfo>, i: nat, codec: EndpointCodec)
    requires i < |es| && Splittable(es[i])
  {
    exists j :: i < j < |es| && Splittable(es[j]) && PathOf(es[j], codec) == PathOf(es[i], codec)
  }

  /** Some position after `i` satisfies `p` exactly when one before the last does, or the last does. */
  lemma LaterSplit<T>(s: seq<T>, init: seq<T>, i: nat, p: T -> bool)
    requires |s| > 0 && init == s[..|s| - 1] && i < |init|
    ensures (exists j :: i < j < |s| && p(s[j])) <==>
      (exists j :: i < j < |init| && p(init[j])) || p(s[|s| - 1])
  {
    if exists j :: i < j < |init| && p(init[j]) {
      var j :| i < j < |init| && p(init[j]);
      assert s[j] == init[j];
    }
    if exists j :: i < j < |s| && p(s[j]) {
      var j :| i < j < |s| && p(s[j]);
      if j < |s| - 1 {
        assert s[j] == init[j];
      }
    }
  }

  /** An overwrite of `es[i]` is one before the last endpoint, or the last endpoint itself. */
  lemma OverwritesSplit(es: seq<EndpointInfo>, i: nat, codec: EndpointCodec)
    requires i < |es| - 1 && Splittable(es[i])
    ensures Overwrites(es, i, codec) <==>
      Overwrites(es[..|es| - 1], i, codec) ||
      (Splittable(es[|es| - 1]) && PathOf(es[|es| - 1], codec) == PathOf(es[i], codec))
  {
    var path := PathOf(es[i], codec);
    assert es[..|es| - 1][i] == es[i];
    LaterSplit(es, es[..|es| - 1], i, e => Splittable(e) && PathOf(e, codec) == path);
  }

  /**
   * Every path endpoint is recorded in the trie under its keys, and the node there
   * carries its type unless a later endpoint was recorded under the same keys.
   */
  lemma {:induction false} GatherRecords(es: seq<EndpointInfo>, codec: EndpointCodec, i: nat)
    requires Gather(es, codec).Returned?
    requires i < |es| && IsPathShaped(es[i].endpoint)
    ensures Splittable(es[i])
    ensures IsPath(Gather(es, codec).value.root, PathOf(es[i], codec))
    ensures !Overwrites(es, i, codec) ==>
      At(Gather(es, codec).value.root, PathOf(es[i], codec)).endpointType == es[i].endpointType
  {
    var init := es[..|es| - 1];
    var e := es[|es| - 1];
    var g := Gather(init, codec).value;
    var root := Gather(es, codec).value.root;
    if i == |es| - 1 {
      var parts := Split(e.endpoint, '/');
      BuildTreeInserts(g.root, parts, 1, e.endpointType, codec);
      InsertReaches(g.root, PathOf(e, codec), e.endpointType, HasOperation(e, codec));
    } else {
      assert init[i] == es[i];
      GatherRecords(init, codec, i);
      OverwritesSplit(es, i, codec);
      var path := PathOf(es[i], codec);
      if IsPathShaped(e.endpoint) {
        var parts := Split(e.endpoint, '/');
        BuildTreeInserts(g.root, parts, 1, e.endpointType, codec);
        assert root == Insert(g.root, PathOf(e, codec), e.endpointType, HasOperation(e, codec));
        InsertKeepsPaths(g.root, PathOf(e, codec), e.endpointType, HasOperation(e, codec), path);
        if !Overwrites(es, i, codec) {
          InsertKeepsType(g.root, PathOf(e, codec), e.endpointType, HasOperation(e, codec), path);
        }
      }
    }
  }

  // ---- What compression returns ----

  /** Endpoints none of which is a path come back as they were, each initialised. */
  lemma CompressNonPaths(es: seq<EndpointInfo>, codec: EndpointCodec)
    requires forall i :: 0 <= i < |es| ==> !IsPathShaped(es[i].endpoint)
    ensures Compressed(es, codec) == Returned(InitialisedAll(es, codec))
  {
    GatherThrowsIff(es, codec);
    GatherOthers(es, codec);
    NonPathsAll(es);
  }

  /**
   * A successful compression returns the records read out of the collapsed trie
   * (none when there was no path), then the non-paths in input order, all initialised.
   */
  lemma CompressedLayout(es: seq<EndpointInfo>, codec: EndpointCodec)
    requires Compressed(es, codec).Returned?
    ensures Gather(es, codec).Returned?
    ensures var r := Compressed(es, codec).value;
      var others := NonPaths(es);
      var tree := if |others| != |es| then Extract(Collapse(Gather(es, codec).value.root), "") else [];
      r == InitialisedAll(tree + others, codec)
  {
    GatherOthers(es, codec);
    var others := NonPaths(es);
    if |others| == |es| {
      assert [] + others == others;
    }
  }

  /** In a trie with no level at the threshold, every typed node is read out under its rendering. */
  lemma CompactExtracts(root: Part, path: seq<string>)
    requires Compact(root) && IsPath(root, path) && At(root, path).endpointType.Some?
    ensures NewEndpointInfo(Render(root, path, ""), At(root, path).endpointType) in Extract(Collapse(root), "")
  {
    CollapseCompactIsIdentity(root);
    TypedPathsIff(root, path);
    ExtractRenders(root, "");
    var k :| 0 <= k < |TypedPaths(root)| && TypedPaths(root)[k] == path;
    assert Extract(root, "")[k] == NewEndpointInfo(Render(root, path, ""), At(root, path).endpointType);
  }

  /**
   * When no level of the trie reaches the collapse threshold, a path endpoint with a
   * type that no later endpoint overwrote comes back under the rendering of its keys,
   * with its type, initialised.
   */
  lemma CompressKeepsRecorded(es: seq<EndpointInfo>, codec: EndpointCodec, i: nat)
    requires Compressed(es, codec).Returned?
    requires i < |es| && IsPathShaped(es[i].endpoint) && es[i].endpointType.Some?
    requires Compact(Gather(es, codec).value.root)
    requires !(Splittable(es[i]) && Overwrites(es, i, codec))
    ensures Splittable(es[i])
    ensures var root := Gather(es, codec).value.root;
      IsPath(root, PathOf(es[i], codec)) &&
      Initialised(NewEndpointInfo(Render(root, PathOf(es[i], codec), ""), es[i].endpointType), codec)
        in Compressed(es, codec).value
  {
    var root := Gather(es, codec).value.root;
    GatherRecords(es, codec, i);
    var path := PathOf(es[i], codec);
    var info := NewEndpointInfo(Render(root, path, ""), es[i].endpointType);
    CompactExtracts(root, path);
    CompressedLayout(es, codec);
    NonPathsShorter(es, i);
    InitialisedAllMember(Extract(Collapse(root), ""), NonPaths(es), info, codec);
  }

  /** Every typed node of a trie is read out of it under its rendering, with its type. */
  lemma TypedExtracts(tree: Part, q: seq<string>)
    requires TypedAt(tree, q)
    ensures NewEndpointInfo(Render(tree, q, ""), At(tree, q).endpointType) in Extract(tree, "")
  {
    TypedPathsIff(tree, q);
    ExtractRenders(tree, "");
    var k :| 0 <= k < |TypedPaths(tree)| && TypedPaths(tree)[k] == q;
    assert Extract(tree, "")[k] == NewEndpointInfo(Render(tree, q, ""), At(tree, q).endpointType);
  }

  /**
   * Whether or not levels of the trie collapse, a path endpoint with a type that no
   * later endpoint overwrote comes back as a typed record, initialised: its endpoint
   * renders the endpoint's keys in the collapsed trie, where the key of each level
   * that collapsed reads `*`.
   */
  lemma CompressKeepsCollapsed(es: seq<EndpointInfo>, codec: EndpointCodec, i: nat) returns (q: seq<string>)
    requires Compressed(es, codec).Returned?
    requires i < |es| && IsPathShaped(es[i].endpoint) && es[i].endpointType.Some?
    requires !(Splittable(es[i]) && Overwrites(es, i, codec))
    ensures Splittable(es[i])
    ensures var tree := Collapse(Gather(es, codec).value.root);
      Generalises(q, PathOf(es[i], codec)) && TypedAt(tree, q) &&
      Initialised(NewEndpointInfo(Render(tree, q, ""), At(tree, q).endpointType), codec)
        in Compressed(es, codec).value
  {
    var root := Gather(es, codec).value.root;
    GatherRecords(es, codec, i);
    q := CollapseKeepsTyped(root, PathOf(es[i], codec));
    var tree := Collapse(root);
    TypedExtracts(tree, q);
    CompressedLayout(es, codec);
    NonPathsShorter(es, i);
    InitialisedAllMember(Extract(tree, ""), NonPaths(es), NewEndpointInfo(Render(tree, q, ""), At(tree, q).endpointType), codec);
  }

  lemma InitialisedAllMember(tree: seq<EndpointInfo>, others: seq<EndpointInfo>, e: EndpointInfo, codec: EndpointCodec)
    requires e in tree
    ensures Initialised(e, codec) in InitialisedAll(tree + others, codec)
  {
    var k :| 0 <= k < |tree| && tree[k] == e;
    assert (tree + others)[k] == e;
  }
}
