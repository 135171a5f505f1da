/**
 * `getCommunicationSummaryStatistics` and `hasMetrics`: the flat summary is
 * evaluated for severity, optionally built into trees, and, unless the query
 * covers whole transactions, trees that carry no metrics are dropped.
 */
module Communication {
  import opened Wrappers
  import opened Ordering
  import opened ApmModel

  /** A connection counts towards metrics when it was used or leads to a node that has metrics. */
  predicate EdgeMetered(cs: ConnectionStatistics)
    decreases cs, 1
  {
    cs.count > 0 || (cs.node.Some? && Metered(cs.node.value))
  }

  /** A summary node has metrics when it or one of its outbound connections was used, at any depth. */
  predicate Metered(css: CommunicationSummaryStatistics)
    decreases css, 2
  {
    css.count > 0 || exists k :: k in css.outbound && EdgeMetered(css.outbound[k])
  }

  /** `hasMetrics(css)`: visits the outbound connections and stops at the first with metrics. */
  method HasMetrics(css: CommunicationSummaryStatistics) returns (b: bool)
    ensures b == Metered(css)
    decreases css
  {
    if css.count > 0 {
      return true;
    }
    var keys := SortedKeys(css.outbound.Keys);
    var i := 0;
    while i < |keys|
      invariant 0 <= i <= |keys|
      invariant forall j :: 0 <= j < i ==> !EdgeMetered(css.outbound[keys[j]])
    {
      var cs := css.outbound[keys[i]];
      if cs.count > 0 {
        return true;
      }
      if cs.node.Some? {
        var m := HasMetrics(cs.node.value);
        if m {
          return true;
        }
      }
      i := i + 1;
    }
    assert forall k :: k in css.outbound ==> k in keys;
    return false;
  }

  /** The trees that have metrics, in their original order. */
  function KeepMetered(trees: seq<CommunicationSummaryStatistics>): (r: seq<CommunicationSummaryStatistics>)
    ensures |r| <= |trees|
  {
    if trees == [] then []
    else KeepMetered(trees[..|trees| - 1]) + (if Metered(trees[|trees| - 1]) then [trees[|trees| - 1]] else [])
  }

  /** The pruning loop: an iterator over the trees removing each one without metrics. */
  method RemoveUnmetered(trees: seq<CommunicationSummaryStatistics>) returns (r: seq<CommunicationSummaryStatistics>)
    ensures r == KeepMetered(trees)
  {
    r := [];
    var i := 0;
    while i < |trees|
      invariant 0 <= i <= |trees|
      invariant r == KeepMetered(trees[..i])
    {
      assert trees[..i + 1][..i] == trees[..i];
      var css := trees[i];
      var m := HasMetrics(css);
      if m {
        r := r + [css];
      }
      i := i + 1;
    }
    assert trees[..i] == trees;
  }

  /** A tree survives the pruning exactly when it was there and has metrics. */
  lemma {:induction false} KeepMeteredIff(trees: seq<CommunicationSummaryStatistics>, t: CommunicationSummaryStatistics)
    ensures t in KeepMetered(trees) <==> t in trees && Metered(t)
  {
    if trees != [] {
      KeepMeteredIff(trees[..|trees| - 1], t);
      assert trees == trees[..|trees| - 1] + [trees[|trees| - 1]];
    }
  }

  /** When every tree has metrics, pruning removes nothing. */
  lemma {:induction false} KeepMeteredAllMetered(trees: seq<CommunicationSummaryStatistics>)
    requires forall i :: 0 <= i < |trees| ==> Metered(trees[i])
    ensures KeepMetered(trees) == trees
  {
    if trees != [] {
      KeepMeteredAllMetered(trees[..|trees| - 1]);
      assert trees == trees[..|trees| - 1] + [trees[|trees| - 1]];
    }
  }

  /** Pruning twice is pruning once. */
  lemma KeepMeteredIdempotent(trees: seq<CommunicationSummaryStatistics>)
    ensures KeepMetered(KeepMetered(trees)) == KeepMetered(trees)
  {
    var r := KeepMetered(trees);
    forall i | 0 <= i < |r|
      ensures Metered(r[i])
    {
      KeepMeteredIff(trees, r[i]);
    }
    KeepMeteredAllMetered(r);
  }

  /**
   * What `getCommunicationSummaryStatistics(tenant, criteria, asTree)` returns, for the
   * flat summary `flat` the store delivered, the severity evaluation and the tree builder.
   */
  function SummaryStatistics(
    flat: seq<CommunicationSummaryStatistics>,
    transactionWide: bool,
    asTree: bool,
    evaluateSeverity: seq<CommunicationSummaryStatistics> -> seq<CommunicationSummaryStatistics>,
    buildTree: seq<CommunicationSummaryStatistics> -> seq<CommunicationSummaryStatistics>): seq<CommunicationSummaryStatistics>
  {
    var evaluated := evaluateSeverity(flat);
    if !asTree then evaluated
    else if transactionWide then buildTree(evaluated)
    else KeepMetered(buildTree(evaluated))
  }

  /** `getCommunicationSummaryStatistics(String, Criteria, boolean)`. */
  method GetCommunicationSummaryStatistics(
    flat: seq<CommunicationSummaryStatistics>,
    transactionWide: bool,
    asTree: bool,
    evaluateSeverity: seq<CommunicationSummaryStatistics> -> seq<CommunicationSummaryStatistics>,
    buildTree: seq<CommunicationSummaryStatistics> -> seq<CommunicationSummaryStatistics>)
    returns (ret: seq<CommunicationSummaryStatistics>)
    ensures ret == SummaryStatistics(flat, transactionWide, asTree, evaluateSeverity, buildTree)
  {
    ret := evaluateSeverity(flat);
    if asTree {
      ret := buildTree(ret);
      if !transactionWide {
        ret := RemoveUnmetered(ret);
      }
    }
  }

  /**
   * A node-specific tree query returns exactly the built trees that have metrics;
   * the flat form and transaction-wide trees are returned whole.
   */
  lemma SummaryStatisticsPrunes(
    flat: seq<CommunicationSummaryStatistics>,
    transactionWide: bool,
    asTree: bool,
    evaluateSeverity: seq<CommunicationSummaryStatistics> -> seq<CommunicationSummaryStatistics>,
    buildTree: seq<CommunicationSummaryStatistics> -> seq<CommunicationSummaryStatistics>,
    t: CommunicationSummaryStatistics)
    ensures var r := SummaryStatistics(flat, transactionWide, asTree, evaluateSeverity, buildTree);
      asTree && !transactionWide ==> (t in r <==> t in buildTree(evaluateSeverity(flat)) && Metered(t))
    ensures !asTree ==> SummaryStatistics(flat, transactionWide, asTree, evaluateSeverity, buildTree) == evaluateSeverity(flat)
  {
    KeepMeteredIff(buildTree(evaluateSeverity(flat)), t);
  }
}
