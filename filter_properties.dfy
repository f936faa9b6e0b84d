/**
 * Properties of the filter-spec parser stated over the functions of
 * module Filter (and so, through the methods' postconditions, over the
 * imperative parser too).
 */
module FilterProperties {
  import opened Wrappers
  import opened Helpers
  import opened Filter

  // ---------------------------------------------------------------------
  // Dispatch
  // ---------------------------------------------------------------------

  /** A `tree:` whose depth does not parse fails with the fixed message and leaves the node alone. */
  lemma TreeDepthError(n: Node, depth: string, resolve: Resolver)
    requires n.choice == Unset && ParseUlong(depth).None?
    ensures ParseFilter(n, TREE_PREFIX + depth, resolve) == Parsed(n, Failed(ExpectedTreeDepth))
  {
    var arg := TREE_PREFIX + depth;
    assert arg[0] == 't' && !(BLOB_LIMIT_PREFIX <= arg) && arg != BLOB_NONE;
    assert arg[|TREE_PREFIX|..] == depth;
  }

  /** A well-formed `tree:` spec sets the depth it names. */
  lemma TreeDepthSet(n: Node, depth: string, resolve: Resolver)
    requires n.choice == Unset && ParseUlong(depth).Some?
    ensures ParseFilter(n, TREE_PREFIX + depth, resolve)
      == Parsed(n.(choice := TreeDepth, treeExcludeDepth := ParseUlong(depth).value), Ok)
  {
    var arg := TREE_PREFIX + depth;
    assert arg[0] == 't' && !(BLOB_LIMIT_PREFIX <= arg) && arg != BLOB_NONE;
    assert arg[|TREE_PREFIX|..] == depth;
  }

  /** A well-formed `blob:limit=` spec sets the size it names. */
  lemma BlobLimitSet(n: Node, limit: string, resolve: Resolver)
    requires n.choice == Unset && ParseUlong(limit).Some?
    ensures ParseFilter(n, BLOB_LIMIT_PREFIX + limit, resolve)
      == Parsed(n.(choice := BlobLimit, blobLimitValue := ParseUlong(limit).value), Ok)
  {
    var arg := BLOB_LIMIT_PREFIX + limit;
    assert arg[5] == 'l' && arg != BLOB_NONE;
    assert arg[|BLOB_LIMIT_PREFIX|..] == limit;
  }

  /** A bad `blob:limit=` value is reported as an invalid spec, and the node is zeroed. */
  lemma BlobLimitError(n: Node, limit: string, resolve: Resolver)
    requires n.choice == Unset && ParseUlong(limit).None?
    ensures ParseFilter(n, BLOB_LIMIT_PREFIX + limit, resolve)
      == Parsed(ZERO, Failed(InvalidFilterSpec(BLOB_LIMIT_PREFIX + limit)))
  {
    var arg := BLOB_LIMIT_PREFIX + limit;
    assert arg[5] == 'l' && arg != BLOB_NONE;
    assert arg[|BLOB_LIMIT_PREFIX|..] == limit;
  }

  /** `sparse:path=` is always refused, without touching the node. */
  lemma SparsePathRefused(n: Node, path: string, resolve: Resolver)
    requires n.choice == Unset
    ensures ParseFilter(n, SPARSE_PATH_PREFIX + path, resolve) == Parsed(n, Failed(SparsePathDropped))
  {
    var arg := SPARSE_PATH_PREFIX + path;
    assert arg[0] == 's' && arg[7] == 'p' && arg != BLOB_NONE;
    assert !(BLOB_LIMIT_PREFIX <= arg) && !(TREE_PREFIX <= arg) && !(SPARSE_OID_PREFIX <= arg);
  }

  /**
   * `sparse:oid=` always succeeds; the oid is stored exactly when the
   * resolver finds one, and a failed lookup leaves the field as it was.
   */
  lemma SparseOidAccepted(n: Node, expr: string, resolve: Resolver)
    requires n.choice == Unset
    ensures var r := ParseFilter(n, SPARSE_OID_PREFIX + expr, resolve);
            && r.status == Ok && r.node.choice == SparseOid
            && r.node.sparseOid == (if resolve(expr).Some? then resolve(expr) else n.sparseOid)
            && r.node.(choice := Unset, sparseOid := n.sparseOid) == n
  {
    var arg := SPARSE_OID_PREFIX + expr;
    assert arg[0] == 's' && arg != BLOB_NONE;
    assert !(BLOB_LIMIT_PREFIX <= arg) && !(TREE_PREFIX <= arg);
    assert arg[|SPARSE_OID_PREFIX|..] == expr;
  }

  /** Text none of the six spellings match is refused, and the node is zeroed. */
  lemma UnrecognizedSpec(n: Node, arg: string, resolve: Resolver)
    requires n.choice == Unset && arg != BLOB_NONE
    requires !(BLOB_LIMIT_PREFIX <= arg) && !(TREE_PREFIX <= arg) && !(SPARSE_OID_PREFIX <= arg)
    requires !(SPARSE_PATH_PREFIX <= arg) && !(COMBINE_PREFIX <= arg)
    ensures ParseFilter(n, arg, resolve) == Parsed(ZERO, Failed(InvalidFilterSpec(arg)))
  {
  }

  /** Nothing after `combine:` is an error, and the node is zeroed. */
  lemma EmptyCombine(n: Node, resolve: Resolver)
    requires n.choice == Unset
    ensures ParseFilter(n, COMBINE_PREFIX, resolve) == Parsed(ZERO, Failed(ExpectedAfterCombine))
  {
    assert COMBINE_PREFIX[0] == 'c' && COMBINE_PREFIX != BLOB_NONE;
    assert !(BLOB_LIMIT_PREFIX <= COMBINE_PREFIX) && !(TREE_PREFIX <= COMBINE_PREFIX);
    assert !(SPARSE_OID_PREFIX <= COMBINE_PREFIX) && !(SPARSE_PATH_PREFIX <= COMBINE_PREFIX);
    assert COMBINE_PREFIX[|COMBINE_PREFIX|..] == [];
  }

  /**
   * Only four outcomes of a failed parse are possible, and each leaves the
   * node unpopulated: `tree:` and `sparse:path=` keep the node (spec text
   * included), every other failure zeroes it.
   */
  lemma FailureLeavesUnset(n: Node, arg: string, resolve: Resolver)
    requires n.choice == Unset
    requires ParseFilter(n, arg, resolve).status.Failed?
    ensures ParseFilter(n, arg, resolve).node.choice == Unset
    ensures ParseFilter(n, arg, resolve).node == n <==>
              (arg != BLOB_NONE && !(BLOB_LIMIT_PREFIX <= arg) && (TREE_PREFIX <= arg || (!(SPARSE_OID_PREFIX <= arg) && SPARSE_PATH_PREFIX <= arg)))
              || ParseFilter(n, arg, resolve).node == ZERO == n
  {
  }

  // ---------------------------------------------------------------------
  // Combine
  // ---------------------------------------------------------------------

  /**
   * The result of every segment parsed on its own into an empty node, in
   * input order.
   */
  function Results(pieces: seq<string>, resolve: Resolver): (rs: seq<Parsed>)
    ensures |rs| == |pieces|
  {
    if pieces == [] then []
    else [ParseSubfilter(ZERO, Segment(pieces, 0), resolve)] + Results(pieces[1..], resolve)
  }

  /** Every result is a success. */
  predicate AllOk(rs: seq<Parsed>) {
    forall i :: 0 <= i < |rs| ==> rs[i].status.Ok?
  }

  /** The children the results append, in order. */
  function ChildrenOf(rs: seq<Parsed>): seq<Node> {
    if rs == [] then [] else rs[0].node.sub + ChildrenOf(rs[1..])
  }

  /** The children of `a + b` are those of `a` followed by those of `b`. */
  lemma {:induction false} ChildrenOfAppend(a: seq<Parsed>, b: seq<Parsed>)
    ensures ChildrenOf(a + b) == ChildrenOf(a) + ChildrenOf(b)
    decreases |a|
  {
    if a != [] {
      assert (a + b)[0] == a[0] && (a + b)[1..] == a[1..] + b;
      ChildrenOfAppend(a[1..], b);
    } else {
      assert a + b == b;
    }
  }

  /** One segment parsed into any node appends the child it gives on its own. */
  lemma SubfilterAppends(n: Node, segment: string, resolve: Resolver)
    ensures var p := ParseSubfilter(n, segment, resolve);
            var q := ParseSubfilter(ZERO, segment, resolve);
            p.node.sub == n.sub + q.node.sub && p.status == q.status
  {
  }

  /**
   * The combine loop succeeds exactly when every segment does, and then
   * appends the segments' children in input order.
   */
  lemma {:induction false} CombineLoopOk(n: Node, pieces: seq<string>, resolve: Resolver)
    requires n.choice == Unset
    ensures CombineLoop(n, pieces, resolve).status.Ok? <==> AllOk(Results(pieces, resolve))
    ensures CombineLoop(n, pieces, resolve).status.Ok? ==>
              CombineLoop(n, pieces, resolve).node.sub == n.sub + ChildrenOf(Results(pieces, resolve))
    decreases |pieces|
  {
    if pieces != [] {
      var p := ParseSubfilter(n, Segment(pieces, 0), resolve);
      var rs := Results(pieces, resolve);
      CombineLoopStep(n, pieces, resolve);
      SubfilterAppends(n, Segment(pieces, 0), resolve);
      assert rs[0] == ParseSubfilter(ZERO, Segment(pieces, 0), resolve);
      assert rs[1..] == Results(pieces[1..], resolve);
      if p.status.Ok? {
        CombineLoopOk(p.node, pieces[1..], resolve);
      } else {
        assert !rs[0].status.Ok?;
      }
    } else {
      assert Results(pieces, resolve) == [];
    }
  }

  /**
   * What a loop over the results `rs` leaves on `n` when it stops at `k`:
   * all earlier results succeeded, result `k` failed and gave the status,
   * and the children of results `0..k` were appended.
   */
  predicate StoppedAt(n: Node, rs: seq<Parsed>, r: Parsed, k: nat)
    requires k < |rs|
  {
    && AllOk(rs[..k])
    && rs[k].status.Failed? && r.status == rs[k].status
    && r.node.sub == n.sub + ChildrenOf(rs[..k + 1])
  }

  /**
   * When the loop fails, it failed at some segment `k`: every earlier
   * segment succeeded and left its child, the slot of segment `k` was the
   * last thing appended, and no later segment was looked at.
   */
  lemma {:induction false} CombineLoopStops(n: Node, pieces: seq<string>, resolve: Resolver)
    requires n.choice == Unset
    requires CombineLoop(n, pieces, resolve).status.Failed?
    ensures exists k :: 0 <= k < |pieces|
              && StoppedAt(n, Results(pieces, resolve), CombineLoop(n, pieces, resolve), k)
    decreases |pieces|
  {
    var r := CombineLoop(n, pieces, resolve);
    var p := ParseSubfilter(n, Segment(pieces, 0), resolve);
    var rs := Results(pieces, resolve);
    CombineLoopStep(n, pieces, resolve);
    SubfilterAppends(n, Segment(pieces, 0), resolve);
    assert rs == [ParseSubfilter(ZERO, Segment(pieces, 0), resolve)] + Results(pieces[1..], resolve);
    if p.status.Failed? {
      StoppedAtFirst(n, rs, r);
    } else {
      assert r == CombineLoop(p.node, pieces[1..], resolve);
      CombineLoopStops(p.node, pieces[1..], resolve);
      var k :| 0 <= k < |pieces[1..]| && StoppedAt(p.node, Results(pieces[1..], resolve), r, k);
      StoppedLater(n, p.node, rs[0], Results(pieces[1..], resolve), r, k);
    }
  }

  /** Failing on the very first result. */
  lemma StoppedAtFirst(n: Node, rs: seq<Parsed>, r: Parsed)
    requires rs != [] && rs[0].status.Failed? && r.status == rs[0].status
    requires r.node.sub == n.sub + rs[0].node.sub
    ensures StoppedAt(n, rs, r, 0)
  {
    assert rs[..1] == [rs[0]];
    assert ChildrenOf([rs[0]]) == rs[0].node.sub + ChildrenOf([]);
  }

  /** Stopping at `k` after a successful first result is stopping at `k + 1`. */
  lemma StoppedLater(n: Node, m: Node, q: Parsed, tail: seq<Parsed>, r: Parsed, k: nat)
    requires k < |tail| && q.status.Ok? && m.sub == n.sub + q.node.sub
    requires StoppedAt(m, tail, r, k)
    ensures StoppedAt(n, [q] + tail, r, k + 1)
  {
    var rs := [q] + tail;
    assert rs[..k + 2] == [q] + tail[..k + 1];
    assert rs[..k + 1] == [q] + tail[..k];
    ChildrenOfAppend([q], tail[..k + 1]);
    assert ChildrenOf([q]) == q.node.sub + ChildrenOf([]);
  }

  /**
   * A `combine:` spec succeeds exactly when there is at least one segment
   * and every segment succeeds; the node then is a Combine whose children
   * are the segments' children, one per segment, in input order. Any
   * failure, at any depth, leaves the node ZERO.
   */
  lemma CombineParse(n: Node, rest: string, resolve: Resolver)
    requires n.choice == Unset && n.sub == []
    ensures var pieces := Split(rest, '+');
            var r := ParseFilter(n, COMBINE_PREFIX + rest, resolve);
            && (r.status.Ok? <==> pieces != [] && AllOk(Results(pieces, resolve)))
            && (r.status.Ok? ==> r.node == n.(choice := Combine, sub := ChildrenOf(Results(pieces, resolve))))
            && (r.status.Failed? ==> r.node == ZERO)
  {
    var arg := COMBINE_PREFIX + rest;
    assert arg[0] == 'c' && arg != BLOB_NONE;
    assert !(BLOB_LIMIT_PREFIX <= arg) && !(TREE_PREFIX <= arg);
    assert !(SPARSE_OID_PREFIX <= arg) && !(SPARSE_PATH_PREFIX <= arg);
    assert arg[|COMBINE_PREFIX|..] == rest;
    var pieces := Split(rest, '+');
    assert ParseFilter(n, arg, resolve) == ParseCombine(n, rest, resolve);
    CombineLoopOk(n, pieces, resolve);
    if pieces != [] {
      var p := CombineLoop(n, pieces, resolve);
      assert p.node == n.(sub := p.node.sub);
      if p.status.Ok? {
        assert ParseCombine(n, rest, resolve) == Parsed(p.node.(choice := Combine), Ok);
      }
    }
  }

  /**
   * A failing `combine:` spec reports the error of its first failing
   * segment: there is a segment `k` whose result carries that error and
   * every segment before it succeeded.
   */
  lemma CombineReportsFirstFailure(n: Node, rest: string, resolve: Resolver)
    requires n.choice == Unset && rest != []
    requires ParseFilter(n, COMBINE_PREFIX + rest, resolve).status.Failed?
    ensures ReportsFirstFailure(Results(Split(rest, '+'), resolve),
                                ParseFilter(n, COMBINE_PREFIX + rest, resolve).status)
  {
    var arg := COMBINE_PREFIX + rest;
    assert arg[0] == 'c' && arg != BLOB_NONE;
    assert !(BLOB_LIMIT_PREFIX <= arg) && !(TREE_PREFIX <= arg);
    assert !(SPARSE_OID_PREFIX <= arg) && !(SPARSE_PATH_PREFIX <= arg);
    assert arg[|COMBINE_PREFIX|..] == rest;
    var pieces := Split(rest, '+');
    assert ParseFilter(n, arg, resolve) == ParseCombine(n, rest, resolve);
    assert pieces != [];
    var p := CombineLoop(n, pieces, resolve);
    assert ParseCombine(n, rest, resolve).status == p.status;
    CombineLoopStops(n, pieces, resolve);
    var rs := Results(pieces, resolve);
    var k :| 0 <= k < |pieces| && StoppedAt(n, rs, p, k);
    FailedAt(rs, k, ParseFilter(n, arg, resolve).status);
  }

  /** `s` is the status of some result all of whose predecessors succeeded. */
  predicate ReportsFirstFailure(rs: seq<Parsed>, s: Status) {
    exists k :: 0 <= k < |rs| && AllOk(rs[..k]) && rs[k].status == s
  }

  lemma FailedAt(rs: seq<Parsed>, k: nat, s: Status)
    requires k < |rs| && AllOk(rs[..k]) && rs[k].status == s
    ensures ReportsFirstFailure(rs, s)
  {
  }

  // ---------------------------------------------------------------------
  // Canonical expansion
  // ---------------------------------------------------------------------

  /**
   * Forwarding round trip: a spec parsed by the strict parser, expanded
   * and parsed again gives the same node, apart from the recorded text,
   * which is now the expansion; and the expansion is a fixed point.
   */
  lemma ExpandReparses(arg: string, resolve: Resolver)
    requires ParseStrict(ZERO, arg, resolve).1.Done?
    ensures var n := ParseStrict(ZERO, arg, resolve).0;
            var e := Expand(n);
            && ParseStrict(ZERO, e, resolve) == (n.(filterSpec := Some(e)), Done)
            && Expand(n.(filterSpec := Some(e))) == e
  {
    var n := ParseStrict(ZERO, arg, resolve).0;
    if n.choice == BlobLimit {
      ReparseBlobLimit(arg, n, resolve);
    } else if n.choice == TreeDepth {
      ReparseTreeDepth(arg, n, resolve);
    } else {
      ReparseVerbatim(arg, n, resolve);
    }
  }

  lemma ReparseBlobLimit(arg: string, n: Node, resolve: Resolver)
    requires ParseStrict(ZERO, arg, resolve) == (n, Done) && n.choice == BlobLimit
    ensures var e := Expand(n);
            && ParseStrict(ZERO, e, resolve) == (n.(filterSpec := Some(e)), Done)
            && Expand(n.(filterSpec := Some(e))) == e
  {
    StrictBlobLimitNode(arg, n, resolve);
    var e := Expand(n);
    assert e == BLOB_LIMIT_PREFIX + Decimal(n.blobLimitValue);
    BlobLimitText(ZERO.(filterSpec := Some(e)), n.blobLimitValue, resolve);
  }

  /** A strict parse that yields a size limit changed nothing but the kind and the size. */
  lemma StrictBlobLimitNode(arg: string, n: Node, resolve: Resolver)
    requires ParseStrict(ZERO, arg, resolve) == (n, Done) && n.choice == BlobLimit
    ensures n == ZERO.(filterSpec := Some(arg), choice := BlobLimit, blobLimitValue := n.blobLimitValue)
    ensures n.blobLimitValue <= ULONG_MAX
  {
    assert arg != BLOB_NONE && BLOB_LIMIT_PREFIX <= arg;
  }

  /** A size written in decimal after `blob:limit=` is parsed back. */
  lemma BlobLimitText(m: Node, v: nat, resolve: Resolver)
    requires m.choice == Unset && v <= ULONG_MAX
    ensures ParseFilter(m, BLOB_LIMIT_PREFIX + Decimal(v), resolve)
         == Parsed(m.(choice := BlobLimit, blobLimitValue := v), Ok)
  {
    var e := BLOB_LIMIT_PREFIX + Decimal(v);
    assert e[5] == 'l' && e != BLOB_NONE;
    assert e[|BLOB_LIMIT_PREFIX|..] == Decimal(v);
    ParseUlongDecimal(v);
  }

  lemma ReparseTreeDepth(arg: string, n: Node, resolve: Resolver)
    requires ParseStrict(ZERO, arg, resolve) == (n, Done) && n.choice == TreeDepth
    ensures var e := Expand(n);
            && ParseStrict(ZERO, e, resolve) == (n.(filterSpec := Some(e)), Done)
            && Expand(n.(filterSpec := Some(e))) == e
  {
    StrictTreeDepthNode(arg, n, resolve);
    var e := Expand(n);
    assert e == TREE_PREFIX + Decimal(n.treeExcludeDepth);
    TreeDepthText(ZERO.(filterSpec := Some(e)), n.treeExcludeDepth, resolve);
  }

  /** A strict parse that yields a depth changed nothing but the kind and the depth. */
  lemma StrictTreeDepthNode(arg: string, n: Node, resolve: Resolver)
    requires ParseStrict(ZERO, arg, resolve) == (n, Done) && n.choice == TreeDepth
    ensures n == ZERO.(filterSpec := Some(arg), choice := TreeDepth, treeExcludeDepth := n.treeExcludeDepth)
    ensures n.treeExcludeDepth <= ULONG_MAX
  {
    assert TREE_PREFIX <= arg && arg != BLOB_NONE && !(BLOB_LIMIT_PREFIX <= arg);
  }

  /** A depth written in decimal after `tree:` is parsed back. */
  lemma TreeDepthText(m: Node, d: nat, resolve: Resolver)
    requires m.choice == Unset && d <= ULONG_MAX
    ensures ParseFilter(m, TREE_PREFIX + Decimal(d), resolve)
         == Parsed(m.(choice := TreeDepth, treeExcludeDepth := d), Ok)
  {
    var e := TREE_PREFIX + Decimal(d);
    assert e[0] == 't' && e != BLOB_NONE && !(BLOB_LIMIT_PREFIX <= e);
    assert e[|TREE_PREFIX|..] == Decimal(d);
    ParseUlongDecimal(d);
  }

  lemma ReparseVerbatim(arg: string, n: Node, resolve: Resolver)
    requires ParseStrict(ZERO, arg, resolve) == (n, Done)
    requires n.choice != BlobLimit && n.choice != TreeDepth
    ensures var e := Expand(n);
            && ParseStrict(ZERO, e, resolve) == (n.(filterSpec := Some(e)), Done)
            && Expand(n.(filterSpec := Some(e))) == e
  {
  }

  // ---------------------------------------------------------------------
  // Reserved characters
  // ---------------------------------------------------------------------

  /** The separator, the escape character and the spec punctuation need no escaping. */
  lemma SpecPunctuationAllowed()
    ensures !IsReserved('+') && !IsReserved('%') && !IsReserved(':') && !IsReserved('=')
    ensures IsReserved(' ') && IsReserved(';') && IsReserved('\\') && IsReserved('"')
  {
    forall i | 0 <= i < |RESERVED_NON_WS|
      ensures RESERVED_NON_WS[i] !in "+%:="
    {
    }
    assert RESERVED_NON_WS[15] == '\\' && RESERVED_NON_WS[16] == ';' && RESERVED_NON_WS[18] == '"';
  }
}
