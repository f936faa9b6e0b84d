/**
 * The filter-spec mini-language of `list-objects-filter-options.c` as
 * values and functions: the node that a `--filter=<spec>` value is parsed
 * into, the first-match dispatch parser, the `combine:` splitter with its
 * all-or-nothing rollback, the reserved-character scan and the canonical
 * expander. The imperative versions in module Parser are proved equal to
 * these functions.
 */
module Filter {
  import opened Wrappers
  import opened Helpers

  /** `enum list_objects_filter_choice`, with the zero value made explicit. */
  datatype Choice = Unset | BlobNone | BlobLimit | TreeDepth | SparseOid | Combine

  /** An object id as its raw hash bytes. */
  datatype ObjectId = ObjectId(hash: seq<bv8>)

  /**
   * `get_oid_with_context` restricted to blobs: the object store and refs
   * it consults are outside the model, so the resolver is a parameter.
   */
  type Resolver = string -> Option<ObjectId>

  /** `struct list_objects_filter_options`; `sub_nr` is `|sub|`. */
  datatype Node = Node(
    choice: Choice,
    filterSpec: Option<string>,
    blobLimitValue: nat,
    treeExcludeDepth: nat,
    sparseOid: Option<ObjectId>,
    sub: seq<Node>)

  /** The all-zero node that `memset(…, 0, …)` and the initialiser give. */
  const ZERO: Node := Node(Unset, None, 0, 0, None, [])

  /** The messages the parser appends to its error buffer. */
  datatype ErrorMessage =
    | ExpectedTreeDepth                 // "expected 'tree:<depth>'"
    | SparsePathDropped                 // "sparse:path filters support has been dropped"
    | InvalidFilterSpec(spec: string)   // "invalid filter-spec '%s'"
    | MustEscape(c: char)               // "must escape char in sub-filter-spec: '%c'"
    | ExpectedAfterCombine              // "expected something after combine:"

  /** The gentle parser's return value: 0, or 1 with a message. */
  datatype Status = Ok | Failed(msg: ErrorMessage)

  /** The node after a gentle parse, with what the parse returned. */
  datatype Parsed = Parsed(node: Node, status: Status)

  /** Why a strict entry point or the partial-clone bridge calls `die`. */
  datatype DieReason =
    | MultipleFilterSpecs               // "multiple filter-specs cannot be combined"
    | ParseError(msg: ErrorMessage)     // die("%s", errbuf)
    | CannotChangePromisor              // "cannot change partial clone promisor remote"

  /** A call that returns normally, or one that ends the process. */
  datatype Outcome = Done | Died(reason: DieReason)

  const BLOB_NONE: string := "blob:none"
  const BLOB_LIMIT_PREFIX: string := "blob:limit="
  const TREE_PREFIX: string := "tree:"
  const SPARSE_OID_PREFIX: string := "sparse:oid="
  const SPARSE_PATH_PREFIX: string := "sparse:path="
  const COMBINE_PREFIX: string := "combine:"

  // ---------------------------------------------------------------------
  // Well-formed trees
  // ---------------------------------------------------------------------

  /** Every child is populated, has no spec text of its own, and is well formed. */
  predicate ChildrenWellformed(n: Node)
    decreases n, 0
  {
    forall i :: 0 <= i < |n.sub| ==>
      n.sub[i].choice != Unset && n.sub[i].filterSpec == None && Wellformed(n.sub[i])
  }

  /**
   * The shape every node reachable from a successful parse has: children
   * exactly for combine, an oid only for sparse:oid, numbers in the
   * range of `unsigned long`.
   */
  predicate Wellformed(n: Node)
    decreases n, 1
  {
    && (n.choice == Combine <==> |n.sub| > 0)
    && (n.choice != SparseOid ==> n.sparseOid == None)
    && (n.choice == BlobLimit ==> n.blobLimitValue <= ULONG_MAX)
    && (n.choice == TreeDepth ==> n.treeExcludeDepth <= ULONG_MAX)
    && ChildrenWellformed(n)
  }

  // ---------------------------------------------------------------------
  // Reserved characters (has_reserved_character)
  // ---------------------------------------------------------------------

  /** RESERVED_NON_WS */
  const RESERVED_NON_WS: string := "~`!@#$^&*()[]{}\\;'\",<>?"

  /**
   * A character a combine segment must percent-encode: a control
   * character, the space, or one of RESERVED_NON_WS.
   */
  predicate IsReserved(c: char) {
    c <= ' ' || c in RESERVED_NON_WS
  }

  /** The first reserved character of `s`, scanning left to right. */
  function FirstReserved(s: string): (r: Option<char>)
    ensures r.None? <==> forall i :: 0 <= i < |s| ==> !IsReserved(s[i])
    ensures r.Some? ==> exists i :: 0 <= i < |s| && s[i] == r.value && IsReserved(s[i])
                                    && forall j :: 0 <= j < i ==> !IsReserved(s[j])
  {
    if s == [] then None
    else if IsReserved(s[0]) then Some(s[0])
    else
      var r := FirstReserved(s[1..]);
      assert forall i :: 0 < i < |s| ==> s[i] == s[1..][i - 1];
      if r.Some? then
        var i :| 0 <= i < |s[1..]| && s[1..][i] == r.value && IsReserved(s[1..][i])
                 && forall j :: 0 <= j < i ==> !IsReserved(s[1..][j]);
        assert s[i + 1] == r.value && forall j :: 0 <= j < i + 1 ==> !IsReserved(s[j]);
        r
      else r
  }

  // ---------------------------------------------------------------------
  // The gentle parser (gently_parse_list_objects_filter)
  // ---------------------------------------------------------------------

  /**
   * Parses `arg` into the unpopulated node `n` (calling it on a populated
   * node is a BUG in the source, hence the precondition). Dispatch is
   * first-match over the six spellings; every failure returns the node
   * unpopulated, either untouched or zeroed.
   */
  function ParseFilter(n: Node, arg: string, resolve: Resolver): (r: Parsed)
    requires n.choice == Unset
    ensures r.status.Ok? <==> r.node.choice != Unset
    ensures r.status.Ok? ==> r.node.filterSpec == n.filterSpec
    ensures r.status.Failed? ==> r.node == n || r.node == ZERO
    ensures Wellformed(n) ==> Wellformed(r.node)
    decreases |arg|, 0, 0
  {
    if arg == BLOB_NONE then
      Parsed(n.(choice := BlobNone), Ok)
    else if BLOB_LIMIT_PREFIX <= arg then
      match ParseUlong(arg[|BLOB_LIMIT_PREFIX|..])
      case Some(v) => Parsed(n.(choice := BlobLimit, blobLimitValue := v), Ok)
      case None => Parsed(ZERO, Failed(InvalidFilterSpec(arg)))
    else if TREE_PREFIX <= arg then
      match ParseUlong(arg[|TREE_PREFIX|..])
      case None => Parsed(n, Failed(ExpectedTreeDepth))
      case Some(d) => Parsed(n.(choice := TreeDepth, treeExcludeDepth := d), Ok)
    else if SPARSE_OID_PREFIX <= arg then
      var oid := resolve(arg[|SPARSE_OID_PREFIX|..]);
      Parsed(n.(choice := SparseOid, sparseOid := if oid.Some? then oid else n.sparseOid), Ok)
    else if SPARSE_PATH_PREFIX <= arg then
      Parsed(n, Failed(SparsePathDropped))
    else if COMBINE_PREFIX <= arg then
      ParseCombine(n, arg[|COMBINE_PREFIX|..], resolve)
    else
      Parsed(ZERO, Failed(InvalidFilterSpec(arg)))
  }

  // ---------------------------------------------------------------------
  // The combine splitter (parse_combine_filter, parse_combine_subfilter)
  // ---------------------------------------------------------------------

  /**
   * The text of segment `i` as it is validated and decoded: every piece
   * but the last loses its trailing '+'.
   */
  function Segment(pieces: seq<string>, i: nat): string
    requires i < |pieces|
  {
    if i + 1 < |pieces| && |pieces[i]| > 0 then pieces[i][..|pieces[i]| - 1] else pieces[i]
  }

  /**
   * A segment is its piece, less one final character on every piece but
   * the last: the last piece is taken whole.
   */
  lemma SegmentTrims(pieces: seq<string>, i: nat)
    requires i < |pieces|
    ensures Segment(pieces, i) <= pieces[i]
    ensures i + 1 == |pieces| ==> Segment(pieces, i) == pieces[i]
    ensures i + 1 < |pieces| && pieces[i] != [] ==> |Segment(pieces, i)| + 1 == |pieces[i]|
  {
  }

  /**
   * Parses what follows `combine:`. Nothing there, or any failing
   * segment, rolls the whole node back to ZERO; otherwise the node
   * becomes a Combine over one new child per segment.
   */
  function ParseCombine(n: Node, rest: string, resolve: Resolver): (r: Parsed)
    requires n.choice == Unset
    ensures r.status.Ok? <==> r.node.choice != Unset
    ensures r.status.Ok? ==> r.node.choice == Combine && r.node.filterSpec == n.filterSpec
    ensures r.status.Failed? ==> r.node == ZERO
    ensures Wellformed(n) ==> Wellformed(r.node)
    decreases |rest|, 3, 0
  {
    var pieces := Split(rest, '+');
    if pieces == [] then
      Parsed(ZERO, Failed(ExpectedAfterCombine))
    else
      var p := CombineLoop(n, pieces, resolve);
      if p.status.Ok? then Parsed(p.node.(choice := Combine), Ok)
      else Parsed(ZERO, p.status)
  }

  /**
   * The loop of parse_combine_filter over the split pieces, stopping at
   * the first failing segment.
   */
  function CombineLoop(n: Node, pieces: seq<string>, resolve: Resolver): (r: Parsed)
    requires n.choice == Unset
    ensures r.node == n.(sub := r.node.sub)
    ensures n.sub <= r.node.sub
    ensures r.status.Ok? ==> |r.node.sub| == |n.sub| + |pieces|
    ensures r.status.Failed? ==> |n.sub| < |r.node.sub| <= |n.sub| + |pieces|
    ensures r.status.Ok? && ChildrenWellformed(n) ==> ChildrenWellformed(r.node)
    decreases |Concat(pieces)|, 2, |pieces|
  {
    if pieces == [] then Parsed(n, Ok)
    else
      var p := ParseSubfilter(n, Segment(pieces, 0), resolve);
      if p.status.Failed? then p
      else
        assert forall i :: 0 < i < |pieces| ==> Segment(pieces, i) == Segment(pieces[1..], i - 1);
        CombineLoop(p.node, pieces[1..], resolve)
  }

  /** One turn of the combine loop. */
  lemma CombineLoopStep(n: Node, pieces: seq<string>, resolve: Resolver)
    requires n.choice == Unset && pieces != []
    ensures var p := ParseSubfilter(n, Segment(pieces, 0), resolve);
            CombineLoop(n, pieces, resolve)
              == if p.status.Failed? then p else CombineLoop(p.node, pieces[1..], resolve)
  {
  }

  /**
   * One segment: a zeroed child is appended first; the still-encoded text
   * is checked for reserved characters, and only then is the decoded text
   * parsed into that child.
   */
  function ParseSubfilter(n: Node, segment: string, resolve: Resolver): (r: Parsed)
    ensures |r.node.sub| == |n.sub| + 1
    ensures r.node == n.(sub := n.sub + [r.node.sub[|n.sub|]])
    ensures r.status.Ok? ==> var child := r.node.sub[|n.sub|];
                             child.choice != Unset && child.filterSpec == None && Wellformed(child)
    decreases |segment|, 1, 0
  {
    match FirstReserved(segment)
    case Some(c) => Parsed(n.(sub := n.sub + [ZERO]), Failed(MustEscape(c)))
    case None =>
      var child := ParseFilter(ZERO, Decode(segment), resolve);
      Parsed(n.(sub := n.sub + [child.node]), child.status)
  }

  // ---------------------------------------------------------------------
  // Strict parse and canonical expansion
  // ---------------------------------------------------------------------

  /** The outcome parse_list_objects_filter gives for a gentle result. */
  function StrictOutcome(s: Status): (o: Outcome)
    ensures o.Done? <==> s.Ok?
  {
    if s.Ok? then Done else Died(ParseError(s.msg))
  }

  /**
   * parse_list_objects_filter: a populated node dies; otherwise the spec
   * text is recorded before the gentle parse, and a parse failure dies.
   */
  function ParseStrict(n: Node, arg: string, resolve: Resolver): (r: (Node, Outcome))
    ensures n.choice != Unset ==> r == (n, Died(MultipleFilterSpecs))
    ensures n.choice == Unset && r.1.Done? ==> r.0.filterSpec == Some(arg) && r.0.choice != Unset
    ensures n.choice == Unset ==>
              var p := ParseFilter(n.(filterSpec := Some(arg)), arg, resolve);
              && r.0 == p.node
              && (r.1.Done? <==> p.status.Ok?)
              && (p.status.Failed? ==> r.1 == Died(ParseError(p.status.msg)))
  {
    if n.choice != Unset then (n, Died(MultipleFilterSpecs))
    else
      var p := ParseFilter(n.(filterSpec := Some(arg)), arg, resolve);
      (p.node, StrictOutcome(p.status))
  }

  /**
   * expand_list_objects_filter_spec: the two numeric kinds are re-rendered
   * in decimal; every other node echoes its recorded spec text (which must
   * exist: the source takes its length).
   */
  function Expand(n: Node): (r: string)
    requires n.filterSpec.Some?
    ensures n.choice == BlobLimit ==> r == BLOB_LIMIT_PREFIX + Decimal(n.blobLimitValue)
    ensures n.choice == TreeDepth ==> r == TREE_PREFIX + Decimal(n.treeExcludeDepth)
    ensures n.choice == BlobLimit && n.blobLimitValue <= ULONG_MAX ==>
              BLOB_LIMIT_PREFIX <= r && ParseUlong(r[|BLOB_LIMIT_PREFIX|..]) == Some(n.blobLimitValue)
    ensures n.choice == TreeDepth && n.treeExcludeDepth <= ULONG_MAX ==>
              TREE_PREFIX <= r && ParseUlong(r[|TREE_PREFIX|..]) == Some(n.treeExcludeDepth)
    ensures n.choice != BlobLimit && n.choice != TreeDepth ==> r == n.filterSpec.value
  {
    if n.choice == BlobLimit then
      var r := BLOB_LIMIT_PREFIX + Decimal(n.blobLimitValue);
      assert r[|BLOB_LIMIT_PREFIX|..] == Decimal(n.blobLimitValue);
      if n.blobLimitValue <= ULONG_MAX then ParseUlongDecimal(n.blobLimitValue); r else r
    else if n.choice == TreeDepth then
      var r := TREE_PREFIX + Decimal(n.treeExcludeDepth);
      assert r[|TREE_PREFIX|..] == Decimal(n.treeExcludeDepth);
      if n.treeExcludeDepth <= ULONG_MAX then ParseUlongDecimal(n.treeExcludeDepth); r else r
    else n.filterSpec.value
  }
}
