/**
 * The imperative side of `list-objects-filter-options.c`: a node object
 * whose fields the parser writes in place, the combine loop with its
 * `result` flag, the scan for reserved characters, release and
 * the strict entry points. Every method is proved to compute exactly what
 * the matching function of module Filter describes.
 */
module Parser {
  import opened Wrappers
  import opened Helpers
  import opened Filter

  /**
   * has_reserved_character: walks the still-encoded segment and stops at
   * the first character that must be escaped.
   */
  method HasReservedCharacter(subSpec: string) returns (bad: Option<char>)
    ensures bad == FirstReserved(subSpec)
  {
    var c := 0;
    while c < |subSpec|
      invariant 0 <= c <= |subSpec|
      invariant FirstReserved(subSpec) == FirstReserved(subSpec[c..])
    {
      if IsReserved(subSpec[c]) {
        return Some(subSpec[c]);
      }
      assert subSpec[c..][1..] == subSpec[c + 1..];
      c := c + 1;
    }
    return None;
  }

  /**
   * Piece `i` of the split text: a piece that is not the last ends in '+',
   * what is left after dropping it is the segment the model parses, and
   * the remaining pieces carry the later segments.
   */
  lemma NextPiece(arg: string, i: nat)
    requires i < |Split(arg, '+')|
    ensures var pieces := Split(arg, '+');
            && (i + 1 < |pieces| ==> pieces[i][|pieces[i]| - 1] == '+')
            && Segment(pieces[i..], 0)
               == (if i + 1 < |pieces| then pieces[i][..|pieces[i]| - 1] else pieces[i])
            && pieces[i..][1..] == pieces[i + 1..]
  {
    var pieces := Split(arg, '+');
    assert pieces[i..][0] == pieces[i];
    assert pieces[i..][1..] == pieces[i + 1..];
  }

  /** struct list_objects_filter_options, updated in place. */
  class FilterOptions {
    var choice: Choice
    var filterSpec: Option<string>
    var blobLimitValue: nat
    var treeExcludeDepth: nat
    var sparseOidValue: Option<ObjectId>
    var sub: seq<Node>

    /** The node these fields currently hold. */
    function Value(): Node
      reads this
    {
      Node(choice, filterSpec, blobLimitValue, treeExcludeDepth, sparseOidValue, sub)
    }

    /** LIST_OBJECTS_FILTER_INIT */
    constructor ()
      ensures Value() == ZERO
    {
      choice, filterSpec, blobLimitValue, treeExcludeDepth := Unset, None, 0, 0;
      sparseOidValue, sub := None, [];
    }

    /** memset(filter_options, 0, sizeof(*filter_options)) */
    method Clear()
      modifies this
      ensures Value() == ZERO
    {
      choice, filterSpec, blobLimitValue, treeExcludeDepth := Unset, None, 0, 0;
      sparseOidValue, sub := None, [];
    }

    /** gently_parse_list_objects_filter */
    method GentlyParse(arg: string, resolve: Resolver) returns (status: Status)
      requires choice == Unset
      modifies this
      ensures Parsed(Value(), status) == ParseFilter(old(Value()), arg, resolve)
      decreases |arg|, 0, 0
    {
      if arg == BLOB_NONE {
        choice := BlobNone;
        return Ok;
      } else if BLOB_LIMIT_PREFIX <= arg {
        var v := ParseUlong(arg[|BLOB_LIMIT_PREFIX|..]);
        if v.Some? {
          blobLimitValue := v.value;
          choice := BlobLimit;
          return Ok;
        }
      } else if TREE_PREFIX <= arg {
        var d := ParseUlong(arg[|TREE_PREFIX|..]);
        if d.None? {
          return Failed(ExpectedTreeDepth);
        }
        treeExcludeDepth := d.value;
        choice := TreeDepth;
        return Ok;
      } else if SPARSE_OID_PREFIX <= arg {
        var oid := resolve(arg[|SPARSE_OID_PREFIX|..]);
        if oid.Some? {
          sparseOidValue := oid;
        }
        choice := SparseOid;
        return Ok;
      } else if SPARSE_PATH_PREFIX <= arg {
        return Failed(SparsePathDropped);
      } else if COMBINE_PREFIX <= arg {
        status := ParseCombine(arg[|COMBINE_PREFIX|..], resolve);
        return;
      }
      Clear();
      return Failed(InvalidFilterSpec(arg));
    }

    /**
     * parse_combine_subfilter: grows `sub` by one zeroed slot, then either
     * reports a reserved character or parses the decoded segment into the
     * new slot.
     */
    method ParseCombineSubfilter(subSpec: string, resolve: Resolver) returns (status: Status)
      modifies this
      ensures Parsed(Value(), status) == ParseSubfilter(old(Value()), subSpec, resolve)
      decreases |subSpec|, 1, 0
    {
      var newIndex := |sub|;
      sub := sub + [ZERO];
      var decoded := Decode(subSpec);
      var bad := HasReservedCharacter(subSpec);
      if bad.Some? {
        status := Failed(MustEscape(bad.value));
      } else {
        var child := new FilterOptions();
        status := child.GentlyParse(decoded, resolve);
        sub := sub[newIndex := child.Value()];
      }
    }

    /**
     * parse_combine_filter: one subfilter per piece of the split text,
     * stopping at the first failure; on failure the whole node is
     * released and zeroed.
     */
    method ParseCombine(arg: string, resolve: Resolver) returns (status: Status)
      requires choice == Unset
      modifies this
      ensures Parsed(Value(), status) == Filter.ParseCombine(old(Value()), arg, resolve)
      decreases |arg|, 3, 0
    {
      var subspecs := Split(arg, '+');
      status := Ok;
      if subspecs == [] {
        status := Failed(ExpectedAfterCombine);
      } else {
        ghost var start := Value();
        var i := 0;
        while i < |subspecs| && status.Ok?
          invariant 0 <= i <= |subspecs|
          invariant choice == Unset
          invariant status.Ok? ==> CombineLoop(start, subspecs, resolve) == CombineLoop(Value(), subspecs[i..], resolve)
          invariant status.Failed? ==> CombineLoop(start, subspecs, resolve) == Parsed(Value(), status)
          decreases |subspecs| - i
        {
          NextPiece(arg, i);
          CombineLoopStep(Value(), subspecs[i..], resolve);
          var subSpec := subspecs[i];
          if i + 1 < |subspecs| {
            assert subSpec[|subSpec| - 1] == '+';
            subSpec := subSpec[..|subSpec| - 1];
          }
          status := ParseCombineSubfilter(subSpec, resolve);
          i := i + 1;
        }
        choice := Combine;
      }
      if status.Failed? {
        Release(this);
        Clear();
      }
    }

    /**
     * parse_list_objects_filter: refuses a second spec, records the spec
     * text, and dies with the error buffer if the gentle parse fails.
     */
    method Parse(arg: string, resolve: Resolver) returns (outcome: Outcome)
      modifies this
      ensures (Value(), outcome) == ParseStrict(old(Value()), arg, resolve)
    {
      if choice != Unset {
        return Died(MultipleFilterSpecs);
      }
      filterSpec := Some(arg);
      var status := GentlyParse(arg, resolve);
      if status.Failed? {
        return Died(ParseError(status.msg));
      }
      return Done;
    }
  }

  /**
   * list_objects_filter_release: nothing for NULL; otherwise the
   * spec text, the oid and the children are given up and the node is
   * zeroed, so it can be parsed into again.
   */
  method Release(filterOptions: FilterOptions?)
    modifies filterOptions
    ensures filterOptions != null ==> filterOptions.Value() == ZERO
  {
    if filterOptions == null {
      return;
    }
    filterOptions.filterSpec := None;
    filterOptions.sparseOidValue := None;
    // Stands for the recursive release of each child: a child is a value
    // here, so releasing it is writing the zero node into its slot. The
    // slots are discarded just below, so the loop proves nothing further.
    var i := 0;
    while i < |filterOptions.sub|
      invariant 0 <= i <= |filterOptions.sub|
      invariant forall j :: 0 <= j < i ==> filterOptions.sub[j] == ZERO
      decreases |filterOptions.sub| - i
    {
      filterOptions.sub := filterOptions.sub[i := ZERO];
      i := i + 1;
    }
    filterOptions.sub := [];
    filterOptions.Clear();
  }

  /**
   * opt_parse_list_objects_filter: `--no-filter` (or a missing value)
   * releases the node to empty; a value goes through the strict parser.
   */
  method OptParse(filterOptions: FilterOptions, arg: Option<string>, unset: bool, resolve: Resolver)
    returns (outcome: Outcome)
    modifies filterOptions
    ensures unset || arg.None? ==> outcome == Done && filterOptions.Value() == ZERO
    ensures !unset && arg.Some? ==>
      (filterOptions.Value(), outcome) == ParseStrict(old(filterOptions.Value()), arg.value, resolve)
  {
    if unset || arg.None? {
      Release(filterOptions);
      return Done;
    }
    outcome := filterOptions.Parse(arg.value, resolve);
  }
}
