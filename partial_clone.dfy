/**
 * partial_clone_register and partial_clone_get_default_filter_spec: the
 * two process-wide variables they use (the recorded promisor remote and
 * the default filter text) become fields of a context object, and
 * `git_config_set` becomes an entry appended to a log of config writes.
 */
module PartialClone {
  import opened Wrappers
  import opened Helpers
  import opened Filter
  import opened Parser
  import opened FilterProperties

  /** One `git_config_set(key, value)`. */
  datatype ConfigWrite = ConfigWrite(key: string, value: string)

  /** The context as a value: both globals and the config writes so far. */
  datatype CloneState = CloneState(
    promisorRemote: Option<string>,
    filterDefault: Option<string>,
    config: seq<ConfigWrite>)

  /**
   * The registration rule: a remote may be recorded unless a non-empty
   * remote of a different name is recorded already.
   */
  predicate MayRegister(recorded: Option<string>, remote: string): (b: bool)
    ensures b <==> recorded == None || recorded == Some("") || recorded == Some(remote)
  {
    !(recorded.Some? && recorded.value != "" && remote != recorded.value)
  }

  /** The state after a registration that does not die. */
  function Registered(s: CloneState, remote: string, filterSpec: string): (r: CloneState)
    ensures r.promisorRemote == Some(remote) && r.filterDefault == Some(filterSpec)
    ensures |r.config| == |s.config| + 3 && r.config[..|s.config|] == s.config
    ensures r.config[|s.config|..] == [ConfigWrite("core.repositoryformatversion", "1"),
                                       ConfigWrite("extensions.partialclone", remote),
                                       ConfigWrite("core.partialclonefilter", filterSpec)]
  {
    CloneState(Some(remote), Some(filterSpec),
      s.config + [ConfigWrite("core.repositoryformatversion", "1"),
                  ConfigWrite("extensions.partialclone", remote),
                  ConfigWrite("core.partialclonefilter", filterSpec)])
  }

  class PartialCloneContext {
    /** repository_format_partial_clone */
    var repositoryFormatPartialClone: Option<string>
    /** core_partial_clone_filter_default */
    var corePartialCloneFilterDefault: Option<string>
    /** What git_config_set has written, oldest first. */
    ghost var configLog: seq<ConfigWrite>

    ghost function State(): CloneState
      reads this
    {
      CloneState(repositoryFormatPartialClone, corePartialCloneFilterDefault, configLog)
    }

    constructor (recorded: Option<string>, filterDefault: Option<string>)
      ensures State() == CloneState(recorded, filterDefault, [])
    {
      repositoryFormatPartialClone := recorded;
      corePartialCloneFilterDefault := filterDefault;
      configLog := [];
    }

    /**
     * partial_clone_register: dies if another promisor remote is
     * recorded; otherwise writes the format version, the extension and
     * the default filter, and records remote and filter in the globals.
     * The filter node must carry its spec text (the source duplicates it).
     */
    method Register(remote: string, filterOptions: FilterOptions) returns (outcome: Outcome)
      requires filterOptions.filterSpec.Some?
      modifies this
      ensures !MayRegister(old(repositoryFormatPartialClone), remote) ==>
                outcome == Died(CannotChangePromisor) && State() == old(State())
      ensures MayRegister(old(repositoryFormatPartialClone), remote) ==>
                outcome == Done && State() == Registered(old(State()), remote, filterOptions.filterSpec.value)
    {
      if repositoryFormatPartialClone.Some? && repositoryFormatPartialClone.value != ""
         && remote != repositoryFormatPartialClone.value {
        return Died(CannotChangePromisor);
      }
      configLog := configLog + [ConfigWrite("core.repositoryformatversion", "1")];
      configLog := configLog + [ConfigWrite("extensions.partialclone", remote)];
      repositoryFormatPartialClone := Some(remote);
      corePartialCloneFilterDefault := Some(filterOptions.filterSpec.value);
      configLog := configLog + [ConfigWrite("core.partialclonefilter", filterOptions.filterSpec.value)];
      return Done;
    }

    /**
     * partial_clone_get_default_filter_spec: with no default nothing
     * happens; otherwise the default text is recorded in the node and
     * gently parsed into it, and a parse error is dropped.
     */
    method GetDefaultFilterSpec(filterOptions: FilterOptions, resolve: Resolver)
      requires corePartialCloneFilterDefault.Some? ==> filterOptions.choice == Unset
      modifies filterOptions
      ensures corePartialCloneFilterDefault.None? ==> filterOptions.Value() == old(filterOptions.Value())
      ensures corePartialCloneFilterDefault.Some? ==>
                filterOptions.Value() == LoadedDefault(old(filterOptions.Value()), corePartialCloneFilterDefault.value, resolve)
    {
      if corePartialCloneFilterDefault.None? {
        return;
      }
      filterOptions.filterSpec := Some(corePartialCloneFilterDefault.value);
      var _ := filterOptions.GentlyParse(corePartialCloneFilterDefault.value, resolve);
    }
  }

  /**
   * The node partial_clone_get_default_filter_spec leaves behind for a
   * recorded default: populated when the text parses, unpopulated when it
   * does not, and never an error.
   */
  function LoadedDefault(n: Node, spec: string, resolve: Resolver): (r: Node)
    requires n.choice == Unset
    ensures r.choice != Unset ==> r.filterSpec == Some(spec)
    ensures r.choice != Unset <==> ParseFilter(n.(filterSpec := Some(spec)), spec, resolve).status.Ok?
  {
    ParseFilter(n.(filterSpec := Some(spec)), spec, resolve).node
  }

  /** With no remote recorded, or an empty one, any remote may register. */
  lemma UnrecordedAcceptsAny(remote: string)
    ensures MayRegister(None, remote) && MayRegister(Some(""), remote)
  {
  }

  /**
   * Registering the remote that is already recorded is allowed again, and
   * the second filter replaces the first as the default.
   */
  lemma SameRemoteAgain(s: CloneState, remote: string, first: string, second: string)
    ensures MayRegister(Registered(s, remote, first).promisorRemote, remote)
    ensures Registered(Registered(s, remote, first), remote, second).filterDefault == Some(second)
  {
  }

  /** Once a non-empty remote is recorded, no other remote may register. */
  lemma OtherRemoteRefused(s: CloneState, remote: string, other: string, filterSpec: string)
    requires remote != "" && other != remote
    ensures !MayRegister(Registered(s, remote, filterSpec).promisorRemote, other)
  {
  }

  /**
   * A default whose depth is not a number loads as an unpopulated node
   * that still records the default text.
   */
  lemma DefaultBadDepthKeepsText(n: Node, depth: string, resolve: Resolver)
    requires n.choice == Unset && ParseUlong(depth).None?
    ensures LoadedDefault(n, TREE_PREFIX + depth, resolve) == n.(filterSpec := Some(TREE_PREFIX + depth))
  {
    TreeDepthError(n.(filterSpec := Some(TREE_PREFIX + depth)), depth, resolve);
  }

  /** A default of no known kind loads as ZERO. */
  lemma DefaultUnknownIsZero(n: Node, spec: string, resolve: Resolver)
    requires n.choice == Unset && spec != BLOB_NONE
    requires !(BLOB_LIMIT_PREFIX <= spec) && !(TREE_PREFIX <= spec) && !(SPARSE_OID_PREFIX <= spec)
    requires !(SPARSE_PATH_PREFIX <= spec) && !(COMBINE_PREFIX <= spec)
    ensures LoadedDefault(n, spec, resolve) == ZERO
  {
    UnrecognizedSpec(n.(filterSpec := Some(spec)), spec, resolve);
  }
}
