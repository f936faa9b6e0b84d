# git filter-spec options, modelled in Dafny

This project models the filter-spec language of git's
`list-objects-filter-options.c`, the code behind `--filter=<spec>`. It
covers:

- the first-match parser for `blob:none`, `blob:limit=<n>`, `tree:<depth>`,
  `sparse:oid=<expr>`, `sparse:path=<path>` and `combine:<a>+<b>+...`;
- the combine splitter, which validates and percent-decodes each segment,
  parses it into a fresh child, stops at the first failing segment and, on
  failure, rolls the node back to zero;
- the scan for reserved characters;
- the canonical expander used to forward a spec;
- release, and the strict and option-level parse entry points;
- the promisor-remote rule of `partial_clone_register` and the default-filter
  loading of `partial_clone_get_default_filter_spec`.

The files, one module each:

- `filter_spec.dfy` (module `Filter`): the node as a value (`Node`, the zero
  node `ZERO`) and the parser as functions (`ParseFilter`, `ParseCombine`,
  `CombineLoop`, `ParseSubfilter`, `ParseStrict`, `Expand`). These are the
  reference the rest of the model is proved against.
- `filter_options.dfy` (module `Parser`): the imperative code as it is
  written.
  - `FilterOptions` is a class with the fields of
    `struct list_objects_filter_options`.
  - Its methods write those fields in place, run the combine loop with its
    result flag, and zero the node the way `memset` does.
  - Each method is proved to leave exactly the node, and return exactly the
    status, that the matching function of `Filter` gives.
  - The character scan `has_reserved_character` is a loop proved equal to
    `FirstReserved`.
- `partial_clone.dfy` (module `PartialClone`): the two globals as fields of a
  context object, with `git_config_set` recorded in a ghost log of writes.
- `filter_properties.dfy` (module `FilterProperties`): lemmas about the
  parser.
  - Dispatch and error messages.
  - Failure leaves the node unset.
  - Combine is all-or-nothing and keeps segment order.
  - Combine reports the error of its first failing segment.
  - Forwarding round trip: parse, expand, parse again.
- `scenarios.dfy` (module `Scenarios`): concrete specs worked through the
  model, such as `blob:limit=1k` expanding to `blob:limit=1024`, and
  `combine:tree:abc+blob:none` failing with `expected 'tree:<depth>'` and
  leaving no child behind, or `combine:sparse:oid=a%3Bb` resolving the
  decoded `a;b` while `combine:sparse:oid=a;b` is refused.
- `helpers.dfy` (module `Helpers`): small concrete models of the helpers the
  file calls but does not define. `strbuf.c`, `url.c` and `config.c` are not
  part of this model.
  - `Split` stands for `strbuf_split_str` with no piece limit.
  - `Decode` stands for `url_percent_decode`: percent-decoding in the style
    of RFC 3986 section 2.1, where `+` is not turned into a space and a
    `%00` escape ends the decoded text.
  - `ParseUlong` stands for `git_parse_ulong`: decimal digits with an
    optional `k`/`m`/`g` binary unit, up to 2^64-1.
  - `Decimal` stands for the `%lu` rendering.
- `wrappers.dfy` (module `Wrappers`): `Option`.

Errors are values:

- an error message is an `ErrorMessage` value, which keeps the message's
  identity and its argument;
- `die` becomes an `Outcome` of `Died(reason)`;
- the `BUG` that is raised when a populated node is parsed again becomes the
  precondition `choice == Unset` of the gentle parser.

Object-id resolution, `get_oid_with_context`, reads the object store. It is
a function parameter `resolve: string -> Option<ObjectId>`.

Two behaviours of the code are worth noting:

- A malformed `blob:limit=` value falls through to the final branch of the
  gentle parser. That branch reports `invalid filter-spec '<arg>'` for the
  whole spec and zeroes the node. There is no separate invalid-argument
  error.
- The `tree:` and `sparse:path=` failures return without touching the node.
  Their failure therefore keeps any `filter_spec` already recorded.
  - When the default filter is loaded, this can leave a node whose choice is
    unset but that still holds the default text
    (`PartialClone.DefaultBadDepthKeepsText`).
  - An unrecognised default, in contrast, loads as the zero node
    (`PartialClone.DefaultUnknownIsZero`).

## Model

| member | source | states |
|---|---|---|
| Filter.ParseFilter | list-objects-filter-options.c:31-95 | success exactly when the node ends up with a kind; success keeps the recorded spec text; failure leaves the node untouched or zeroed; well-formedness (children populated, without spec text, values within `unsigned long`) is preserved |
| Filter.ParseCombine | list-objects-filter-options.c:141-179 | success exactly when the node ends up populated, and then it is a Combine keeping the spec text; any failure leaves ZERO; well-formedness preserved |
| Filter.CombineLoop | list-objects-filter-options.c:156-168 | only the children change; existing children are kept as a prefix; success appends one child per piece; failure appends between one and that many |
| Filter.SegmentTrims | list-objects-filter-options.c:157-165 | each piece but the last loses exactly one final character (a `+`, by `Parser.NextPiece`); the last piece is parsed whole; a segment is always a prefix of its piece |
| Filter.ParseSubfilter | list-objects-filter-options.c:117-139 | exactly one child slot is appended and nothing else changes; on success that child is populated, carries no spec text and is well-formed |
| Filter.FirstReserved | list-objects-filter-options.c:97-115 | None exactly when no character is reserved; otherwise the character returned is reserved and no earlier character is |
| Filter.StrictOutcome | list-objects-filter-options.c:188-189 | the strict parser finishes exactly when the gentle parse succeeded |
| Filter.ParseStrict | list-objects-filter-options.c:181-191 | a populated node dies with "multiple filter-specs cannot be combined" and is unchanged; an unset node records the spec text, gets the node of the gentle parse, finishes exactly when that parse succeeds and otherwise dies with its message; a finished parse has a kind |
| Filter.Expand | list-objects-filter-options.c:206-219 | size and depth are rendered as their prefix followed by the `%lu` decimal of the stored value (all digits, no unit), which `git_parse_ulong` reads back as that value; every other kind echoes the recorded spec text |
| Parser.HasReservedCharacter | list-objects-filter-options.c:99-115 | the left-to-right scan returns exactly the first reserved character, or none |
| Parser.FilterOptions.constructor | list-objects-filter-options.c:128-129 | a new node is the zero node |
| Parser.FilterOptions.Clear | list-objects-filter-options.c:93 | the `memset` leaves the zero node |
| Parser.FilterOptions.GentlyParse | list-objects-filter-options.c:31-95 | the in-place parse leaves the node, and returns the status, that `ParseFilter` gives for the old node |
| Parser.FilterOptions.ParseCombineSubfilter | list-objects-filter-options.c:117-139 | growing `sub`, scanning the encoded text, then parsing the decoded text into a fresh child agrees with `ParseSubfilter` |
| Parser.FilterOptions.ParseCombine | list-objects-filter-options.c:141-179 | the loop with its result flag, the trimming of each trailing `+` (whose presence it checks, as the source asserts) and the release on failure agree with `Filter.ParseCombine` |
| Parser.NextPiece | list-objects-filter-options.c:157-165 | a piece that is not the last ends in `+`, and dropping it gives the segment that is parsed |
| Parser.FilterOptions.Parse | list-objects-filter-options.c:181-191 | the strict entry point leaves the node and outcome `ParseStrict` gives |
| Parser.Release | list-objects-filter-options.c:221-234 | null is left alone; otherwise every child is released and the node becomes ZERO, so release is idempotent and the node can be parsed again |
| Parser.OptParse | list-objects-filter-options.c:193-204 | `--no-filter` or a missing value empties the node and succeeds; a value goes through the strict parser |
| PartialClone.MayRegister | list-objects-filter-options.c:246-248 | a remote may register exactly when no remote is recorded, the recorded one is empty, or it is the same remote |
| PartialClone.Registered | list-objects-filter-options.c:246-263 | the remote and the filter text are recorded, and the old config log is kept as a prefix and exactly three writes follow it, in this order: `core.repositoryformatversion` = `1`, `extensions.partialclone` = the remote, `core.partialclonefilter` = the filter text |
| PartialClone.PartialCloneContext.Register | list-objects-filter-options.c:236-264 | a different non-empty recorded remote dies with nothing changed; otherwise the state becomes `Registered` |
| PartialClone.PartialCloneContext.GetDefaultFilterSpec | list-objects-filter-options.c:266-282 | no default leaves the node unchanged; otherwise the node becomes `LoadedDefault` of the default text |
| PartialClone.LoadedDefault | list-objects-filter-options.c:273-280 | the node is populated exactly when the default parses, and then it records the default text; the parse error is dropped |
| PartialClone.UnrecordedAcceptsAny | list-objects-filter-options.c:246-249 | with no remote recorded, or an empty one, any remote may register |
| PartialClone.SameRemoteAgain | list-objects-filter-options.c:246-263 | the recorded remote may register again, and its new filter replaces the default |
| PartialClone.OtherRemoteRefused | list-objects-filter-options.c:246-250 | after a non-empty remote is recorded, any other remote is refused |
| PartialClone.DefaultBadDepthKeepsText | list-objects-filter-options.c:51-55 | a default `tree:` whose depth does not parse leaves an unset node that still records the default text |
| PartialClone.DefaultUnknownIsZero | list-objects-filter-options.c:86-94 | a default of no known kind loads as ZERO |
| FilterProperties.TreeDepthError | list-objects-filter-options.c:51-55 | a depth that does not parse fails with exactly "expected 'tree:<depth>'" and leaves the node unchanged |
| FilterProperties.BlobLimitSet | list-objects-filter-options.c:45-49 | a size that parses sets the kind and the size and nothing else |
| FilterProperties.TreeDepthSet | list-objects-filter-options.c:51-57 | a depth that parses sets the kind and the depth and nothing else |
| FilterProperties.BlobLimitError | list-objects-filter-options.c:45-94 | a size that does not parse falls through to "invalid filter-spec" for the whole spec, with the node zeroed |
| FilterProperties.SparsePathRefused | list-objects-filter-options.c:74-80 | `sparse:path=` always fails with the "support has been dropped" message and leaves the node unchanged |
| FilterProperties.SparseOidAccepted | list-objects-filter-options.c:59-72 | `sparse:oid=` always succeeds as SparseOid; the oid is replaced exactly when the resolver finds one; nothing else changes |
| FilterProperties.UnrecognizedSpec | list-objects-filter-options.c:86-94 | text matching no kind fails with "invalid filter-spec" naming the whole text, and the node is zeroed |
| FilterProperties.EmptyCombine | list-objects-filter-options.c:146-153 | `combine:` with nothing after it fails with "expected something after combine:" and leaves ZERO |
| FilterProperties.FailureLeavesUnset | list-objects-filter-options.c:38-94 | every failure leaves the kind unset; the node is left untouched exactly on the `tree:`, `sparse:path=` paths (or when it was already ZERO) |
| FilterProperties.SubfilterAppends | list-objects-filter-options.c:122-135 | a segment appends to any node the child it gives on an empty one, with the same status |
| FilterProperties.CombineLoopOk | list-objects-filter-options.c:156-168 | the loop succeeds exactly when every segment does, and then appends the segments' children in input order |
| FilterProperties.CombineLoopStops | list-objects-filter-options.c:156-168 | a failed loop stopped at some segment: all earlier ones succeeded, its error is the one returned, and nothing after it was appended |
| FilterProperties.CombineParse | list-objects-filter-options.c:141-179 | a combine succeeds exactly when there is a segment and all of them succeed; the node is then a Combine whose children are the segments' results in order; any failure, at any depth, leaves ZERO |
| FilterProperties.CombineReportsFirstFailure | list-objects-filter-options.c:156-168 | a failed combine reports the error of a segment all of whose predecessors succeeded |
| FilterProperties.ExpandReparses | list-objects-filter-options.c:206-219 | forwarding round trip: parsing the expansion of a strictly parsed spec gives the same node with the expansion as its text, and that expansion is a fixed point |
| FilterProperties.BlobLimitText | list-objects-filter-options.c:211-213 | a size rendered in decimal after `blob:limit=` parses back to that size |
| FilterProperties.TreeDepthText | list-objects-filter-options.c:214-216 | a depth rendered in decimal after `tree:` parses back to that depth |
| FilterProperties.SpecPunctuationAllowed | list-objects-filter-options.c:97-104 | `+`, `%`, `:` and `=` need no escaping; space, `;`, backslash and double quote do |
| Scenarios.StrictBlobLimit | list-objects-filter-options.c:181-191 | the strict parse of `blob:limit=<x>` with `x` readable finishes with the spec text recorded and the size `x` names |
| Scenarios.OidChild | list-objects-filter-options.c:59-72 | on a zero node, `sparse:oid=<expr>` succeeds with exactly the resolver's answer for `expr` |
| Scenarios.BlobLimitKilo | list-objects-filter-options.c:45-49 | `blob:limit=1k` strictly parses to a 1024-byte limit and expands to `blob:limit=1024` |
| Scenarios.TreeNotANumber | list-objects-filter-options.c:51-55 | `tree:abc` fails with "expected 'tree:<depth>'" on an empty node |
| Scenarios.CombineOfTwo | list-objects-filter-options.c:141-179 | `combine:A+B` with plain A and B succeeds exactly when both do, and then has their results as its two children in order |
| Scenarios.CombineTwo | list-objects-filter-options.c:141-179 | `combine:blob:none+tree:3` gives a Combine of BlobNone and TreeDepth 3 |
| Scenarios.CombineOfTwoFirstFails | list-objects-filter-options.c:166-177 | when A fails, `combine:A+B` reports A's error and leaves ZERO |
| Scenarios.CombineBadFirst | list-objects-filter-options.c:166-177 | `combine:tree:abc+blob:none` fails with "expected 'tree:<depth>'" and leaves ZERO |
| Scenarios.CombineOfOneFailing | list-objects-filter-options.c:166-177 | a one-segment combine whose segment fails reports that segment's error and leaves ZERO |
| Scenarios.CombineUnescaped | list-objects-filter-options.c:131-135 | `combine:blob;none` fails with "must escape char in sub-filter-spec: ';'" and leaves ZERO |
| Scenarios.CombineOfOne | list-objects-filter-options.c:122-178 | a single segment that passes the scan is parsed from its decoded text; its status is the combine's, and on success it is the one child, otherwise the node is ZERO |
| Scenarios.CombineEscapedOid | list-objects-filter-options.c:131-135 | `combine:sparse:oid=a%3Bb` passes the scan and resolves the decoded `a;b`, giving one SparseOid child |
| Scenarios.CombineUnescapedOid | list-objects-filter-options.c:131-135 | `combine:sparse:oid=a;b` fails with "must escape char in sub-filter-spec: ';'" and leaves ZERO |
| Scenarios.CombineNulEscape | list-objects-filter-options.c:131-135 | `combine:blob:none%00` gives one BlobNone child, since the decoded text ends at the NUL |
| Scenarios.SubfilterUnescaped | list-objects-filter-options.c:133-135 | a segment with a reserved character appends a zeroed child and fails with the escape message |
| Helpers.Split | list-objects-filter-options.c:146 | the pieces concatenate back to the text; none is empty; each piece but the last ends in the separator, and no piece has one earlier; there are no pieces exactly when the text is empty |
| Helpers.Decode | list-objects-filter-options.c:131 | decoding never lengthens the text, text without `%` is unchanged, and text without NUL decodes to text without NUL (a `%00` escape ends it) |
| Helpers.DecodePlainPrefix | list-objects-filter-options.c:131 | text without `%` is copied through decoding, and decoding continues unchanged after it |
| Helpers.ParseUlong | list-objects-filter-options.c:46 | any value read fits an `unsigned long` |
| Helpers.ParseUlongDecimal | list-objects-filter-options.c:211-216 | reading back the `%lu` rendering of a value that fits gives that value |
| Helpers.ParseUlongUnit | list-objects-filter-options.c:46 | a `k`/`m`/`g` suffix multiplies the digits by 1024, 1024² or 1024³ |
| Helpers.Decimal | list-objects-filter-options.c:211-216 | the rendering is a non-empty run of digits whose value is the number rendered |
| Helpers.DecimalNoLeadingZero | list-objects-filter-options.c:211-216 | the rendering of a size or depth has no leading zero: only 0 renders with a leading `0` |

## Left out

- Object-id resolution (`get_oid_with_context`) reads the object store and the refs; it is the parameter `resolve`, and object ids are opaque byte strings.
- `git_config_set` writes the config file; each call is an entry in a ghost log, in call order.
- Process termination: `die` is the `Died` outcome, and the `BUG` for a populated node is a precondition of the gentle parser.
- Message text: translation and `strbuf_addf` formatting are not modelled; each message is an `ErrorMessage` value carrying its argument.
- Memory management: `ALLOC_GROW`, `free`, `strbuf_list_free`, the copied strings and the `filter_spec` lost by the `memset` on line 93. `sub` is a sequence that grows by one per segment.
- Children are values in `sub`, not objects in a shared array. Parsing into a child slot in place is a parse into a fresh node whose result is stored in the slot, and releasing a child is writing the zero node to its slot.
- `list_objects_filter_set_no_filter` is declared in a header that is not part of this model; `OptParse` releases the node to ZERO in its place.
- Characters are Dafny `char`s. The comparison `*c <= ' '` on a signed `char` also catches bytes 0x80 to 0xFF on some platforms; the model states the rule only for code points, with every character up to the space reserved.
- Helpers.ParseUlong: only non-empty decimal digits with an optional `k`, `m` or `g` suffix, up to 2^64-1; the leading whitespace, sign and `0x`/`0` base prefixes that `strtoumax` accepts are not modelled, because `config.c` is not part of this model.
- Helpers.Decode: a raw NUL in the input is copied rather than ending the text; C input cannot hold one, and the scan of the still-encoded segment refuses it, so its decoded text is never parsed.
- Helpers.Split: modelled with no piece limit, which is how the file calls `strbuf_split_str`.
