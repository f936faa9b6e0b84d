/**
 * Concrete filter specs worked through the model: each lemma pins down
 * what the parser does with one literal input.
 */
module Scenarios {
  import opened Wrappers
  import opened Helpers
  import opened Filter
  import opened FilterProperties

  /** A suffixed size is forwarded as its byte count. */
  lemma BlobLimitKilo(resolve: Resolver)
    ensures var r := ParseStrict(ZERO, "blob:limit=1k", resolve);
            r.1 == Done && r.0.choice == BlobLimit && r.0.blobLimitValue == 1024
            && Expand(r.0) == "blob:limit=1024"
  {
    assert "blob:limit=1k" == BLOB_LIMIT_PREFIX + "1k";
    ParseUlongUnit("1", 'k');
    StrictBlobLimit("1k", resolve);
    ExpandKilo(ZERO.(filterSpec := Some("blob:limit=1k"), choice := BlobLimit, blobLimitValue := 1024));
  }

  /** The strict parse of a well-formed `blob:limit=` spec on a zero node. */
  lemma StrictBlobLimit(limit: string, resolve: Resolver)
    requires ParseUlong(limit).Some?
    ensures ParseStrict(ZERO, BLOB_LIMIT_PREFIX + limit, resolve)
         == (ZERO.(filterSpec := Some(BLOB_LIMIT_PREFIX + limit), choice := BlobLimit,
                   blobLimitValue := ParseUlong(limit).value), Done)
  {
    BlobLimitSet(ZERO.(filterSpec := Some(BLOB_LIMIT_PREFIX + limit)), limit, resolve);
  }

  lemma ExpandKilo(n: Node)
    requires n.filterSpec.Some? && n.choice == BlobLimit && n.blobLimitValue == 1024
    ensures Expand(n) == "blob:limit=1024"
  {
    assert Decimal(1024) == "1024";
  }

  /** A depth that is not a number fails with the fixed message and leaves the node unpopulated. */
  lemma TreeNotANumber(resolve: Resolver)
    ensures ParseFilter(ZERO, "tree:abc", resolve) == Parsed(ZERO, Failed(ExpectedTreeDepth))
  {
    assert "tree:abc" == TREE_PREFIX + "abc";
    TreeDepthError(ZERO, "abc", resolve);
  }

  /** A segment with nothing to escape or decode is parsed as it stands. */
  lemma PlainSegment(segment: string, resolve: Resolver)
    requires FirstReserved(segment) == None && '%' !in segment
    ensures var c := ParseFilter(ZERO, segment, resolve);
            ParseSubfilter(ZERO, segment, resolve) == Parsed(ZERO.(sub := [c.node]), c.status)
  {
  }

  /** Two separator-free pieces joined by one separator split back apart. */
  lemma SplitTwo(a: string, b: string, t: char)
    requires a != [] && b != [] && t !in a && t !in b
    ensures Split(a + [t] + b, t) == [a + [t], b]
  {
    var s := a + [t] + b;
    assert s[|a|] == t;
    var k := IndexOf(s, t);
    assert k == |a|;
    assert s[..k + 1] == a + [t] && s[k + 1..] == b;
    assert IndexOf(b, t) == |b|;
    assert [b][1..] == [];
  }

  lemma TreeThree(resolve: Resolver)
    ensures ParseFilter(ZERO, "tree:3", resolve)
         == Parsed(ZERO.(choice := TreeDepth, treeExcludeDepth := 3), Ok)
  {
    assert "tree:3" == TREE_PREFIX + "3";
    assert ParseUlong("3") == Some(3);
    TreeDepthSet(ZERO, "3", resolve);
  }

  lemma ResultsOfTwo(a: string, b: string, resolve: Resolver)
    ensures Results([a, b], resolve)
         == [ParseSubfilter(ZERO, Segment([a, b], 0), resolve), ParseSubfilter(ZERO, b, resolve)]
  {
    assert [a, b][1..] == [b];
    assert [b][1..] == [];
  }

  lemma ChildrenOfTwo(p: Parsed, q: Parsed)
    ensures ChildrenOf([p, q]) == p.node.sub + q.node.sub
  {
    assert [p, q][1..] == [q];
    assert [q][1..] == [];
    assert ChildrenOf([q]) == q.node.sub + ChildrenOf([]);
  }

  /** The results of two plain segments, the first one ending in the separator. */
  lemma ResultsOfPlainTwo(a: string, b: string, resolve: Resolver)
    requires '%' !in a && '%' !in b && FirstReserved(a) == None && FirstReserved(b) == None
    ensures var ra := ParseFilter(ZERO, a, resolve);
            var rb := ParseFilter(ZERO, b, resolve);
            Results([a + ['+'], b], resolve)
              == [Parsed(ZERO.(sub := [ra.node]), ra.status), Parsed(ZERO.(sub := [rb.node]), rb.status)]
  {
    ResultsOfTwo(a + ['+'], b, resolve);
    assert Segment([a + ['+'], b], 0) == a;
    PlainSegment(a, resolve);
    PlainSegment(b, resolve);
  }

  /** Success and children of two results, each holding one child. */
  lemma TwoResults(na: Node, nb: Node, sa: Status, sb: Status)
    ensures var rs := [Parsed(ZERO.(sub := [na]), sa), Parsed(ZERO.(sub := [nb]), sb)];
            (AllOk(rs) <==> sa.Ok? && sb.Ok?) && ChildrenOf(rs) == [na, nb]
  {
    var rs := [Parsed(ZERO.(sub := [na]), sa), Parsed(ZERO.(sub := [nb]), sb)];
    ChildrenOfTwo(rs[0], rs[1]);
    assert rs[1] == Parsed(ZERO.(sub := [nb]), sb);
  }

  /**
   * `combine:A+B`, with nothing in A or B to escape or decode, parses A and
   * B from scratch; when both succeed they become the two children, in order.
   */
  lemma CombineOfTwo(a: string, b: string, resolve: Resolver)
    requires a != [] && b != [] && '+' !in a && '+' !in b && '%' !in a && '%' !in b
    requires FirstReserved(a) == None && FirstReserved(b) == None
    ensures var r := ParseFilter(ZERO, COMBINE_PREFIX + (a + "+" + b), resolve);
            var ra := ParseFilter(ZERO, a, resolve);
            var rb := ParseFilter(ZERO, b, resolve);
            && (r.status.Ok? <==> ra.status.Ok? && rb.status.Ok?)
            && (r.status.Ok? ==> r.node == ZERO.(choice := Combine, sub := [ra.node, rb.node]))
  {
    var rest := a + "+" + b;
    SplitTwo(a, b, '+');
    ResultsOfPlainTwo(a, b, resolve);
    var ra := ParseFilter(ZERO, a, resolve);
    var rb := ParseFilter(ZERO, b, resolve);
    TwoResults(ra.node, rb.node, ra.status, rb.status);
    CombineParse(ZERO, rest, resolve);
  }

  /** Letters, digits, ':', '=' and '%' are not reserved. */
  predicate Unreserved(c: char) {
    'a' <= c <= 'z' || 'A' <= c <= 'Z' || '0' <= c <= '9' || c == ':' || c == '=' || c == '%'
  }

  /** Text made of unreserved characters passes the scan. */
  lemma NothingReserved(s: string)
    requires forall i :: 0 <= i < |s| ==> Unreserved(s[i])
    ensures FirstReserved(s) == None
  {
    forall i | 0 <= i < |s|
      ensures !IsReserved(s[i])
    {
      if s[i] == ':' || s[i] == '=' || s[i] == '%' {
        SpecPunctuationAllowed();
      } else {
        AlphanumericNotReserved(s[i]);
      }
    }
  }

  /** Lower-case letters, digits, ':' and '=' need no escaping, decoding or splitting. */
  lemma PlainText(s: string)
    requires forall i :: 0 <= i < |s| ==> 'a' <= s[i] <= 'z' || '0' <= s[i] <= '9' || s[i] == ':' || s[i] == '='
    ensures FirstReserved(s) == None && '%' !in s && '+' !in s
  {
    forall i | 0 <= i < |s|
      ensures !IsReserved(s[i])
    {
      if s[i] == ':' || s[i] == '=' {
        SpecPunctuationAllowed();
      } else {
        AlphanumericNotReserved(s[i]);
      }
    }
  }

  lemma AlphanumericNotReserved(c: char)
    requires 'a' <= c <= 'z' || 'A' <= c <= 'Z' || '0' <= c <= '9'
    ensures !IsReserved(c)
  {
    forall i | 0 <= i < |RESERVED_NON_WS|
      ensures RESERVED_NON_WS[i] != c
    {
    }
  }

  lemma BlobNonePlain()
    ensures FirstReserved(BLOB_NONE) == None && '%' !in BLOB_NONE && '+' !in BLOB_NONE
  {
    PlainText(BLOB_NONE);
  }

  lemma TreeThreePlain()
    ensures FirstReserved("tree:3") == None && '%' !in "tree:3" && '+' !in "tree:3"
  {
    PlainText("tree:3");
  }

  lemma BlobNoneAlone(resolve: Resolver)
    ensures ParseFilter(ZERO, BLOB_NONE, resolve) == Parsed(ZERO.(choice := BlobNone), Ok)
  {
  }

  /** Two segments give two children, in order. */
  lemma CombineTwo(resolve: Resolver)
    ensures var r := ParseFilter(ZERO, COMBINE_PREFIX + (BLOB_NONE + "+" + "tree:3"), resolve);
            r.status == Ok
            && r.node == ZERO.(choice := Combine,
                               sub := [ZERO.(choice := BlobNone), ZERO.(choice := TreeDepth, treeExcludeDepth := 3)])
  {
    BlobNonePlain();
    TreeThreePlain();
    BlobNoneAlone(resolve);
    TreeThree(resolve);
    CombineOfTwo(BLOB_NONE, "tree:3", resolve);
  }

  /** Text without the separator is one piece. */
  lemma SplitOne(a: string, t: char)
    requires a != [] && t !in a
    ensures Split(a, t) == [a]
  {
    assert IndexOf(a, t) == |a|;
  }

  /** The first reserved character is the one with none before it. */
  lemma FirstReservedIs(s: string, i: nat)
    requires i < |s| && IsReserved(s[i])
    requires forall j :: 0 <= j < i ==> !IsReserved(s[j])
    ensures FirstReserved(s) == Some(s[i])
  {
  }

  /** After unreserved text, the first reserved character is the one that follows it. */
  lemma ReservedAfterWord(w: string, c: char, tail: string)
    requires forall i :: 0 <= i < |w| ==> Unreserved(w[i])
    requires IsReserved(c)
    ensures FirstReserved(w + [c] + tail) == Some(c)
  {
    var s := w + [c] + tail;
    NothingReserved(w);
    forall j | 0 <= j < |w|
      ensures !IsReserved(s[j])
    {
      assert s[j] == w[j];
      assert !IsReserved(w[j]) by { FirstReservedNone(w, j); }
    }
    FirstReservedIs(s, |w|);
  }

  /** Text that passes the scan has no reserved character anywhere. */
  lemma FirstReservedNone(s: string, j: nat)
    requires FirstReserved(s) == None && j < |s|
    ensures !IsReserved(s[j])
  {
  }

  /** A segment with a reserved character appends a ZERO child and fails. */
  lemma SubfilterUnescaped(segment: string, c: char, resolve: Resolver)
    requires FirstReserved(segment) == Some(c)
    ensures ParseSubfilter(ZERO, segment, resolve) == Parsed(ZERO.(sub := [ZERO]), Failed(MustEscape(c)))
  {
  }

  /** A one-segment combine whose segment fails reports that segment's error. */
  lemma CombineOfOneFailing(a: string, resolve: Resolver)
    requires a != [] && '+' !in a
    requires ParseSubfilter(ZERO, a, resolve).status.Failed?
    ensures ParseFilter(ZERO, COMBINE_PREFIX + a, resolve) == Parsed(ZERO, ParseSubfilter(ZERO, a, resolve).status)
  {
    SplitOne(a, '+');
    var rs := Results([a], resolve);
    assert rs == [ParseSubfilter(ZERO, a, resolve)] by {
      assert Segment([a], 0) == a;
      assert [a][1..] == [];
    }
    CombineParse(ZERO, a, resolve);
    CombineReportsFirstFailure(ZERO, a, resolve);
  }

  /**
   * A reserved character left unencoded in a segment fails the whole
   * combine with the escape message, and the node is rolled back.
   */
  lemma CombineUnescaped(resolve: Resolver)
    ensures ParseFilter(ZERO, COMBINE_PREFIX + "blob;none", resolve)
         == Parsed(ZERO, Failed(MustEscape(';')))
  {
    SemicolonSegment(resolve);
    CombineOfOneFailing("blob;none", resolve);
  }

  lemma SemicolonIsReserved()
    ensures IsReserved(';')
  {
    assert RESERVED_NON_WS[16] == ';';
  }

  lemma BlobWordUnreserved()
    ensures forall i :: 0 <= i < |"blob"| ==> Unreserved("blob"[i])
  {
  }

  lemma SemicolonReserved()
    ensures FirstReserved("blob;none") == Some(';')
  {
    assert "blob;none" == "blob" + [';'] + "none";
    BlobWordUnreserved();
    SemicolonIsReserved();
    ReservedAfterWord("blob", ';', "none");
  }

  lemma SemicolonNoPlus()
    ensures '+' !in "blob;none"
  {
    assert "blob;none" == "blob" + [';'] + "none";
    PlainText("blob");
    PlainText("none");
  }

  lemma SemicolonSegment(resolve: Resolver)
    ensures ParseSubfilter(ZERO, "blob;none", resolve) == Parsed(ZERO.(sub := [ZERO]), Failed(MustEscape(';')))
    ensures '+' !in "blob;none"
  {
    SemicolonReserved();
    SubfilterUnescaped("blob;none", ';', resolve);
    SemicolonNoPlus();
  }

  /**
   * `combine:A+B` whose first segment fails reports A's error, and the
   * node is rolled back to ZERO whatever B would have given.
   */
  lemma CombineOfTwoFirstFails(a: string, b: string, resolve: Resolver)
    requires a != [] && b != [] && '+' !in a && '+' !in b && '%' !in a && '%' !in b
    requires FirstReserved(a) == None && FirstReserved(b) == None
    requires ParseFilter(ZERO, a, resolve).status.Failed?
    ensures ParseFilter(ZERO, COMBINE_PREFIX + (a + "+" + b), resolve)
         == Parsed(ZERO, ParseFilter(ZERO, a, resolve).status)
  {
    var rest := a + "+" + b;
    SplitTwo(a, b, '+');
    ResultsOfPlainTwo(a, b, resolve);
    var ra := ParseFilter(ZERO, a, resolve);
    var rb := ParseFilter(ZERO, b, resolve);
    TwoResults(ra.node, rb.node, ra.status, rb.status);
    CombineParse(ZERO, rest, resolve);
    CombineReportsFirstFailure(ZERO, rest, resolve);
    FirstOfTwoFails(Parsed(ZERO.(sub := [ra.node]), ra.status), Parsed(ZERO.(sub := [rb.node]), rb.status),
                    ParseFilter(ZERO, COMBINE_PREFIX + rest, resolve).status);
  }

  /** When the first of two results failed, the first failure is its. */
  lemma FirstOfTwoFails(p: Parsed, q: Parsed, s: Status)
    requires p.status.Failed? && ReportsFirstFailure([p, q], s)
    ensures s == p.status
  {
    var k :| 0 <= k < 2 && AllOk([p, q][..k]) && [p, q][k].status == s;
    assert k == 0;
  }

  lemma TreeAbcPlain()
    ensures FirstReserved("tree:abc") == None && '%' !in "tree:abc" && '+' !in "tree:abc"
  {
    PlainText("tree:abc");
  }

  /**
   * A bad first segment fails the combine with that segment's message; no
   * child of the second segment is left behind.
   */
  lemma CombineBadFirst(resolve: Resolver)
    ensures ParseFilter(ZERO, COMBINE_PREFIX + ("tree:abc" + "+" + BLOB_NONE), resolve)
         == Parsed(ZERO, Failed(ExpectedTreeDepth))
  {
    TreeAbcPlain();
    BlobNonePlain();
    TreeNotANumber(resolve);
    CombineOfTwoFirstFails("tree:abc", BLOB_NONE, resolve);
  }

  /**
   * `combine:` with one segment that passes the scan: the segment is
   * parsed from its decoded text, and its result decides the combine.
   */
  lemma CombineOfOne(seg: string, resolve: Resolver)
    requires seg != [] && '+' !in seg && FirstReserved(seg) == None
    ensures var c := ParseFilter(ZERO, Decode(seg), resolve);
            var r := ParseFilter(ZERO, COMBINE_PREFIX + seg, resolve);
            && r.status == c.status
            && r.node == (if c.status.Ok? then ZERO.(choice := Combine, sub := [c.node]) else ZERO)
  {
    var c := ParseFilter(ZERO, Decode(seg), resolve);
    SplitOne(seg, '+');
    ResultsOfOne(seg, resolve);
    CombineParse(ZERO, seg, resolve);
    if c.status.Failed? {
      CombineOfOneFailing(seg, resolve);
    }
  }

  /** The one result of a single scan-passing segment, and its children. */
  lemma ResultsOfOne(seg: string, resolve: Resolver)
    requires FirstReserved(seg) == None
    ensures var c := ParseFilter(ZERO, Decode(seg), resolve);
            && Results([seg], resolve) == [Parsed(ZERO.(sub := [c.node]), c.status)]
            && ChildrenOf(Results([seg], resolve)) == [c.node]
  {
    var c := ParseFilter(ZERO, Decode(seg), resolve);
    assert Segment([seg], 0) == seg;
    assert ZERO.sub == [];
    assert ParseSubfilter(ZERO, seg, resolve) == Parsed(ZERO.(sub := [c.node]), c.status);
    assert [seg][1..] == [];
    assert [Parsed(ZERO.(sub := [c.node]), c.status)][1..] == [];
  }

  /** The escape `%3B` decodes to ';' in the middle of an oid expression. */
  lemma DecodeEscapedSemicolon()
    ensures Decode(SPARSE_OID_PREFIX + "a%3Bb") == SPARSE_OID_PREFIX + "a;b"
  {
    assert SPARSE_OID_PREFIX + "a%3Bb" == (SPARSE_OID_PREFIX + "a") + "%3Bb";
    DecodePlainPrefix(SPARSE_OID_PREFIX + "a", "%3Bb");
    assert StartsWithEscape("%3Bb") && EscapedByte("%3Bb") == 59;
    assert "%3Bb"[3..] == "b";
    assert Decode("%3Bb") == ";b";
    assert (SPARSE_OID_PREFIX + "a") + ";b" == SPARSE_OID_PREFIX + "a;b";
  }

  lemma EscapedOidPlain()
    ensures FirstReserved(SPARSE_OID_PREFIX + "a%3Bb") == None && '+' !in SPARSE_OID_PREFIX + "a%3Bb"
  {
    var s := SPARSE_OID_PREFIX + "a%3Bb";
    assert forall i :: 0 <= i < |s| ==> Unreserved(s[i]) && s[i] != '+';
    NothingReserved(s);
  }

  /** On a zero node, `sparse:oid=` stores whatever the resolver gives. */
  lemma OidChild(expr: string, resolve: Resolver)
    ensures ParseFilter(ZERO, SPARSE_OID_PREFIX + expr, resolve)
         == Parsed(ZERO.(choice := SparseOid, sparseOid := resolve(expr)), Ok)
  {
    SparseOidAccepted(ZERO, expr, resolve);
  }

  /**
   * An escaped ';' passes the scan: `combine:sparse:oid=a%3Bb` resolves
   * the decoded expression `a;b` and gives one SparseOid child.
   */
  lemma CombineEscapedOid(resolve: Resolver)
    ensures ParseFilter(ZERO, COMBINE_PREFIX + (SPARSE_OID_PREFIX + "a%3Bb"), resolve)
         == Parsed(ZERO.(choice := Combine, sub := [ZERO.(choice := SparseOid, sparseOid := resolve("a;b"))]), Ok)
  {
    EscapedOidPlain();
    DecodeEscapedSemicolon();
    OidChild("a;b", resolve);
    CombineOfOne(SPARSE_OID_PREFIX + "a%3Bb", resolve);
  }

  lemma OidWordUnreserved()
    ensures forall i :: 0 <= i < |SPARSE_OID_PREFIX + "a"| ==> Unreserved((SPARSE_OID_PREFIX + "a")[i])
  {
  }

  lemma UnescapedOidReserved()
    ensures FirstReserved(SPARSE_OID_PREFIX + "a;b") == Some(';')
  {
    var w := SPARSE_OID_PREFIX + "a";
    assert SPARSE_OID_PREFIX + "a;b" == w + [';'] + "b";
    OidWordUnreserved();
    SemicolonIsReserved();
    ReservedAfterWord(w, ';', "b");
  }

  lemma OidNoPlus()
    ensures '+' !in SPARSE_OID_PREFIX + "a;b"
  {
    assert SPARSE_OID_PREFIX + "a;b" == (SPARSE_OID_PREFIX + "a") + [';'] + "b";
    PlainText(SPARSE_OID_PREFIX + "a");
    PlainText("b");
  }

  lemma UnescapedOidSegment(resolve: Resolver)
    ensures ParseSubfilter(ZERO, SPARSE_OID_PREFIX + "a;b", resolve) == Parsed(ZERO.(sub := [ZERO]), Failed(MustEscape(';')))
    ensures '+' !in SPARSE_OID_PREFIX + "a;b"
  {
    UnescapedOidReserved();
    SubfilterUnescaped(SPARSE_OID_PREFIX + "a;b", ';', resolve);
    OidNoPlus();
  }

  /** The same expression with its ';' unescaped fails the scan. */
  lemma CombineUnescapedOid(resolve: Resolver)
    ensures ParseFilter(ZERO, COMBINE_PREFIX + (SPARSE_OID_PREFIX + "a;b"), resolve)
         == Parsed(ZERO, Failed(MustEscape(';')))
  {
    UnescapedOidSegment(resolve);
    CombineOfOneFailing(SPARSE_OID_PREFIX + "a;b", resolve);
  }

  /** Decoding stops at `%00`, so what follows it is never read. */
  lemma DecodeNulEscape()
    ensures Decode(BLOB_NONE + "%00") == BLOB_NONE
  {
    DecodePlainPrefix(BLOB_NONE, "%00");
    assert StartsWithEscape("%00") && EscapedByte("%00") == 0;
    assert BLOB_NONE + [] == BLOB_NONE;
  }

  /** `combine:blob:none%00` gives one BlobNone child: the text ends at the decoded NUL. */
  lemma CombineNulEscape(resolve: Resolver)
    ensures ParseFilter(ZERO, COMBINE_PREFIX + (BLOB_NONE + "%00"), resolve)
         == Parsed(ZERO.(choice := Combine, sub := [ZERO.(choice := BlobNone)]), Ok)
  {
    var s := BLOB_NONE + "%00";
    assert forall i :: 0 <= i < |s| ==> Unreserved(s[i]) && s[i] != '+';
    NothingReserved(s);
    DecodeNulEscape();
    BlobNoneAlone(resolve);
    CombineOfOne(s, resolve);
  }
}
