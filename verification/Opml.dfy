/** OPML import: the streaming complexity check on XML tokens, the recursive extraction of feed
    URLs, and their deduplication. */
module Opml {
  import opened Results
  import opened Collections

  const OPML_MAX_DEPTH: int := 50
  const OPML_MAX_ELEMENTS: int := 50_000

  /** What the XML decoder yields. Other stands for text, comments and the like; Bad for a syntax
      error, after which nothing follows. Start carries the element's name and its xmlUrl attribute,
      "" without one. */
  datatype Token = Start(name: string, xmlUrl: string) | End | Other | Bad

  /** A document: elements with their content in order. */
  datatype Node = Element(name: string, xmlUrl: string, content: seq<Node>) | Text

  function NodeTokens(n: Node): seq<Token>
    decreases n, 0
  {
    match n
    case Text => [Other]
    case Element(name, url, content) => [Start(name, url)] + Tokens(content) + [End]
  }

  /** The token stream of a forest. */
  function Tokens(nodes: seq<Node>): seq<Token>
    decreases nodes, 1
  {
    if nodes == [] then [] else NodeTokens(nodes[0]) + Tokens(nodes[1..])
  }

  function NodeHeight(n: Node): nat
    decreases n, 0
  {
    match n
    case Text => 0
    case Element(_, _, content) => 1 + Height(content)
  }

  /** Elements on the longest path. */
  function Height(nodes: seq<Node>): nat
    decreases nodes, 1
  {
    if nodes == [] then 0 else
      var h, r := NodeHeight(nodes[0]), Height(nodes[1..]);
      if h < r then r else h
  }

  function NodeElements(n: Node): nat
    decreases n, 0
  {
    match n
    case Text => 0
    case Element(_, _, content) => 1 + Elements(content)
  }

  function Elements(nodes: seq<Node>): nat
    decreases nodes, 1
  {
    if nodes == [] then 0 else NodeElements(nodes[0]) + Elements(nodes[1..])
  }

  // ---------------------------------------------------------------------------------------
  // The streaming check.
  // ---------------------------------------------------------------------------------------

  datatype Counters = Counters(depth: int, elements: int) | Refused(message: string)

  function Advance(c: Counters, t: Token): Counters {
    if c.Refused? then c else
      match t
      case Bad => Refused("invalid XML")
      case Start(_, _) =>
        if c.depth + 1 > OPML_MAX_DEPTH then Refused("nesting depth exceeds maximum")
        else if c.elements + 1 > OPML_MAX_ELEMENTS then Refused("element count exceeds maximum")
        else Counters(c.depth + 1, c.elements + 1)
      case End => Counters(c.depth - 1, c.elements)
      case Other => c
  }

  function Scan(c: Counters, tokens: seq<Token>): Counters {
    if tokens == [] then c else Advance(Scan(c, tokens[..|tokens| - 1]), tokens[|tokens| - 1])
  }

  lemma {:induction false} RefusedStays(c: Counters, tokens: seq<Token>, i: nat)
    requires i <= |tokens|
    ensures Scan(c, tokens[..i]).Refused? ==> Scan(c, tokens) == Scan(c, tokens[..i])
    decreases |tokens|
  {
    if i == |tokens| {
      assert tokens[..i] == tokens;
    } else {
      var n := |tokens| - 1;
      RefusedStays(c, tokens[..n], i);
      assert tokens[..n][..i] == tokens[..i];
    }
  }

  method ValidateOPMLComplexity(tokens: seq<Token>) returns (r: Result<()>)
    ensures r.Ok? <==> Scan(Counters(0, 0), tokens).Counters?
    ensures r.Err? ==> Scan(Counters(0, 0), tokens) == Refused(r.message)
  {
    var depth, elements := 0, 0;
    var i := 0;
    while i < |tokens|
      invariant 0 <= i <= |tokens| && Scan(Counters(0, 0), tokens[..i]) == Counters(depth, elements)
    {
      assert tokens[..i + 1][..i] == tokens[..i];
      RefusedStays(Counters(0, 0), tokens, i + 1);
      match tokens[i] {
        case Bad => return Err("invalid XML");
        case Start(_, _) =>
          depth := depth + 1;
          elements := elements + 1;
          if depth > OPML_MAX_DEPTH {
            return Err("nesting depth exceeds maximum");
          }
          if elements > OPML_MAX_ELEMENTS {
            return Err("element count exceeds maximum");
          }
        case End => depth := depth - 1;
        case Other =>
      }
      i := i + 1;
    }
    assert tokens[..i] == tokens;
    r := Ok(());
  }

  lemma {:induction false} ScanSplit(c: Counters, a: seq<Token>, b: seq<Token>)
    ensures Scan(c, a + b) == Scan(Scan(c, a), b)
  {
    if b == [] {
      assert a + b == a;
    } else {
      var n := |b| - 1;
      ScanSplit(c, a, b[..n]);
      assert (a + b)[..|a + b| - 1] == a + b[..n];
    }
  }

  lemma {:induction false} ScanRefused(c: Counters, tokens: seq<Token>)
    requires c.Refused?
    ensures Scan(c, tokens) == c
  {
    if tokens != [] {
      ScanRefused(c, tokens[..|tokens| - 1]);
    }
  }

  lemma {:induction false} ScanOne(c: Counters, t: Token)
    ensures Scan(c, [t]) == Advance(c, t)
  {
    assert [t][..0] == [];
  }

  /** The budget a forest needs from the counters it starts with. */
  predicate Fits(c: Counters, height: nat, elements: nat) {
    c.Counters? && c.depth + height <= OPML_MAX_DEPTH && c.elements + elements <= OPML_MAX_ELEMENTS
  }

  /** A scan passes a forest exactly if its height and size fit, and leaves the depth as it was. */
  ghost predicate ScanExact(c: Counters, after: Counters, height: nat, elements: nat)
    requires c.Counters?
  {
    && (after.Counters? <==> Fits(c, height, elements))
    && (after.Counters? ==> after == Counters(c.depth, c.elements + elements))
  }

  predicate Legal(c: Counters) {
    c.Counters? && c.depth <= OPML_MAX_DEPTH && c.elements <= OPML_MAX_ELEMENTS
  }

  lemma {:induction false} ScanNode(c: Counters, n: Node)
    requires Legal(c)
    ensures ScanExact(c, Scan(c, NodeTokens(n)), NodeHeight(n), NodeElements(n))
    decreases n, 0
  {
    match n
    case Text =>
      ScanOne(c, Other);
    case Element(name, url, content) =>
      ScanOne(c, Start(name, url));
      var inside := Advance(c, Start(name, url));
      ScanSplit(c, [Start(name, url)] + Tokens(content), [End]);
      ScanSplit(c, [Start(name, url)], Tokens(content));
      ScanOne(Scan(inside, Tokens(content)), End);
      if inside.Counters? {
        ScanForest(inside, content);
      } else {
        ScanRefused(inside, Tokens(content));
      }
  }

  lemma {:induction false} ScanForest(c: Counters, nodes: seq<Node>)
    requires Legal(c)
    ensures ScanExact(c, Scan(c, Tokens(nodes)), Height(nodes), Elements(nodes))
    decreases nodes, 1
  {
    if nodes != [] {
      ScanNode(c, nodes[0]);
      var mid := Scan(c, NodeTokens(nodes[0]));
      ScanSplit(c, NodeTokens(nodes[0]), Tokens(nodes[1..]));
      if mid.Counters? {
        ScanForest(mid, nodes[1..]);
      } else {
        ScanRefused(mid, Tokens(nodes[1..]));
      }
    }
  }

  /** The check accepts the token stream of a document exactly if its elements nest at most 50 deep
      and number at most 50000. */
  lemma {:induction false} CheckMeasuresDocument(nodes: seq<Node>)
    ensures Scan(Counters(0, 0), Tokens(nodes)).Counters?
       <==> Height(nodes) <= 50 && Elements(nodes) <= 50_000
  {
    ScanForest(Counters(0, 0), nodes);
  }

  function Opened(tokens: seq<Token>): nat {
    if tokens == [] then 0 else Opened(tokens[..|tokens| - 1]) + (if tokens[|tokens| - 1].Start? then 1 else 0)
  }

  function Closed(tokens: seq<Token>): nat {
    if tokens == [] then 0 else Closed(tokens[..|tokens| - 1]) + (if tokens[|tokens| - 1].End? then 1 else 0)
  }

  /** No syntax error, at most 50 elements open after any token, at most 50000 in all. */
  ghost predicate Acceptable(tokens: seq<Token>) {
    && (forall i :: 0 <= i < |tokens| ==> !tokens[i].Bad?)
    && (forall i :: 0 <= i <= |tokens| ==> Opened(tokens[..i]) - Closed(tokens[..i]) <= 50)
    && Opened(tokens) <= 50_000
  }

  lemma {:induction false} AcceptableStep(tokens: seq<Token>)
    requires tokens != []
    ensures var n := |tokens| - 1;
      Acceptable(tokens) <==> && Acceptable(tokens[..n]) && !tokens[n].Bad?
                              && Opened(tokens) - Closed(tokens) <= 50 && Opened(tokens) <= 50_000
  {
    var n := |tokens| - 1;
    assert tokens[..|tokens|] == tokens;
    assert forall i :: 0 <= i <= n ==> tokens[..n][..i] == tokens[..i];
    assert forall i :: 0 <= i < n ==> tokens[..n][i] == tokens[i];
    if Acceptable(tokens) {
      assert forall i :: 0 <= i <= n ==> Opened(tokens[..n][..i]) - Closed(tokens[..n][..i]) <= 50;
    }
    if Acceptable(tokens[..n]) && Opened(tokens) - Closed(tokens) <= 50 {
      forall i | 0 <= i <= |tokens| ensures Opened(tokens[..i]) - Closed(tokens[..i]) <= 50 {
        assert i <= n ==> Opened(tokens[..n][..i]) - Closed(tokens[..n][..i]) <= 50;
      }
    }
  }

  /** Of any token stream, well nested or not, the check accepts exactly the acceptable ones. */
  lemma {:induction false} AcceptsExactly(tokens: seq<Token>)
    ensures Scan(Counters(0, 0), tokens).Counters? <==> Acceptable(tokens)
    ensures Acceptable(tokens) ==>
      Scan(Counters(0, 0), tokens) == Counters(Opened(tokens) - Closed(tokens), Opened(tokens))
  {
    if tokens != [] {
      AcceptsExactly(tokens[..|tokens| - 1]);
      AcceptableStep(tokens);
    } else {
      assert forall i :: 0 <= i <= |tokens| ==> tokens[..i] == [];
    }
  }

  /** A refusal names what the first token that is too much breaks: the syntax, the depth, or else the
      number of elements. */
  lemma {:induction false} RefusalNamesReason(tokens: seq<Token>) returns (i: nat)
    requires Scan(Counters(0, 0), tokens).Refused?
    ensures i < |tokens| && Acceptable(tokens[..i])
    ensures var message := Scan(Counters(0, 0), tokens).message;
      if tokens[i].Bad? then message == "invalid XML"
      else if Opened(tokens[..i]) - Closed(tokens[..i]) == 50 then message == "nesting depth exceeds maximum"
      else message == "element count exceeds maximum" && Opened(tokens[..i]) == 50_000
    ensures tokens[i].Bad? || tokens[i].Start?
  {
    var n := |tokens| - 1;
    if Scan(Counters(0, 0), tokens[..n]).Refused? {
      i := RefusalNamesReason(tokens[..n]);
      assert tokens[..n][..i] == tokens[..i];
    } else {
      i := n;
      AcceptsExactly(tokens[..n]);
      assert tokens[..n][..n] == tokens[..n];
    }
  }

  // ---------------------------------------------------------------------------------------
  // Extraction.
  // ---------------------------------------------------------------------------------------

  /** The outlines a body unmarshals to: its outline children and, inside each, theirs. Elements of
      other names are dropped with all their content. */
  datatype Outline = Outline(xmlUrl: string, outlines: seq<Outline>)

  predicate IsOutline(n: Node) {
    n.Element? && n.name == "outline"
  }

  function OutlineOf(n: Node): Outline
    requires IsOutline(n)
    decreases n, 0
  {
    Outline(n.xmlUrl, OutlinesOf(n.content))
  }

  function OutlinesOf(nodes: seq<Node>): seq<Outline>
    decreases nodes, 1
  {
    if nodes == [] then []
    else if IsOutline(nodes[0]) then [OutlineOf(nodes[0])] + OutlinesOf(nodes[1..])
    else OutlinesOf(nodes[1..])
  }

  /** The recursion over outlines: each one's URL, then those of the outlines inside it. */
  function ExtractFeeds(outlines: seq<Outline>): seq<string>
    decreases outlines
  {
    if outlines == [] then [] else
      var o := outlines[0];
      (if o.xmlUrl != "" then [o.xmlUrl] else []) + ExtractFeeds(o.outlines) + ExtractFeeds(outlines[1..])
  }

  function OutlineDepth(outlines: seq<Outline>): nat
    decreases outlines
  {
    if outlines == [] then 0 else
      var h, r := 1 + OutlineDepth(outlines[0].outlines), OutlineDepth(outlines[1..]);
      if h < r then r else h
  }

  /** Elements open below the first one that is not an outline, itself included: 0 while every open
      element is an outline. */
  function Hidden(hidden: nat, t: Token): nat {
    match t
    case Start(name, _) => if hidden == 0 && name == "outline" then 0 else hidden + 1
    case End => if hidden == 0 then 0 else hidden - 1
    case _ => hidden
  }

  function HiddenAfter(hidden: nat, tokens: seq<Token>): nat
    decreases |tokens|
  {
    if tokens == [] then hidden else HiddenAfter(Hidden(hidden, tokens[0]), tokens[1..])
  }

  /** The URL a start tag shows: on an outline below outlines only. */
  function VisibleUrl(hidden: nat, t: Token): seq<string> {
    if t.Start? && t.xmlUrl != "" && Hidden(hidden, t) == 0 then [t.xmlUrl] else []
  }

  /** The URLs of outlines all of whose open ancestors are outlines, as their start tags appear. */
  function VisibleUrls(hidden: nat, tokens: seq<Token>): seq<string>
    decreases |tokens|
  {
    if tokens == [] then [] else
      VisibleUrl(hidden, tokens[0]) + VisibleUrls(Hidden(hidden, tokens[0]), tokens[1..])
  }

  lemma {:induction false} VisibleSplit(hidden: nat, a: seq<Token>, b: seq<Token>)
    ensures VisibleUrls(hidden, a + b) == VisibleUrls(hidden, a) + VisibleUrls(HiddenAfter(hidden, a), b)
    ensures HiddenAfter(hidden, a + b) == HiddenAfter(HiddenAfter(hidden, a), b)
    decreases |a|
  {
    if a == [] {
      assert a + b == b;
    } else {
      var inside := Hidden(hidden, a[0]);
      VisibleSplit(inside, a[1..], b);
      assert (a + b)[1..] == a[1..] + b && (a + b)[0] == a[0];
      assert VisibleUrls(hidden, a + b) == VisibleUrl(hidden, a[0]) + VisibleUrls(inside, a[1..] + b);
    }
  }

  lemma {:induction false} VisibleOne(hidden: nat, t: Token)
    ensures HiddenAfter(hidden, [t]) == Hidden(hidden, t)
    ensures VisibleUrls(hidden, [t]) == VisibleUrl(hidden, t)
  {
    assert [t][1..] == [];
  }

  /** A node between its start and end tag. */
  lemma {:induction false} VisibleElement(hidden: nat, n: Node)
    requires n.Element?
    ensures var inside := Hidden(hidden, Start(n.name, n.xmlUrl)); var tokens := Tokens(n.content);
      && VisibleUrls(hidden, NodeTokens(n))
         == VisibleUrl(hidden, Start(n.name, n.xmlUrl)) + VisibleUrls(inside, tokens)
      && HiddenAfter(hidden, NodeTokens(n)) == Hidden(HiddenAfter(inside, tokens), End)
  {
    var start, tokens := Start(n.name, n.xmlUrl), Tokens(n.content);
    VisibleSplit(hidden, [start] + tokens, [End]);
    VisibleSplit(hidden, [start], tokens);
    VisibleOne(hidden, start);
    VisibleOne(HiddenAfter(hidden, [start] + tokens), End);
  }

  /** A node leaves the count of open hidden elements as it was; below a hidden one all is hidden,
      otherwise what is visible is what the extraction yields. */
  ghost predicate VisibleExact(hidden: nat, tokens: seq<Token>, extracted: seq<string>) {
    HiddenAfter(hidden, tokens) == hidden && VisibleUrls(hidden, tokens) == if hidden == 0 then extracted else []
  }

  /** What one node contributes to the extraction. */
  function NodeFeeds(n: Node): seq<string> {
    if IsOutline(n) then (if n.xmlUrl != "" then [n.xmlUrl] else []) + ExtractFeeds(OutlinesOf(n.content)) else []
  }

  lemma {:induction false} ExtractFirst(nodes: seq<Node>)
    requires nodes != []
    ensures ExtractFeeds(OutlinesOf(nodes)) == NodeFeeds(nodes[0]) + ExtractFeeds(OutlinesOf(nodes[1..]))
  {
    if IsOutline(nodes[0]) {
      assert OutlinesOf(nodes)[0] == OutlineOf(nodes[0]);
      assert OutlinesOf(nodes)[1..] == OutlinesOf(nodes[1..]);
    }
  }

  lemma {:induction false} VisibleNode(hidden: nat, n: Node)
    ensures VisibleExact(hidden, NodeTokens(n), NodeFeeds(n))
    decreases n, 0
  {
    match n
    case Text => VisibleOne(hidden, Other);
    case Element(name, url, content) =>
      VisibleElement(hidden, n);
      VisibleForest(Hidden(hidden, Start(name, url)), content);
  }

  lemma {:induction false} VisibleForest(hidden: nat, nodes: seq<Node>)
    ensures VisibleExact(hidden, Tokens(nodes), ExtractFeeds(OutlinesOf(nodes)))
    decreases nodes, 1
  {
    if nodes != [] {
      VisibleNode(hidden, nodes[0]);
      VisibleForest(hidden, nodes[1..]);
      VisibleSplit(hidden, NodeTokens(nodes[0]), Tokens(nodes[1..]));
      ExtractFirst(nodes);
    }
  }

  /** The recursive extraction yields, in document order, the URLs of the outlines whose ancestors
      below the body are all outlines. */
  lemma {:induction false} ExtractInDocumentOrder(body: seq<Node>)
    ensures ExtractFeeds(OutlinesOf(body)) == VisibleUrls(0, Tokens(body))
  {
    VisibleForest(0, body);
  }

  /** Every xmlUrl of a token stream, whatever element carries it. */
  function UrlsInOrder(tokens: seq<Token>): seq<string> {
    if tokens == [] then [] else
      (if tokens[0].Start? && tokens[0].xmlUrl != "" then [tokens[0].xmlUrl] else []) + UrlsInOrder(tokens[1..])
  }

  /** No element that carries an xmlUrl is, or lies inside, an element other than outline. */
  predicate OnlyOutlinesCarryUrls(hidden: nat, tokens: seq<Token>)
    decreases |tokens|
  {
    tokens != [] ==>
      var t := tokens[0];
      (t.Start? && t.xmlUrl != "" ==> Hidden(hidden, t) == 0) && OnlyOutlinesCarryUrls(Hidden(hidden, t), tokens[1..])
  }

  lemma {:induction false} VisibleAmongAll(hidden: nat, tokens: seq<Token>)
    ensures |VisibleUrls(hidden, tokens)| <= |UrlsInOrder(tokens)|
    ensures OnlyOutlinesCarryUrls(hidden, tokens) <==> |VisibleUrls(hidden, tokens)| == |UrlsInOrder(tokens)|
    ensures OnlyOutlinesCarryUrls(hidden, tokens) ==> VisibleUrls(hidden, tokens) == UrlsInOrder(tokens)
    decreases |tokens|
  {
    if tokens != [] {
      VisibleAmongAll(Hidden(hidden, tokens[0]), tokens[1..]);
    }
  }

  /** When the extraction finds every URL of the body: exactly if none is carried by, or lies
      inside, an element other than outline. */
  lemma {:induction false} ExtractsEveryUrlExactly(body: seq<Node>)
    ensures ExtractFeeds(OutlinesOf(body)) == UrlsInOrder(Tokens(body)) <==> OnlyOutlinesCarryUrls(0, Tokens(body))
  {
    ExtractInDocumentOrder(body);
    VisibleAmongAll(0, Tokens(body));
  }

  /** A URL on another element is lost, and so is one on an outline inside another element. */
  lemma {:induction false} OtherElementsLoseUrls()
    ensures ExtractFeeds(OutlinesOf([Element("foo", "u", [])])) == []
    ensures ExtractFeeds(OutlinesOf([Element("foo", "", [Element("outline", "u", [])])])) == []
  {
    var inner := [Element("outline", "u", [])];
    var nodes := [Element("foo", "", inner)];
    assert nodes[1..] == [] && [Element("foo", "u", [])][1..] == [];
  }

  lemma {:induction false} ExtractionFollowsSize(nodes: seq<Node>)
    ensures |ExtractFeeds(OutlinesOf(nodes))| <= Elements(nodes)
    ensures OutlineDepth(OutlinesOf(nodes)) <= Height(nodes)
    decreases nodes, 1
  {
    if nodes != [] {
      ExtractionFollowsSize(nodes[1..]);
      if IsOutline(nodes[0]) {
        NodeFollowsSize(nodes[0]);
        assert OutlinesOf(nodes)[0] == OutlineOf(nodes[0]);
        assert OutlinesOf(nodes)[1..] == OutlinesOf(nodes[1..]);
      }
    }
  }

  lemma {:induction false} NodeFollowsSize(n: Node)
    requires n.Element?
    ensures |ExtractFeeds(OutlinesOf(n.content))| <= Elements(n.content)
    ensures OutlineDepth(OutlinesOf(n.content)) <= Height(n.content)
    decreases n, 0
  {
    ExtractionFollowsSize(n.content);
  }

  lemma {:induction false} PartIsSmaller(before: seq<Node>, n: Node, after: seq<Node>)
    ensures NodeHeight(n) <= Height(before + ([n] + after))
    ensures NodeElements(n) <= Elements(before + ([n] + after))
  {
    var all := before + ([n] + after);
    if before == [] {
      assert all == [n] + after && all[0] == n;
    } else {
      PartIsSmaller(before[1..], n, after);
      assert all[1..] == before[1..] + ([n] + after) && all[0] == before[0];
    }
  }

  /** For a document the check accepts, the extraction below its body recurses at most 48 deep and
      yields fewer than 50000 URLs. The body is the child `n` of the root element, with anything
      before and after it. */
  lemma {:induction false} AcceptedDocumentsAreBounded(root: Node, before: seq<Node>, n: Node, after: seq<Node>)
    requires root.Element? && n.Element? && root.content == before + ([n] + after)
    requires Scan(Counters(0, 0), Tokens([root])).Counters?
    ensures OutlineDepth(OutlinesOf(n.content)) <= 48
    ensures |ExtractFeeds(OutlinesOf(n.content))| <= 49_998
  {
    CheckMeasuresDocument([root]);
    assert Elements([root]) == NodeElements(root) == 1 + Elements(root.content);
    assert Height([root]) == NodeHeight(root) == 1 + Height(root.content);
    PartIsSmaller(before, n, after);
    ExtractionFollowsSize(n.content);
  }

  /** Outlines nested n deep. */
  function Nested(n: nat): seq<Node> {
    if n == 0 then [] else [Element("outline", "", Nested(n - 1))]
  }

  lemma {:induction false} NestedSize(n: nat)
    ensures Height(Nested(n)) == Elements(Nested(n)) == OutlineDepth(OutlinesOf(Nested(n))) == n
  {
    if n > 0 {
      NestedSize(n - 1);
      assert Nested(n)[1..] == [] && OutlinesOf(Nested(n))[1..] == [];
    }
  }

  /** The depth of 48 is reached by an accepted document, and one more is refused. */
  lemma {:induction false} DepthIsReached(n: nat)
    ensures var root := Element("opml", "", [Element("body", "", Nested(n))]);
      && OutlineDepth(OutlinesOf(Nested(n))) == n
      && (Scan(Counters(0, 0), Tokens([root])).Counters? <==> n <= 48)
  {
    var body := Element("body", "", Nested(n));
    var root := Element("opml", "", [body]);
    NestedSize(n);
    CheckMeasuresDocument([root]);
    assert [root][1..] == [] && [body][1..] == [];
    assert Height([root]) == NodeHeight(root) == 1 + Height([body]) == 2 + n;
    assert Elements([root]) == NodeElements(root) == 1 + Elements([body]) == 2 + n;
  }

  // ---------------------------------------------------------------------------------------
  // Deduplication.
  // ---------------------------------------------------------------------------------------

  /** First occurrences of the non-empty strings, in order. */
  function FirstOccurrences(urls: seq<string>): seq<string> {
    if urls == [] then [] else
      var n := |urls| - 1;
      var out := FirstOccurrences(urls[..n]);
      if urls[n] != "" && urls[n] !in urls[..n] then out + [urls[n]] else out
  }

  method DeduplicateFeedURLs(urls: seq<string>) returns (out: seq<string>)
    ensures out == FirstOccurrences(urls)
  {
    var seen: set<string> := {};
    out := [];
    var i := 0;
    while i < |urls|
      invariant 0 <= i <= |urls| && out == FirstOccurrences(urls[..i])
      invariant forall u :: u in seen <==> u != "" && u in urls[..i]
    {
      assert urls[..i + 1][..i] == urls[..i];
      assert urls[..i + 1] == urls[..i] + [urls[i]];
      if urls[i] != "" && urls[i] !in seen {
        seen := seen + {urls[i]};
        out := out + [urls[i]];
      }
      i := i + 1;
    }
    assert urls[..i] == urls;
  }

  /** Nothing is lost but empty strings and repeats: each URL appears once, and of two URLs the one
      that occurred first comes first. */
  lemma {:induction false} FirstOccurrencesAreExact(urls: seq<string>)
    ensures Distinct(FirstOccurrences(urls))
    ensures forall u :: u in FirstOccurrences(urls) <==> u != "" && u in urls
  {
    if urls != [] {
      var n := |urls| - 1;
      FirstOccurrencesAreExact(urls[..n]);
      assert urls == urls[..n] + [urls[n]];
      if urls[n] != "" && urls[n] !in urls[..n] {
        DistinctConcat(FirstOccurrences(urls[..n]), [urls[n]]);
      }
    }
  }

  /** `place[i]` is where the i-th output first occurs, and places ascend. */
  lemma {:induction false} FirstOccurrencesKeepOrder(urls: seq<string>) returns (place: seq<nat>)
    ensures |place| == |FirstOccurrences(urls)|
    ensures forall i :: 0 <= i < |place| ==>
      place[i] < |urls| && urls[place[i]] == FirstOccurrences(urls)[i] && urls[place[i]] !in urls[..place[i]]
    ensures forall i, j :: 0 <= i < j < |place| ==> place[i] < place[j]
  {
    place := [];
    if urls != [] {
      var n := |urls| - 1;
      place := FirstOccurrencesKeepOrder(urls[..n]);
      assert forall i :: 0 <= i < |place| ==> urls[..n][..place[i]] == urls[..place[i]];
      if urls[n] != "" && urls[n] !in urls[..n] {
        place := place + [n];
      }
    }
  }
}
