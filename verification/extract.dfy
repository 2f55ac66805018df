/** The extraction algorithm of `Parser.Parse` and `Parser.readItem`: the
    walk that builds the id index and finds the top-level items, the
    construction of each top-level item, and the recursive reader that
    builds nested items, expands `itemref` and picks property values by tag.

    The reader carries a set of node paths whose `itemref` expansion is in
    progress on the current call chain and skips a reference to any of them;
    a nested item counts itself as in progress, so an `itemref` naming its
    own id contributes nothing. */
module Extract {
  import opened Wrappers
  import opened Text
  import opened Html
  import opened Items

  /** What one parse holds fixed: the id index (`identifiedNodes`) and URL
      resolution against the base URL (`base.Parse(ref)`, which can fail). */
  datatype Context = Context(index: map<string, Visit>, resolve: string -> Option<string>)

  /** The paths of the identified nodes, the only nodes `itemref` can reach. */
  function Targets(ctx: Context): set<Path>
  {
    set id | id in ctx.index :: ctx.index[id].path
  }

  // ---------------------------------------------------------------------
  // The walk in `Parse`: the id index and the top-level item nodes.
  // ---------------------------------------------------------------------

  function IdOf(v: Visit): Option<string>
  {
    GetAttr("id", v.node)
  }

  /** The id index built along the walk: each visit of a node with an `id`
      overwrites the entry of that id. */
  function IndexIds(walk: seq<Visit>): map<string, Visit>
    decreases |walk|
  {
    if |walk| == 0 then map[]
    else
      var m := IndexIds(walk[..|walk| - 1]);
      var last := walk[|walk| - 1];
      match IdOf(last)
      case Some(id) => m[id := last]
      case None => m
  }

  predicate HasId(walk: seq<Visit>, id: string)
  {
    exists k :: 0 <= k < |walk| && IdOf(walk[k]) == Some(id)
  }

  /** `walk[k]` is the last visit of `walk` that carries `id`. */
  predicate LastWithId(walk: seq<Visit>, id: string, k: int)
  {
    && 0 <= k < |walk| && IdOf(walk[k]) == Some(id)
    && forall j :: k < j < |walk| ==> IdOf(walk[j]) != Some(id)
  }

  /** The index holds exactly the ids carried by visited nodes. */
  lemma {:induction false} IndexDomain(walk: seq<Visit>)
    ensures forall id :: id in IndexIds(walk) <==> HasId(walk, id)
    decreases |walk|
  {
    if |walk| > 0 {
      var init, last := walk[..|walk| - 1], walk[|walk| - 1];
      assert walk == init + [last];
      IndexDomain(init);
      forall id
        ensures id in IndexIds(walk) <==> HasId(walk, id)
      {
        IndexDomainStep(init, last, id);
      }
    }
  }

  /** One visit more: `id` is indexed iff it was before or the new visit
      carries it. */
  lemma IndexDomainStep(init: seq<Visit>, last: Visit, id: string)
    requires id in IndexIds(init) <==> HasId(init, id)
    ensures id in IndexIds(init + [last]) <==> HasId(init + [last], id)
  {
    var walk := init + [last];
    assert walk[..|init|] == init;
    assert id in IndexIds(walk) <==> id in IndexIds(init) || IdOf(last) == Some(id);
    if HasId(init, id) {
      var k :| 0 <= k < |init| && IdOf(init[k]) == Some(id);
      assert walk[k] == init[k];
    }
    if HasId(walk, id) && IdOf(last) != Some(id) {
      var k :| 0 <= k < |walk| && IdOf(walk[k]) == Some(id);
      assert k < |init| && init[k] == walk[k];
    }
  }

  /** Each id of the index maps to the last visit in walk order that
      carries it: a later duplicate id overwrites an earlier one. */
  lemma {:induction false} IndexLastWins(walk: seq<Visit>, id: string)
    requires id in IndexIds(walk)
    ensures exists k :: LastWithId(walk, id, k) && IndexIds(walk)[id] == walk[k]
    decreases |walk|
  {
    var n := |walk| - 1;
    var init := walk[..n];
    if IdOf(walk[n]) == Some(id) {
      assert LastWithId(walk, id, n);
    } else {
      IndexLastWins(init, id);
      var k :| LastWithId(init, id, k) && IndexIds(init)[id] == init[k];
      assert init[k] == walk[k];
      assert LastWithId(walk, id, k);
    }
  }

  /** A node that starts a top-level item: `itemscope` without `itemprop`. */
  predicate IsItemRoot(n: Node)
  {
    HasAttr("itemscope", n) && !HasAttr("itemprop", n)
  }

  /** The top-level item nodes, in walk order. */
  function TopLevel(walk: seq<Visit>): (r: seq<Visit>)
    ensures forall v :: v in r <==> v in walk && IsItemRoot(v.node)
  {
    if |walk| == 0 then []
    else (if IsItemRoot(walk[0].node) then [walk[0]] else []) + TopLevel(walk[1..])
  }

  // ---------------------------------------------------------------------
  // The value of a scalar property, chosen by tag.
  // ---------------------------------------------------------------------

  /** Where the value of a property element comes from. */
  datatype Rule = FromAttr(name: string, resolved: bool) | FromText

  /** The tag table of `readItem`'s switch on `DataAtom`. */
  function ValueRule(tag: string): (r: Rule)
    ensures tag == "meta" ==> r == FromAttr("content", false)
    ensures tag in {"audio", "embed", "iframe", "img", "source", "track", "video"} ==> r == FromAttr("src", true)
    ensures tag in {"a", "area", "link"} ==> r == FromAttr("href", true)
    ensures tag == "object" ==> r == FromAttr("data", false)
    ensures tag in {"data", "meter"} ==> r == FromAttr("value", false)
    ensures tag == "time" ==> r == FromAttr("datetime", false)
    ensures r.FromAttr? && r.resolved <==>
      tag in {"audio", "embed", "iframe", "img", "source", "track", "video", "a", "area", "link"}
    ensures r.FromText? <==>
      tag !in {"meta", "audio", "embed", "iframe", "img", "source", "track", "video",
               "a", "area", "link", "object", "data", "meter", "time"}
  {
    if tag == "meta" then FromAttr("content", false)
    else if tag in {"audio", "embed", "iframe", "img", "source", "track", "video"} then FromAttr("src", true)
    else if tag in {"a", "area", "link"} then FromAttr("href", true)
    else if tag == "object" then FromAttr("data", false)
    else if tag in {"data", "meter"} then FromAttr("value", false)
    else if tag == "time" then FromAttr("datetime", false)
    else FromText
  }

  function TagOf(n: Node): string
  {
    if n.Element? then n.tag else ""
  }

  /** The string value of a property element without `itemscope`: the
      named attribute, URL-resolved for the `src` and `href` tags, or the
      text of the subtree's text nodes in walk order. A missing attribute,
      or a URL that does not resolve, gives "". */
  function PropertyValue(ctx: Context, n: Node): (r: string)
    ensures ValueRule(TagOf(n)).FromText? ==> r == WalkText(Walk(n, []))
    ensures ValueRule(TagOf(n)).FromAttr? && !HasAttr(ValueRule(TagOf(n)).name, n) ==> r == ""
    ensures ValueRule(TagOf(n)).FromAttr? && HasAttr(ValueRule(TagOf(n)).name, n) ==>
      r == (if ValueRule(TagOf(n)).resolved
            then ctx.resolve(GetAttr(ValueRule(TagOf(n)).name, n).value).GetOr("")
            else GetAttr(ValueRule(TagOf(n)).name, n).value)
  {
    match ValueRule(TagOf(n))
    case FromText =>
      TextContentIsWalkText(n, []);
      TextContent(n)
    case FromAttr(name, resolved) =>
      match GetAttr(name, n)
      case None => ""
      case Some(raw) =>
        if resolved then ctx.resolve(raw).GetOr("") else raw
  }

  // ---------------------------------------------------------------------
  // The reader.
  // ---------------------------------------------------------------------

  /** The `itemref` pieces of `n`; none when the attribute is missing. Unlike
      the `itemtype` and `itemprop` lists, empty pieces are kept, so a run of
      spaces looks up the id "". */
  function RefTokens(n: Node): seq<string>
  {
    match GetAttr("itemref", n)
    case None => []
    case Some(refs) => Pieces(refs)
  }

  lemma {:induction false} CardMono(a: set<Path>, b: set<Path>)
    requires a <= b
    ensures |a| <= |b|
    decreases |a|
  {
    if a != {} {
      var x :| x in a;
      CardMono(a - {x}, b - {x});
    }
  }

  lemma SubsetCard(all: set<Path>, small: set<Path>, big: set<Path>)
    requires small <= big
    ensures |all - big| <= |all - small|
  {
    CardMono(all - big, all - small);
  }

  lemma ProperSubsetCard(a: set<Path>, b: set<Path>)
    requires a < b
    ensures |a| < |b|
  {
    var x :| x in b && x !in a;
    CardMono(a, b - {x});
  }

  lemma Shrinks(all: set<Path>, busy: set<Path>, t: Path)
    requires t in all && t !in busy
    ensures |all - (busy + {t})| < |all - busy|
  {
    assert all - (busy + {t}) < all - busy;
    ProperSubsetCard(all - (busy + {t}), all - busy);
  }

  /** `readItem(item, n)`: what the subtree of `n`, at `path`, adds to `item`.
      `busy` holds the nodes whose `itemref` expansion is in progress. */
  function ReadItem(ctx: Context, item: Item, n: Node, path: Path, busy: set<Path>): (r: Item)
    ensures r.types == item.types && r.id == item.id
    ensures forall name :: Values(item, name) <= Values(r, name)
    ensures WellFormed(item) ==> WellFormed(r)
    decreases |Targets(ctx) - busy|, n, 3, 0
  {
    match GetAttr("itemprop", n)
    case None => ReadKids(ctx, item, n, path, 0, busy)
    case Some(itemprop) =>
      if HasAttr("itemscope", n) then
        AddToEach(item, Tokens(itemprop), Nested(ReadNested(ctx, n, path, busy)))
      else
        ReadKids(ctx, AddScalar(item, Tokens(itemprop), PropertyValue(ctx, n)), n, path, 0, busy)
  }

  /** The item a node with both `itemprop` and `itemscope` defines: its
      `itemref` targets first, then its own children. The node itself counts
      as in progress while its references are expanded. */
  function ReadNested(ctx: Context, n: Node, path: Path, busy: set<Path>): (r: Item)
    ensures r.types == [] && r.id == ""
    ensures WellFormed(r)
    decreases |Targets(ctx) - busy|, n, 2, 0
  {
    SubsetCard(Targets(ctx), busy, busy + {path});
    var withRefs := ReadRefs(ctx, NewItem(), n, RefTokens(n), busy + {path});
    ReadKids(ctx, withRefs, n, path, 0, busy)
  }

  /** Expands the `itemref` tokens `refs` of `n` into `item`, in order. A
      token with no identified node is skipped, and so is one whose node is
      in `guard`; a target being expanded is in progress for its subtree. */
  function ReadRefs(ctx: Context, item: Item, n: Node, refs: seq<string>, guard: set<Path>): (r: Item)
    ensures r.types == item.types && r.id == item.id
    ensures forall name :: Values(item, name) <= Values(r, name)
    ensures WellFormed(item) ==> WellFormed(r)
    decreases |Targets(ctx) - guard|, n, 1, |refs|
  {
    if |refs| == 0 then item
    else if refs[0] in ctx.index && ctx.index[refs[0]].path !in guard then
      var target := ctx.index[refs[0]];
      Shrinks(Targets(ctx), guard, target.path);
      var expanded := ReadItem(ctx, item, target.node, target.path, guard + {target.path});
      ReadRefs(ctx, expanded, n, refs[1..], guard)
    else
      ReadRefs(ctx, item, n, refs[1..], guard)
  }

  /** Reads the children of `n` from child index `i` on into `item`. */
  function ReadKids(ctx: Context, item: Item, n: Node, path: Path, i: nat, busy: set<Path>): (r: Item)
    ensures r.types == item.types && r.id == item.id
    ensures forall name :: Values(item, name) <= Values(r, name)
    ensures WellFormed(item) ==> WellFormed(r)
    decreases |Targets(ctx) - busy|, n, 0, |Children(n)| - i
  {
    if !n.Element? || i >= |n.children| then item
    else ReadKids(ctx, ReadItem(ctx, item, n.children[i], path + [i], busy), n, path, i + 1, busy)
  }

  // ---------------------------------------------------------------------
  // Top-level items.
  // ---------------------------------------------------------------------

  /** The id of a top-level item: set only when the node has `itemtype` and
      `itemid` and the `itemid` resolves. */
  function ItemId(ctx: Context, n: Node): (id: string)
    ensures id != "" ==>
      HasAttr("itemtype", n) && HasAttr("itemid", n) && ctx.resolve(GetAttr("itemid", n).value) == Some(id)
    ensures HasAttr("itemtype", n) && HasAttr("itemid", n) && ctx.resolve(GetAttr("itemid", n).value).Some? ==>
      Some(id) == ctx.resolve(GetAttr("itemid", n).value)
  {
    match GetAttr("itemtype", n)
    case None => ""
    case Some(_) =>
      match GetAttr("itemid", n)
      case None => ""
      case Some(itemid) => ctx.resolve(itemid).GetOr("")
  }

  /** The `itemtype` tokens of `n`; none when the attribute is missing. */
  function TypeTokens(n: Node): seq<string>
  {
    match GetAttr("itemtype", n)
    case None => []
    case Some(types) => Tokens(types)
  }

  /** The item of one top-level node: types and id first, then the
      `itemref` targets, then the node's children. */
  function BuildRoot(ctx: Context, n: Node, path: Path): (r: Item)
    ensures r.types == TypeTokens(n)
    ensures r.id == ItemId(ctx, n)
    ensures WellFormed(r)
  {
    var typed := AddTypes(NewItem(), TypeTokens(n)).(id := ItemId(ctx, n));
    assert typed.props == NewItem().props;
    var withRefs := ReadRefs(ctx, typed, n, RefTokens(n), {});
    ReadKids(ctx, withRefs, n, path, 0, {})
  }

  /** The context of a parse of `root`: the id index of its walk. */
  function ParseContext(root: Node, resolve: string -> Option<string>): Context
  {
    Context(IndexIds(Walk(root, [])), resolve)
  }

  /** The top-level item nodes of `root`, in document order. */
  function Roots(root: Node): seq<Visit>
  {
    TopLevel(Walk(root, []))
  }

  /** `Parser.Parse` on a parser whose collected items are `md`: one item per
      top-level item node, in the same order, appended after the items `md`
      already holds (a fresh parser starts from `NewMicrodata()`). */
  function Parse(md: Microdata, root: Node, resolve: string -> Option<string>): (r: Microdata)
    ensures |r.items| == |md.items| + |Roots(root)|
    ensures r.items[..|md.items|] == md.items
    ensures forall i :: 0 <= i < |Roots(root)| ==>
      r.items[|md.items| + i] == BuildRoot(ParseContext(root, resolve), Roots(root)[i].node, Roots(root)[i].path)
  {
    var built := BuildAll(ParseContext(root, resolve), Roots(root));
    var r := AppendAll(md, built);
    assert r.items == md.items + built;
    r
  }

  /** The items of the top-level nodes `roots`, one each, in order. */
  function BuildAll(ctx: Context, roots: seq<Visit>): (r: seq<Item>)
    ensures |r| == |roots|
    ensures forall i :: 0 <= i < |roots| ==> r[i] == BuildRoot(ctx, roots[i].node, roots[i].path)
  {
    seq(|roots|, i requires 0 <= i < |roots| => BuildRoot(ctx, roots[i].node, roots[i].path))
  }
}
