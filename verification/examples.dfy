/** Documents from the package's test suite, with what extraction gives for
    them. Each tree starts at `body`: the document, `html` and `head` nodes
    that the HTML parser wraps around it carry no microdata attributes, and
    neither do the inter-element white-space text nodes, which are left out
    too; outside a property element they add nothing. */
module Examples {
  import opened Wrappers
  import opened Text
  import opened Html
  import opened Items
  import opened Extract
  import opened Properties
  import AsWritten

  /** Resolution against the base `http://example.com/` for the two shapes
      of reference the tests use: an absolute path and a relative name. */
  function ExampleResolve(ref: string): Option<string>
  {
    if |ref| > 0 && ref[0] == '/' then Some("http://example.com" + ref)
    else Some("http://example.com/" + ref)
  }

  // The self-referencing document: a `WebPage` item on `body` holding a
  // breadcrumb `span` with id "1", `itemprop` child and `itemref` "1"; the
  // span wraps a link to /foo/bar whose `title` span holds the text Foo.
  const Title: Node := Element("span", [Attr("itemprop", "title")], [Text("Foo")])
  const Link: Node := Element("a", [Attr("title", "Foo"), Attr("itemprop", "url"), Attr("href", "/foo/bar")], [Title])
  const Crumb: Node := Element("span",
    [Attr("id", "1"), Attr("itemscope", ""), Attr("itemtype", "http://data-vocabulary.org/Breadcrumb"),
     Attr("itemprop", "child"), Attr("itemref", "1")],
    [Link])
  const Page: Node := Element("body", [Attr("itemscope", ""), Attr("itemtype", "http://schema.org/WebPage")], [Crumb])

  const Child: Item := Item([Property("url", [Str("http://example.com/foo/bar")]), Property("title", [Str("Foo")])], [], "")

  lemma WalkFromOne(x: Node, p: Path, k: nat)
    ensures WalkFrom([x], p, k) == Walk(x, p + [k])
  {
    assert [x][1..] == [];
  }

  lemma PageWalk()
    ensures Walk(Page, []) ==
      [Visit([], Page), Visit([0], Crumb), Visit([0, 0], Link), Visit([0, 0, 0], Title), Visit([0, 0, 0, 0], Text("Foo"))]
  {
    var t := [Visit([0, 0, 0, 0], Text("Foo"))];
    assert Walk(Text("Foo"), [0, 0, 0, 0]) == t;
    ChildPaths();
    WalkFromOne(Text("Foo"), [0, 0, 0], 0);
    WalkFromOne(Title, [0, 0], 0);
    WalkFromOne(Link, [0], 0);
    WalkFromOne(Crumb, [], 0);
    assert Walk(Title, [0, 0, 0]) == [Visit([0, 0, 0], Title)] + t;
    assert WalkFrom([Title], [0, 0], 0) == [Visit([0, 0, 0], Title)] + t;
    assert Walk(Link, [0, 0]) == [Visit([0, 0], Link), Visit([0, 0, 0], Title)] + t;
    assert WalkFrom([Link], [0], 0) == Walk(Link, [0, 0]);
    assert Walk(Crumb, [0]) == [Visit([0], Crumb)] + Walk(Link, [0, 0]);
    assert WalkFrom([Crumb], [], 0) == Walk(Crumb, [0]);
  }

  lemma PageIds()
    ensures IdOf(Visit([], Page)).None? && IdOf(Visit([0], Crumb)) == Some("1")
    ensures IdOf(Visit([0, 0], Link)).None? && IdOf(Visit([0, 0, 0], Title)).None?
    ensures IdOf(Visit([0, 0, 0, 0], Text("Foo"))).None?
  {
  }

  lemma PageContext()
    ensures ParseContext(Page, ExampleResolve).index == map["1" := Visit([0], Crumb)]
  {
    PageWalk();
    PageIds();
    var w := Walk(Page, []);
    assert w[..1] == [Visit([], Page)];
    assert IndexIds(w[..1]) == map[];
    assert w[..2][..1] == w[..1];
    assert IndexIds(w[..2]) == map["1" := Visit([0], Crumb)];
    var m := map["1" := Visit([0], Crumb)];
    assert w[..3][..2] == w[..2] && w[..3][2] == Visit([0, 0], Link);
    assert IndexIds(w[..3]) == m;
    assert w[..4][..3] == w[..3] && w[..4][3] == Visit([0, 0, 0], Title);
    assert IndexIds(w[..4]) == m;
    assert w[..5][..4] == w[..4] && w[..5][4] == Visit([0, 0, 0, 0], Text("Foo"));
    assert w[..5] == w;
    assert IndexIds(w) == m;
  }

  lemma PageRoots()
    ensures Roots(Page) == [Visit([], Page)]
  {
    PageWalk();
    var w := Walk(Page, []);
    assert IsItemRoot(Page) && !IsItemRoot(Crumb) && !IsItemRoot(Link) && !IsItemRoot(Title) && !IsItemRoot(Text("Foo"));
    assert TopLevel(w[4..]) == [] by { assert w[4..][1..] == []; }
    assert w[3..][1..] == w[4..];
    assert TopLevel(w[3..]) == [];
    assert w[2..][1..] == w[3..];
    assert TopLevel(w[2..]) == [];
    assert w[1..][1..] == w[2..];
    assert TopLevel(w[1..]) == [];
  }

  lemma ChildPaths()
    ensures [] + [0] == [0]
    ensures [0] + [0] == [0, 0]
    ensures [0, 0] + [0] == [0, 0, 0]
    ensures [0, 0, 0] + [0] == [0, 0, 0, 0]
  {
  }

  lemma ResolveFooBar()
    ensures ExampleResolve("/foo/bar") == Some("http://example.com/foo/bar")
  {
    assert "http://example.com" + "/foo/bar" == "http://example.com/foo/bar";
  }

  lemma AddToOne(it: Item, name: string, v: Value)
    ensures AddToEach(it, [name], v) == Add(it, name, v)
  {
    assert [name][1..] == [];
  }

  lemma FooRead(ctx: Context, item: Item, busy: set<Path>)
    ensures ReadItem(ctx, item, Text("Foo"), [0, 0, 0, 0], busy) == item
  {
  }

  lemma TitleFacts(ctx: Context)
    ensures GetAttr("itemprop", Title) == Some("title") && !HasAttr("itemscope", Title)
    ensures PropertyValue(ctx, Title) == "Foo"
  {
    assert ValueRule(TagOf(Title)) == FromText;
    assert TextContent(Title) == "Foo";
  }

  lemma TitleRead(ctx: Context, item: Item, busy: set<Path>)
    ensures ReadItem(ctx, item, Title, [0, 0, 0], busy) == Add(item, "title", Str("Foo"))
  {
    TitleFacts(ctx);
    SingleToken("title");
    AddToOne(item, "title", Str("Foo"));
    var fed := Add(item, "title", Str("Foo"));
    ChildPaths();
    FooRead(ctx, fed, busy);
    assert ReadKids(ctx, fed, Title, [0, 0, 0], 1, busy) == fed;
  }

  lemma ChildBuilt()
    ensures Add(Add(NewItem(), "url", Str("http://example.com/foo/bar")), "title", Str("Foo")) == Child
  {
    var v := Str("http://example.com/foo/bar");
    assert Add(NewItem(), "url", v) == Item([Property("url", [v])], [], "");
    assert "url" != "title";
    assert [Property("url", [v])][1..] == [];
  }

  lemma LinkValue(ctx: Context)
    requires ctx.resolve == ExampleResolve
    ensures GetAttr("itemprop", Link) == Some("url") && !HasAttr("itemscope", Link)
    ensures PropertyValue(ctx, Link) == "http://example.com/foo/bar"
  {
    assert ValueRule(TagOf(Link)) == FromAttr("href", true);
    assert GetAttr("href", Link) == Some("/foo/bar");
    ResolveFooBar();
  }

  lemma LinkRead(ctx: Context, busy: set<Path>)
    requires ctx.resolve == ExampleResolve
    ensures ReadItem(ctx, NewItem(), Link, [0, 0], busy) == Child
  {
    LinkValue(ctx);
    SingleToken("url");
    var v := Str("http://example.com/foo/bar");
    AddToOne(NewItem(), "url", v);
    var fed := Add(NewItem(), "url", v);
    assert ReadItem(ctx, NewItem(), Link, [0, 0], busy) == ReadKids(ctx, fed, Link, [0, 0], 0, busy);
    ChildPaths();
    TitleRead(ctx, fed, busy);
    ChildBuilt();
    assert ReadKids(ctx, fed, Link, [0, 0], 0, busy) == ReadKids(ctx, Child, Link, [0, 0], 1, busy);
  }

  lemma CrumbAttrs()
    ensures GetAttr("itemref", Crumb) == Some("1")
    ensures GetAttr("itemprop", Crumb) == Some("child")
    ensures HasAttr("itemscope", Crumb)
  {
  }

  lemma PageAttrs()
    ensures GetAttr("itemtype", Page) == Some("http://schema.org/WebPage")
    ensures !HasAttr("itemid", Page) && !HasAttr("itemref", Page)
  {
  }

  lemma TokenOne()
    ensures Pieces("1") == ["1"]
  {
    SingleToken("1");
  }

  lemma TokenChild()
    ensures Tokens("child") == ["child"]
  {
    SingleToken("child");
  }

  lemma TokenPage()
    ensures Tokens("http://schema.org/WebPage") == ["http://schema.org/WebPage"]
  {
    SingleToken("http://schema.org/WebPage");
  }

  /** The crumb's own `itemref` names the crumb, so its item is its
      children's alone. */
  lemma CrumbRead(ctx: Context)
    requires ctx.resolve == ExampleResolve
    requires ctx.index == map["1" := Visit([0], Crumb)]
    ensures ReadNested(ctx, Crumb, [0], {}) == Child
  {
    CrumbAttrs();
    TokenOne();
    SelfReference(ctx, Crumb, [0], {});
    ChildPaths();
    LinkRead(ctx, {});
    assert ReadKids(ctx, NewItem(), Crumb, [0], 0, {}) == ReadKids(ctx, Child, Crumb, [0], 1, {});
  }

  const Expected: Item := Item([Property("child", [Nested(Child)])], ["http://schema.org/WebPage"], "")

  lemma PageRead(ctx: Context)
    requires ctx.resolve == ExampleResolve
    requires ctx.index == map["1" := Visit([0], Crumb)]
    ensures BuildRoot(ctx, Page, []) == Expected
  {
    PageAttrs();
    CrumbAttrs();
    TokenPage();
    TokenChild();
    var typed := Item([], ["http://schema.org/WebPage"], "");
    assert AddTypes(NewItem(), TypeTokens(Page)).(id := ItemId(ctx, Page)) == typed;
    assert ReadRefs(ctx, typed, Page, [], {}) == typed;
    CrumbRead(ctx);
    AddToOne(typed, "child", Nested(Child));
    ChildPaths();
    assert ReadItem(ctx, typed, Crumb, [0], {}) == Expected;
    assert ReadKids(ctx, typed, Page, [], 0, {}) == ReadKids(ctx, Expected, Page, [], 1, {});
  }

  /** A nested item whose `itemref` names its own id terminates and holds
      exactly its own descendants' properties: `url` resolved against the
      base and `title`; it gets no types. */
  lemma SelfReferencingItemref()
    ensures Parse(NewMicrodata(), Page, ExampleResolve) == Microdata([Expected])
  {
    PageContext();
    PageRoots();
    PageRead(ParseContext(Page, ExampleResolve));
  }

  /** The crumb names its own id in its `itemref`. */
  lemma CrumbRefersToItself(ctx: Context)
    requires ctx.index == map["1" := Visit([0], Crumb)]
    ensures AsWritten.RefersToItself(ctx, Crumb, "1")
  {
    CrumbAttrs();
    CrumbRefs();
    assert "1" in RefTokens(Crumb);
  }

  lemma CrumbRefs()
    ensures RefTokens(Crumb) == ["1"]
  {
    CrumbAttrs();
    TokenOne();
  }

  lemma CrumbDiverges(ctx: Context, fuel: nat)
    requires ctx.index == map["1" := Visit([0], Crumb)]
    ensures AsWritten.RawNested(ctx, Crumb, fuel) == None
  {
    CrumbRefersToItself(ctx);
    AsWritten.SelfReferenceDiverges(ctx, Crumb, "1", fuel);
  }

  /** Without the in-progress check the same document is never finished:
      reading the crumb's item runs out of any stack depth. */
  lemma SelfReferencingItemrefAsWritten(fuel: nat)
    ensures AsWritten.RawNested(ParseContext(Page, ExampleResolve), Crumb, fuel) == None
  {
    PageContext();
    CrumbDiverges(ParseContext(Page, ExampleResolve), fuel);
  }
}
