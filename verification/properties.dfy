/** What the extractor guarantees, stated over the model in `Extract`. */
module Properties {
  import opened Wrappers
  import opened Text
  import opened Html
  import opened Items
  import opened Extract

  // ---------------------------------------------------------------------
  // Reading only appends, and what it appends does not depend on the item
  // it appends to.
  // ---------------------------------------------------------------------

  /** Reading a subtree into `item` leaves `item`'s values in place and
      appends, under every name, exactly what reading the same subtree into
      a blank item produces. */
  lemma {:induction false} ReadItemExtends(ctx: Context, item: Item, n: Node, path: Path, busy: set<Path>)
    ensures Extends(ReadItem(ctx, item, n, path, busy), item, ReadItem(ctx, NewItem(), n, path, busy))
    decreases |Targets(ctx) - busy|, n, 3, 0
  {
    if !HasAttr("itemprop", n) {
      assert ReadItem(ctx, item, n, path, busy) == ReadKids(ctx, item, n, path, 0, busy);
      assert ReadItem(ctx, NewItem(), n, path, busy) == ReadKids(ctx, NewItem(), n, path, 0, busy);
      ReadKidsExtends(ctx, item, n, path, 0, busy);
    } else if !HasAttr("itemscope", n) {
      ScalarExtends(ctx, item, n, path, busy);
    } else {
      var sub := Nested(ReadNested(ctx, n, path, busy));
      FanOutExtends(item, Tokens(GetAttr("itemprop", n).value), sub);
    }
  }

  lemma {:induction false} ScalarExtends(ctx: Context, item: Item, n: Node, path: Path, busy: set<Path>)
    requires HasAttr("itemprop", n) && !HasAttr("itemscope", n)
    ensures Extends(ReadItem(ctx, item, n, path, busy), item, ReadItem(ctx, NewItem(), n, path, busy))
    decreases |Targets(ctx) - busy|, n, 2, 0
  {
    var v := PropertyValue(ctx, n);
    var names := Tokens(GetAttr("itemprop", n).value);
    var fed := AddScalar(item, names, v);
    var blank := AddScalar(NewItem(), names, v);
    assert ReadItem(ctx, item, n, path, busy) == ReadKids(ctx, fed, n, path, 0, busy);
    assert ReadItem(ctx, NewItem(), n, path, busy) == ReadKids(ctx, blank, n, path, 0, busy);
    ReadKidsExtends(ctx, fed, n, path, 0, busy);
    ReadKidsExtends(ctx, blank, n, path, 0, busy);
    ScalarOutExtends(item, names, v);
    ExtendsChain(ReadKids(ctx, fed, n, path, 0, busy), fed, item, blank,
                 ReadKids(ctx, blank, n, path, 0, busy), ReadKids(ctx, NewItem(), n, path, 0, busy));
  }

  lemma {:induction false} ReadRefsExtends(ctx: Context, item: Item, n: Node, refs: seq<string>, guard: set<Path>)
    ensures Extends(ReadRefs(ctx, item, n, refs, guard), item, ReadRefs(ctx, NewItem(), n, refs, guard))
    decreases |Targets(ctx) - guard|, n, 1, |refs|
  {
    if |refs| > 0 {
      if refs[0] in ctx.index && ctx.index[refs[0]].path !in guard {
        var target := ctx.index[refs[0]];
        var busy := guard + {target.path};
        Shrinks(Targets(ctx), guard, target.path);
        var expanded := ReadItem(ctx, item, target.node, target.path, busy);
        var blank := ReadItem(ctx, NewItem(), target.node, target.path, busy);
        assert ReadRefs(ctx, item, n, refs, guard) == ReadRefs(ctx, expanded, n, refs[1..], guard);
        assert ReadRefs(ctx, NewItem(), n, refs, guard) == ReadRefs(ctx, blank, n, refs[1..], guard);
        ReadItemExtends(ctx, item, target.node, target.path, busy);
        ReadRefsExtends(ctx, expanded, n, refs[1..], guard);
        ReadRefsExtends(ctx, blank, n, refs[1..], guard);
        ExtendsChain(ReadRefs(ctx, expanded, n, refs[1..], guard), expanded, item, blank,
                     ReadRefs(ctx, blank, n, refs[1..], guard), ReadRefs(ctx, NewItem(), n, refs[1..], guard));
      } else {
        ReadRefsExtends(ctx, item, n, refs[1..], guard);
        ReadRefsExtends(ctx, NewItem(), n, refs[1..], guard);
      }
    }
  }

  lemma {:induction false} ReadKidsExtends(ctx: Context, item: Item, n: Node, path: Path, i: nat, busy: set<Path>)
    ensures Extends(ReadKids(ctx, item, n, path, i, busy), item, ReadKids(ctx, NewItem(), n, path, i, busy))
    decreases |Targets(ctx) - busy|, n, 0, |Children(n)| - i
  {
    if n.Element? && i < |n.children| {
      var child := n.children[i];
      var read := ReadItem(ctx, item, child, path + [i], busy);
      var blank := ReadItem(ctx, NewItem(), child, path + [i], busy);
      ReadItemExtends(ctx, item, child, path + [i], busy);
      ReadKidsExtends(ctx, read, n, path, i + 1, busy);
      ReadKidsExtends(ctx, blank, n, path, i + 1, busy);
    }
  }

  /** Two items that reference the same node through `itemref` each receive
      the same values from it, independently of what they already hold. */
  lemma SharedReference(ctx: Context, a: Item, b: Item, target: Visit, busy: set<Path>)
    ensures forall name ::
      Values(ReadItem(ctx, a, target.node, target.path, busy), name)[|Values(a, name)|..] ==
      Values(ReadItem(ctx, b, target.node, target.path, busy), name)[|Values(b, name)|..]
  {
    ReadItemExtends(ctx, a, target.node, target.path, busy);
    ReadItemExtends(ctx, b, target.node, target.path, busy);
  }

  // ---------------------------------------------------------------------
  // Descending into children.
  // ---------------------------------------------------------------------

  /** A node without `itemprop` adds nothing of its own: it reads its
      children into the same item, so under every name the item gains what
      the children give. */
  lemma PassThrough(ctx: Context, item: Item, n: Node, path: Path, busy: set<Path>)
    requires !HasAttr("itemprop", n)
    ensures ReadItem(ctx, item, n, path, busy) == ReadKids(ctx, item, n, path, 0, busy)
    ensures forall name ::
      Values(ReadItem(ctx, item, n, path, busy), name) ==
        Values(item, name) + Values(ReadKids(ctx, NewItem(), n, path, 0, busy), name)
  {
    ReadKidsExtends(ctx, item, n, path, 0, busy);
  }

  /** Past the last child there is nothing left to read. */
  lemma KidsDone(ctx: Context, item: Item, n: Node, path: Path, i: nat, busy: set<Path>)
    requires i >= |Children(n)|
    ensures ReadKids(ctx, item, n, path, i, busy) == item
  {
  }

  /** The children are read in document order: child `i` adds its values
      after those already there and before those of the children after
      it. */
  lemma KidsInOrder(ctx: Context, item: Item, n: Node, path: Path, i: nat, busy: set<Path>)
    requires n.Element? && i < |n.children|
    ensures forall name ::
      Values(ReadKids(ctx, item, n, path, i, busy), name) ==
        Values(item, name)
        + Values(ReadItem(ctx, NewItem(), n.children[i], path + [i], busy), name)
        + Values(ReadKids(ctx, NewItem(), n, path, i + 1, busy), name)
  {
    var read := ReadItem(ctx, item, n.children[i], path + [i], busy);
    assert ReadKids(ctx, item, n, path, i, busy) == ReadKids(ctx, read, n, path, i + 1, busy);
    ReadItemExtends(ctx, item, n.children[i], path + [i], busy);
    ReadKidsExtends(ctx, read, n, path, i + 1, busy);
  }

  /** What a visited node contributes when it is read as a plain property:
      its value once per `itemprop` token, nothing if it has no `itemprop`. */
  function VisitValues(ctx: Context, v: Visit, name: string): seq<Value>
  {
    if HasAttr("itemprop", v.node) then
      Fanned(PropertyValue(ctx, v.node), Tokens(GetAttr("itemprop", v.node).value), name)
    else []
  }

  /** The contributions of a list of visits, in list order. */
  function WalkValues(ctx: Context, vs: seq<Visit>, name: string): seq<Value>
  {
    if |vs| == 0 then [] else VisitValues(ctx, vs[0], name) + WalkValues(ctx, vs[1..], name)
  }

  lemma {:induction false} WalkValuesConcat(ctx: Context, a: seq<Visit>, b: seq<Visit>, name: string)
    ensures WalkValues(ctx, a + b, name) == WalkValues(ctx, a, name) + WalkValues(ctx, b, name)
    decreases |a|
  {
    if |a| > 0 {
      assert (a + b)[0] == a[0] && (a + b)[1..] == a[1..] + b;
      WalkValuesConcat(ctx, a[1..], b, name);
      assert WalkValues(ctx, a + b, name) == VisitValues(ctx, a[0], name) + WalkValues(ctx, a[1..] + b, name);
    } else {
      assert a + b == b;
    }
  }

  /** No node of the visits starts an item. */
  predicate Flat(vs: seq<Visit>)
  {
    forall k :: 0 <= k < |vs| ==> !HasAttr("itemscope", vs[k].node)
  }

  /** Reading a subtree in which no node has `itemscope` gives, under every
      name, the values of its `itemprop` nodes in the order the pre-order
      walk visits them: the descent reaches every node, in document order,
      and feeds one item. */
  lemma {:induction false} FlatSubtree(ctx: Context, n: Node, path: Path, busy: set<Path>)
    requires Flat(Walk(n, path))
    ensures forall name ::
      Values(ReadItem(ctx, NewItem(), n, path, busy), name) == WalkValues(ctx, Walk(n, path), name)
    decreases n, 1
  {
    WalkHead(n, path);
    FlatKids(ctx, n, path, 0, busy);
    OwnThenKids(ctx, n, path, busy);
    var kids := WalkFrom(Children(n)[0..], path, 0);
    forall name
      ensures Values(ReadItem(ctx, NewItem(), n, path, busy), name) == WalkValues(ctx, Walk(n, path), name)
    {
      WalkValuesConcat(ctx, [Visit(path, n)], kids, name);
      assert WalkValues(ctx, [Visit(path, n)], name) == VisitValues(ctx, Visit(path, n), name);
    }
  }

  /** A node without `itemscope` gives its own values first, then its
      children's. */
  lemma OwnThenKids(ctx: Context, n: Node, path: Path, busy: set<Path>)
    requires !HasAttr("itemscope", n)
    ensures forall name ::
      Values(ReadItem(ctx, NewItem(), n, path, busy), name) ==
        VisitValues(ctx, Visit(path, n), name) + Values(ReadKids(ctx, NewItem(), n, path, 0, busy), name)
  {
    if !HasAttr("itemprop", n) {
      PassThrough(ctx, NewItem(), n, path, busy);
      forall name ensures Values(NewItem(), name) == VisitValues(ctx, Visit(path, n), name) {
      }
    } else {
      ScalarFanOut(ctx, NewItem(), n, path, busy);
      forall name
        ensures VisitValues(ctx, Visit(path, n), name) ==
          Values(NewItem(), name) + Fanned(PropertyValue(ctx, n), Tokens(GetAttr("itemprop", n).value), name)
      {
      }
    }
  }

  /** A walk is its root's visit followed by the walk of the children; in a
      flat walk, the root has no `itemscope` and the rest is flat too. */
  lemma WalkHead(n: Node, path: Path)
    ensures Walk(n, path) == [Visit(path, n)] + WalkFrom(Children(n)[0..], path, 0)
    ensures Flat(Walk(n, path)) ==> !HasAttr("itemscope", n) && Flat(WalkFrom(Children(n)[0..], path, 0))
  {
    assert Children(n)[0..] == Children(n);
    var rest := WalkFrom(Children(n), path, 0);
    assert Walk(n, path) == [Visit(path, n)] + rest;
    if Flat(Walk(n, path)) {
      assert Walk(n, path)[0].node == n;
      forall k | 0 <= k < |rest| ensures !HasAttr("itemscope", rest[k].node) {
        assert rest[k] == Walk(n, path)[k + 1];
      }
    }
  }

  /** The children loop over a subtree without `itemscope`, from child `i`
      on. */
  lemma {:induction false} FlatKids(ctx: Context, n: Node, path: Path, i: nat, busy: set<Path>)
    requires i <= |Children(n)| && Flat(WalkFrom(Children(n)[i..], path, i))
    ensures forall name ::
      Values(ReadKids(ctx, NewItem(), n, path, i, busy), name) ==
        WalkValues(ctx, WalkFrom(Children(n)[i..], path, i), name)
    decreases n, 0, |Children(n)| - i
  {
    var kids := Children(n)[i..];
    if i == |Children(n)| {
      assert kids == [];
      KidsDone(ctx, NewItem(), n, path, i, busy);
    } else {
      var child := n.children[i];
      var head := Walk(child, path + [i]);
      var tail := WalkFrom(Children(n)[i + 1..], path, i + 1);
      assert kids[0] == child && kids[1..] == Children(n)[i + 1..];
      assert WalkFrom(kids, path, i) == head + tail;
      assert Flat(head) by {
        forall k | 0 <= k < |head| ensures !HasAttr("itemscope", head[k].node) {
          assert head[k] == (head + tail)[k];
        }
      }
      assert Flat(tail) by {
        forall k | 0 <= k < |tail| ensures !HasAttr("itemscope", tail[k].node) {
          assert tail[k] == (head + tail)[|head| + k];
        }
      }
      FlatSubtree(ctx, child, path + [i], busy);
      FlatKids(ctx, n, path, i + 1, busy);
      KidsInOrder(ctx, NewItem(), n, path, i, busy);
      forall name
        ensures Values(ReadKids(ctx, NewItem(), n, path, i, busy), name) == WalkValues(ctx, head + tail, name)
      {
        WalkValuesConcat(ctx, head, tail, name);
      }
    }
  }

  // ---------------------------------------------------------------------
  // Property nodes.
  // ---------------------------------------------------------------------

  /** A property node without `itemscope` appends its value once per
      `itemprop` token, after the values already there and before anything
      its descendants add; an empty value appends nothing; the descendants
      still feed the same item. */
  lemma ScalarFanOut(ctx: Context, item: Item, n: Node, path: Path, busy: set<Path>)
    requires HasAttr("itemprop", n) && !HasAttr("itemscope", n)
    ensures forall name ::
      Values(ReadItem(ctx, item, n, path, busy), name) ==
        Values(item, name)
        + Fanned(PropertyValue(ctx, n), Tokens(GetAttr("itemprop", n).value), name)
        + Values(ReadKids(ctx, NewItem(), n, path, 0, busy), name)
  {
    var fed := AddScalar(item, Tokens(GetAttr("itemprop", n).value), PropertyValue(ctx, n));
    assert ReadItem(ctx, item, n, path, busy) == ReadKids(ctx, fed, n, path, 0, busy);
    ReadKidsExtends(ctx, fed, n, path, 0, busy);
  }

  /** A node with both `itemprop` and `itemscope` adds one nested item per
      `itemprop` token and nothing else to the outer item; the nested item
      holds its `itemref` targets' values followed by its children's. */
  lemma NestedIsolation(ctx: Context, item: Item, n: Node, path: Path, busy: set<Path>)
    requires HasAttr("itemprop", n) && HasAttr("itemscope", n)
    ensures forall name ::
      Values(ReadItem(ctx, item, n, path, busy), name) ==
        Values(item, name) + Repeat(Nested(ReadNested(ctx, n, path, busy)), Count(Tokens(GetAttr("itemprop", n).value), name))
    ensures forall name ::
      Values(ReadNested(ctx, n, path, busy), name) ==
        Values(ReadRefs(ctx, NewItem(), n, RefTokens(n), busy + {path}), name)
        + Values(ReadKids(ctx, NewItem(), n, path, 0, busy), name)
  {
    ReadKidsExtends(ctx, ReadRefs(ctx, NewItem(), n, RefTokens(n), busy + {path}), n, path, 0, busy);
  }

  // ---------------------------------------------------------------------
  // itemref expansion.
  // ---------------------------------------------------------------------

  /** Tokens that name no identified node, or a node whose expansion is in
      progress, contribute nothing. */
  lemma {:induction false} RefsSkipped(ctx: Context, item: Item, n: Node, refs: seq<string>, guard: set<Path>)
    requires forall t :: t in refs && t in ctx.index ==> ctx.index[t].path in guard
    ensures ReadRefs(ctx, item, n, refs, guard) == item
    decreases |refs|
  {
    if |refs| > 0 {
      assert refs[0] in refs;
      RefsSkipped(ctx, item, n, refs[1..], guard);
    }
  }

  /** A nested item whose `itemref` names only itself (or unknown ids, or
      nodes already in progress) holds exactly what its own children give:
      the self-reference is not followed. */
  lemma SelfReference(ctx: Context, n: Node, path: Path, busy: set<Path>)
    requires forall t :: t in RefTokens(n) && t in ctx.index ==>
      ctx.index[t].path == path || ctx.index[t].path in busy
    ensures ReadNested(ctx, n, path, busy) == ReadKids(ctx, NewItem(), n, path, 0, busy)
  {
    RefsSkipped(ctx, NewItem(), n, RefTokens(n), busy + {path});
  }

  /** The node `ReadRefs` carries is only a termination measure: the result
      does not depend on it. */
  lemma {:induction false} RefsIgnoreNode(ctx: Context, item: Item, n: Node, m: Node, refs: seq<string>, guard: set<Path>)
    ensures ReadRefs(ctx, item, n, refs, guard) == ReadRefs(ctx, item, m, refs, guard)
    decreases |refs|
  {
    if |refs| > 0 {
      if refs[0] in ctx.index && ctx.index[refs[0]].path !in guard {
        var target := ctx.index[refs[0]];
        RefsIgnoreNode(ctx, ReadItem(ctx, item, target.node, target.path, guard + {target.path}), n, m, refs[1..], guard);
      } else {
        RefsIgnoreNode(ctx, item, n, m, refs[1..], guard);
      }
    }
  }

  /** Two top-level items with the same `itemref` list receive the same
      values from its expansion, whatever each already holds. */
  lemma SharedItemRef(ctx: Context, a: Item, na: Node, b: Item, nb: Node, refs: seq<string>)
    ensures forall name ::
      Values(ReadRefs(ctx, a, na, refs, {}), name)[|Values(a, name)|..] ==
      Values(ReadRefs(ctx, b, nb, refs, {}), name)[|Values(b, name)|..]
  {
    ReadRefsExtends(ctx, a, na, refs, {});
    ReadRefsExtends(ctx, b, nb, refs, {});
    RefsIgnoreNode(ctx, NewItem(), na, nb, refs, {});
  }

  /** The `itemref` tokens are expanded left to right: expanding `a + b` is
      expanding `a` and then `b` into what that gave. */
  lemma {:induction false} RefsConcat(ctx: Context, item: Item, n: Node, a: seq<string>, b: seq<string>, guard: set<Path>)
    ensures ReadRefs(ctx, item, n, a + b, guard) == ReadRefs(ctx, ReadRefs(ctx, item, n, a, guard), n, b, guard)
    decreases |a|
  {
    if |a| == 0 {
      assert a + b == b;
    } else {
      assert (a + b)[0] == a[0] && (a + b)[1..] == a[1..] + b;
      if a[0] in ctx.index && ctx.index[a[0]].path !in guard {
        var target := ctx.index[a[0]];
        RefsConcat(ctx, ReadItem(ctx, item, target.node, target.path, guard + {target.path}), n, a[1..], b, guard);
      } else {
        RefsConcat(ctx, item, n, a[1..], b, guard);
      }
    }
  }

  /** Under every name, a token list adds what its first part adds followed
      by what the rest adds. */
  lemma RefsInOrder(ctx: Context, item: Item, n: Node, a: seq<string>, b: seq<string>, guard: set<Path>)
    ensures forall name ::
      Values(ReadRefs(ctx, item, n, a + b, guard), name) ==
        Values(item, name)
        + Values(ReadRefs(ctx, NewItem(), n, a, guard), name)
        + Values(ReadRefs(ctx, NewItem(), n, b, guard), name)
  {
    RefsConcat(ctx, item, n, a, b, guard);
    ReadRefsExtends(ctx, item, n, a, guard);
    ReadRefsExtends(ctx, ReadRefs(ctx, item, n, a, guard), n, b, guard);
  }

  /** A token naming an identified node that is not in progress reads that
      node into the item, with the node in progress while it is read. */
  lemma RefMatched(ctx: Context, item: Item, n: Node, t: string, guard: set<Path>)
    requires t in ctx.index && ctx.index[t].path !in guard
    ensures ReadRefs(ctx, item, n, [t], guard) ==
      ReadItem(ctx, item, ctx.index[t].node, ctx.index[t].path, guard + {ctx.index[t].path})
  {
    assert [t][1..] == [];
  }

  /** A token naming no identified node, or a node in progress, contributes
      nothing wherever it stands among the others. */
  lemma RefSkippedAmong(ctx: Context, item: Item, n: Node, a: seq<string>, t: string, b: seq<string>, guard: set<Path>)
    requires t !in ctx.index || ctx.index[t].path in guard
    ensures ReadRefs(ctx, item, n, a + [t] + b, guard) == ReadRefs(ctx, item, n, a + b, guard)
  {
    var before := ReadRefs(ctx, item, n, a, guard);
    RefsConcat(ctx, item, n, a + [t], b, guard);
    RefsConcat(ctx, item, n, a, [t], guard);
    RefsSkipped(ctx, before, n, [t], guard);
    RefsConcat(ctx, item, n, a, b, guard);
  }

  // ---------------------------------------------------------------------
  // Top-level items.
  // ---------------------------------------------------------------------

  /** A top-level item holds, under every name, its `itemref` targets'
      values in token order, followed by its children's. */
  lemma RootHolds(ctx: Context, n: Node, path: Path)
    ensures forall name ::
      Values(BuildRoot(ctx, n, path), name) ==
        Values(ReadRefs(ctx, NewItem(), n, RefTokens(n), {}), name)
        + Values(ReadKids(ctx, NewItem(), n, path, 0, {}), name)
  {
    var typed := AddTypes(NewItem(), TypeTokens(n)).(id := ItemId(ctx, n));
    assert BuildRoot(ctx, n, path) == ReadKids(ctx, ReadRefs(ctx, typed, n, RefTokens(n), {}), n, path, 0, {});
    RefsThenKids(ctx, typed, n, path);
  }

  lemma RefsThenKids(ctx: Context, typed: Item, n: Node, path: Path)
    requires typed.props == []
    ensures forall name ::
      Values(ReadKids(ctx, ReadRefs(ctx, typed, n, RefTokens(n), {}), n, path, 0, {}), name) ==
        Values(ReadRefs(ctx, NewItem(), n, RefTokens(n), {}), name)
        + Values(ReadKids(ctx, NewItem(), n, path, 0, {}), name)
  {
    var withRefs := ReadRefs(ctx, typed, n, RefTokens(n), {});
    var refs := ReadRefs(ctx, NewItem(), n, RefTokens(n), {});
    var kids := ReadKids(ctx, NewItem(), n, path, 0, {});
    ReadRefsExtends(ctx, typed, n, RefTokens(n), {});
    ReadKidsExtends(ctx, withRefs, n, path, 0, {});
    forall name
      ensures Values(ReadKids(ctx, withRefs, n, path, 0, {}), name) == Values(refs, name) + Values(kids, name)
    {
      assert Values(typed, name) == [];
      assert Values(withRefs, name) == Values(refs, name);
    }
  }

  /** The item a parse builds for the i-th top-level node holds what that
      node's `itemref` targets and children give, in that order. */
  lemma ParsedItem(md: Microdata, root: Node, resolve: string -> Option<string>, i: nat)
    requires i < |Roots(root)|
    ensures forall name ::
      Values(Parse(md, root, resolve).items[|md.items| + i], name) ==
        Values(ReadRefs(ParseContext(root, resolve), NewItem(), Roots(root)[i].node, RefTokens(Roots(root)[i].node), {}), name)
        + Values(ReadKids(ParseContext(root, resolve), NewItem(), Roots(root)[i].node, Roots(root)[i].path, 0, {}), name)
  {
    RootHolds(ParseContext(root, resolve), Roots(root)[i].node, Roots(root)[i].path);
  }

  /** Parsing again with the same parser appends the document's items a
      second time: the parser's item list is never reset. */
  lemma ParseAgain(root: Node, resolve: string -> Option<string>)
    ensures Parse(Parse(NewMicrodata(), root, resolve), root, resolve).items ==
      Parse(NewMicrodata(), root, resolve).items + Parse(NewMicrodata(), root, resolve).items
  {
    var once := Parse(NewMicrodata(), root, resolve);
    var twice := Parse(once, root, resolve);
    assert |once.items| == |Roots(root)|;
    forall k | 0 <= k < |twice.items|
      ensures twice.items[k] == (once.items + once.items)[k]
    {
      if k < |once.items| {
        assert twice.items[k] == twice.items[..|once.items|][k];
      } else {
        assert twice.items[|once.items| + (k - |once.items|)] == once.items[k - |once.items|];
      }
    }
  }

  // ---------------------------------------------------------------------
  // The walk in Parse.
  // ---------------------------------------------------------------------

  /** In an ordered walk the first visit precedes every later one. */
  lemma HeadBefore(walk: seq<Visit>, v: Visit)
    requires Ordered(walk) && |walk| > 0 && v in walk[1..]
    ensures DocBefore(walk[0].path, v.path)
  {
    var k :| 0 <= k < |walk[1..]| && walk[1..][k] == v;
    assert walk[k + 1] == v;
  }

  lemma {:induction false} TopLevelOrdered(walk: seq<Visit>)
    requires Ordered(walk)
    ensures Ordered(TopLevel(walk))
    decreases |walk|
  {
    if |walk| > 0 {
      var rest := TopLevel(walk[1..]);
      TopLevelOrdered(walk[1..]);
      if IsItemRoot(walk[0].node) {
        assert TopLevel(walk) == [walk[0]] + rest;
        forall j | 0 <= j < |rest|
          ensures DocBefore(walk[0].path, rest[j].path)
        {
          HeadBefore(walk, rest[j]);
        }
        OrderedConcat([walk[0]], rest);
      } else {
        assert TopLevel(walk) == rest;
      }
    }
  }

  /** The top-level item nodes are exactly the nodes of the tree that carry
      `itemscope` and no `itemprop`, each once, in document order. */
  lemma RootsExactly(root: Node)
    ensures forall v :: v in Roots(root) ==> At(root, v.path) == Some(v.node) && IsItemRoot(v.node)
    ensures forall q :: At(root, q).Some? && IsItemRoot(At(root, q).value) ==>
      Visit(q, At(root, q).value) in Roots(root)
    ensures Ordered(Roots(root))
  {
    WalkSound(root, []);
    WalkOrdered(root, []);
    TopLevelOrdered(Walk(root, []));
    forall v | v in Roots(root)
      ensures At(root, v.path) == Some(v.node)
    {
      assert v.path[0..] == v.path;
    }
    forall q | At(root, q).Some? && IsItemRoot(At(root, q).value)
      ensures Visit(q, At(root, q).value) in Roots(root)
    {
      WalkComplete(root, [], q);
      assert [] + q == q;
    }
  }

  /** Every entry of the id index is a node of the tree, at its own path. */
  lemma IndexInTree(root: Node, resolve: string -> Option<string>)
    ensures forall id :: id in ParseContext(root, resolve).index ==>
      var v := ParseContext(root, resolve).index[id];
      At(root, v.path) == Some(v.node)
  {
    var walk := Walk(root, []);
    WalkSound(root, []);
    forall id | id in IndexIds(walk)
      ensures At(root, IndexIds(walk)[id].path) == Some(IndexIds(walk)[id].node)
    {
      IndexLastWins(walk, id);
      var k :| LastWithId(walk, id, k) && IndexIds(walk)[id] == walk[k];
      assert walk[k] in walk;
      assert walk[k].path[0..] == walk[k].path;
    }
  }
}
