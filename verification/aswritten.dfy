/** `readItem` exactly as the Go code writes it: `itemref` targets are read
    with no check for a target already being expanded. Go's recursion has
    no bound; here every `itemref` expansion spends one unit of `fuel`, and
    `None` stands for running out, that is, for a call stack that keeps
    growing. */
module AsWritten {
  import opened Wrappers
  import opened Text
  import opened Html
  import opened Items
  import opened Extract

  function RawItem(ctx: Context, item: Item, n: Node, fuel: nat): Option<Item>
    decreases fuel, n, 3, 0
  {
    match GetAttr("itemprop", n)
    case None => RawKids(ctx, item, n, 0, fuel)
    case Some(itemprop) =>
      if HasAttr("itemscope", n) then
        match RawNested(ctx, n, fuel)
        case None => None
        case Some(sub) => Some(AddToEach(item, Tokens(itemprop), Nested(sub)))
      else
        RawKids(ctx, AddScalar(item, Tokens(itemprop), PropertyValue(ctx, n)), n, 0, fuel)
  }

  function RawNested(ctx: Context, n: Node, fuel: nat): Option<Item>
    decreases fuel, n, 2, 0
  {
    match RawRefs(ctx, NewItem(), n, RefTokens(n), fuel)
    case None => None
    case Some(withRefs) => RawKids(ctx, withRefs, n, 0, fuel)
  }

  function RawRefs(ctx: Context, item: Item, n: Node, refs: seq<string>, fuel: nat): Option<Item>
    decreases fuel, n, 1, |refs|
  {
    if |refs| == 0 then Some(item)
    else if refs[0] !in ctx.index then RawRefs(ctx, item, n, refs[1..], fuel)
    else if fuel == 0 then None
    else
      match RawItem(ctx, item, ctx.index[refs[0]].node, fuel - 1)
      case None => None
      case Some(expanded) => RawRefs(ctx, expanded, n, refs[1..], fuel)
  }

  function RawKids(ctx: Context, item: Item, n: Node, i: nat, fuel: nat): Option<Item>
    decreases fuel, n, 0, |Children(n)| - i
  {
    if !n.Element? || i >= |n.children| then Some(item)
    else
      match RawItem(ctx, item, n.children[i], fuel)
      case None => None
      case Some(read) => RawKids(ctx, read, n, i + 1, fuel)
  }

  /** A nested item node whose `itemref` token `t` names the node itself. */
  predicate RefersToItself(ctx: Context, n: Node, t: string)
  {
    && HasAttr("itemprop", n) && HasAttr("itemscope", n)
    && t in RefTokens(n) && t in ctx.index && ctx.index[t].node == n
  }

  /** Such a node is never finished, however deep the stack may grow: its
      item reads its own `itemref`, which reads the node again. */
  lemma {:induction false} SelfReferenceDiverges(ctx: Context, n: Node, t: string, fuel: nat)
    requires RefersToItself(ctx, n, t)
    ensures RawNested(ctx, n, fuel) == None
    decreases fuel, 1, 0
  {
    RefsDiverge(ctx, NewItem(), n, RefTokens(n), t, fuel);
  }

  /** Reading such a node into any item is never finished either. */
  lemma {:induction false} SelfReadDiverges(ctx: Context, item: Item, n: Node, t: string, fuel: nat)
    requires RefersToItself(ctx, n, t)
    ensures RawItem(ctx, item, n, fuel) == None
    decreases fuel, 2, 0
  {
    SelfReferenceDiverges(ctx, n, t, fuel);
  }

  /** Expanding a token list that holds such a self-reference never
      finishes. */
  lemma {:induction false} RefsDiverge(ctx: Context, item: Item, n: Node, refs: seq<string>, t: string, fuel: nat)
    requires RefersToItself(ctx, n, t) && t in refs
    ensures RawRefs(ctx, item, n, refs, fuel) == None
    decreases fuel, 0, |refs|
  {
    if refs[0] == t {
      if fuel > 0 {
        SelfReadDiverges(ctx, item, n, t, fuel - 1);
      }
    } else {
      assert t in refs[1..];
      if refs[0] !in ctx.index {
        RefsDiverge(ctx, item, n, refs[1..], t, fuel);
      } else if fuel > 0 {
        var read := RawItem(ctx, item, ctx.index[refs[0]].node, fuel - 1);
        if read.Some? {
          RefsDiverge(ctx, read.value, n, refs[1..], t, fuel);
        }
      }
    }
  }
}
