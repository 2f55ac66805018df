/** The already-parsed HTML document the extractor reads: nodes, their
    attributes, child-index paths as node identities, the document-order
    walk over a tree, and the text content of a subtree. */
module Html {
  import opened Wrappers

  /** One `key="val"` pair of an element's start tag. */
  datatype Attr = Attr(key: string, val: string)

  /** A node of the parsed tree. Element tags are lower case, as the HTML
      parser produces them. The document node is an `Element` without
      attributes. Comments and doctypes are `Other`: they have no
      attributes, no children and contribute no text. */
  datatype Node =
    | Text(data: string)
    | Other(data: string)
    | Element(tag: string, attrs: seq<Attr>, children: seq<Node>)

  function Attrs(n: Node): seq<Attr>
  {
    if n.Element? then n.attrs else []
  }

  function Children(n: Node): seq<Node>
  {
    if n.Element? then n.children else []
  }

  /** The value of the first attribute named `name`, scanning the list
      front to back. */
  function Lookup(attrs: seq<Attr>, name: string): Option<string>
  {
    if |attrs| == 0 then None
    else if attrs[0].key == name then Some(attrs[0].val)
    else Lookup(attrs[1..], name)
  }

  /** `getAttr(name, node)`. */
  function GetAttr(name: string, n: Node): Option<string>
  {
    Lookup(Attrs(n), name)
  }

  /** `Lookup` finds an attribute exactly when one has the name, and then
      the value of the first one. */
  lemma {:induction false} LookupFirstMatch(attrs: seq<Attr>, name: string)
    ensures Lookup(attrs, name).None? <==> forall i :: 0 <= i < |attrs| ==> attrs[i].key != name
    ensures Lookup(attrs, name).Some? ==>
      exists i :: 0 <= i < |attrs| && attrs[i].key == name && attrs[i].val == Lookup(attrs, name).value &&
        forall j :: 0 <= j < i ==> attrs[j].key != name
  {
    if |attrs| > 0 && attrs[0].key != name {
      LookupFirstMatch(attrs[1..], name);
      if Lookup(attrs, name).Some? {
        var i :| 0 <= i < |attrs[1..]| && attrs[1..][i].key == name && attrs[1..][i].val == Lookup(attrs, name).value &&
          forall j :: 0 <= j < i ==> attrs[1..][j].key != name;
        assert attrs[i + 1] == attrs[1..][i];
        assert forall j :: 0 < j < i + 1 ==> attrs[j] == attrs[1..][j - 1];
      }
    }
  }

  /** `getAttr` reports an attribute exactly when the node has one with that
      name, and its value is that of the first such attribute. */
  lemma GetAttrFirstMatch(name: string, n: Node)
    ensures GetAttr(name, n).None? <==> forall i :: 0 <= i < |Attrs(n)| ==> Attrs(n)[i].key != name
    ensures GetAttr(name, n).Some? ==>
      exists i :: 0 <= i < |Attrs(n)| && Attrs(n)[i].key == name && Attrs(n)[i].val == GetAttr(name, n).value &&
        forall j :: 0 <= j < i ==> Attrs(n)[j].key != name
  {
    LookupFirstMatch(Attrs(n), name);
  }

  predicate HasAttr(name: string, n: Node)
  {
    GetAttr(name, n).Some?
  }

  // ---------------------------------------------------------------------
  // Node identity: the path of child indexes from the root.
  // ---------------------------------------------------------------------

  type Path = seq<nat>

  /** The node reached from `n` by following the child indexes of `p`. */
  function At(n: Node, p: Path): Option<Node>
    decreases |p|
  {
    if |p| == 0 then Some(n)
    else if p[0] < |Children(n)| then At(Children(n)[p[0]], p[1..])
    else None
  }

  predicate IsPrefix(p: Path, q: Path)
  {
    |p| <= |q| && q[..|p|] == p
  }

  /** `p` comes before `q` in document order: it is an ancestor of `q`, or
      the two part ways at a child index where `p` takes the earlier child. */
  predicate DocBefore(p: Path, q: Path)
  {
    || (|p| < |q| && q[..|p|] == p)
    || exists k :: 0 <= k < |p| && k < |q| && p[..k] == q[..k] && p[k] < q[k]
  }

  // ---------------------------------------------------------------------
  // The pre-order walk of a subtree, as Go's `Walk` and `WalkNodes` visit it.
  // ---------------------------------------------------------------------

  datatype Visit = Visit(path: Path, node: Node)

  /** Every node of the subtree `n`, which sits at path `p`, in document
      order: `n` first, then the walks of its children left to right. */
  function Walk(n: Node, p: Path): seq<Visit>
    decreases n
  {
    [Visit(p, n)] + (if n.Element? then WalkFrom(n.children, p, 0) else [])
  }

  /** The walks of `kids`, which are the children of the node at `p` from
      child index `k` on. */
  function WalkFrom(kids: seq<Node>, p: Path, k: nat): seq<Visit>
    decreases kids
  {
    if |kids| == 0 then []
    else Walk(kids[0], p + [k]) + WalkFrom(kids[1..], p, k + 1)
  }

  /** The concatenated text of a subtree's text nodes, in document order: the
      text `WalkNodes` collects for an element without a value attribute. */
  function TextContent(n: Node): string
    decreases n
  {
    match n
    case Text(d) => d
    case Other(_) => ""
    case Element(_, _, children) => TextOf(children)
  }

  function TextOf(ns: seq<Node>): string
    decreases ns
  {
    if |ns| == 0 then "" else TextContent(ns[0]) + TextOf(ns[1..])
  }

  /** The text collected along a walk: the data of its text nodes, in order. */
  function WalkText(vs: seq<Visit>): string
  {
    if |vs| == 0 then ""
    else (if vs[0].node.Text? then vs[0].node.data else "") + WalkText(vs[1..])
  }

  // ---------------------------------------------------------------------
  // What the walk visits: every node of the subtree, each at its own path,
  // in document order.
  // ---------------------------------------------------------------------

  /** Every visit of `Walk(n, p)` lies below `p` and names the node found at
      its path. */
  lemma {:induction false} WalkSound(n: Node, p: Path)
    ensures forall v :: v in Walk(n, p) ==> IsPrefix(p, v.path) && At(n, v.path[|p|..]) == Some(v.node)
    decreases n
  {
    if n.Element? {
      WalkFromSound(n.children, p, 0);
      forall v | v in WalkFrom(n.children, p, 0)
        ensures At(n, v.path[|p|..]) == Some(v.node)
      {
        var q := v.path[|p|..];
        assert q[0] == v.path[|p|] && q[1..] == v.path[|p| + 1..];
      }
    }
    assert Visit(p, n).path[|p|..] == [];
  }

  lemma {:induction false} WalkFromSound(kids: seq<Node>, p: Path, k: nat)
    ensures forall v :: v in WalkFrom(kids, p, k) ==>
      && |v.path| > |p| && v.path[..|p|] == p && k <= v.path[|p|] < k + |kids|
      && At(kids[v.path[|p|] - k], v.path[|p| + 1..]) == Some(v.node)
    decreases kids
  {
    if |kids| > 0 {
      var p' := p + [k];
      WalkSound(kids[0], p');
      WalkFromSound(kids[1..], p, k + 1);
      forall v | v in Walk(kids[0], p')
        ensures |v.path| > |p| && v.path[..|p|] == p && v.path[|p|] == k
        ensures At(kids[0], v.path[|p| + 1..]) == Some(v.node)
      {
        assert v.path[..|p'|] == p';
        assert v.path[..|p|] == v.path[..|p'|][..|p|];
        assert v.path[|p'|..] == v.path[|p| + 1..];
      }
    }
  }

  lemma {:induction false} WalkFromContains(kids: seq<Node>, p: Path, k: nat, c: nat, v: Visit)
    requires c < |kids| && v in Walk(kids[c], p + [k + c])
    ensures v in WalkFrom(kids, p, k)
    decreases c
  {
    if c > 0 {
      assert kids[1..][c - 1] == kids[c];
      WalkFromContains(kids[1..], p, k + 1, c - 1, v);
    }
  }

  /** Every node of the subtree is visited, at its own path. */
  lemma {:induction false} WalkComplete(n: Node, p: Path, q: Path)
    requires At(n, q).Some?
    ensures Visit(p + q, At(n, q).value) in Walk(n, p)
    decreases |q|
  {
    if |q| == 0 {
      assert p + q == p;
    } else {
      var c := q[0];
      WalkComplete(n.children[c], p + [c], q[1..]);
      assert p + [c] + q[1..] == p + q;
      WalkFromContains(n.children, p, 0, c, Visit(p + q, At(n, q).value));
    }
  }

  /** The visits appear in strictly increasing document order, so no node is
      visited twice. */
  predicate Ordered(vs: seq<Visit>)
  {
    forall i, j :: 0 <= i < j < |vs| ==> DocBefore(vs[i].path, vs[j].path)
  }

  lemma OrderedConcat(a: seq<Visit>, b: seq<Visit>)
    requires Ordered(a) && Ordered(b)
    requires forall i, j :: 0 <= i < |a| && 0 <= j < |b| ==> DocBefore(a[i].path, b[j].path)
    ensures Ordered(a + b)
  {
    var ab := a + b;
    forall i, j | 0 <= i < j < |ab|
      ensures DocBefore(ab[i].path, ab[j].path)
    {
      if j < |a| {
        assert ab[i] == a[i] && ab[j] == a[j];
      } else if i >= |a| {
        assert ab[i] == b[i - |a|] && ab[j] == b[j - |a|];
      } else {
        assert ab[i] == a[i] && ab[j] == b[j - |a|];
      }
    }
  }

  lemma {:induction false} WalkOrdered(n: Node, p: Path)
    ensures Ordered(Walk(n, p))
    decreases n
  {
    if n.Element? {
      var f := WalkFrom(n.children, p, 0);
      WalkFromOrdered(n.children, p, 0);
      WalkFromSound(n.children, p, 0);
      forall j | 0 <= j < |f|
        ensures DocBefore(p, f[j].path)
      {
        assert f[j] in f;
      }
      OrderedConcat([Visit(p, n)], f);
    }
  }

  lemma {:induction false} WalkFromOrdered(kids: seq<Node>, p: Path, k: nat)
    ensures Ordered(WalkFrom(kids, p, k))
    decreases kids
  {
    if |kids| > 0 {
      var p' := p + [k];
      var a := Walk(kids[0], p');
      var b := WalkFrom(kids[1..], p, k + 1);
      WalkOrdered(kids[0], p');
      WalkFromOrdered(kids[1..], p, k + 1);
      WalkSound(kids[0], p');
      WalkFromSound(kids[1..], p, k + 1);
      forall i, j | 0 <= i < |a| && 0 <= j < |b|
        ensures DocBefore(a[i].path, b[j].path)
      {
        var x, y := a[i].path, b[j].path;
        assert a[i] in a && b[j] in b;
        assert x[..|p'|] == p';
        assert x[..|p|] == x[..|p'|][..|p|] && x[|p|] == k;
        assert 0 <= |p| < |x| && |p| < |y| && x[..|p|] == y[..|p|] && x[|p|] < y[|p|];
      }
      OrderedConcat(a, b);
    }
  }

  // ---------------------------------------------------------------------
  // The text content of a subtree is the text met along its walk.
  // ---------------------------------------------------------------------

  lemma {:induction false} WalkTextAppend(a: seq<Visit>, b: seq<Visit>)
    ensures WalkText(a + b) == WalkText(a) + WalkText(b)
    decreases |a|
  {
    if |a| > 0 {
      assert (a + b)[1..] == a[1..] + b;
      WalkTextAppend(a[1..], b);
    } else {
      assert a + b == b;
    }
  }

  /** The value of an element without a value attribute is the text of the
      text nodes met by a pre-order walk of its subtree. */
  lemma {:induction false} TextContentIsWalkText(n: Node, p: Path)
    ensures TextContent(n) == WalkText(Walk(n, p))
    decreases n
  {
    var rest := if n.Element? then WalkFrom(n.children, p, 0) else [];
    WalkTextAppend([Visit(p, n)], rest);
    if n.Element? {
      TextOfIsWalkText(n.children, p, 0);
    }
  }

  lemma {:induction false} TextOfIsWalkText(kids: seq<Node>, p: Path, k: nat)
    ensures TextOf(kids) == WalkText(WalkFrom(kids, p, k))
    decreases kids
  {
    if |kids| > 0 {
      TextContentIsWalkText(kids[0], p + [k]);
      TextOfIsWalkText(kids[1..], p, k + 1);
      WalkTextAppend(Walk(kids[0], p + [k]), WalkFrom(kids[1..], p, k + 1));
    }
  }
}
