/** The microdata data model: items with types, an id and named properties
    whose values are strings or nested items, and the append operations the
    extractor builds them with. */
module Items {

  /** A property value: a string, or an item owned by this value slot. */
  datatype Value = Str(text: string) | Nested(item: Item)

  /** One entry of an item's property map: a name and its values in the
      order they were discovered. */
  datatype Property = Property(name: string, values: seq<Value>)

  /** An item. `props` plays the part of Go's property map; its entries sit
      in first-added order, and the extraction contracts speak through
      `Values`. An `id` of "" means the item has none. */
  datatype Item = Item(props: seq<Property>, types: seq<string>, id: string)

  /** The top-level items of a document, in document order. */
  datatype Microdata = Microdata(items: seq<Item>)

  /** The values listed under `name`, or none: what indexing the property
      map with a missing key gives. */
  function Find(props: seq<Property>, name: string): seq<Value>
  {
    if |props| == 0 then []
    else if props[0].name == name then props[0].values
    else Find(props[1..], name)
  }

  function Values(it: Item, name: string): seq<Value>
  {
    Find(it.props, name)
  }

  /** `NewItem`: no properties, no types, no id. */
  function NewItem(): (r: Item)
    ensures forall name :: Values(r, name) == []
    ensures r.types == [] && r.id == ""
    ensures WellFormed(r)
  {
    Item([], [], "")
  }

  /** The property list with `v` appended to the values of `name`, the entry
      created if it was missing. */
  function Append(props: seq<Property>, name: string, v: Value): (r: seq<Property>)
    ensures Find(r, name) == Find(props, name) + [v]
    ensures forall other :: other != name ==> Find(r, other) == Find(props, other)
    ensures AllOk(props) && ValueOk(v) ==> AllOk(r)
  {
    if |props| == 0 then [Property(name, [v])]
    else if props[0].name == name then
      [Property(name, props[0].values + [v])] + props[1..]
    else
      [props[0]] + Append(props[1..], name, v)
  }

  /** Appends one value to one property, the shared body of `AddString` and
      `AddItem`. */
  function Add(it: Item, name: string, v: Value): (r: Item)
    ensures Values(r, name) == Values(it, name) + [v]
    ensures forall other :: other != name ==> Values(r, other) == Values(it, other)
    ensures r.types == it.types && r.id == it.id
    ensures WellFormed(it) && ValueOk(v) ==> WellFormed(r)
  {
    it.(props := Append(it.props, name, v))
  }

  /** `Item.AddString`. */
  function AddString(it: Item, name: string, s: string): (r: Item)
    ensures Values(r, name) == Values(it, name) + [Str(s)]
    ensures forall other :: other != name ==> Values(r, other) == Values(it, other)
    ensures r.types == it.types && r.id == it.id
  {
    Add(it, name, Str(s))
  }

  /** `Item.AddItem`. */
  function AddItem(it: Item, name: string, sub: Item): (r: Item)
    ensures Values(r, name) == Values(it, name) + [Nested(sub)]
    ensures forall other :: other != name ==> Values(r, other) == Values(it, other)
    ensures r.types == it.types && r.id == it.id
  {
    Add(it, name, Nested(sub))
  }

  /** `Item.AddType`. */
  function AddType(it: Item, t: string): (r: Item)
    ensures r.types == it.types + [t]
    ensures r.props == it.props && r.id == it.id
  {
    it.(types := it.types + [t])
  }

  /** `AddType` for each of `ts` in turn. */
  function AddTypes(it: Item, ts: seq<string>): (r: Item)
    ensures r.types == it.types + ts
    ensures r.props == it.props && r.id == it.id
    decreases ts
  {
    if |ts| == 0 then it else AddTypes(AddType(it, ts[0]), ts[1..])
  }

  function NewMicrodata(): Microdata
  {
    Microdata([])
  }

  /** `Microdata.AddItem`. */
  function AppendItem(md: Microdata, it: Item): (r: Microdata)
    ensures |r.items| == |md.items| + 1
    ensures r.items[..|md.items|] == md.items && r.items[|md.items|] == it
  {
    Microdata(md.items + [it])
  }

  /** `Microdata.AddItem` applied to each of `items` in turn. */
  function AppendAll(md: Microdata, items: seq<Item>): (r: Microdata)
    ensures r.items == md.items + items
    decreases |items|
  {
    if |items| == 0 then md
    else
      var r := AppendAll(AppendItem(md, items[0]), items[1..]);
      assert md.items + [items[0]] + items[1..] == md.items + items;
      r
  }

  // ---------------------------------------------------------------------
  // Fanning one value out to every name of an `itemprop` token list.
  // ---------------------------------------------------------------------

  function Repeat(v: Value, n: nat): seq<Value>
  {
    if n == 0 then [] else [v] + Repeat(v, n - 1)
  }

  /** How often `name` occurs in `names`. */
  function Count(names: seq<string>, name: string): nat
  {
    if |names| == 0 then 0
    else (if names[0] == name then 1 else 0) + Count(names[1..], name)
  }

  /** `v` appended to the property of every name in `names`, left to right.
      A name listed twice receives `v` twice, as in Go's loop. */
  function AddToEach(it: Item, names: seq<string>, v: Value): (r: Item)
    ensures forall name :: Values(r, name) == Values(it, name) + Repeat(v, Count(names, name))
    ensures r.types == it.types && r.id == it.id
    ensures WellFormed(it) && ValueOk(v) ==> WellFormed(r)
    decreases names
  {
    if |names| == 0 then it
    else
      var r := AddToEach(Add(it, names[0], v), names[1..], v);
      RepeatStep(v, names);
      r
  }

  lemma RepeatStep(v: Value, names: seq<string>)
    requires |names| > 0
    ensures forall name ::
      Repeat(v, Count(names, name)) == (if names[0] == name then [v] else []) + Repeat(v, Count(names[1..], name))
  {
  }

  /** What a scalar value adds under `name`: one copy per occurrence of
      `name` among the tokens, nothing when the value is empty. */
  function Fanned(s: string, names: seq<string>, name: string): seq<Value>
  {
    if s == "" then [] else Repeat(Str(s), Count(names, name))
  }

  /** A scalar property value added under each of `names`, unless it is
      empty. */
  function AddScalar(it: Item, names: seq<string>, s: string): (r: Item)
    ensures forall name :: Values(r, name) == Values(it, name) + Fanned(s, names, name)
    ensures r.types == it.types && r.id == it.id
    ensures WellFormed(it) ==> WellFormed(r)
  {
    if |s| > 0 then AddToEach(it, names, Str(s)) else it
  }

  // ---------------------------------------------------------------------
  // What every extracted item satisfies.
  // ---------------------------------------------------------------------

  /** No string value is empty, and every nested item is well formed and
      carries no types and no id: `readItem` never reads `itemtype` or
      `itemid` of a nested item. */
  predicate WellFormed(it: Item)
    decreases it
  {
    AllOk(it.props)
  }

  predicate ValueOk(v: Value)
    decreases v
  {
    match v
    case Str(s) => s != ""
    case Nested(sub) => sub.types == [] && sub.id == "" && WellFormed(sub)
  }

  predicate AllOk(props: seq<Property>)
  {
    forall i, k :: 0 <= i < |props| && 0 <= k < |props[i].values| ==> ValueOk(props[i].values[k])
  }

  /** `r` is `it` with the values of `d` appended to each property, types and
      id kept. */
  ghost predicate Extends(r: Item, it: Item, d: Item)
  {
    && r.types == it.types && r.id == it.id
    && forall name :: Values(r, name) == Values(it, name) + Values(d, name)
  }

  /** Fanning a value out into `it` appends exactly what fanning it out into
      a blank item produces. */
  lemma FanOutExtends(it: Item, names: seq<string>, v: Value)
    ensures Extends(AddToEach(it, names, v), it, AddToEach(NewItem(), names, v))
  {
  }

  lemma ScalarOutExtends(it: Item, names: seq<string>, s: string)
    ensures Extends(AddScalar(it, names, s), it, AddScalar(NewItem(), names, s))
  {
  }

  /** Appending `d` and then `e` appends what appending `e` to `d` gives. */
  lemma ExtendsChain(x: Item, mid: Item, it: Item, d: Item, y: Item, e: Item)
    requires Extends(mid, it, d) && Extends(x, mid, e) && Extends(y, d, e)
    ensures Extends(x, it, y)
  {
    forall name
      ensures Values(x, name) == Values(it, name) + Values(y, name)
    {
      assert Values(x, name) == Values(it, name) + Values(d, name) + Values(e, name);
    }
  }
}
