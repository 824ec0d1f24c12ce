/** Flattening of the nutrition API's JSON response into a list of record
    objects (`normalize_items` and `extract_items_from_response`). */
module Response {

  /** A decoded JSON value. Objects are Python dicts. */
  datatype Json =
    | Null
    | Bool(b: bool)
    | Num(n: real)
    | Str(s: string)
    | Arr(items: seq<Json>)
    | Obj(fields: map<string, Json>)

  type Fields = map<string, Json>

  /** Python truthiness. */
  predicate Truthy(j: Json)
  {
    match j
    case Null => false
    case Bool(b) => b
    case Num(n) => n != 0.0
    case Str(s) => s != ""
    case Arr(xs) => xs != []
    case Obj(m) => m != map[]
  }

  /** `d.get(k)`: a missing key and a JSON null both read as `None`. */
  function Get(m: Fields, k: string): Json
  {
    if k in m then m[k] else Null
  }

  /** The dict elements of a list, in order. */
  function ObjectsOf(xs: seq<Json>): (r: seq<Fields>)
    ensures |r| <= |xs|
    ensures forall m :: m in r <==> Obj(m) in xs
    ensures (forall i :: 0 <= i < |xs| ==> xs[i].Obj?) ==> |r| == |xs|
  {
    if xs == [] then []
    else if xs[0].Obj? then [xs[0].fields] + ObjectsOf(xs[1..])
    else ObjectsOf(xs[1..])
  }

  /** Filtering distributes over concatenation; with the one-element cases
      this fixes the order and the multiplicity of the kept objects. */
  lemma {:induction false} ObjectsOfAppend(a: seq<Json>, b: seq<Json>)
    ensures ObjectsOf(a + b) == ObjectsOf(a) + ObjectsOf(b)
  {
    if a == [] {
      assert a + b == b;
    } else {
      assert (a + b)[0] == a[0];
      assert (a + b)[1..] == a[1..] + b;
      ObjectsOfAppend(a[1..], b);
    }
  }

  lemma ObjectsOfSingle(x: Json)
    ensures ObjectsOf([x]) == (if x.Obj? then [x.fields] else [])
  {
    assert [x][1..] == [];
  }

  /** `normalize_items`: a list keeps its objects; a dict yields the objects
      under its `item` key, the single object under it, or else itself. */
  function NormalizeItems(items: Json): (r: seq<Fields>)
    ensures !Truthy(items) ==> r == []
    ensures items.Arr? ==> forall m :: m in r <==> Obj(m) in items.items
    ensures items.Arr? ==> r == ObjectsOf(items.items)
    ensures items.Obj? && items.fields != map[] ==>
              var it := Get(items.fields, "item");
              && (it.Arr? ==> r == ObjectsOf(it.items))
              && (it.Obj? ==> r == [it.fields])
              && (!it.Arr? && !it.Obj? ==> r == [items.fields])
    ensures !items.Arr? && !items.Obj? ==> r == []
  {
    if !Truthy(items) then []
    else match items
      case Arr(xs) => ObjectsOf(xs)
      case Obj(m) =>
        var it := Get(m, "item");
        if it.Arr? then ObjectsOf(it.items)
        else if it.Obj? then [it.fields]
        else [m]
      case _ => []
  }

  /** `extract_items_from_response`: looks for the records under `body.items`,
      then under a top-level `items`, then under a top-level `item`, and
      otherwise treats the response itself as the item container. */
  function ExtractItems(data: Json): (r: seq<Fields>)
    ensures !data.Arr? && !data.Obj? ==> r == []
    ensures data.Arr? ==> r == ObjectsOf(data.items)
    ensures data.Obj? && Get(data.fields, "body").Obj? ==>
              r == NormalizeItems(Get(Get(data.fields, "body").fields, "items"))
    ensures data == Obj(map[]) ==> r == []
    ensures (&& data.Obj? && data.fields != map[] && !Get(data.fields, "body").Obj?
             && !Get(data.fields, "items").Arr? && !Get(data.fields, "items").Obj?
             && "item" !in data.fields) ==> r == [data.fields]
  {
    match data
    case Obj(m) =>
      var body := Get(m, "body");
      if body.Obj? then NormalizeItems(Get(body.fields, "items"))
      else if Get(m, "items").Arr? || Get(m, "items").Obj? then NormalizeItems(Get(m, "items"))
      else if "item" in m then NormalizeItems(Obj(map["item" := m["item"]]))
      else NormalizeItems(data)
    case Arr(_) => NormalizeItems(data)
    case _ => []
  }

  function AsObjects(objs: seq<Fields>): (r: seq<Json>)
    ensures |r| == |objs|
    ensures forall i :: 0 <= i < |objs| ==> r[i] == Obj(objs[i])
  {
    seq(|objs|, i requires 0 <= i < |objs| => Obj(objs[i]))
  }

  lemma {:induction false} ObjectsOfAsObjects(objs: seq<Fields>)
    ensures ObjectsOf(AsObjects(objs)) == objs
  {
    if objs != [] {
      assert AsObjects(objs)[1..] == AsObjects(objs[1..]);
      ObjectsOfAsObjects(objs[1..]);
    }
  }

  /** The API's usual envelope `{"body": {"items": {"item": [...]}}}` yields
      exactly the listed records, in order. */
  lemma EnvelopeWithList(objs: seq<Fields>, extra: Fields)
    requires objs != []
    ensures ExtractItems(Obj(extra["body" := Obj(map["items" := Obj(map["item" := Arr(AsObjects(objs))])])]))
            == objs
  {
    var items := Obj(map["item" := Arr(AsObjects(objs))]);
    var m := extra["body" := Obj(map["items" := items])];
    assert Get(m, "body") == Obj(map["items" := items]);
    assert Get(map["items" := items], "items") == items;
    assert "item" in items.fields;
    assert Truthy(items);
    assert Get(items.fields, "item") == Arr(AsObjects(objs));
    ObjectsOfAsObjects(objs);
  }

  /** A single record under `item` is wrapped into a one-element list. */
  lemma EnvelopeWithSingle(rec: Fields, extra: Fields)
    ensures ExtractItems(Obj(extra["body" := Obj(map["items" := Obj(map["item" := Obj(rec)])])]))
            == [rec]
  {
    var items := Obj(map["item" := Obj(rec)]);
    var m := extra["body" := Obj(map["items" := items])];
    assert Get(m, "body") == Obj(map["items" := items]);
    assert Get(map["items" := items], "items") == items;
    assert "item" in items.fields;
    assert Truthy(items);
    assert Get(items.fields, "item") == Obj(rec);
  }

  /** A bare list of records is returned with its non-object elements dropped. */
  lemma BareList(objs: seq<Fields>)
    ensures ExtractItems(Arr(AsObjects(objs))) == objs
  {
    ObjectsOfAsObjects(objs);
  }

  /** A body without `items` yields nothing. */
  lemma BodyWithoutItems(body: Fields, extra: Fields)
    requires "items" !in body
    ensures ExtractItems(Obj(extra["body" := Obj(body)])) == []
  {
  }

  /** Without a `body` object, a top-level list under `items` yields its
      records in order. */
  lemma TopLevelItemsList(objs: seq<Fields>, extra: Fields)
    requires !Get(extra, "body").Obj?
    ensures ExtractItems(Obj(extra["items" := Arr(AsObjects(objs))])) == objs
  {
    var m := extra["items" := Arr(AsObjects(objs))];
    assert Get(m, "body") == Get(extra, "body");
    assert Get(m, "items") == Arr(AsObjects(objs));
    ObjectsOfAsObjects(objs);
  }

  /** Without a `body` object, a top-level dict under `items` is normalised
      as the item container. */
  lemma TopLevelItemsDict(items: Fields, extra: Fields)
    requires !Get(extra, "body").Obj?
    ensures ExtractItems(Obj(extra["items" := Obj(items)])) == NormalizeItems(Obj(items))
  {
    var m := extra["items" := Obj(items)];
    assert Get(m, "body") == Get(extra, "body");
    assert Get(m, "items") == Obj(items);
  }

  /** Without a `body` object or a list or dict under `items`, a top-level
      `item` is wrapped as `{"item": ...}`: a list gives its objects, a
      dict gives itself, and any other value gives the wrapper. */
  lemma TopLevelItem(it: Json, extra: Fields)
    requires !Get(extra, "body").Obj?
    requires !Get(extra, "items").Arr? && !Get(extra, "items").Obj?
    ensures ExtractItems(Obj(extra["item" := it])) ==
              if it.Arr? then ObjectsOf(it.items)
              else if it.Obj? then [it.fields]
              else [map["item" := it]]
  {
    var m := extra["item" := it];
    assert Get(m, "body") == Get(extra, "body");
    assert Get(m, "items") == Get(extra, "items");
    assert m["item"] == it;
    var w := map["item" := it];
    assert w != map[] by { assert "item" in w; }
    assert Get(w, "item") == it;
  }
}
