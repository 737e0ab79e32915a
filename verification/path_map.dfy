/**
 * The path map of the JSON editor: a walk over the JSON syntax tree that files
 * every object property, and every array element that is itself an object or
 * an array, under a structural path such as `.blocks[0].segments[2]`.
 */
module PathMap {
  import opened Wrappers
  import opened JsText
  import OrderedMap

  /**
   * The syntax-tree node types the walk tells apart; every other type
   * (numbers, strings, brackets, error nodes) is `Other`. `Value` is a node
   * that `getChild('Value')` matches by its own type. A node here has one
   * type only, so an object or array value is written `Object` or `Array`
   * and is found as the property's last child, where it sits in a
   * well-formed tree; a value node matched through a type group is not
   * modelled.
   */
  datatype NodeKind = Property | PropertyName | Object | Array | Value | Other

  /** A syntax-tree node: its type, its span `[from, to)` in the document, its children in document order. */
  datatype Node = Node(kind: NodeKind, from: int, to: int, children: seq<Node>)

  /** What the map records about one path. */
  datatype PathInfo = PathInfo(key: JsString, value: JsString, from: int, to: int, parentPath: JsString)

  type Entry = (JsString, PathInfo)

  /** The path map, in insertion order. */
  type PathMap = OrderedMap.Entries<JsString, PathInfo>

  predicate IsContainer(n: Node) {
    n.kind == Object || n.kind == Array
  }

  /** `node.getChild(kind)`: the first child of that type. */
  function GetChild(cs: seq<Node>, kind: NodeKind): (r: Option<Node>)
    ensures r.Some? ==> r.value in cs && r.value.kind == kind
    ensures r.None? <==> forall i | 0 <= i < |cs| :: cs[i].kind != kind
    ensures r.Some? ==> exists i | 0 <= i < |cs| ::
      cs[i] == r.value && forall j | 0 <= j < i :: cs[j].kind != kind
  {
    if |cs| == 0 then None
    else if cs[0].kind == kind then Some(cs[0])
    else
      var r := GetChild(cs[1..], kind);
      assert r.Some? ==> exists i | 0 <= i < |cs| ::
        cs[i] == r.value && forall j | 0 <= j < i :: cs[j].kind != kind
      by {
        if r.Some? {
          var i :| 0 <= i < |cs[1..]| && cs[1..][i] == r.value
                   && forall j | 0 <= j < i :: cs[1..][j].kind != kind;
          assert cs[i + 1] == r.value;
          forall j | 0 <= j < i + 1 ensures cs[j].kind != kind {
            if j > 0 { assert cs[j] == cs[1..][j - 1]; }
          }
        }
      }
      r
  }

  /** `node.getChild('Value') ?? node.lastChild` */
  function ValueChild(n: Node): (r: Option<Node>)
    ensures r.Some? ==> r.value in n.children
    ensures r.None? <==> |n.children| == 0
    ensures GetChild(n.children, Value).Some? ==> r == GetChild(n.children, Value)
    ensures GetChild(n.children, Value).None? && |n.children| > 0 ==> r == Some(n.children[|n.children| - 1])
  {
    match GetChild(n.children, Value)
    case Some(v) => Some(v)
    case None => if |n.children| == 0 then None else Some(n.children[|n.children| - 1])
  }

  /** The key text of a property name node with its first and last unit (the quotes) dropped. */
  function KeyText(text: JsString, keyNode: Node): (key: JsString)
    ensures 0 <= keyNode.from && keyNode.from + 2 <= keyNode.to <= |text| ==>
      |key| == keyNode.to - keyNode.from - 2 && key == text[keyNode.from + 1..keyNode.to - 1]
  {
    Slice(text, keyNode.from + 1, keyNode.to - 1)
  }

  /** An entry's path is its parent path followed by `.key`, or by an `[i]` key. */
  predicate WellFormedEntry(e: Entry) {
    e.0 == e.1.parentPath + [DOT] + e.1.key
    || (IsIndexKey(e.1.key) && e.0 == e.1.parentPath + e.1.key)
  }

  /** Every child's span lies inside its parent's span, all the way down. */
  predicate WellNested(n: Node) {
    forall i | 0 <= i < |n.children| ::
      n.from <= n.children[i].from && n.children[i].to <= n.to && WellNested(n.children[i])
  }

  /** The recorded span lies inside the node's span. */
  predicate InsideNode(info: PathInfo, n: Node) {
    n.from <= info.from && info.to <= n.to
  }

  /** The writes the walk makes are well formed, extend `prefix`, and (for a well-nested tree) stay inside `n`. */
  predicate WritesInvariant(ws: seq<Entry>, n: Node, prefix: JsString) {
    && (forall j | 0 <= j < |ws| :: WellFormedEntry(ws[j]))
    && (forall j | 0 <= j < |ws| :: StartsWith(ws[j].1.parentPath, prefix))
    && (WellNested(n) ==> forall j | 0 <= j < |ws| :: InsideNode(ws[j].1, n))
  }

  /**
   * The `map.set` calls `walk(n, pathStack)` makes, in order; `prefix` is
   * `pathStack.join('')`.
   */
  function Writes(text: JsString, n: Node, prefix: JsString): (ws: seq<Entry>)
    ensures WritesInvariant(ws, n, prefix)
    decreases n, 1, 0
  {
    if n.kind == Property then
      var keyNode := GetChild(n.children, PropertyName);
      var valueNode := ValueChild(n);
      if keyNode.Some? && valueNode.Some? then
        var v := valueNode.value;
        var own := PropertyOwn(text, n, keyNode.value, v, prefix);
        var path := own.0;
        var below := if IsContainer(v) then Writes(text, v, path) else [];
        DottedExtends(prefix, own.1.key);
        FiledAbove(own, below, n, v, prefix, path);
        [own] + below
      else []
    else if n.kind == Array then
      ArrayWrites(text, n, prefix, 0, 0)
    else
      ChildWrites(text, n, prefix, 0)
  }

  /** The entry a property with key node `keyNode` and value node `v` is filed under. */
  function PropertyOwn(text: JsString, n: Node, keyNode: Node, v: Node, prefix: JsString): (e: Entry)
    ensures WellFormedEntry(e) && e.1.parentPath == prefix && InsideNode(e.1, n)
  {
    var key := KeyText(text, keyNode);
    (prefix + [DOT] + key, PathInfo(key, Slice(text, v.from, v.to), n.from, n.to, prefix))
  }

  /** The writes of the array loop from child `k` on, with the element counter at `i`. */
  function ArrayWrites(text: JsString, arr: Node, prefix: JsString, k: nat, i: nat): (ws: seq<Entry>)
    requires k <= |arr.children|
    ensures WritesInvariant(ws, arr, prefix)
    decreases arr, 0, |arr.children| - k
  {
    if k == |arr.children| then []
    else
      var c := arr.children[k];
      if IsContainer(c) then
        var key := IndexKey(i);
        var path := prefix + key;
        var own := (path, PathInfo(key, Slice(text, c.from, c.to), c.from, c.to, prefix));
        var below := Writes(text, c, path);
        StartsWithAppend(prefix, key);
        FiledAbove(own, below, arr, c, prefix, path);
        var rest := ArrayWrites(text, arr, prefix, k + 1, i + 1);
        InvariantConcat([own] + below, rest, arr, prefix);
        [own] + below + rest
      else
        ArrayWrites(text, arr, prefix, k + 1, i)
  }

  /** The writes of the generic loop over the children of `n` from child `k` on. */
  function ChildWrites(text: JsString, n: Node, prefix: JsString, k: nat): (ws: seq<Entry>)
    requires k <= |n.children|
    ensures WritesInvariant(ws, n, prefix)
    decreases n, 0, |n.children| - k
  {
    if k == |n.children| then []
    else
      var first := Writes(text, n.children[k], prefix);
      var rest := ChildWrites(text, n, prefix, k + 1);
      InvariantConcat(first, rest, n, prefix);
      first + rest
  }

  /**
   * An entry filed directly under `prefix`, followed by the writes for one
   * of the node's children under `prefix + ext`, keeps the invariant.
   */
  lemma FiledAbove(own: Entry, below: seq<Entry>, n: Node, child: Node, prefix: JsString, childPrefix: JsString)
    requires WellFormedEntry(own) && own.1.parentPath == prefix
    requires WellNested(n) ==> n.from <= own.1.from && own.1.to <= n.to
    requires child in n.children
    requires StartsWith(childPrefix, prefix)
    requires WritesInvariant(below, child, childPrefix)
    ensures WritesInvariant([own] + below, n, prefix)
  {
    assert StartsWith(prefix, prefix) by { assert prefix[..|prefix|] == prefix; }
    var ws := [own] + below;
    forall j | 0 <= j < |ws|
      ensures WellFormedEntry(ws[j]) && StartsWith(ws[j].1.parentPath, prefix)
    {
      if j > 0 {
        assert ws[j] == below[j - 1];
        StartsWithTrans(ws[j].1.parentPath, childPrefix, prefix);
      }
    }
    if WellNested(n) {
      forall j | 0 <= j < |ws|
        ensures InsideNode(ws[j].1, n)
      {
        if j > 0 { assert ws[j] == below[j - 1]; }
      }
    }
  }

  lemma DottedExtends(prefix: JsString, key: JsString)
    ensures StartsWith(prefix + [DOT] + key, prefix)
  {
    assert (prefix + [DOT] + key)[..|prefix|] == prefix;
  }

  lemma InvariantConcat(a: seq<Entry>, b: seq<Entry>, n: Node, prefix: JsString)
    requires WritesInvariant(a, n, prefix) && WritesInvariant(b, n, prefix)
    ensures WritesInvariant(a + b, n, prefix)
  {
    var ws := a + b;
    forall j | 0 <= j < |ws|
      ensures WellFormedEntry(ws[j]) && StartsWith(ws[j].1.parentPath, prefix)
      ensures WellNested(n) ==> InsideNode(ws[j].1, n)
    {
      if j >= |a| { assert ws[j] == b[j - |a|]; }
    }
  }

  /** `buildPathMap`: walk the tree from its top node with an empty path stack. */
  function BuildPathMap(text: JsString, root: Node): (m: PathMap)
    ensures OrderedMap.KeysUnique(m)
  {
    OrderedMap.SetAll([], Writes(text, root, []))
  }

  // ---------------------------------------------------------------------------
  // Properties

  /**
   * A property with both a key and a value node is filed first, under
   * `parentPath + "." + key` with the quotes stripped from the key; its span
   * is the whole property node, its value is the text of the value node, and
   * a scalar value adds nothing further.
   */
  lemma PropertyEntry(text: JsString, n: Node, prefix: JsString, keyNode: Node, v: Node)
    requires n.kind == Property
    requires GetChild(n.children, PropertyName) == Some(keyNode) && ValueChild(n) == Some(v)
    ensures var ws := Writes(text, n, prefix);
      && |ws| >= 1
      && ws[0].0 == prefix + [DOT] + KeyText(text, keyNode)
      && ws[0].1.key == KeyText(text, keyNode)
      && ws[0].1.parentPath == prefix
      && ws[0].1.from == n.from && ws[0].1.to == n.to
      && ws[0].1.value == Slice(text, v.from, v.to)
      && (!IsContainer(v) ==> |ws| == 1)
      && (IsContainer(v) ==> ws[1..] == Writes(text, v, ws[0].0))
      && (IsContainer(v) ==> DirectWrites(ws, ws[0].0) == DirectWrites(Writes(text, v, ws[0].0), ws[0].0))
      && (forall at | at != prefix :: DirectWrites(ws, at) == DirectWrites(ws[1..], at))
  {
    var own := PropertyOwn(text, n, keyNode, v, prefix);
    var below := if IsContainer(v) then Writes(text, v, own.0) else [];
    var ws := Writes(text, n, prefix);
    PropertyUnfolds(text, n, prefix, keyNode, v);
    assert ws[1..] == below;
    forall at | at != prefix
      ensures DirectWrites(ws, at) == DirectWrites(ws[1..], at)
    {
      HeadNotAt(own, below, at);
    }
    assert own.0 != prefix by {
      assert |own.0| > |prefix|;
    }
  }

  lemma PropertyUnfolds(text: JsString, n: Node, prefix: JsString, keyNode: Node, v: Node)
    requires n.kind == Property
    requires GetChild(n.children, PropertyName) == Some(keyNode) && ValueChild(n) == Some(v)
    ensures var own := PropertyOwn(text, n, keyNode, v, prefix);
      Writes(text, n, prefix) == [own] + (if IsContainer(v) then Writes(text, v, own.0) else [])
  {
  }

  /** An entry that is not directly under `at` adds nothing to what is. */
  lemma HeadNotAt(e: Entry, rest: seq<Entry>, at: JsString)
    requires e.1.parentPath != at
    ensures DirectWrites([e] + rest, at) == DirectWrites(rest, at)
  {
    assert ([e] + rest)[1..] == rest;
  }

  /** A property that lacks its key node or its value node is neither filed nor descended into. */
  lemma IncompleteProperty(text: JsString, n: Node, prefix: JsString)
    requires n.kind == Property
    requires GetChild(n.children, PropertyName).None? || |n.children| == 0
    ensures Writes(text, n, prefix) == []
  {
  }

  /** The writes whose parent path is exactly `prefix`: the entries directly under it. */
  function DirectWrites(ws: seq<Entry>, prefix: JsString): (r: seq<Entry>)
    ensures forall j | 0 <= j < |r| :: r[j] in ws && r[j].1.parentPath == prefix
  {
    if |ws| == 0 then []
    else (if ws[0].1.parentPath == prefix then [ws[0]] else []) + DirectWrites(ws[1..], prefix)
  }

  lemma {:induction false} DirectWritesConcat(a: seq<Entry>, b: seq<Entry>, prefix: JsString)
    ensures DirectWrites(a + b, prefix) == DirectWrites(a, prefix) + DirectWrites(b, prefix)
  {
    if |a| == 0 {
      assert a + b == b;
    } else {
      assert (a + b)[1..] == a[1..] + b;
      assert (a + b)[0] == a[0];
      DirectWritesConcat(a[1..], b, prefix);
      var head := if a[0].1.parentPath == prefix then [a[0]] else [];
      assert DirectWrites(a + b, prefix) == head + DirectWrites(a[1..] + b, prefix);
      assert DirectWrites(a, prefix) == head + DirectWrites(a[1..], prefix);
    }
  }

  /** Writes whose parent paths all extend `q` have none directly under a path that does not extend `q`. */
  lemma {:induction false} NoDirectWritesAt(ws: seq<Entry>, at: JsString, q: JsString)
    requires !StartsWith(at, q)
    requires forall j | 0 <= j < |ws| :: StartsWith(ws[j].1.parentPath, q)
    ensures DirectWrites(ws, at) == []
  {
    if |ws| > 0 {
      NoDirectWritesAt(ws[1..], at, q);
    }
  }

  /** Writes whose parent paths all extend `prefix + key`, with `key` non-empty, have none directly under `prefix`. */
  lemma {:induction false} NoDirectWritesBelow(ws: seq<Entry>, prefix: JsString, key: JsString)
    requires |key| > 0
    requires forall j | 0 <= j < |ws| :: StartsWith(ws[j].1.parentPath, prefix + key)
    ensures DirectWrites(ws, prefix) == []
  {
    if |ws| > 0 {
      NoDirectWritesBelow(ws[1..], prefix, key);
    }
  }

  /** The children of an array that are objects or arrays, in order. */
  function Containers(cs: seq<Node>): (r: seq<Node>)
    ensures |r| <= |cs|
    ensures forall t | 0 <= t < |r| :: IsContainer(r[t]) && r[t] in cs
  {
    if |cs| == 0 then []
    else (if IsContainer(cs[0]) then [cs[0]] else []) + Containers(cs[1..])
  }

  /** The entry of the `t`-th indexed element `c` of the array filed under `prefix`. */
  function ElementEntry(text: JsString, prefix: JsString, c: Node, t: nat): Entry {
    (prefix + IndexKey(t), PathInfo(IndexKey(t), Slice(text, c.from, c.to), c.from, c.to, prefix))
  }

  /** Reference listing of the array entries: the `t`-th object-or-array child from child `k` on, numbered from `i`. */
  function ElementEntries(text: JsString, prefix: JsString, cs: seq<Node>, i: nat): (r: seq<Entry>)
    ensures |r| == |cs|
  {
    seq(|cs|, t requires 0 <= t < |cs| => ElementEntry(text, prefix, cs[t], i + t))
  }

  lemma ElementEntriesCons(text: JsString, prefix: JsString, c: Node, tail: seq<Node>, i: nat)
    ensures ElementEntries(text, prefix, [c] + tail, i)
         == [ElementEntry(text, prefix, c, i)] + ElementEntries(text, prefix, tail, i + 1)
  {
    var l := ElementEntries(text, prefix, [c] + tail, i);
    var r := [ElementEntry(text, prefix, c, i)] + ElementEntries(text, prefix, tail, i + 1);
    assert |l| == |r|;
    forall t | 0 <= t < |l|
      ensures l[t] == r[t]
    {
      if t > 0 {
        assert l[t] == ElementEntry(text, prefix, tail[t - 1], i + t) by {
          assert ([c] + tail)[t] == tail[t - 1];
        }
        assert r[t] == ElementEntries(text, prefix, tail, i + 1)[t - 1];
      }
    }
  }

  lemma {:induction false} ArrayWritesDirect(text: JsString, arr: Node, prefix: JsString, k: nat, i: nat)
    requires k <= |arr.children|
    ensures DirectWrites(ArrayWrites(text, arr, prefix, k, i), prefix)
         == ElementEntries(text, prefix, Containers(arr.children[k..]), i)
    decreases |arr.children| - k
  {
    var cs := arr.children;
    if k < |cs| {
      var c := cs[k];
      assert cs[k..][1..] == cs[k + 1..];
      assert cs[k..][0] == c;
      if IsContainer(c) {
        var key := IndexKey(i);
        var own := ElementEntry(text, prefix, c, i);
        var rest := ArrayWrites(text, arr, prefix, k + 1, i + 1);
        assert DirectWrites(ArrayWrites(text, arr, prefix, k, i), prefix) == [own] + DirectWrites(rest, prefix) by {
          var below := Writes(text, c, prefix + key);
          assert ArrayWrites(text, arr, prefix, k, i) == [own] + below + rest;
          DirectWritesConcat([own] + below, rest, prefix);
          DirectWritesConcat([own], below, prefix);
          NoDirectWritesBelow(below, prefix, key);
          assert DirectWrites([own], prefix) == [own];
        }
        ArrayWritesDirect(text, arr, prefix, k + 1, i + 1);
        var tail := Containers(cs[k + 1..]);
        assert ElementEntries(text, prefix, Containers(cs[k..]), i)
            == [own] + ElementEntries(text, prefix, tail, i + 1) by {
          assert Containers(cs[k..]) == [c] + tail;
          ElementEntriesCons(text, prefix, c, tail, i);
        }
      } else {
        ArrayWritesDirect(text, arr, prefix, k + 1, i);
        assert Containers(cs[k..]) == Containers(cs[k + 1..]);
      }
    } else {
      assert cs[k..] == [];
    }
  }

  /**
   * The entries directly under an array are its object and array children
   * only, numbered `[0]`, `[1]`, ... in order: a scalar element takes no
   * number. Each carries the element's own span and text.
   */
  lemma ArrayEntries(text: JsString, arr: Node, prefix: JsString)
    requires arr.kind == Array
    ensures var direct := DirectWrites(Writes(text, arr, prefix), prefix);
            var cs := Containers(arr.children);
      && |direct| == |cs|
      && forall t | 0 <= t < |cs| ::
           direct[t].0 == prefix + IndexKey(t)
           && direct[t].1 == PathInfo(IndexKey(t), Slice(text, cs[t].from, cs[t].to), cs[t].from, cs[t].to, prefix)
  {
    ArrayWritesDirect(text, arr, prefix, 0, 0);
    assert arr.children[0..] == arr.children;
  }

  /** When every element of an array is an object or an array, the numbers in the paths are the literal positions. */
  lemma {:induction false} AllContainersKeepPositions(cs: seq<Node>)
    requires forall k | 0 <= k < |cs| :: IsContainer(cs[k])
    ensures Containers(cs) == cs
  {
    if |cs| > 0 {
      AllContainersKeepPositions(cs[1..]);
      assert [cs[0]] + cs[1..] == cs;
    }
  }

  /** What the `t`-th of the indexed elements `cs`, numbered from `i`, files under `at`: nothing when there is no such element. */
  function ElementAt(text: JsString, prefix: JsString, cs: seq<Node>, i: nat, t: nat, at: JsString): seq<Entry> {
    if i <= t < i + |cs| then DirectWrites(Writes(text, cs[t - i], prefix + IndexKey(t)), at) else []
  }

  lemma ElementAtCons(text: JsString, prefix: JsString, c: Node, tail: seq<Node>, i: nat, t: nat, at: JsString)
    ensures ElementAt(text, prefix, [c] + tail, i, t, at)
         == (if i == t then DirectWrites(Writes(text, c, prefix + IndexKey(t)), at) else [])
            + ElementAt(text, prefix, tail, i + 1, t, at)
  {
    if i < t < i + 1 + |tail| {
      assert ([c] + tail)[t - i] == tail[t - (i + 1)];
    }
  }

  /**
   * Under a path `at` inside the `t`-th indexed element, the array loop from
   * child `k` on (counter at `i`) files exactly what that element's own walk
   * files there, and nothing when the element is not among those children.
   */
  lemma {:induction false} ArrayWritesAt(text: JsString, arr: Node, prefix: JsString, k: nat, i: nat, t: nat, at: JsString)
    requires k <= |arr.children|
    requires StartsWith(at, prefix + IndexKey(t))
    ensures DirectWrites(ArrayWrites(text, arr, prefix, k, i), at)
         == ElementAt(text, prefix, Containers(arr.children[k..]), i, t, at)
    decreases |arr.children| - k
  {
    var cs := arr.children;
    if k < |cs| {
      var c := cs[k];
      assert cs[k..][1..] == cs[k + 1..];
      assert cs[k..][0] == c;
      var tail := Containers(cs[k + 1..]);
      if IsContainer(c) {
        ArrayWritesAt(text, arr, prefix, k + 1, i + 1, t, at);
        assert Containers(cs[k..]) == [c] + tail;
        ElementDirectAt(text, arr, prefix, k, i, t, at);
        ElementAtCons(text, prefix, c, tail, i, t, at);
      } else {
        ArrayWritesAt(text, arr, prefix, k + 1, i, t, at);
        assert Containers(cs[k..]) == tail;
        assert ArrayWrites(text, arr, prefix, k, i) == ArrayWrites(text, arr, prefix, k + 1, i);
      }
    } else {
      assert cs[k..] == [];
      assert ArrayWrites(text, arr, prefix, k, i) == [];
    }
  }

  /** One indexed element's step of `ArrayWritesAt`: its own entry lies above `at`, and its walk counts only when it is element `t`. */
  lemma ElementDirectAt(text: JsString, arr: Node, prefix: JsString, k: nat, i: nat, t: nat, at: JsString)
    requires k < |arr.children| && IsContainer(arr.children[k])
    requires StartsWith(at, prefix + IndexKey(t))
    ensures var c := arr.children[k];
      DirectWrites(ArrayWrites(text, arr, prefix, k, i), at)
      == (if i == t then DirectWrites(Writes(text, c, prefix + IndexKey(t)), at) else [])
         + DirectWrites(ArrayWrites(text, arr, prefix, k + 1, i + 1), at)
  {
    var c := arr.children[k];
    var own: Entry := (prefix + IndexKey(i), PathInfo(IndexKey(i), Slice(text, c.from, c.to), c.from, c.to, prefix));
    var below := Writes(text, c, prefix + IndexKey(i));
    var rest := ArrayWrites(text, arr, prefix, k + 1, i + 1);
    ElementStep(text, arr, prefix, k, i);
    assert |at| > |prefix|;
    HeadNotAt(own, below + rest, at);
    DirectWritesConcat(below, rest, at);
    if i != t {
      ElementBelowOther(text, c, prefix, i, t, at);
    }
  }

  /** At an object or array child the loop files the element, walks it under `prefix[i]`, and moves on with the next number. */
  lemma ElementStep(text: JsString, arr: Node, prefix: JsString, k: nat, i: nat)
    requires k < |arr.children| && IsContainer(arr.children[k])
    ensures var c := arr.children[k];
      ArrayWrites(text, arr, prefix, k, i)
      == [(prefix + IndexKey(i), PathInfo(IndexKey(i), Slice(text, c.from, c.to), c.from, c.to, prefix))]
         + (Writes(text, c, prefix + IndexKey(i)) + ArrayWrites(text, arr, prefix, k + 1, i + 1))
  {
  }

  /** The walk of element `i` files nothing under a path inside a different element `t`. */
  lemma ElementBelowOther(text: JsString, c: Node, prefix: JsString, i: nat, t: nat, at: JsString)
    requires i != t
    requires StartsWith(at, prefix + IndexKey(t))
    ensures DirectWrites(Writes(text, c, prefix + IndexKey(i)), at) == []
  {
    if StartsWith(at, prefix + IndexKey(i)) {
      IndexKeyPrefixUnique(at, prefix, i, t);
    }
    NoDirectWritesAt(Writes(text, c, prefix + IndexKey(i)), at, prefix + IndexKey(i));
  }

  /**
   * An array files under any path inside its `t`-th indexed element exactly
   * what that element's walk under `prefix[t]` files there, and nothing
   * when it has no such element: the walk goes down into every object and
   * array element.
   */
  lemma ArrayDescends(text: JsString, arr: Node, prefix: JsString, t: nat, at: JsString)
    requires arr.kind == Array
    requires StartsWith(at, prefix + IndexKey(t))
    ensures var cs := Containers(arr.children);
      DirectWrites(Writes(text, arr, prefix), at)
      == if t < |cs| then DirectWrites(Writes(text, cs[t], prefix + IndexKey(t)), at) else []
  {
    ArrayWritesAt(text, arr, prefix, 0, 0, t, at);
    assert arr.children[0..] == arr.children;
  }

  /** The entries filed directly under `at` by each of `cs`, walked in order under `prefix`. */
  function ChildrenDirect(text: JsString, cs: seq<Node>, prefix: JsString, at: JsString): seq<Entry>
    decreases |cs|
  {
    if |cs| == 0 then []
    else DirectWrites(Writes(text, cs[0], prefix), at) + ChildrenDirect(text, cs[1..], prefix, at)
  }

  lemma {:induction false} ChildWritesDirect(text: JsString, n: Node, prefix: JsString, at: JsString, k: nat)
    requires k <= |n.children|
    ensures DirectWrites(ChildWrites(text, n, prefix, k), at) == ChildrenDirect(text, n.children[k..], prefix, at)
    decreases |n.children| - k
  {
    if k < |n.children| {
      DirectWritesConcat(Writes(text, n.children[k], prefix), ChildWrites(text, n, prefix, k + 1), at);
      ChildWritesDirect(text, n, prefix, at, k + 1);
      assert n.children[k..][1..] == n.children[k + 1..];
    }
  }

  /**
   * The generic loop (an object, the top node, an error node) files under
   * any path `at` exactly what each child files there, child after child:
   * it adds no entry and no path segment of its own.
   */
  lemma ObjectEntries(text: JsString, n: Node, prefix: JsString, at: JsString)
    requires n.kind != Property && n.kind != Array
    ensures DirectWrites(Writes(text, n, prefix), at) == ChildrenDirect(text, n.children, prefix, at)
  {
    ChildWritesDirect(text, n, prefix, at, 0);
    assert n.children[0..] == n.children;
  }

  /** A property with both a key node and a value node. */
  predicate CompleteProperty(c: Node) {
    c.kind == Property && GetChild(c.children, PropertyName).Some? && ValueChild(c).Some?
  }

  /** The entry a property files under `prefix` on its own account: one when it is complete, none otherwise. */
  function OwnEntries(text: JsString, c: Node, prefix: JsString): (es: seq<Entry>)
    ensures |es| <= 1
    ensures |es| == 1 <==> CompleteProperty(c)
    ensures forall e | e in es :: WellFormedEntry(e) && e.1.parentPath == prefix && InsideNode(e.1, c)
  {
    if CompleteProperty(c)
    then [PropertyOwn(text, c, GetChild(c.children, PropertyName).value, ValueChild(c).value, prefix)]
    else []
  }

  /** Reference listing of the entries of an object's properties: each property's own entry, in order. */
  function PropertyEntries(text: JsString, cs: seq<Node>, prefix: JsString): seq<Entry>
    decreases |cs|
  {
    if |cs| == 0 then [] else OwnEntries(text, cs[0], prefix) + PropertyEntries(text, cs[1..], prefix)
  }

  /** A property files its own entry directly under the current path and everything else deeper; a childless node files nothing. */
  lemma PropertyDirect(text: JsString, c: Node, prefix: JsString)
    requires c.kind == Property || |c.children| == 0
    ensures DirectWrites(Writes(text, c, prefix), prefix) == OwnEntries(text, c, prefix)
  {
    if CompleteProperty(c) {
      var keyNode := GetChild(c.children, PropertyName).value;
      var v := ValueChild(c).value;
      var own := PropertyOwn(text, c, keyNode, v, prefix);
      var key := KeyText(text, keyNode);
      var below := if IsContainer(v) then Writes(text, v, own.0) else [];
      assert Writes(text, c, prefix) == [own] + below;
      DirectWritesConcat([own], below, prefix);
      assert DirectWrites([own], prefix) == [own] by {
        assert [own][1..] == [];
      }
      assert DirectWrites(below, prefix) == [] by {
        assert own.0 == prefix + ([DOT] + key);
        NoDirectWritesBelow(below, prefix, [DOT] + key);
      }
    } else if c.kind == Property {
      assert Writes(text, c, prefix) == [];
    } else if c.kind == Array {
      assert Writes(text, c, prefix) == ArrayWrites(text, c, prefix, 0, 0) == [];
    } else {
      assert Writes(text, c, prefix) == ChildWrites(text, c, prefix, 0) == [];
    }
  }

  lemma {:induction false} ChildrenDirectProperties(text: JsString, cs: seq<Node>, prefix: JsString)
    requires forall i | 0 <= i < |cs| :: cs[i].kind == Property || |cs[i].children| == 0
    ensures ChildrenDirect(text, cs, prefix, prefix) == PropertyEntries(text, cs, prefix)
    decreases |cs|
  {
    if |cs| > 0 {
      var rest := cs[1..];
      assert forall i | 0 <= i < |rest| :: rest[i].kind == Property || |rest[i].children| == 0 by {
        forall i | 0 <= i < |rest| ensures rest[i].kind == Property || |rest[i].children| == 0 {
          assert rest[i] == cs[i + 1];
        }
      }
      PropertyDirect(text, cs[0], prefix);
      ChildrenDirectProperties(text, rest, prefix);
    }
  }

  /**
   * An object whose children are properties and childless tokens files,
   * directly under its path, exactly one entry per complete property, in the
   * properties' order.
   */
  lemma ObjectPropertyEntries(text: JsString, n: Node, prefix: JsString)
    requires n.kind != Property && n.kind != Array
    requires forall i | 0 <= i < |n.children| :: n.children[i].kind == Property || |n.children[i].children| == 0
    ensures DirectWrites(Writes(text, n, prefix), prefix) == PropertyEntries(text, n.children, prefix)
  {
    ObjectEntries(text, n, prefix, prefix);
    ChildrenDirectProperties(text, n.children, prefix);
  }

  /** `from <= pos <= to`: the entry's span, ends included, holds the position. */
  predicate Encloses(info: PathInfo, pos: int) {
    info.from <= pos <= info.to
  }

  /** `to - from` */
  function Width(info: PathInfo): int {
    info.to - info.from
  }

  /** `outer` spans at least everything `inner` spans. */
  predicate SpanContains(outer: PathInfo, inner: PathInfo) {
    outer.from <= inner.from && inner.to <= outer.to
  }

  /** Entry `j` sits directly under `prefix`, or its parent was filed earlier with a span enclosing its own. */
  predicate ParentFiledBefore(ws: seq<Entry>, j: nat, prefix: JsString)
    requires j < |ws|
  {
    || ws[j].1.parentPath == prefix
    || exists i | 0 <= i < j :: ws[i].0 == ws[j].1.parentPath && SpanContains(ws[i].1, ws[j].1)
  }

  predicate ParentsFiledFirst(ws: seq<Entry>, prefix: JsString) {
    forall j | 0 <= j < |ws| :: ParentFiledBefore(ws, j, prefix)
  }

  lemma ParentsFiledFirstConcat(a: seq<Entry>, b: seq<Entry>, prefix: JsString)
    requires ParentsFiledFirst(a, prefix) && ParentsFiledFirst(b, prefix)
    ensures ParentsFiledFirst(a + b, prefix)
  {
    var ab := a + b;
    forall j | 0 <= j < |ab|
      ensures ParentFiledBefore(ab, j, prefix)
    {
      if j < |a| {
        assert ab[j] == a[j];
        if a[j].1.parentPath != prefix {
          assert ParentFiledBefore(a, j, prefix);
          var i :| 0 <= i < j && a[i].0 == a[j].1.parentPath && SpanContains(a[i].1, a[j].1);
          assert ab[i] == a[i];
        }
      } else {
        var jb := j - |a|;
        assert ab[j] == b[jb];
        if b[jb].1.parentPath != prefix {
          assert ParentFiledBefore(b, jb, prefix);
          var i :| 0 <= i < jb && b[i].0 == b[jb].1.parentPath && SpanContains(b[i].1, b[jb].1);
          assert ab[i + |a|] == b[i];
        }
      }
    }
  }

  lemma ParentsFiledFirstCons(own: Entry, below: seq<Entry>, prefix: JsString)
    requires own.1.parentPath == prefix
    requires ParentsFiledFirst(below, own.0)
    requires forall j | 0 <= j < |below| :: SpanContains(own.1, below[j].1)
    ensures ParentsFiledFirst([own] + below, prefix)
  {
    var ws := [own] + below;
    forall j | 0 <= j < |ws|
      ensures ParentFiledBefore(ws, j, prefix)
    {
      if j > 0 {
        var jb := j - 1;
        assert ws[j] == below[jb];
        if below[jb].1.parentPath == own.0 {
          assert ws[0] == own;
        } else {
          assert ParentFiledBefore(below, jb, own.0);
          var i :| 0 <= i < jb && below[i].0 == below[jb].1.parentPath && SpanContains(below[i].1, below[jb].1);
          assert ws[i + 1] == below[i];
        }
      }
    }
  }

  /**
   * In a well-nested tree the walk files every entry after its parent, and
   * the parent's span encloses the entry's span.
   */
  lemma {:induction false} WritesParentsFirst(text: JsString, n: Node, prefix: JsString)
    requires WellNested(n)
    ensures ParentsFiledFirst(Writes(text, n, prefix), prefix)
    decreases n, 1, 0
  {
    if n.kind == Property {
      var keyNode := GetChild(n.children, PropertyName);
      var valueNode := ValueChild(n);
      if keyNode.Some? && valueNode.Some? {
        var v := valueNode.value;
        var key := KeyText(text, keyNode.value);
        var path := prefix + [DOT] + key;
        var own := (path, PathInfo(key, Slice(text, v.from, v.to), n.from, n.to, prefix));
        var below := if IsContainer(v) then Writes(text, v, path) else [];
        assert WellNested(v) && n.from <= v.from && v.to <= n.to;
        if IsContainer(v) {
          WritesParentsFirst(text, v, path);
        }
        ParentsFiledFirstCons(own, below, prefix);
        assert Writes(text, n, prefix) == [own] + below;
      }
    } else if n.kind == Array {
      ArrayParentsFirst(text, n, prefix, 0, 0);
    } else {
      ChildParentsFirst(text, n, prefix, 0);
    }
  }

  lemma {:induction false} ArrayParentsFirst(text: JsString, arr: Node, prefix: JsString, k: nat, i: nat)
    requires k <= |arr.children| && WellNested(arr)
    ensures ParentsFiledFirst(ArrayWrites(text, arr, prefix, k, i), prefix)
    decreases arr, 0, |arr.children| - k
  {
    if k < |arr.children| {
      var c := arr.children[k];
      ArrayParentsFirst(text, arr, prefix, k + 1, i + 1);
      ArrayParentsFirst(text, arr, prefix, k + 1, i);
      if IsContainer(c) {
        var key := IndexKey(i);
        var path := prefix + key;
        var own := (path, PathInfo(key, Slice(text, c.from, c.to), c.from, c.to, prefix));
        var below := Writes(text, c, path);
        WritesParentsFirst(text, c, path);
        ParentsFiledFirstCons(own, below, prefix);
        ParentsFiledFirstConcat([own] + below, ArrayWrites(text, arr, prefix, k + 1, i + 1), prefix);
      }
    }
  }

  lemma {:induction false} ChildParentsFirst(text: JsString, n: Node, prefix: JsString, k: nat)
    requires k <= |n.children| && WellNested(n)
    ensures ParentsFiledFirst(ChildWrites(text, n, prefix, k), prefix)
    decreases n, 0, |n.children| - k
  {
    if k < |n.children| {
      WritesParentsFirst(text, n.children[k], prefix);
      ChildParentsFirst(text, n, prefix, k + 1);
      ParentsFiledFirstConcat(Writes(text, n.children[k], prefix), ChildWrites(text, n, prefix, k + 1), prefix);
    }
  }

  // ---------------------------------------------------------------------------
  // The finished map

  /** A path written more than once (a duplicate key) keeps the value of its last write. */
  lemma BuildPathMapLastWriteWins(text: JsString, root: Node, p: JsString)
    ensures OrderedMap.Get(BuildPathMap(text, root), p) == OrderedMap.LastWrite(Writes(text, root, []), p)
  {
    OrderedMap.SetAllGet([], Writes(text, root, []), p);
  }

  /**
   * Every entry of the map is its parent path followed by `.key` or by an
   * `[i]` key, so the parent path is a prefix of the path; in a well-nested
   * tree every span lies inside the top node.
   */
  lemma BuildPathMapEntries(text: JsString, root: Node)
    ensures var m := BuildPathMap(text, root);
      forall i | 0 <= i < |m| :: WellFormedEntry(m[i]) && StartsWith(m[i].0, m[i].1.parentPath)
    ensures var m := BuildPathMap(text, root);
      WellNested(root) ==> forall i | 0 <= i < |m| :: InsideNode(m[i].1, root)
  {
    var ws := Writes(text, root, []);
    var m := BuildPathMap(text, root);
    OrderedMap.SetAllEntriesWritten(ws);
    forall i | 0 <= i < |m|
      ensures WellFormedEntry(m[i]) && StartsWith(m[i].0, m[i].1.parentPath)
    {
      assert m[i] in ws;
      var e := m[i];
      if e.0 == e.1.parentPath + [DOT] + e.1.key {
        assert e.0[..|e.1.parentPath|] == e.1.parentPath;
      } else {
        assert e.0[..|e.1.parentPath|] == e.1.parentPath;
      }
    }
  }

  /**
   * Containment: when no path is written twice, in a well-nested tree every
   * entry that is not at the top level has its parent in the map, earlier in
   * iteration order, with a span that encloses its own.
   */
  lemma BuildPathMapContainment(text: JsString, root: Node)
    requires WellNested(root)
    requires OrderedMap.KeysUnique(Writes(text, root, []))
    ensures ParentsFiledFirst(BuildPathMap(text, root), [])
  {
    OrderedMap.SetAllDistinct(Writes(text, root, []));
    WritesParentsFirst(text, root, []);
  }
}
