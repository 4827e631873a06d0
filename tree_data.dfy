/**
 * The path-addressed tree store (`TreeData` in static/tree_data.js).
 *
 * In the source every node is a `Map` holding its id and an insertion-ordered
 * `Map` of children keyed by short id. Here a node is named by its id, which
 * is unique (its last segment is a counter value handed out once), and the
 * store keeps, for every node it has created, that node's children map. A
 * node removed from its parent stays in `nodes`, as the `Map` object does for
 * a caller still holding it; it is only no longer reachable from the root.
 */
module TreeData {

  import opened Wrappers
  import opened Paths
  import opened Decimal

  /** The root's id. */
  const Root: string := ""

  /** A children map: the keys in insertion order, and the child id each key names. */
  datatype Children = Children(keys: seq<string>, kids: map<string, string>)

  const NoChildren: Children := Children([], map[])

  /**
   * What `getNode`, `addNode` and `removeNode` accept: a node itself, or a
   * string, read as a path.
   */
  datatype NodeRef = ByNode(node: string) | ByPath(path: string)

  predicate Distinct(s: seq<string>) {
    forall i, j :: 0 <= i < j < |s| ==> s[i] != s[j]
  }

  /**
   * The children map of node `id` is well formed: each key once, the key list
   * and the map agree, every key is a segment and names the child whose id is
   * the parent's id, the separator and the key.
   */
  predicate ChildrenOk(id: string, c: Children) {
    && Distinct(c.keys)
    && (forall k :: k in c.keys ==> k in c.kids)
    && (forall k :: k in c.kids ==> k in c.keys)
    && (forall k {:trigger k in c.kids} :: k in c.kids ==> IsSegment(k) && c.kids[k] == id + [Separator] + k)
  }

  /**
   * `Map.prototype.delete` on the key list: `k` leaves, the others stay
   * (`RemoveKeyKeepsOrder`: in their order).
   */
  function RemoveKey(keys: seq<string>, k: string): (r: seq<string>)
    ensures forall x :: x in r <==> x in keys && x != k
    ensures k !in keys ==> r == keys
    ensures Distinct(keys) ==> Distinct(r)
    decreases |keys|
  {
    if |keys| == 0 then []
    else
      var last := keys[|keys| - 1];
      var init := RemoveKey(keys[..|keys| - 1], k);
      assert keys[..|keys| - 1] + [last] == keys;
      assert forall x :: x in init ==> x in keys[..|keys| - 1];
      var front := keys[..|keys| - 1];
      assert Distinct(keys) ==> Distinct(front) && last !in front by {
        if Distinct(keys) {
          forall i | 0 <= i < |front| ensures front[i] != last {
            assert keys[i] != keys[|keys| - 1];
          }
        }
      }
      if last == k then init else init + [last]
  }

  /** A key list without repeats loses exactly the entry at the key's index, the others keeping their order. */
  lemma {:induction false} RemoveKeyKeepsOrder(keys: seq<string>, k: string, i: nat)
    requires Distinct(keys) && i < |keys| && keys[i] == k
    ensures RemoveKey(keys, k) == keys[..i] + keys[i + 1..]
    decreases |keys|
  {
    var front, last := keys[..|keys| - 1], keys[|keys| - 1];
    if i == |keys| - 1 {
      assert k !in front by {
        forall j | 0 <= j < |front| ensures front[j] != k {
          assert keys[j] != keys[i];
        }
      }
      assert keys[..i] == front && keys[i + 1..] == [];
    } else {
      assert last != k by {
        assert keys[i] != keys[|keys| - 1];
      }
      assert Distinct(front) by {
        forall a, b | 0 <= a < b < |front| ensures front[a] != front[b] {
          assert keys[a] != keys[b];
        }
      }
      RemoveKeyKeepsOrder(front, k, i);
      assert front[..i] == keys[..i] && front[i + 1..] + [last] == keys[i + 1..];
    }
  }

  /** The children map with the entry for `k` deleted: every other entry stays as it was. */
  function Without(c: Children, k: string): (r: Children)
    ensures k !in r.kids && k !in r.keys
    ensures forall x :: x in r.kids <==> x in c.kids && x != k
    ensures forall x :: x in r.kids ==> r.kids[x] == c.kids[x]
  {
    Children(RemoveKey(c.keys, k), c.kids - {k})
  }

  /** The child ids of a children map, in insertion order. */
  function Kids(c: Children): (r: seq<string>)
    requires forall k :: k in c.keys ==> k in c.kids
    ensures |r| == |c.keys|
    ensures forall j :: 0 <= j < |r| ==> r[j] == c.kids[c.keys[j]]
  {
    seq(|c.keys|, j requires 0 <= j < |c.keys| => c.kids[c.keys[j]])
  }

  /** A sequence of distinct keys has as many elements as the set of its keys. */
  lemma {:induction false} DistinctCount(s: seq<string>)
    requires Distinct(s)
    ensures |set x | x in s| == |s|
    decreases |s|
  {
    if |s| > 0 {
      var init := s[..|s| - 1];
      DistinctCount(init);
      assert (set x | x in s) == (set x | x in init) + {s[|s| - 1]};
      assert s[|s| - 1] !in init;
    }
  }

  /**
   * The counter value the last segment of an id stands for: the value of
   * the digits after the last separator.
   */
  function Stamp(id: string): nat
    decreases |id|
  {
    if |id| == 0 || id[|id| - 1] == Separator then 0
    else Stamp(id[..|id| - 1]) * 10 + DigitValue(id[|id| - 1])
  }

  /** The stamp of an id without separator is the value of the whole id. */
  lemma {:induction false} StampOfSegment(id: string)
    requires Separator !in id
    ensures Stamp(id) == DecimalValue(id)
    decreases |id|
  {
    if |id| > 0 {
      assert Separator !in id[..|id| - 1];
      StampOfSegment(id[..|id| - 1]);
    }
  }

  /** The stamp of any id is the value of its short id. */
  lemma StampIsShortIdValue(id: string)
    ensures Stamp(id) == DecimalValue(ShortId(id))
  {
    ShortIdIsLastSegment(id);
    if Separator in id {
      StampOfChild(ParentId(id), ShortId(id));
    } else {
      StampOfSegment(id);
    }
  }

  /** The stamp of a child's id is the value of its key. */
  lemma {:induction false} StampOfChild(p: string, k: string)
    requires Separator !in k
    ensures Stamp(p + [Separator] + k) == DecimalValue(k)
    decreases |k|
  {
    var id := p + [Separator] + k;
    if |k| > 0 {
      var k' := k[..|k| - 1];
      assert id[..|id| - 1] == p + [Separator] + k';
      StampOfChild(p, k');
    }
  }

  /**
   * The store's invariant: the root exists; every id is at most `bound`
   * long; every short id reads as a counter value already handed out; every
   * children map is well formed and names nodes of the store.
   */
  ghost predicate StoreInv(nodes: map<string, Children>, last: nat, bound: nat) {
    && Root in nodes
    && (forall id {:trigger id in nodes} :: id in nodes ==> |id| <= bound)
    && (forall id {:trigger id in nodes} :: id in nodes ==> Stamp(id) <= last)
    && (forall id {:trigger ChildrenOk(id, nodes[id])} :: id in nodes ==> ChildrenOk(id, nodes[id]))
    && (forall id, k {:trigger k in nodes[id].kids} :: id in nodes && k in nodes[id].kids ==> nodes[id].kids[k] in nodes)
  }

  /** A new node without children keeps the invariant, once the bounds cover its id and short id. */
  lemma AddLeafKeepsInv(nodes: map<string, Children>, last: nat, bound: nat, id: string, last': nat, bound': nat)
    requires StoreInv(nodes, last, bound) && last <= last' && bound <= bound'
    requires |id| <= bound' && Stamp(id) <= last'
    ensures StoreInv(nodes[id := NoChildren], last', bound')
  {
    var nodes' := nodes[id := NoChildren];
    assert ChildrenOk(id, NoChildren);
    forall x | x in nodes' ensures |x| <= bound' && Stamp(x) <= last' && ChildrenOk(x, nodes'[x]) {
      if x != id {
        assert x in nodes && nodes'[x] == nodes[x];
      }
    }
    forall x, j | x in nodes' && j in nodes'[x].kids ensures nodes'[x].kids[j] in nodes' {
      assert x in nodes && j in nodes[x].kids;
    }
  }

  /** A node's children map replaced by a well-formed one over nodes of the store keeps the invariant. */
  lemma ReplaceKeepsInv(nodes: map<string, Children>, last: nat, bound: nat, id: string, c: Children)
    requires StoreInv(nodes, last, bound) && id in nodes
    requires ChildrenOk(id, c) && forall k :: k in c.kids ==> c.kids[k] in nodes
    ensures StoreInv(nodes[id := c], last, bound)
  {
    var nodes' := nodes[id := c];
    assert nodes'.Keys == nodes.Keys;
    forall x | x in nodes' ensures |x| <= bound && Stamp(x) <= last && ChildrenOk(x, nodes'[x]) {
      assert x in nodes;
      if x != id {
        assert nodes'[x] == nodes[x];
      }
    }
    forall x, j | x in nodes' && j in nodes'[x].kids ensures nodes'[x].kids[j] in nodes' {
      if x != id {
        assert x in nodes && j in nodes[x].kids;
      }
    }
  }

  /** The child ids of a node, in key order, are nodes of the store named by the parent's id and the key. */
  lemma KidsInStore(nodes: map<string, Children>, last: nat, bound: nat, id: string)
    requires StoreInv(nodes, last, bound) && id in nodes
    ensures forall k :: k in nodes[id].keys ==> k in nodes[id].kids && IsSegment(k)
    ensures var r := Kids(nodes[id]);
      forall j :: 0 <= j < |r| ==> r[j] in nodes && r[j] == id + [Separator] + nodes[id].keys[j]
  {
    var c := nodes[id];
    assert ChildrenOk(id, c);
    forall j | 0 <= j < |c.keys| ensures c.keys[j] in c.kids && c.kids[c.keys[j]] in nodes {
      assert c.keys[j] in c.keys;
    }
    forall k | k in c.keys ensures k in c.kids && IsSegment(k) {
      assert k in c.kids;
    }
  }

  /**
   * The next counter value is a fresh key: a segment that no node has as
   * its short id and no children map holds.
   */
  lemma NextKeyIsFresh(nodes: map<string, Children>, last: nat, bound: nat, p: string)
    requires StoreInv(nodes, last, bound)
    ensures var k := NatToDecimal(last + 1);
      && IsSegment(k)
      && DecimalValue(k) == last + 1
      && p + [Separator] + k !in nodes
      && (forall x :: x in nodes ==> k !in nodes[x].kids)
      && (forall x :: x in nodes ==> ShortId(x) != k)
  {
    var k := NatToDecimal(last + 1);
    DecimalRoundTrip(last + 1);
    StampOfChild(p, k);
    forall x | x in nodes ensures ShortId(x) != k {
      StampIsShortIdValue(x);
    }
    forall x | x in nodes ensures k !in nodes[x].kids {
      if k in nodes[x].kids {
        assert ChildrenOk(x, nodes[x]);
        StampOfChild(x, k);
        assert false;
      }
    }
  }

  /** Appending a new segment key, naming the child it spells, keeps a children map well formed. */
  lemma AppendKeyOk(p: string, c: Children, k: string)
    requires ChildrenOk(p, c) && IsSegment(k) && k !in c.kids
    ensures ChildrenOk(p, Children(c.keys + [k], c.kids[k := p + [Separator] + k]))
  {
    var c' := Children(c.keys + [k], c.kids[k := p + [Separator] + k]);
    forall i, j | 0 <= i < j < |c'.keys| ensures c'.keys[i] != c'.keys[j] {
      if j < |c.keys| {
        assert c'.keys[i] == c.keys[i] && c'.keys[j] == c.keys[j];
      } else {
        assert c'.keys[i] == c.keys[i];
      }
    }
  }

  /**
   * Inserting a child without children under a new segment key keeps the
   * invariant, once the bounds cover the child's id and short id.
   */
  lemma InsertKeepsInv(nodes: map<string, Children>, last: nat, bound: nat, p: string, k: string,
                       last': nat, bound': nat)
    requires StoreInv(nodes, last, bound) && p in nodes
    requires IsSegment(k) && k !in nodes[p].kids
    requires last <= last' && bound <= bound'
    requires |p + [Separator] + k| <= bound' && Stamp(p + [Separator] + k) <= last'
    ensures var id := p + [Separator] + k;
      StoreInv(nodes[p := Children(nodes[p].keys + [k], nodes[p].kids[k := id])][id := NoChildren], last', bound')
  {
    var id := p + [Separator] + k;
    AddLeafKeepsInv(nodes, last, bound, id, last', bound');
    var nodes1 := nodes[id := NoChildren];
    var c := Children(nodes[p].keys + [k], nodes[p].kids[k := id]);
    AppendKeyOk(p, nodes[p], k);
    forall j | j in c.kids ensures c.kids[j] in nodes1 {
      if j != k {
        assert nodes[p].kids[j] in nodes;
      }
    }
    ReplaceKeepsInv(nodes1, last', bound', p, c);
    assert nodes1[p := c] == nodes[p := c][id := NoChildren];
  }

  /** Deleting a key from a children map keeps the invariant. */
  lemma DeleteKeepsInv(nodes: map<string, Children>, last: nat, bound: nat, p: string, k: string)
    requires StoreInv(nodes, last, bound) && p in nodes
    ensures StoreInv(nodes[p := Without(nodes[p], k)], last, bound)
  {
    var c := Without(nodes[p], k);
    assert ChildrenOk(p, nodes[p]);
    assert ChildrenOk(p, c);
    forall j | j in c.kids ensures c.kids[j] in nodes {
      assert nodes[p].kids[j] in nodes;
    }
    ReplaceKeepsInv(nodes, last, bound, p, c);
  }

  class Store {
    /** Every node the store has created, by id, with its children map. */
    var nodes: map<string, Children>
    /** `lastInternalId`: the last counter value handed out as a short id. */
    var lastInternalId: nat
    /** A bound on the length of every id, the measure for recursion down the tree. */
    ghost var idBound: nat

    ghost predicate Valid()
      reads this
    {
      StoreInv(nodes, lastInternalId, idBound)
    }

    /** A node handle names a node of this store. */
    ghost predicate RefOk(ref: NodeRef)
      reads this
    {
      ref.ByNode? ==> ref.node in nodes
    }

    /** The object literal's `data` and `lastInternalId`, then `init()` as run on load. */
    constructor ()
      ensures Valid()
      ensures nodes == map[Root := NoChildren] && lastInternalId == 0
    {
      nodes := map[Root := NoChildren];
      lastInternalId := 0;
      idBound := 0;
    }

    /** `init`: the root gets id "" and a fresh, empty children map. */
    method Init()
      requires Valid()
      modifies this
      ensures Valid()
      ensures nodes == old(nodes)[Root := NoChildren]
      ensures lastInternalId == old(lastInternalId)
    {
      ReplaceKeepsInv(nodes, lastInternalId, idBound, Root, NoChildren);
      nodes := nodes[Root := NoChildren];
    }

    /** `getRoot`: the node every path starts from. */
    function GetRoot(): (r: string)
      reads this
      requires Valid()
      ensures r in nodes && r == Root
      ensures ShortId(r) == "" && ParentId(r) == ""
    {
      ShortIdIsLastSegment(Root);
      Root
    }

    /** `getNodeChild`: the child under `key`, if there is one. */
    function GetNodeChild(node: string, key: string): (r: Option<string>)
      reads this
      requires Valid() && node in nodes
      ensures r.Some? <==> key in nodes[node].keys
      ensures r.Some? ==> r.value in nodes && r.value == node + [Separator] + key
    {
      assert ChildrenOk(node, nodes[node]);
      if key in nodes[node].kids then Some(nodes[node].kids[key]) else None
    }

    /** A child's short id is the key it is listed under, and its parent id is the node's id. */
    lemma ChildIdsSplit(node: string, key: string)
      requires Valid() && node in nodes && GetNodeChild(node, key).Some?
      ensures ShortId(GetNodeChild(node, key).value) == key
      ensures ParentId(GetNodeChild(node, key).value) == node
    {
      assert ChildrenOk(node, nodes[node]) && key in nodes[node].kids;
      ChildIdParts(node, key);
    }

    /** `getNodeChildrenCount`: the size of the children map. */
    function GetNodeChildrenCount(node: string): (n: nat)
      reads this
      requires Valid() && node in nodes
      ensures n == |nodes[node].kids|
    {
      var c := nodes[node];
      assert ChildrenOk(node, c);
      DistinctCount(c.keys);
      assert c.kids.Keys == set x | x in c.keys;
      |c.keys|
    }

    /** The children of `node`, in insertion order. */
    ghost function ChildIds(node: string): (r: seq<string>)
      reads this
      requires Valid() && node in nodes
      ensures |r| == |nodes[node].keys|
      ensures forall j :: 0 <= j < |r| ==> r[j] in nodes && r[j] == node + [Separator] + nodes[node].keys[j]
    {
      KidsInStore(nodes, lastInternalId, idBound, node);
      Kids(nodes[node])
    }

    /**
     * `getNodeChildrenIterator`: yields the children in insertion order
     * (each once, `ChildIdsDistinct`; each the child under its key,
     * `ChildIdsByKey`), and leaves the children map as it is.
     */
    method GetNodeChildren(node: string) returns (cs: seq<string>)
      requires Valid() && node in nodes
      ensures cs == ChildIds(node)
    {
      var c := nodes[node];
      KidsInStore(nodes, lastInternalId, idBound, node);
      cs := [];
      var i := 0;
      while i < |c.keys|
        invariant 0 <= i <= |c.keys|
        invariant cs == Kids(c)[..i]
      {
        cs := cs + [c.kids[c.keys[i]]];
        i := i + 1;
      }
      assert Kids(c)[..|c.keys|] == Kids(c);
    }

    /** The `j`-th child is what `getNodeChild` finds under the `j`-th key. */
    lemma ChildIdsByKey(node: string)
      requires Valid() && node in nodes
      ensures forall j :: 0 <= j < |ChildIds(node)| ==> GetNodeChild(node, nodes[node].keys[j]) == Some(ChildIds(node)[j])
    {
      KidsInStore(nodes, lastInternalId, idBound, node);
    }

    /** The child under a key is a node of the store, its id longer than its parent's and within the bound. */
    lemma ChildDeeper(node: string, k: string)
      requires Valid() && node in nodes && k in nodes[node].kids
      ensures nodes[node].kids[k] in nodes && nodes[node].kids[k] == node + [Separator] + k
      ensures |node| < |nodes[node].kids[k]| <= idBound
    {
      assert ChildrenOk(node, nodes[node]);
    }

    /** Every key of a children map is in the map. */
    lemma KeysAreKids(node: string)
      requires Valid() && node in nodes
      ensures forall k :: k in nodes[node].keys ==> k in nodes[node].kids
    {
      assert ChildrenOk(node, nodes[node]);
    }

    /** Distinct keys name distinct children. */
    lemma ChildIdsDistinct(node: string)
      requires Valid() && node in nodes
      ensures Distinct(ChildIds(node))
    {
      var c, cs := nodes[node], ChildIds(node);
      KidsInStore(nodes, lastInternalId, idBound, node);
      assert ChildrenOk(node, c);
      forall i, j | 0 <= i < j < |cs| ensures cs[i] != cs[j] {
        assert c.keys[i] != c.keys[j];
        assert c.keys[i] in c.keys && c.keys[j] in c.keys;
        ChildIdParts(node, c.keys[i]);
        ChildIdParts(node, c.keys[j]);
      }
    }

    /**
     * Where a path leads from the root: every non-empty segment is looked up
     * in the children of the node reached so far; empty segments are skipped;
     * a missing key gives None.
     */
    ghost function Descend(segs: seq<string>): (r: Option<string>)
      reads this
      requires Valid()
      ensures r.Some? ==> r.value in nodes
      decreases |segs|
    {
      if |segs| == 0 then Some(Root) else Step(Descend(segs[..|segs| - 1]), segs[|segs| - 1])
    }

    /** One step of `getNode`'s walk: from the node reached so far, through segment `k`. */
    function Step(at: Option<string>, k: string): (r: Option<string>)
      reads this
      requires Valid() && (at.Some? ==> at.value in nodes)
      ensures r.Some? ==> r.value in nodes
    {
      match at
      case None => None
      case Some(n) => if |k| == 0 then Some(n) else GetNodeChild(n, k)
    }

    /** The node a path string names, if any: always a node of the store. */
    ghost function Resolve(path: string): (r: Option<string>)
      reads this
      requires Valid()
      ensures r.Some? ==> r.value in nodes
    {
      Descend(Split(path))
    }

    /** The node a reference names: a node handle names itself, and a path what it resolves to. */
    ghost function Lookup(ref: NodeRef): (r: Option<string>)
      reads this
      requires Valid() && RefOk(ref)
      ensures r.Some? ==> r.value in nodes
    {
      match ref
      case ByNode(n) => Some(n)
      case ByPath(p) => Resolve(p)
    }

    /**
     * `getNode`: a node is returned as it is; a path is followed from the
     * root segment by segment, stopping at the first missing key.
     */
    method GetNode(ref: NodeRef) returns (r: Option<string>)
      requires Valid() && RefOk(ref)
      ensures r == Lookup(ref)
      ensures r.Some? ==> r.value in nodes
    {
      if ref.ByNode? {
        return Some(ref.node);
      }
      var segs := Split(ref.path);
      r := Some(Root);
      var i := 0;
      while i < |segs|
        invariant 0 <= i <= |segs|
        invariant r.Some? && r == Descend(segs[..i])
      {
        DescendNext(segs, i);
        if |segs[i]| > 0 {
          r := GetNodeChild(r.value, segs[i]);
          if r.None? {
            DescendNoneStays(segs, i + 1);
            return;
          }
        }
        i := i + 1;
      }
      assert segs[..i] == segs;
    }

    /** Following one more segment of a path is one more `Step`. */
    lemma DescendNext(segs: seq<string>, i: nat)
      requires Valid() && i < |segs|
      ensures Descend(segs[..i + 1]) == Step(Descend(segs[..i]), segs[i])
    {
      assert segs[..i + 1][..i] == segs[..i];
    }

    /** `getNodeParent`: the node that the parent id of `node` resolves to. */
    method GetNodeParent(node: string) returns (r: Option<string>)
      requires Valid() && node in nodes
      ensures r == Resolve(ParentId(node))
      ensures r.Some? ==> r.value in nodes
    {
      r := GetNode(ByPath(ParentId(node)));
    }

    /** `nodeToString`: the short id of a node or of an id string. */
    static function NodeToString(ref: NodeRef): (s: string)
      ensures Separator !in s
      ensures ref.ByNode? ==> s == ShortId(ref.node)
      ensures ref.ByPath? ==> s == ShortId(ref.path)
    {
      var id := match ref case ByNode(n) => n case ByPath(p) => p;
      ShortIdIsLastSegment(id);
      ShortId(id)
    }

    /**
     * `after` is `before` with a new child of `p`, keyed `k`, that has no
     * children itself: the key is new everywhere (no children map holds it,
     * no node has it as its short id), the id is new, it is inserted last
     * among the children of `p`, and nothing else changes.
     */
    static ghost predicate Added(before: map<string, Children>, p: string, k: string, after: map<string, Children>)
      ensures Added(before, p, k, after) ==>
        && p in before
        && after.Keys == before.Keys + {p + [Separator] + k}
        && after[p + [Separator] + k] == NoChildren
        && after[p].keys == before[p].keys + [k]
        && (forall x :: x in before && x != p ==> after[x] == before[x])
    {
      var id := p + [Separator] + k;
      && p in before
      && id !in before
      && (forall x :: x in before ==> k !in before[x].kids)
      && (forall x :: x in before ==> ShortId(x) != k)
      && after == before[p := Children(before[p].keys + [k], before[p].kids[k := id])][id := NoChildren]
    }

    /**
     * `addNode`: if the parent resolves, the counter advances by one and a
     * node with an empty children map, keyed by the new counter value, is
     * inserted last among the parent's children; otherwise nothing changes.
     */
    method AddNode(parent: NodeRef) returns (r: Option<string>)
      requires Valid() && RefOk(parent)
      modifies this
      ensures Valid()
      ensures old(Lookup(parent)).None? ==>
        r.None? && nodes == old(nodes) && lastInternalId == old(lastInternalId)
      ensures old(Lookup(parent)).Some? ==>
        lastInternalId == old(lastInternalId) + 1 &&
        r == Some(old(Lookup(parent)).value + [Separator] + NatToDecimal(lastInternalId)) &&
        Added(old(nodes), old(Lookup(parent)).value, NatToDecimal(lastInternalId), nodes)
    {
      var parentNode := GetNode(parent);
      if parentNode.None? {
        return None;
      }
      var id := AddChild(parentNode.value);
      r := Some(id);
    }

    /** The insertion `addNode` makes once its parent has resolved to `p`. */
    method AddChild(p: string) returns (id: string)
      requires Valid() && p in nodes
      modifies this
      ensures Valid()
      ensures lastInternalId == old(lastInternalId) + 1
      ensures id == p + [Separator] + NatToDecimal(lastInternalId)
      ensures Added(old(nodes), p, NatToDecimal(lastInternalId), nodes)
    {
      var k := NatToDecimal(lastInternalId + 1);
      id := p + [Separator] + k;
      var nodes' := nodes[p := Children(nodes[p].keys + [k], nodes[p].kids[k := id])][id := NoChildren];
      var bound := if |id| > idBound then |id| else idBound;
      AddKeepsInv(nodes, lastInternalId, idBound, p, bound);
      lastInternalId, nodes, idBound := lastInternalId + 1, nodes', bound;
    }

    /** The next counter value names a fresh child of `p`, and adding it keeps the invariant. */
    static lemma AddKeepsInv(nodes: map<string, Children>, last: nat, bound: nat, p: string, bound': nat)
      requires StoreInv(nodes, last, bound) && p in nodes
      requires bound' == if |p + [Separator] + NatToDecimal(last + 1)| > bound then |p + [Separator] + NatToDecimal(last + 1)| else bound
      ensures var k := NatToDecimal(last + 1); var id := p + [Separator] + k;
        var nodes' := nodes[p := Children(nodes[p].keys + [k], nodes[p].kids[k := id])][id := NoChildren];
        Added(nodes, p, k, nodes') && StoreInv(nodes', last + 1, bound')
    {
      var k := NatToDecimal(last + 1);
      NextKeyIsFresh(nodes, last, bound, p);
      ChildIdParts(p, k);
      StampOfChild(p, k);
      InsertKeepsInv(nodes, last, bound, p, k, last + 1, bound');
    }

    /**
     * The children maps once the node `ref` names is detached: its short id is
     * deleted from the children map of the node its parent id resolves to;
     * nothing changes when either does not resolve.
     */
    ghost function Removed(ref: NodeRef): (r: map<string, Children>)
      reads this
      requires Valid() && RefOk(ref)
      ensures r.Keys == nodes.Keys
      ensures forall x :: x in nodes ==> r[x].kids.Keys <= nodes[x].kids.Keys
      ensures StoreInv(r, lastInternalId, idBound)
    {
      match Lookup(ref)
      case None => nodes
      case Some(n) =>
        match Resolve(ParentId(n))
        case None => nodes
        case Some(p) =>
          DeleteKeepsInv(nodes, lastInternalId, idBound, p, ShortId(n));
          nodes[p := Without(nodes[p], ShortId(n))]
    }

    /**
     * `removeNode`: the node named by `ref` is deleted, under its short id,
     * from the children map of the node its parent id resolves to. Nothing
     * changes when either does not resolve.
     */
    method RemoveNode(ref: NodeRef)
      requires Valid() && RefOk(ref)
      modifies this
      ensures Valid()
      ensures lastInternalId == old(lastInternalId)
      ensures nodes == old(Removed(ref))
    {
      ghost var want := Removed(ref);
      var node := GetNode(ref);
      if node.Some? {
        var parentNode := GetNodeParent(node.value);
        if parentNode.Some? {
          var p, k := parentNode.value, NodeToString(ByNode(node.value));
          assert want == nodes[p := Without(nodes[p], k)];
          DeleteChild(p, k);
        }
      }
    }

    /** The deletion `removeNode` makes once the parent has resolved to `p`: key `k` leaves its children map. */
    method DeleteChild(p: string, k: string)
      requires Valid() && p in nodes
      modifies this
      ensures Valid()
      ensures lastInternalId == old(lastInternalId)
      ensures nodes == old(nodes)[p := Without(old(nodes)[p], k)]
    {
      DeleteKeepsInv(nodes, lastInternalId, idBound, p, k);
      nodes := nodes[p := Without(nodes[p], k)];
    }

    /**
     * `removeNode("")` changes nothing: the root resolves to itself, its
     * parent id "" to the root again, and the key "" it would delete is in
     * no children map.
     */
    lemma RemovingRootIsNoop()
      requires Valid()
      ensures Removed(ByPath(Root)) == nodes
    {
      ResolveEmptyIsRoot();
      ShortIdIsLastSegment(Root);
      assert ChildrenOk(Root, nodes[Root]);
      assert "" !in nodes[Root].kids;
      assert nodes[Root].kids - {""} == nodes[Root].kids;
    }

    /** Once a path prefix leads nowhere, so does the whole path. */
    lemma {:induction false} DescendNoneStays(segs: seq<string>, j: nat)
      requires Valid() && j <= |segs|
      requires Descend(segs[..j]) == None
      ensures Descend(segs) == None
      decreases |segs|
    {
      if j < |segs| {
        var init := segs[..|segs| - 1];
        assert init[..j] == segs[..j];
        DescendNoneStays(init, j);
      } else {
        assert segs[..j] == segs;
      }
    }

    /** The non-empty segments of a path, in order. */
    static function NonEmpty(segs: seq<string>): (r: seq<string>)
      decreases |segs|
    {
      if |segs| == 0 then []
      else
        var k := segs[|segs| - 1];
        NonEmpty(segs[..|segs| - 1]) + (if |k| == 0 then [] else [k])
    }

    /** Leading empty segments are dropped. */
    static lemma {:induction false} NonEmptyDropsLeadingEmpty(segs: seq<string>)
      ensures NonEmpty([""] + segs) == NonEmpty(segs)
      decreases |segs|
    {
      if |segs| > 0 {
        var init := segs[..|segs| - 1];
        NonEmptyDropsLeadingEmpty(init);
        assert ([""] + segs)[..|segs|] == [""] + init;
      }
    }

    /** Dropping empty segments twice is dropping them once. */
    static lemma {:induction false} NonEmptyIdempotent(segs: seq<string>)
      ensures NonEmpty(NonEmpty(segs)) == NonEmpty(segs)
      decreases |segs|
    {
      if |segs| > 0 {
        var init := segs[..|segs| - 1];
        var k := segs[|segs| - 1];
        NonEmptyIdempotent(init);
        if |k| > 0 {
          var ne := NonEmpty(init) + [k];
          assert NonEmpty(segs) == ne;
          assert ne[..|ne| - 1] == NonEmpty(init);
          assert NonEmpty(ne) == NonEmpty(NonEmpty(init)) + [k];
        } else {
          assert NonEmpty(segs) == NonEmpty(init);
        }
      }
    }

    /** Following a path only depends on its non-empty segments. */
    lemma {:induction false} DescendSkipsEmpty(segs: seq<string>)
      requires Valid()
      ensures Descend(segs) == Descend(NonEmpty(segs))
      decreases |segs|
    {
      if |segs| > 0 {
        var init := segs[..|segs| - 1];
        var k := segs[|segs| - 1];
        DescendSkipsEmpty(init);
        assert Descend(segs) == Step(Descend(init), k);
        if |k| > 0 {
          var ne := NonEmpty(init) + [k];
          assert NonEmpty(segs) == ne;
          assert ne[..|ne| - 1] == NonEmpty(init);
          assert Descend(ne) == Step(Descend(NonEmpty(init)), k);
        } else {
          assert NonEmpty(segs) == NonEmpty(init);
        }
      }
    }

    /**
     * The node a path reaches has, as the pieces of its id, the empty root
     * id followed by the path's non-empty segments: the id invariant
     * `id(child) == id(parent) + "/" + key` applied along the path.
     */
    lemma {:induction false} DescendSpellsId(segs: seq<string>)
      requires Valid() && Descend(segs).Some?
      ensures Split(Descend(segs).value) == [""] + NonEmpty(segs)
      decreases |segs|
    {
      if |segs| > 0 {
        var init := segs[..|segs| - 1];
        var k := segs[|segs| - 1];
        DescendSpellsId(init);
        if |k| > 0 {
          var m := Descend(init).value;
          assert ChildrenOk(m, nodes[m]);
          SplitAppend(m, k);
        }
      }
    }

    /**
     * Identity round trip: every node reachable from the root along some
     * path is what its own id resolves to.
     */
    lemma IdRoundTrip(segs: seq<string>, n: string)
      requires Valid() && Descend(segs) == Some(n)
      ensures Resolve(n) == Some(n)
    {
      DescendSpellsId(segs);
      DescendSkipsEmpty([""] + NonEmpty(segs));
      NonEmptyDropsLeadingEmpty(NonEmpty(segs));
      NonEmptyIdempotent(segs);
      DescendSkipsEmpty(segs);
    }

    /**
     * A reachable node other than the root has a reachable parent, named by
     * its parent id, which lists it under its short id.
     */
    lemma ParentOfReachable(segs: seq<string>, n: string)
      requires Valid() && Descend(segs) == Some(n) && n != Root
      ensures Resolve(ParentId(n)) == Some(ParentId(n))
      ensures ParentId(n) in nodes && ShortId(n) in nodes[ParentId(n)].kids
      ensures nodes[ParentId(n)].kids[ShortId(n)] == n
    {
      DescendSkipsEmpty(segs);
      var ks := NonEmpty(segs);
      assert |ks| > 0;
      var init, k := ks[..|ks| - 1], ks[|ks| - 1];
      assert Descend(ks) == Step(Descend(init), k);
      var q := Descend(init).value;
      NonEmptyHasNoEmpty(segs);
      assert GetNodeChild(q, k) == Some(n);
      assert ChildrenOk(q, nodes[q]) && k in nodes[q].kids;
      ChildIdParts(q, k);
      IdRoundTrip(init, q);
    }

    /** No segment of `NonEmpty(segs)` is empty. */
    static lemma {:induction false} NonEmptyHasNoEmpty(segs: seq<string>)
      ensures forall i :: 0 <= i < |NonEmpty(segs)| ==> |NonEmpty(segs)[i]| > 0
      decreases |segs|
    {
      if |segs| > 0 {
        NonEmptyHasNoEmpty(segs[..|segs| - 1]);
      }
    }

    /** `getNode("")` is the root. */
    lemma ResolveEmptyIsRoot()
      requires Valid()
      ensures Resolve("") == Some(Root)
      ensures Lookup(ByPath(Root)) == Some(Root)
    {
      var segs := Split("");
      assert segs == [""];
      assert segs[..0] == [];
      assert Descend(segs) == Step(Descend([]), "");
    }

    /**
     * The subtree under `id` as a value: the node's id, then the subtrees of
     * its children in insertion order, as `getNodeChildrenIterator` walks them.
     */
    ghost function Subtree(id: string): (t: Tree)
      reads this
      requires Valid() && id in nodes
      ensures t.id == id && |t.children| == |nodes[id].keys|
      decreases idBound - |id|, 1
    {
      Tree(id, SubtreesOf(id, ChildIds(id)))
    }

    /** The `i`th subtree under `id` is the subtree of its `i`th child, a node with a longer id. */
    lemma SubtreeAt(id: string, i: nat)
      requires Valid() && id in nodes && i < |nodes[id].keys|
      ensures var c := ChildIds(id)[i];
        c in nodes && |id| < |c| && Subtree(id).children[i] == Subtree(c)
    {
      assert ChildrenOk(id, nodes[id]);
    }

    /** The roots of the subtrees under `id` are its children, in insertion order. */
    lemma SubtreeRoots(id: string)
      requires Valid() && id in nodes
      ensures Roots(Subtree(id).children) == ChildIds(id)
    {
      RootsAt(Subtree(id).children);
    }

    /** The subtrees under the nodes `cs`, children of `id`, in order. */
    ghost function SubtreesOf(id: string, cs: seq<string>): (ts: seq<Tree>)
      reads this
      requires Valid() && id in nodes
      requires forall j :: 0 <= j < |cs| ==> cs[j] in nodes && |id| < |cs[j]|
      ensures |ts| == |cs|
      ensures forall j :: 0 <= j < |ts| ==> ts[j] == Subtree(cs[j])
      decreases idBound - |id|, 0, |cs|
    {
      if |cs| == 0 then []
      else SubtreesOf(id, cs[..|cs| - 1]) + [Subtree(cs[|cs| - 1])]
    }

  }

  /** A subtree as a value: the id of its root, then the subtrees of its children in order. */
  datatype Tree = Tree(id: string, children: seq<Tree>)

  /** The ids of the roots of some subtrees, in order. */
  function Roots(ts: seq<Tree>): (r: seq<string>)
    ensures |r| == |ts|
  {
    if |ts| == 0 then [] else Roots(ts[..|ts| - 1]) + [ts[|ts| - 1].id]
  }

  /** The `j`th root is the id of the `j`th subtree. */
  lemma {:induction false} RootsAt(ts: seq<Tree>)
    ensures forall j :: 0 <= j < |ts| ==> Roots(ts)[j] == ts[j].id
    decreases |ts|
  {
    if |ts| > 0 {
      RootsAt(ts[..|ts| - 1]);
    }
  }

  /**
   * The width of a subtree, as `layoutNodeChildren` counts it: every child
   * takes its own width, and at least one column.
   */
  function Width(t: Tree): (w: nat)
    ensures w == 0 <==> t.children == []
    decreases t, 1
  {
    WidthOf(t.children)
  }

  /** The columns some subtrees take side by side. */
  function WidthOf(ts: seq<Tree>): (w: nat)
    ensures w >= |ts|
    decreases ts, 0
  {
    if |ts| == 0 then 0
    else
      var w := Width(ts[|ts| - 1]);
      WidthOf(ts[..|ts| - 1]) + (if w == 0 then 1 else w)
  }

  /** The ids of the leaves strictly below the root of a subtree, left to right. */
  function Leaves(t: Tree): seq<string>
    decreases t, 1
  {
    LeavesOf(t.children)
  }

  /** The leaves of some subtrees side by side, each childless root counting as its own leaf. */
  function LeavesOf(ts: seq<Tree>): seq<string>
    decreases ts, 0
  {
    if |ts| == 0 then []
    else
      var c := ts[|ts| - 1];
      LeavesOf(ts[..|ts| - 1]) + (if c.children == [] then [c.id] else Leaves(c))
  }

  /**
   * The ids of the nodes `k + 1` levels below the root of a subtree, left to
   * right: its children for `k == 0`, their children for `k == 1`, and so on.
   */
  function Generation(t: Tree, k: nat): seq<string>
    decreases t, 1
  {
    GenerationOf(t.children, k)
  }

  /** The ids of the nodes `k` levels below the roots of some subtrees, left to right; the roots for `k == 0`. */
  function GenerationOf(ts: seq<Tree>, k: nat): seq<string>
    decreases ts, 0
  {
    if |ts| == 0 then []
    else
      var c := ts[|ts| - 1];
      GenerationOf(ts[..|ts| - 1], k) + (if k == 0 then [c.id] else Generation(c, k - 1))
  }

  /** The width of a subtree is the number of leaves below its root. */
  lemma {:induction false} WidthCountsLeaves(t: Tree)
    ensures Width(t) == |Leaves(t)|
    decreases t, 1
  {
    WidthOfCountsLeaves(t.children);
  }

  /** The columns of some subtrees are the leaves below them. */
  lemma {:induction false} WidthOfCountsLeaves(ts: seq<Tree>)
    ensures WidthOf(ts) == |LeavesOf(ts)|
    decreases ts, 0
  {
    if |ts| > 0 {
      WidthOfCountsLeaves(ts[..|ts| - 1]);
      WidthCountsLeaves(ts[|ts| - 1]);
    }
  }

}
