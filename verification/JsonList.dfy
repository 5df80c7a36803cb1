/** The list edits of cJSON (ext/cJSON/cJSON.c:927-1034): children are linked by next and prev, and the edits
    act on the sequence of children. */
module JsonList {
  import opened Prelude

  /** The fields of a node that hold its value. */
  datatype Data = Data(typ: nat, valueint: int, valuedouble: real, valuestring: Option<seq<byte>>, name: Option<seq<byte>>)

  class Item {
    var next: Item?
    var prev: Item?
    var child: Item?
    var data: Data

    /** cJSON_New_Item, which clears all fields. */
    constructor ()
      ensures next == null && prev == null && child == null && data == Data(0, 0, 0.0, None, None)
    {
      next, prev, child, data := null, null, null, Data(0, 0, 0.0, None, None);
    }
  }

  /** The k-th of the items, or null behind either end. */
  function At(items: seq<Item>, k: int): Item? {
    if 0 <= k < |items| then items[k] else null
  }

  ghost predicate Distinct(parent: Item, items: seq<Item>) {
    parent !in items && forall i, j :: 0 <= i < j < |items| ==> items[i] != items[j]
  }

  ghost predicate LinkedAt(items: seq<Item>, k: nat)
    requires k < |items|
    reads items`next, items`prev
  {
    items[k].next == At(items, k + 1) && items[k].prev == At(items, k - 1)
  }

  /** The children of an array are exactly these, in this order: a chain without a cycle, linked both ways. */
  ghost predicate Linked(parent: Item, items: seq<Item>)
    reads parent`child, items`next, items`prev
  {
    && Distinct(parent, items)
    && parent.child == At(items, 0)
    && forall k :: 0 <= k < |items| ==> LinkedAt(items, k)
  }

  /** An item that is in no list. */
  ghost predicate Unlinked(item: Item)
    reads item
  {
    item.next == null && item.prev == null
  }

  ghost predicate New(parent: Item, items: seq<Item>, item: Item) {
    item != parent && item !in items
  }

  /** What being linked means for the fields: each item and the one before it point at each other, and both ends are
      null. */
  lemma {:induction false} Neighbours(parent: Item, items: seq<Item>, k: nat)
    requires Linked(parent, items) && k < |items|
    ensures items[k].prev == if k == 0 then null else items[k - 1]
    ensures items[k].next == if k + 1 == |items| then null else items[k + 1]
    ensures k > 0 ==> items[k - 1].next == items[k]
    ensures parent.child == items[0] != parent
  {
    assert LinkedAt(items, k);
    assert k > 0 ==> LinkedAt(items, k - 1);
  }

  // ----- edits of sequences

  function Inserted(items: seq<Item>, k: nat, item: Item): seq<Item>
    requires k <= |items|
  {
    items[..k] + [item] + items[k..]
  }

  function Removed(items: seq<Item>, k: nat): seq<Item>
    requires k < |items|
  {
    items[..k] + items[k + 1..]
  }

  /** Where the loops that count down `which` stop. */
  function Position(items: seq<Item>, which: int): nat {
    if which <= 0 then 0 else if which < |items| then which else |items|
  }

  /** The edits at any position: negative ones mean the first item, and ones behind the end add or find nothing. */
  lemma {:induction false} Edits(items: seq<Item>, which: int, item: Item)
    ensures Inserted(items, Position(items, which), item)
         == if which <= 0 then [item] + items else if which < |items| then items[..which] + [item] + items[which..] else items + [item]
    ensures At(items, Position(items, which))
         == if items == [] || which >= |items| then null else items[if which < 0 then 0 else which]
    ensures items != [] && which < |items| ==>
              Removed(items, Position(items, which)) == if which <= 0 then items[1..] else items[..which] + items[which + 1..]
  {
  }

  lemma {:induction false} InsertedDistinct(parent: Item, items: seq<Item>, k: nat, item: Item)
    requires Distinct(parent, items) && New(parent, items, item) && k <= |items|
    ensures Distinct(parent, Inserted(items, k, item))
  {
    var r := Inserted(items, k, item);
    forall i, j | 0 <= i < j < |r|
      ensures r[i] != r[j]
    {
      assert i != k ==> r[i] == items[if i < k then i else i - 1];
      assert j != k ==> r[j] == items[if j < k then j else j - 1];
    }
  }

  // ----- the code

  /** suffix_object */
  method SuffixObject(prev: Item, item: Item)
    modifies prev`next, item`prev
    ensures prev.next == item && item.prev == prev
  {
    prev.next := item;
    item.prev := prev;
  }

  /** cJSON_AddItemToArray: append. */
  method AddItemToArray(parent: Item, item: Item?, ghost items: seq<Item>)
    requires Linked(parent, items)
    requires item != null ==> New(parent, items, item) && Unlinked(item)
    modifies parent`child, items`next, (if item == null then {} else {item})`prev
    ensures if item == null then Linked(parent, items) else Linked(parent, items + [item])
  {
    var c := parent.child;
    if item == null {
      return;
    }
    if c == null {
      parent.child := item;
    } else {
      ghost var k := 0;
      assert LinkedAt(items, 0);
      while c != null && c.next != null
        invariant 0 <= k < |items| && c == items[k] && LinkedAt(items, k)
        decreases |items| - k
      {
        c := c.next;
        k := k + 1;
        assert LinkedAt(items, k);
      }
      SuffixObject(c, item);
    }
    ghost var items' := items + [item];
    forall k | 0 <= k < |items'|
      ensures LinkedAt(items', k)
    {
      if k < |items| {
        assert old(LinkedAt(items, k));
      }
    }
  }

  /** The loop that walks `which` items on. */
  method Walk(parent: Item, which: int, ghost items: seq<Item>) returns (c: Item?)
    requires Linked(parent, items)
    ensures c == At(items, Position(items, which))
    ensures (0 <= which < |items| ==> c == items[which]) && (which <= 0 < |items| ==> c == items[0])
    ensures which >= |items| ==> c == null
  {
    c := parent.child;
    var left := which;
    ghost var k := 0;
    while c != null && left > 0
      invariant 0 <= k <= |items| && c == At(items, k)
      invariant if which > 0 then k + left == which && left >= 0 else k == 0 && left == which
      decreases |items| - k
    {
      assert LinkedAt(items, k);
      c := c.next;
      left := left - 1;
      k := k + 1;
    }
  }

  /** cJSON_DetachItemFromArray: remove at a position. */
  method DetachItemFromArray(parent: Item, which: int, ghost items: seq<Item>) returns (c: Item?)
    requires Linked(parent, items)
    modifies parent`child, items`next, items`prev
    ensures var k := Position(items, which);
            && c == At(items, k)
            && if c == null then Linked(parent, items) else Linked(parent, Removed(items, k)) && c.next == null && c.prev == null
  {
    c := Walk(parent, which, items);
    if c == null {
      return;
    }
    ghost var k := Position(items, which);
    assert LinkedAt(items, k) && (k > 0 ==> LinkedAt(items, k - 1)) && (k + 1 < |items| ==> LinkedAt(items, k + 1));
    if c.prev != null {
      c.prev.next := c.next;
    }
    if c.next != null {
      c.next.prev := c.prev;
    }
    if c == parent.child {
      parent.child := c.next;
    }
    c.prev, c.next := null, null;
    ghost var items' := Removed(items, k);
    forall j | 0 <= j < |items'|
      ensures LinkedAt(items', j)
    {
      assert old(LinkedAt(items, if j < k then j else j + 1));
    }
  }

  /** cJSON_InsertItemInArray: insert at a position, or append behind the end. */
  method InsertItemInArray(parent: Item, which: int, newitem: Item, ghost items: seq<Item>)
    requires Linked(parent, items) && New(parent, items, newitem) && Unlinked(newitem)
    modifies parent`child, items`next, items`prev, newitem`next, newitem`prev
    ensures Linked(parent, Inserted(items, Position(items, which), newitem))
  {
    var c := Walk(parent, which, items);
    ghost var k := Position(items, which);
    if c == null {
      AddItemToArray(parent, newitem, items);
      assert Inserted(items, k, newitem) == items + [newitem];
      return;
    }
    assert LinkedAt(items, k) && (k > 0 ==> LinkedAt(items, k - 1));
    newitem.next := c;
    newitem.prev := c.prev;
    c.prev := newitem;
    if c == parent.child {
      parent.child := newitem;
    } else {
      newitem.prev.next := newitem;
    }
    ghost var items' := Inserted(items, k, newitem);
    InsertedDistinct(parent, items, k, newitem);
    forall j | 0 <= j < |items'|
      ensures LinkedAt(items', j)
    {
      if j != k {
        assert old(LinkedAt(items, if j < k then j else j - 1));
      }
    }
  }

  /** cJSON_ReplaceItemInArray: update at a position. The item that is replaced is unlinked, to be deleted. */
  method ReplaceItemInArray(parent: Item, which: int, newitem: Item, ghost items: seq<Item>)
    requires Linked(parent, items) && New(parent, items, newitem) && Unlinked(newitem)
    modifies parent`child, items`next, items`prev, newitem`next, newitem`prev
    ensures var k := Position(items, which);
            if k == |items| then Linked(parent, items) && Unlinked(newitem)
            else Linked(parent, items[k := newitem]) && Unlinked(items[k])
  {
    var c := Walk(parent, which, items);
    if c == null {
      return;
    }
    ghost var k := Position(items, which);
    assert LinkedAt(items, k) && (k > 0 ==> LinkedAt(items, k - 1)) && (k + 1 < |items| ==> LinkedAt(items, k + 1));
    newitem.next := c.next;
    newitem.prev := c.prev;
    if newitem.next != null {
      newitem.next.prev := newitem;
    }
    if c == parent.child {
      parent.child := newitem;
    } else {
      newitem.prev.next := newitem;
    }
    c.next, c.prev := null, null;
    ghost var items' := items[k := newitem];
    forall j | 0 <= j < |items'|
      ensures LinkedAt(items', j)
    {
      if j != k {
        assert old(LinkedAt(items, j));
      }
    }
  }

  // ----- undoing an edit

  lemma {:induction false} InsertThenRemove(items: seq<Item>, k: nat, item: Item)
    requires k <= |items|
    ensures Removed(Inserted(items, k, item), k) == items
    ensures Inserted(items, k, item)[k] == item
  {
    assert Removed(Inserted(items, k, item), k) == items[..k] + items[k..];
  }

  lemma {:induction false} RemoveThenInsert(parent: Item, items: seq<Item>, k: nat)
    requires k < |items| && Distinct(parent, items)
    ensures Inserted(Removed(items, k), k, items[k]) == items
    ensures New(parent, Removed(items, k), items[k])
  {
    assert items == items[..k] + [items[k]] + items[k + 1..];
  }

  /** The fields of the nodes determine the children: a parent has one list of them. */
  lemma {:induction false} OneList(parent: Item, items: seq<Item>, others: seq<Item>)
    requires Linked(parent, items) && Linked(parent, others)
    ensures items == others
  {
    if |items| <= |others| {
      SameUpTo(parent, items, others, |items|);
    } else {
      SameUpTo(parent, others, items, |others|);
    }
  }

  lemma {:induction false} SameUpTo(parent: Item, items: seq<Item>, others: seq<Item>, n: nat)
    requires Linked(parent, items) && Linked(parent, others) && n <= |items| <= |others|
    ensures items[..n] == others[..n] && At(items, n) == At(others, n)
  {
    if n > 0 {
      SameUpTo(parent, items, others, n - 1);
      assert LinkedAt(items, n - 1) && LinkedAt(others, n - 1);
      assert items[..n] == items[..n - 1] + [items[n - 1]] && others[..n] == others[..n - 1] + [others[n - 1]];
    }
  }

  /** Detaching at the position of an insertion gives the item back and leaves the list as it was, unless the
      position lay behind the end: then the insertion appended, and the detachment finds nothing. */
  method InsertThenDetach(parent: Item, which: int, newitem: Item, ghost items: seq<Item>) returns (c: Item?)
    requires Linked(parent, items) && New(parent, items, newitem) && Unlinked(newitem)
    modifies parent`child, items`next, items`prev, newitem`next, newitem`prev
    ensures if which <= |items| then c == newitem && Linked(parent, items) && Unlinked(newitem)
            else c == null && Linked(parent, items + [newitem])
  {
    ghost var k := Position(items, which);
    InsertItemInArray(parent, which, newitem, items);
    c := DetachItemFromArray(parent, which, Inserted(items, k, newitem));
    InsertThenRemove(items, k, newitem);
    assert k == |items| ==> Inserted(items, k, newitem) == items + [newitem];
  }

  /** Inserting a detached item at its position restores the list. */
  method DetachThenInsert(parent: Item, which: int, ghost items: seq<Item>)
    requires Linked(parent, items)
    modifies parent`child, items`next, items`prev
    ensures Linked(parent, items)
  {
    ghost var k := Position(items, which);
    var c := DetachItemFromArray(parent, which, items);
    if c != null {
      RemoveThenInsert(parent, items, k);
      InsertItemInArray(parent, which, c, Removed(items, k));
    }
  }

  // ----- duplication

  /** A node with everything below it. */
  datatype Tree = Tree(node: Item, data: Data, kids: seq<Tree>)

  function Roots(kids: seq<Tree>): (r: seq<Item>)
    ensures |r| == |kids| && forall k :: 0 <= k < |kids| ==> r[k] == kids[k].node
  {
    seq(|kids|, k requires 0 <= k < |kids| => kids[k].node)
  }

  /** The nodes below the given ones. */
  function Below(kids: seq<Tree>): set<Item> {
    if kids == [] then {}
    else
      var last := kids[|kids| - 1];
      Below(kids[..|kids| - 1]) + Under(last)
  }

  function Under(t: Tree): set<Item> {
    (set n | n in Roots(t.kids)) + Below(t.kids)
  }

  /** The tree stands in memory: every list of children is linked, and no node occurs twice. */
  ghost predicate Stands(t: Tree)
    reads t.node`child, t.node`data, Under(t)
  {
    && t.node.data == t.data && t.node !in Under(t)
    && Linked(t.node, Roots(t.kids)) && AllStand(t.kids)
  }

  ghost predicate AllStand(kids: seq<Tree>)
    reads Roots(kids)`child, Roots(kids)`data, Below(kids)
  {
    kids == [] ||
    var init, last := kids[..|kids| - 1], kids[|kids| - 1];
    && AllStand(init) && Stands(last)
    && last.node !in Roots(init) && last.node !in Below(init)
    && Under(last) !! Below(init) && forall n :: n in Roots(init) ==> n !in Under(last)
  }

  lemma {:induction false} KidStands(kids: seq<Tree>, k: nat)
    requires AllStand(kids) && k < |kids|
    ensures Stands(kids[k])
  {
    if k < |kids| - 1 {
      KidStands(kids[..|kids| - 1], k);
    }
  }

  const IS_REFERENCE: nat := 256

  /** type & ~cJSON_IsReference */
  function WithoutReference(typ: nat): nat {
    if typ / IS_REFERENCE % 2 == 1 then typ - IS_REFERENCE else typ
  }

  /** The second holds what the first does, but that it is no reference: bit 8 of its type is clear. */
  predicate SameData(d: Data, e: Data) {
    && e.valueint == d.valueint && e.valuedouble == d.valuedouble && e.valuestring == d.valuestring && e.name == d.name
    && e.typ % 256 == d.typ % 256 && e.typ / 512 == d.typ / 512 && e.typ / 256 % 2 == 0
  }

  lemma {:induction false} ReferenceCleared(d: Data, e: Data)
    requires e == d.(typ := WithoutReference(d.typ))
    ensures SameData(d, e)
  {
  }

  /** The trees hold the same values in the same places. */
  predicate Same(t: Tree, u: Tree) {
    SameData(t.data, u.data) && AllSame(t.kids, u.kids)
  }

  predicate AllSame(ts: seq<Tree>, us: seq<Tree>) {
    |ts| == |us| &&
    (ts == [] || (AllSame(ts[..|ts| - 1], us[..|us| - 1]) && Same(ts[|ts| - 1], us[|us| - 1])))
  }

  /** The node at the end of a path of child positions. */
  function Descend(t: Tree, path: seq<nat>): Option<Tree>
    decreases |path|
  {
    if path == [] then Some(t)
    else if path[0] < |t.kids| then Descend(t.kids[path[0]], path[1..])
    else None
  }

  lemma {:induction false} KidsSame(ts: seq<Tree>, us: seq<Tree>, k: nat)
    requires AllSame(ts, us)
    ensures |ts| == |us| && (k < |ts| ==> Same(ts[k], us[k]))
    decreases |ts|
  {
    if k < |ts| - 1 {
      KidsSame(ts[..|ts| - 1], us[..|us| - 1], k);
    }
  }

  /** The same paths lead to nodes, and those hold the same. */
  lemma {:induction false} SameAlong(t: Tree, u: Tree, path: seq<nat>)
    requires Same(t, u)
    ensures Descend(t, path).Some? <==> Descend(u, path).Some?
    ensures Descend(t, path).Some? ==> SameData(Descend(t, path).value.data, Descend(u, path).value.data)
    decreases |path|
  {
    hide SameData;
    if path != [] {
      KidsSame(t.kids, u.kids, path[0]);
      if path[0] < |t.kids| {
        SameAlong(t.kids[path[0]], u.kids[path[0]], path[1..]);
      }
    }
  }

  /** cJSON_Duplicate: a new node, and with recursion a new tree below it that shares no node with the old. */
  method Duplicate(item: Item, recurse: bool, ghost t: Tree) returns (newitem: Item, ghost u: Tree)
    requires t.node == item && Stands(t)
    ensures u.node == newitem && Stands(u) && Unlinked(newitem)
    ensures fresh(newitem) && fresh(Under(u))
    ensures SameData(item.data, newitem.data) && if recurse then Same(t, u) else u.kids == []
    decreases t, 2
  {
    hide AllStand, Linked, AllSame, Below, WithoutReference, SameData;
    assert allocated(Below(t.kids));
    newitem := new Item();
    var d := item.data;
    newitem.data := Data(WithoutReference(d.typ), d.valueint, d.valuedouble, d.valuestring, d.name);
    ReferenceCleared(d, newitem.data);
    u := Tree(newitem, newitem.data, []);
    NoNodes(newitem, t.kids);
    if recurse {
      ghost var kids := DuplicateChildren(item, newitem, t);
      u := Tree(newitem, newitem.data, kids);
    }
  }

  /** Walk the chain of children, and duplicate each. */
  method DuplicateChildren(item: Item, newitem: Item, ghost t: Tree) returns (ghost kids: seq<Tree>)
    requires t.node == item && AllStand(t.kids) && Linked(item, Roots(t.kids))
    requires newitem != item && newitem !in Nodes(t.kids) && newitem.child == null
    modifies newitem`child
    ensures Copying(newitem, kids) && fresh(Nodes(kids)) && AllSame(t.kids, kids)
    decreases t, 1
  {
    hide Stands, AllStand, Linked, Under, Below, Same, AllSame;
    assert allocated(Below(t.kids)) && allocated(Roots(t.kids));
    FirstChild(item, Roots(t.kids));
    NoNodes(newitem, t.kids);
    var cptr, nptr: Item? := item.child, null;
    kids := [];
    while cptr != null
      invariant |kids| <= |t.kids| && cptr == At(Roots(t.kids), |kids|)
      invariant AllStand(t.kids) && Linked(item, Roots(t.kids))
      invariant Copying(newitem, kids) && nptr == At(Roots(kids), |kids| - 1)
      invariant fresh(Nodes(kids)) && AllSame(t.kids[..|kids|], kids)
      decreases |t.kids| - |kids|
    {
      ghost var k := |kids|;
      KidStands(t.kids, k);
      NextChild(item, Roots(t.kids), k);
      assert nptr != null ==> nptr in Nodes(kids);
      ghost var before := Nodes(kids);
      assert fresh(before);
      nptr, kids := CopyChild(newitem, cptr, nptr, kids, t.kids[k], t);
      SameMore(t.kids, kids, k);
      cptr := cptr.next;
    }
    assert t.kids[..|kids|] == t.kids;
  }

  lemma {:induction false} FirstChild(item: Item, items: seq<Item>)
    requires Linked(item, items)
    ensures item.child == At(items, 0)
  {
  }

  lemma {:induction false} NextChild(item: Item, items: seq<Item>, k: nat)
    requires Linked(item, items) && k < |items|
    ensures items[k].next == At(items, k + 1)
  {
    assert LinkedAt(items, k);
  }

  /** One turn of that walk. */
  method CopyChild(newitem: Item, cptr: Item, nptr: Item?, ghost kids: seq<Tree>, ghost t: Tree, ghost parent: Tree)
    returns (newchild: Item, ghost kids': seq<Tree>)
    requires cptr == t.node && Stands(t) && Copying(newitem, kids) && nptr == At(Roots(kids), |kids| - 1)
    requires parent decreases to t
    modifies newitem`child, (if nptr == null then {} else {nptr})`next
    ensures |kids'| == |kids| + 1 && kids'[..|kids|] == kids && Same(t, kids'[|kids|]) && kids'[|kids|].node == newchild
    ensures Copying(newitem, kids') && forall n :: n in Nodes(kids') ==> n in Nodes(kids) || fresh(n)
    decreases parent, 0
  {
    hide Stands, AllStand, Linked, Under, Below;
    assert allocated(Below(kids)) && allocated(Roots(kids));
    ghost var v;
    newchild, v := Duplicate(cptr, true, t);
    Hook(newitem, nptr, newchild, kids, v);
    RootsMore(kids, v);
    kids' := kids + [v];
  }

  lemma {:induction false} SameMore(ts: seq<Tree>, us: seq<Tree>, k: nat)
    requires |us| == k + 1 && k < |ts| && AllSame(ts[..k], us[..k]) && Same(ts[k], us[k])
    ensures AllSame(ts[..k + 1], us)
  {
    assert ts[..k + 1][..k] == ts[..k];
  }

  lemma {:induction false} NoNodes(newitem: Item, ts: seq<Tree>)
    requires newitem.child == null
    ensures Nodes([]) == {} && Copying(newitem, []) && AllSame(ts[..0], [])
  {
  }

  function Nodes(kids: seq<Tree>): set<Item> {
    (set n | n in Roots(kids)) + Below(kids)
  }

  /** The copies so far hang below the new node. */
  ghost predicate Copying(newitem: Item, kids: seq<Tree>)
    reads newitem`child, Nodes(kids)
  {
    Linked(newitem, Roots(kids)) && AllStand(kids) && newitem !in Nodes(kids)
  }

  /** Crosswire the new child with the one before it, or set the parent's. */
  method Hook(newitem: Item, nptr: Item?, newchild: Item, ghost kids: seq<Tree>, ghost v: Tree)
    requires Copying(newitem, kids) && nptr == At(Roots(kids), |kids| - 1)
    requires v.node == newchild && Stands(v) && Unlinked(newchild)
    requires newitem !in Under(v) && newitem != newchild && newchild !in Nodes(kids) && Nodes(kids) !! Under(v)
    modifies newitem`child, (if nptr == null then {} else {nptr})`next, newchild`prev
    ensures Copying(newitem, kids + [v])
  {
    hide Linked, AllStand, Under, Below;
    if nptr != null {
      LastRoot(kids);
    }
    assert allocated(Below(kids)) && allocated(Under(v));
    CrossWire(newitem, nptr, newchild, Roots(kids));
    assert Roots(kids + [v]) == Roots(kids) + [newchild];
    StandMore(kids, v);
  }

  method CrossWire(newitem: Item, nptr: Item?, newchild: Item, ghost items: seq<Item>)
    requires Linked(newitem, items) && nptr == At(items, |items| - 1)
    requires Unlinked(newchild) && New(newitem, items, newchild)
    modifies newitem`child, (if nptr == null then {} else {nptr})`next, newchild`prev
    ensures Linked(newitem, items + [newchild])
  {
    if nptr != null {
      assert LinkedAt(items, |items| - 1);
      nptr.next := newchild;
      newchild.prev := nptr;
    } else {
      newitem.child := newchild;
    }
    ghost var all := items + [newchild];
    forall k | 0 <= k < |all|
      ensures LinkedAt(all, k)
    {
      if k < |items| {
        assert old(LinkedAt(items, k));
      }
    }
  }

  lemma {:induction false} StandMore(kids: seq<Tree>, v: Tree)
    requires AllStand(kids) && Stands(v) && v.node !in Nodes(kids) && Nodes(kids) !! Under(v)
    ensures AllStand(kids + [v]) && Nodes(kids + [v]) == Nodes(kids) + {v.node} + Under(v)
  {
    hide Stands, Under, Linked;
    var all := kids + [v];
    assert all[..|all| - 1] == kids && all[|all| - 1] == v;
    RootsMore(kids, v);
  }

  lemma {:induction false} RootsMore(kids: seq<Tree>, v: Tree)
    ensures Roots(kids + [v]) == Roots(kids) + [v.node]
    ensures Nodes(kids + [v]) == Nodes(kids) + {v.node} + Under(v)
  {
    hide Under;
    var all := kids + [v];
    assert all[..|all| - 1] == kids;
    assert Roots(all) == Roots(kids) + [v.node];
    assert Below(all) == Below(kids) + Under(v);
  }

  lemma {:induction false} LastRoot(kids: seq<Tree>)
    requires AllStand(kids) && kids != []
    ensures kids[|kids| - 1].node !in Below(kids)
  {
  }
}
