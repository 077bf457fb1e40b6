/** JSON values as the linked nodes they are: deep copy and dotted assignment on the
    heap. */
module JsonHeap {
  import opened Bytes
  import opened JsonTree
  import opened DotPath

  datatype Shape = Leaf(v: Value) | ArrayShape | ObjectShape

  /** JSON_Value with its JSON_Object or JSON_Array. tree is the value it stands for and
      repr the nodes it is made of. */
  class Node {
    var parent: Node?
    var shape: Shape
    var names: seq<seq<byte>>
    var items: seq<Node>
    ghost var tree: Value
    ghost var repr: set<Node>

    ghost predicate Valid()
      reads this, repr
      decreases repr
    {
      && this in repr
      && (forall i :: 0 <= i < |items| ==> 
            && items[i] in repr && items[i].repr <= repr && this !in items[i].repr
            && items[i].Valid() && items[i].parent == this)
      && (forall i, j :: 0 <= i < j < |items| ==> items[i].repr !! items[j].repr)
      && Describes()
    }

    ghost predicate Describes()
      reads this, items
    {
      match shape
      case Leaf(v) => tree == v && !IsContainer(v) && items == [] && names == []
      case ArrayShape => tree.Array? && names == [] && |tree.items| == |items|
                         && forall i :: 0 <= i < |items| ==> tree.items[i] == items[i].tree
      case ObjectShape => tree.Object? && |tree.members| == |names| == |items|
                          && forall i :: 0 <= i < |items| ==> tree.members[i] == Member(names[i], items[i].tree)
    }

    constructor (shape: Shape)
      requires shape.Leaf? ==> !IsContainer(shape.v)
      ensures Valid() && repr == {this} && parent == null
      ensures tree == match shape case Leaf(v) => v case ArrayShape => Array([]) case ObjectShape => Object([])
      ensures this.shape == shape && items == [] && names == []
    {
      parent := null;
      this.shape := shape;
      names := [];
      items := [];
      tree := match shape case Leaf(v) => v case ArrayShape => Array([]) case ObjectShape => Object([]);
      repr := {this};
    }

    method SetParent(p: Node)
      requires Valid()
      modifies `parent
      ensures Valid() && parent == p
    {
      parent := p;
    }

    /** The tail of json_array_add. */
    method AddItem(c: Node)
      requires Valid() && shape.ArrayShape? && c.Valid() && repr !! c.repr
      modifies this, c`parent
      ensures Valid() && shape == old(shape) && parent == old(parent)
      ensures tree == Array(old(tree).items + [c.tree]) && items == old(items) + [c]
      ensures repr == old(repr) + c.repr
    {
      c.SetParent(this);
      items := items + [c];
      tree := Array(tree.items + [c.tree]);
      repr := repr + c.repr;
    }

    /** The tail of json_object_addn. */
    method AddMember(name: seq<byte>, c: Node)
      requires Valid() && shape.ObjectShape? && c.Valid() && repr !! c.repr
      modifies this, c`parent
      ensures Valid() && shape == old(shape) && parent == old(parent)
      ensures tree == Object(old(tree).members + [Member(name, c.tree)])
      ensures names == old(names) + [name] && items == old(items) + [c]
      ensures repr == old(repr) + c.repr && c.parent == this
    {
      c.SetParent(this);
      names := names + [name];
      items := items + [c];
      tree := Object(tree.members + [Member(name, c.tree)]);
      repr := repr + c.repr;
    }
  }

  // ------------------------------------------------------------- dotted assignment

  /** The value of object o with the name is the node c. */
  ghost predicate Leads(o: Node, name: seq<byte>, c: Node)
    reads o`tree, o`items
  {
    && o.tree.Object?
    && var i := Index(o.tree.members, name, 0);
       i < |o.tree.members| == |o.items| && o.items[i] == c
  }

  /** The nodes along a path, one object per segment and the node at its end. */
  ghost predicate Way(trail: seq<Node>, p: Path)
    reads (set o | o in trail)`tree, (set o | o in trail)`items
  {
    |trail| == |p| + 1 && forall k :: 0 <= k < |p| ==> Leads(trail[k], p[k], trail[k + 1])
  }

  /** The way stays among the nodes of its first object, and its last node belongs to the
      last object. */
  lemma {:induction false} WayStaysBelow(n: Node, trail: seq<Node>, p: Path)
    requires n.Valid() && Way(trail, p) && trail[0] == n
    ensures forall k :: 0 <= k < |trail| ==> trail[k] in n.repr
    ensures trail[|trail| - 1].parent == trail[|trail| - 2]
    decreases |p|
  {
    assert Leads(n, p[0], trail[1]);
    var i := Index(n.tree.members, p[0], 0);
    assert n.items[i] == trail[1];
    if |p| > 1 {
      RestOfWay(trail, p);
      WayStaysBelow(trail[1], trail[1..], p[1..]);
      forall k | 0 < k < |trail| ensures trail[k] in n.repr { assert trail[k] == trail[1..][k - 1]; }
    }
  }

  lemma RestOfWay(trail: seq<Node>, p: Path)
    requires Way(trail, p) && |p| > 1
    ensures Way(trail[1..], p[1..])
  {
    forall k | 0 <= k < |p[1..]| ensures Leads(trail[1..][k], p[1..][k], trail[1..][k + 1]) {
      assert Leads(trail[k + 1], p[k + 1], trail[k + 2]);
    }
  }

  lemma OneStep(o: Node, name: seq<byte>, c: Node)
    requires Leads(o, name, c) && DotAt(name) == |name|
    ensures Way([o, c], Split(name))
  {
  }

  lemma StepAhead(o: Node, name: seq<byte>, below: seq<Node>, i: nat) returns (trail: seq<Node>)
    requires DotAt(name) < |name| && below != [] && o.tree.Object?
    requires i == Index(o.tree.members, name[..DotAt(name)], 0) < |o.tree.members| == |o.items|
    requires below[0] == o.items[i]
    ensures Way(below, Split(name[DotAt(name) + 1..])) ==> Way(trail, Split(name))
    ensures trail != [] && trail[0] == o && trail[|trail| - 1] == below[|below| - 1]
  {
    trail := [o] + below;
    SplitStep(name);
  }

  lemma IndexAfterPut(ms: seq<Member>, name: seq<byte>, x: Value)
    ensures Index(Put(ms, name, x), name, 0) == Index(ms, name, 0)
  {
    IndexSkips(Put(ms, name, x), name, 0, Index(ms, name, 0));
  }

  /** The loop body of json_object_set_value at a match. */
  method SetItem(n: Node, i: nat, c: Node)
    requires n.Valid() && n.shape.ObjectShape? && i < |n.items| && c.Valid() && n.repr !! c.repr
    modifies n, c`parent
    ensures n.Valid() && n.shape == old(n.shape) && n.parent == old(n.parent)
    ensures n.tree == Object(old(n.tree).members[i := Member(old(n.names)[i], c.tree)])
    ensures n.repr == old(n.repr) + c.repr && c.Valid() && c.parent == n
    ensures n.items == old(n.items)[i := c]
  {
    c.SetParent(n);
    n.items := n.items[i := c];
    Follow(n, i);
  }

  /** json_object_set_value. */
  method SetValue(n: Node, name: seq<byte>, value: Node) returns (ok: bool)
    requires n.Valid() && n.shape.ObjectShape? && value.Valid()
    requires value.parent == null ==> value.repr !! n.repr
    modifies n, value`parent
    ensures ok == (old(value.parent) == null) && value.parent != null
    ensures ok ==> n.Valid() && n.shape == old(n.shape) && n.parent == old(n.parent)
    ensures ok ==> n.tree == Object(Put(old(n.tree).members, name, value.tree)) && n.repr == old(n.repr) + value.repr
    ensures ok ==> Leads(n, name, value) && value.parent == n
    ensures !ok ==> unchanged(n) && unchanged(value)
  {
    if value.parent != null {
      return false;
    }
    var i := FindName(n, name);
    IndexAfterPut(n.tree.members, name, value.tree);
    if i < |n.names| {
      SetItem(n, i, value);
    } else {
      n.AddMember(name, value);
    }
    ok := true;
  }

  /** json_object_getn_value. */
  method FindName(n: Node, name: seq<byte>) returns (i: nat)
    requires n.Valid() && n.shape.ObjectShape?
    ensures i == Index(n.tree.members, name, 0)
  {
    i := 0;
    while i < |n.names|
      invariant i <= |n.names| && Index(n.tree.members, name, 0) == Index(n.tree.members, name, i)
    {
      if n.names[i] == name {
        return;
      }
      i := i + 1;
    }
    assert Index(n.tree.members, name, i) == i;
  }

  // --------------------------------------------------------------------- deep copy

  /** No object below repeats a key. */
  predicate Distinct(v: Value) {
    && (v.Object? ==> UniqueNames(v.members))
    && forall k :: 0 <= k < Count(v) ==> Distinct(Child(v, k))
  }

  /** json_value_deep_copy: an equal tree made of new nodes only, or none when a key
      occurs twice. */
  method DeepCopy(n: Node) returns (c: Node?)
    requires n.Valid()
    ensures c == null <==> !Distinct(n.tree)
    ensures c != null ==> c.Valid() && fresh(c.repr) && c.tree == n.tree && c.parent == null
    decreases n.repr, 1
  {
    if n.shape.ArrayShape? {
      c := CopyArray(n);
    } else if n.shape.ObjectShape? {
      c := CopyObject(n);
    } else {
      c := new Node(n.shape);
    }
  }

  method CopyArray(n: Node) returns (c: Node?)
    requires n.Valid() && n.shape.ArrayShape?
    ensures c == null <==> !Distinct(n.tree)
    ensures c != null ==> c.Valid() && fresh(c.repr) && c.tree == n.tree && c.parent == null
    decreases n.repr, 0
  {
    var copy := new Node(ArrayShape);
    var i := 0;
    while i < |n.items|
      invariant 0 <= i <= |n.items|
      invariant copy.Valid() && fresh(copy.repr) && copy.shape.ArrayShape? && copy.parent == null
      invariant copy.tree.items == n.tree.items[..i]
      invariant forall k :: 0 <= k < i ==> Distinct(Child(n.tree, k))
    {
      var ok := CopyItem(n, copy, i);
      if !ok {
        return null;
      }
      i := i + 1;
    }
    c := copy;
  }

  /** The loop body. */
  method CopyItem(n: Node, copy: Node, i: nat) returns (ok: bool)
    requires n.Valid() && n.shape.ArrayShape? && i < |n.items|
    requires copy.Valid() && copy.shape.ArrayShape? && copy.repr !! n.repr && copy.tree.items == n.tree.items[..i]
    modifies copy
    ensures ok == Distinct(Child(n.tree, i))
    ensures ok ==> copy.Valid() && copy.shape.ArrayShape? && copy.parent == old(copy.parent)
    ensures ok ==> copy.tree.items == n.tree.items[..i + 1] && fresh(copy.repr - old(copy.repr))
    decreases n.repr, 0, 0
  {
    var item := DeepCopy(n.items[i]);
    ok := item != null;
    if ok {
      copy.AddItem(item);
    }
  }

  method CopyObject(n: Node) returns (c: Node?)
    requires n.Valid() && n.shape.ObjectShape?
    ensures c == null <==> !Distinct(n.tree)
    ensures c != null ==> c.Valid() && fresh(c.repr) && c.tree == n.tree && c.parent == null
    decreases n.repr, 0
  {
    var copy := new Node(ObjectShape);
    var i := 0;
    while i < |n.items|
      invariant 0 <= i <= |n.items|
      invariant copy.Valid() && fresh(copy.repr) && copy.shape.ObjectShape? && copy.parent == null
      invariant copy.tree.members == n.tree.members[..i] && UniqueNames(n.tree.members[..i])
      invariant forall k :: 0 <= k < i ==> Distinct(Child(n.tree, k))
    {
      var ok := CopyMember(n, copy, i);
      if !ok {
        return null;
      }
      i := i + 1;
    }
    AllCopied(n.tree, i);
    c := copy;
  }

  lemma AllCopied(v: Value, i: nat)
    requires v.Object? && i == |v.members| && UniqueNames(v.members[..i])
    requires forall k :: 0 <= k < i ==> Distinct(Child(v, k))
    ensures Distinct(v) && v.members[..i] == v.members
  {
    assert v.members[..i] == v.members;
  }

  /** The loop body: a key that the copy has already is refused. */
  method CopyMember(n: Node, copy: Node, i: nat) returns (ok: bool)
    requires n.Valid() && n.shape.ObjectShape? && i < |n.items|
    requires copy.Valid() && copy.shape.ObjectShape? && copy.repr !! n.repr
    requires copy.tree.members == n.tree.members[..i] && UniqueNames(n.tree.members[..i])
    modifies copy
    ensures if ok then Distinct(Child(n.tree, i)) && UniqueNames(n.tree.members[..i + 1]) else !Distinct(n.tree)
    ensures ok ==> copy.Valid() && copy.shape.ObjectShape? && copy.parent == old(copy.parent)
    ensures ok ==> copy.tree.members == n.tree.members[..i + 1] && fresh(copy.repr - old(copy.repr))
    decreases n.repr, 0, 0
  {
    var key := n.names[i];
    var j := FindName(n, key);
    var item := DeepCopy(n.items[j]);
    if item == null {
      assert !Distinct(Child(n.tree, j));
      return false;
    }
    var k := FindName(copy, key);
    FirstOfItsName(n.tree.members, i);
    if k < |copy.names| {
      return false;
    }
    copy.AddMember(key, item);
    ok := true;
  }

  /** What the two lookups of a key say about its repetition. */
  lemma FirstOfItsName(ms: seq<Member>, i: nat)
    requires i < |ms| && UniqueNames(ms[..i])
    ensures Index(ms[..i], ms[i].name, 0) < i ==> !UniqueNames(ms)
    ensures Index(ms[..i], ms[i].name, 0) == i ==>
              Index(ms, ms[i].name, 0) == i && UniqueNames(ms[..i + 1]) && ms[..i + 1] == ms[..i] + [ms[i]]
  {
    var name := ms[i].name;
    var r := Index(ms[..i], name, 0);
    if r < i {
      SameName(ms, r, i);
    } else {
      IndexSkips(ms, name, 0, i);
      UniqueExtends(ms, i);
    }
  }

  lemma SameName(ms: seq<Member>, r: nat, i: nat)
    requires r < i < |ms| && ms[..i][r].name == ms[i].name
    ensures !UniqueNames(ms)
  {
    assert ms[r].name == ms[i].name;
  }

  lemma UniqueExtends(ms: seq<Member>, i: nat)
    requires i < |ms| && UniqueNames(ms[..i])
    requires forall k :: 0 <= k < i ==> ms[k].name != ms[i].name
    ensures UniqueNames(ms[..i + 1]) && ms[..i + 1] == ms[..i] + [ms[i]]
  {
    forall j, k | 0 <= j < k < i ensures ms[j].name != ms[k].name {
      assert ms[..i][j].name != ms[..i][k].name;
    }
  }

  /** The ghost fields of an object follow a change inside its i-th value. */
  ghost method Follow(n: Node, i: nat)
    requires n in n.repr && n.shape.ObjectShape? && n.tree.Object? && |n.tree.members| == |n.names| == |n.items|
    requires forall k :: 0 <= k < |n.items| ==> n !in n.items[k].repr && n.items[k].Valid() && n.items[k].parent == n
    requires forall j, k :: 0 <= j < k < |n.items| ==> n.items[j].repr !! n.items[k].repr
    requires forall k :: 0 <= k < |n.items| && k != i ==> n.items[k] in n.repr && n.items[k].repr <= n.repr
    requires forall k :: 0 <= k < |n.items| && k != i ==> n.tree.members[k] == Member(n.names[k], n.items[k].tree)
    requires i < |n.items|
    modifies n`tree, n`repr
    ensures n.Valid() && n.repr == old(n.repr) + n.items[i].repr
    ensures n.tree == Object(old(n.tree).members[i := Member(n.names[i], n.items[i].tree)])
  {
    n.tree := Object(n.tree.members[i := Member(n.names[i], n.items[i].tree)]);
    n.repr := n.repr + n.items[i].repr;
  }

  /** json_object_dotset_value: in place it does to the tree what DotSet does to a value,
      with the value and the objects that were added for it, and the way along the name
      ends at the value. */
  method DotSetValue(n: Node, name: seq<byte>, value: Node)
    returns (ok: bool, ghost added: set<Node>, ghost trail: seq<Node>)
    requires n.Valid() && n.shape.ObjectShape? && value.Valid()
    requires value.parent == null ==> value.repr !! n.repr
    modifies n.repr, value`parent
    ensures n.Valid() && n.shape == old(n.shape) && n.parent == old(n.parent)
    ensures DotSet(old(n.tree).members, name, old(value.tree), old(value.parent) != null) ==
            if ok then Some(n.tree.members) else None
    ensures ok ==> old(value.parent) == null
    ensures ok ==> n.repr == old(n.repr) + old(value.repr) + added && fresh(added)
    ensures ok ==> Way(trail, Split(name)) && trail[0] == n && trail[|trail| - 1] == value
    ensures !ok ==> unchanged(old(n.repr)) && unchanged(value)
    decreases |name|, 0
  {
    var d := DotAt(name);
    if d == |name| {
      ok, trail := DotSetHere(n, name, value);
      added := {};
    } else {
      ok, added, trail := DotSetBehindDot(n, name, value);
    }
  }

  /** The other branch. */
  method DotSetBehindDot(n: Node, name: seq<byte>, value: Node)
    returns (ok: bool, ghost added: set<Node>, ghost trail: seq<Node>)
    requires n.Valid() && n.shape.ObjectShape? && value.Valid() && DotAt(name) < |name|
    requires value.parent == null ==> value.repr !! n.repr
    modifies n.repr, value`parent
    ensures n.Valid() && n.shape == old(n.shape) && n.parent == old(n.parent)
    ensures DotSet(old(n.tree).members, name, old(value.tree), old(value.parent) != null) ==
            if ok then Some(n.tree.members) else None
    ensures ok ==> old(value.parent) == null
    ensures ok ==> n.repr == old(n.repr) + old(value.repr) + added && fresh(added)
    ensures ok ==> Way(trail, Split(name)) && trail[0] == n && trail[|trail| - 1] == value
    ensures !ok ==> unchanged(old(n.repr)) && unchanged(value)
    decreases |name|, 0, 0
  {
    var d := DotAt(name);
    DotSetIsBelow(n.tree.members, name, value.tree, value.parent != null);
    ghost var i := Index(n.tree.members, name[..d], 0);
    ok, added, trail := DotSetBelow(n, name[..d], name[d + 1..], value);
    if ok {
      trail := StepAhead(n, name, trail, i);
    }
  }

  lemma DotSetIsBelow(ms: seq<Member>, name: seq<byte>, x: Value, attached: bool)
    requires DotAt(name) < |name|
    ensures DotSet(ms, name, x, attached) == SetBelow(ms, name[..DotAt(name)], name[DotAt(name) + 1..], x, attached)
    ensures var r := DotSet(ms, name, x, attached); var head := name[..DotAt(name)];
      r.Some? ==> Index(r.value, head, 0) == Index(ms, head, 0) < |r.value|
  {
    var head := name[..DotAt(name)];
    var t := Lookup(ms, head);
    if t.Some? ==> t.value.Object? {
      var r := DotSet(if t.Some? then t.value.members else [], name[DotAt(name) + 1..], x, attached);
      if r.Some? { IndexAfterPut(ms, head, Object(r.value)); }
    }
  }

  /** The branch without a dot. */
  method DotSetHere(n: Node, name: seq<byte>, value: Node) returns (ok: bool, ghost trail: seq<Node>)
    requires n.Valid() && n.shape.ObjectShape? && value.Valid() && DotAt(name) == |name|
    requires value.parent == null ==> value.repr !! n.repr
    modifies n, value`parent
    ensures n.Valid() && n.shape == old(n.shape) && n.parent == old(n.parent)
    ensures DotSet(old(n.tree).members, name, old(value.tree), old(value.parent) != null) ==
            if ok then Some(n.tree.members) else None
    ensures ok ==> old(value.parent) == null
    ensures ok ==> n.repr == old(n.repr) + old(value.repr)
    ensures ok ==> Way(trail, Split(name)) && trail[0] == n && trail[|trail| - 1] == value
    ensures !ok ==> unchanged(n) && unchanged(value)
  {
    ok := SetValue(n, name, value);
    trail := [n, value];
    if ok { OneStep(n, name, value); }
  }

  /** The branches behind a dot. */
  method DotSetBelow(n: Node, head: seq<byte>, rest: seq<byte>, value: Node)
    returns (ok: bool, ghost added: set<Node>, ghost trail: seq<Node>)
    requires n.Valid() && n.shape.ObjectShape? && value.Valid()
    requires value.parent == null ==> value.repr !! n.repr
    modifies n.repr, value`parent
    ensures n.Valid() && n.shape == old(n.shape) && n.parent == old(n.parent)
    ensures SetBelow(old(n.tree).members, head, rest, old(value.tree), old(value.parent) != null) ==
            if ok then Some(n.tree.members) else None
    ensures ok ==> old(value.parent) == null
    ensures ok ==> n.repr == old(n.repr) + old(value.repr) + added && fresh(added)
    ensures var i := Index(old(n.tree).members, head, 0);
      ok ==> i < |n.items| && Way(trail, Split(rest)) && trail[0] == n.items[i] && trail[|trail| - 1] == value
    ensures !ok ==> unchanged(old(n.repr)) && unchanged(value)
    decreases |rest|, 2
  {
    var i := FindName(n, head);
    if i < |n.names| {
      if !n.items[i].shape.ObjectShape? {
        return false, {}, [];
      }
      ok, added, trail := DotSetInside(n, i, rest, value);
    } else {
      ok, added, trail := DotSetBehind(n, head, rest, value);
    }
  }

  /** DotSet behind a dot. */
  ghost function SetBelow(ms: seq<Member>, head: seq<byte>, rest: seq<byte>, x: Value, attached: bool):
    Option<seq<Member>>
  {
    var t := Lookup(ms, head);
    if t.Some? && !t.value.Object? then None
    else
      match DotSet(if t.Some? then t.value.members else [], rest, x, attached)
      case None => None
      case Some(inner) => Some(Put(ms, head, Object(inner)))
  }

  /** The branch of an object that is there. */
  method DotSetInside(n: Node, i: nat, rest: seq<byte>, value: Node)
    returns (ok: bool, ghost added: set<Node>, ghost trail: seq<Node>)
    requires n.Valid() && n.shape.ObjectShape? && value.Valid() && i < |n.items| && n.items[i].shape.ObjectShape?
    requires value.parent == null ==> value.repr !! n.repr
    modifies n.repr, value`parent
    ensures n.Valid() && n.shape == old(n.shape) && n.parent == old(n.parent)
    ensures old(n.tree).members[i].value.Object?
    ensures var r := DotSet(old(n.tree).members[i].value.members, rest, old(value.tree), old(value.parent) != null);
      && ok == r.Some?
      && n.tree == if ok then Object(old(n.tree).members[i := Member(old(n.names)[i], Object(r.value))])
                   else old(n.tree)
    ensures ok ==> old(value.parent) == null
    ensures ok ==> n.repr == old(n.repr) + old(value.repr) + added && fresh(added)
    ensures ok ==> Way(trail, Split(rest)) && trail[0] == n.items[i] && trail[|trail| - 1] == value
    ensures !ok ==> unchanged(old(n.repr)) && unchanged(value)
    decreases |rest|, 1
  {
    var t := n.items[i];
    ok, added, trail := DotSetValue(t, rest, value);
    if ok {
      assert unchanged(n) && n !in t.repr;
      forall k | 0 <= k < |n.items| && k != i
        ensures n.items[k].Valid() && n.items[k].parent == n && unchanged(n.items[k])
      {
      }
      FollowWay(n, i, trail, Split(rest));
    }
  }

  /** The way from the i-th value on stays as it is. */
  ghost method FollowWay(n: Node, i: nat, trail: seq<Node>, p: Path)
    requires n in n.repr && n.shape.ObjectShape? && n.tree.Object? && |n.tree.members| == |n.names| == |n.items|
    requires forall k :: 0 <= k < |n.items| ==> n !in n.items[k].repr && n.items[k].Valid() && n.items[k].parent == n
    requires forall j, k :: 0 <= j < k < |n.items| ==> n.items[j].repr !! n.items[k].repr
    requires forall k :: 0 <= k < |n.items| && k != i ==> n.items[k] in n.repr && n.items[k].repr <= n.repr
    requires forall k :: 0 <= k < |n.items| && k != i ==> n.tree.members[k] == Member(n.names[k], n.items[k].tree)
    requires i < |n.items| && Way(trail, p) && trail[0] == n.items[i]
    modifies n`tree, n`repr
    ensures n.Valid() && n.repr == old(n.repr) + n.items[i].repr
    ensures n.tree == Object(old(n.tree).members[i := Member(n.names[i], n.items[i].tree)])
    ensures Way(trail, p)
  {
    WayStaysBelow(n.items[i], trail, p);
    Follow(n, i);
  }

  /** The branch of a new object. */
  method DotSetBehind(n: Node, head: seq<byte>, rest: seq<byte>, value: Node)
    returns (ok: bool, ghost added: set<Node>, ghost trail: seq<Node>)
    requires n.Valid() && n.shape.ObjectShape? && value.Valid()
    requires value.parent == null ==> value.repr !! n.repr
    modifies n, value`parent
    ensures n.Valid() && n.shape == old(n.shape) && n.parent == old(n.parent)
    ensures var r := DotSet([], rest, old(value.tree), old(value.parent) != null);
      && ok == r.Some?
      && n.tree == if ok then Object(old(n.tree).members + [Member(head, Object(r.value))]) else old(n.tree)
    ensures ok ==> old(value.parent) == null
    ensures ok ==> n.repr == old(n.repr) + old(value.repr) + added && fresh(added)
    ensures ok ==> Way(trail, Split(rest)) && trail[0] == n.items[|n.items| - 1] && trail[|trail| - 1] == value
    ensures !ok ==> unchanged(n) && unchanged(value)
    decreases |rest|, 1
  {
    var t := new Node(ObjectShape);
    ok, added, trail := DotSetValue(t, rest, value);
    added := added + {t};
    if ok {
      assert t.repr == old(value.repr) + added && n.repr !! t.repr;
      WayStaysBelow(t, trail, Split(rest));
      n.AddMember(head, t);
    }
  }

  /** The value of an object with a name. */
  ghost function ChildAt(n: Node?, name: seq<byte>): (v: Node?)
    requires n != null ==> n.Valid() && n.shape.ObjectShape?
    reads n, if n == null then {} else n.repr
    ensures v != null ==> n != null && v.Valid() && Leads(n, name, v)
    ensures v != null ==> v.repr <= n.repr
  {
    if n == null then null
    else
      var i := Index(n.tree.members, name, 0);
      if i < |n.items| then n.items[i] else null
  }

  /** The same if it is an object. */
  ghost function ObjectAt(n: Node?, name: seq<byte>): (o: Node?)
    requires n != null ==> n.Valid() && n.shape.ObjectShape?
    reads n, if n == null then {} else n.repr
    ensures o != null ==> n != null && o.Valid() && o.shape.ObjectShape? && o.repr <= n.repr
  {
    var v := ChildAt(n, name);
    if v != null && v.shape.ObjectShape? then v else null
  }

  /** The node a dotted name leads to. */
  ghost function NodeAt(n: Node?, name: seq<byte>): Node?
    requires n != null ==> n.Valid() && n.shape.ObjectShape?
    reads n, if n == null then {} else n.repr
    decreases |name|
  {
    var d := DotAt(name);
    if d == |name| then ChildAt(n, name) else NodeAt(ObjectAt(n, name[..d]), name[d + 1..])
  }

  /** json_object_get_value, of no object as well. */
  method GetValue(n: Node?, name: seq<byte>) returns (t: Node?)
    requires n != null ==> n.Valid() && n.shape.ObjectShape?
    ensures t == ChildAt(n, name)
  {
    t := null;
    if n != null {
      var i := FindName(n, name);
      if i < |n.names| {
        t := n.items[i];
      }
    }
  }

  /** json_object_dotget_value. */
  method DotGetValue(n: Node?, name: seq<byte>) returns (v: Node?)
    requires n != null ==> n.Valid() && n.shape.ObjectShape?
    ensures v == NodeAt(n, name)
    decreases |name|
  {
    var d := DotAt(name);
    if d == |name| {
      v := GetValue(n, name);
    } else {
      var t := GetValue(n, name[..d]);
      v := DotGetValue(if t != null && t.shape.ObjectShape? then t else null, name[d + 1..]);
    }
  }

  lemma DotGetStep(ms: seq<Member>, name: seq<byte>, inner: seq<Member>)
    requires DotAt(name) < |name|
    requires var t := Lookup(ms, name[..DotAt(name)]);
      inner == if t.Some? && t.value.Object? then t.value.members else []
    ensures DotGet(ms, name) == DotGet(inner, name[DotAt(name) + 1..])
  {
  }

  /** The members of an object, or of none. */
  ghost function Members(n: Node?): seq<Member>
    reads if n == null then {} else {n}
  {
    if n == null || !n.tree.Object? then [] else n.tree.members
  }

  lemma ChildTree(n: Node?, name: seq<byte>)
    requires n != null ==> n.Valid() && n.shape.ObjectShape?
    ensures var v := ChildAt(n, name); Lookup(Members(n), name) == if v == null then None else Some(v.tree)
    ensures var t := Lookup(Members(n), name);
      Members(ObjectAt(n, name)) == if t.Some? && t.value.Object? then t.value.members else []
  {
  }

  /** That node stands for what dotted lookup finds in the tree. */
  lemma {:induction false} NodeTree(n: Node?, name: seq<byte>)
    requires n != null ==> n.Valid() && n.shape.ObjectShape?
    ensures var v := NodeAt(n, name); DotGet(Members(n), name) == if v == null then None else Some(v.tree)
    decreases |name|
  {
    var d := DotAt(name);
    if d == |name| {
      ChildTree(n, name);
    } else {
      ChildTree(n, name[..d]);
      DotGetStep(Members(n), name, Members(ObjectAt(n, name[..d])));
      NodeTree(ObjectAt(n, name[..d]), name[d + 1..]);
    }
  }

  lemma NodeHere(n: Node, name: seq<byte>, c: Node)
    requires n.Valid() && n.shape.ObjectShape? && DotAt(name) == |name| && Leads(n, name, c)
    ensures NodeAt(n, name) == c
  {
  }

  lemma NodeAhead(n: Node, name: seq<byte>, c: Node)
    requires n.Valid() && n.shape.ObjectShape? && DotAt(name) < |name| && Leads(n, name[..DotAt(name)], c)
    ensures c.Valid() && c.repr <= n.repr
    ensures c.shape.ObjectShape? ==> NodeAt(n, name) == NodeAt(c, name[DotAt(name) + 1..])
  {
  }

  /** A way along the name ends at that node. */
  lemma {:induction false} WayEndsAtNode(n: Node, name: seq<byte>, trail: seq<Node>)
    requires n.Valid() && n.shape.ObjectShape? && Way(trail, Split(name)) && trail[0] == n
    ensures NodeAt(n, name) == trail[|trail| - 1]
    decreases |name|
  {
    var d := DotAt(name);
    var p := Split(name);
    assert Leads(n, p[0], trail[1]);
    if d == |name| {
      NodeHere(n, name, trail[1]);
    } else {
      SplitStep(name);
      RestOfWay(trail, p);
      NodeAhead(n, name, trail[1]);
      assert Leads(trail[1], p[1], trail[2]);
      WayEndsAtNode(trail[1], name[d + 1..], trail[1..]);
    }
  }

  /** What was set under a name is found there: the very node, not one like it, and the
      object before it on the way is its parent. */
  method SetThenGet(n: Node, name: seq<byte>, value: Node)
    returns (ok: bool, v: Node?, ghost trail: seq<Node>)
    requires n.Valid() && n.shape.ObjectShape? && value.Valid()
    requires value.parent == null ==> value.repr !! n.repr
    modifies n.repr, value`parent
    ensures ok ==> v == value && Way(trail, Split(name)) && trail[0] == n
    ensures ok ==> trail[|trail| - 1] == value && value.parent == trail[|trail| - 2]
  {
    ghost var added;
    ok, added, trail := DotSetValue(n, name, value);
    v := DotGetValue(n, name);
    if ok {
      WayEndsAtNode(n, name, trail);
      WayStaysBelow(n, trail, Split(name));
    }
  }
}
