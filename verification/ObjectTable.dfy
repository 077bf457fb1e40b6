/** JSON_Object: two parallel arrays that stand for a finite map from names to values. */
module ObjectTable {
  import opened Bytes

  type Name = seq<byte>

  const STARTING_CAPACITY := 16

  // ------------------------------------------- the arrays' used parts, as a finite map

  predicate Unique(ns: seq<Name>) {
    forall i, j :: 0 <= i < j < |ns| ==> ns[i] != ns[j]
  }

  ghost function ToMap<V>(ns: seq<Name>, vs: seq<V>): (m: map<Name, V>)
    requires |ns| == |vs| && Unique(ns)
    ensures forall k :: k in m <==> k in ns
    ensures forall i :: 0 <= i < |ns| ==> m[ns[i]] == vs[i]
  {
    map i | 0 <= i < |ns| :: ns[i] := vs[i]
  }

  /** A map is the one the arrays stand for when it has their bindings and no others. */
  lemma IsToMap<V>(ns: seq<Name>, vs: seq<V>, m: map<Name, V>)
    requires |ns| == |vs| && Unique(ns)
    requires forall i :: 0 <= i < |ns| ==> ns[i] in m && m[ns[i]] == vs[i]
    requires forall k :: k in m ==> k in ns
    ensures ToMap(ns, vs) == m
  {
  }

  /** What json_object_remove_internal does to either array: the last item takes the
      place of the removed one. */
  function SwapRemoved<T>(s: seq<T>, i: nat): (r: seq<T>)
    requires i < |s|
    ensures |r| == |s| - 1
    ensures forall j :: 0 <= j < |r| ==> r[j] == s[if j == i then |s| - 1 else j]
  {
    s[i := s[|s| - 1]][..|s| - 1]
  }

  /** Appending a new name adds its binding. */
  lemma AddBinds<V>(ns: seq<Name>, vs: seq<V>, n: Name, v: V)
    requires |ns| == |vs| && Unique(ns) && n !in ns
    ensures Unique(ns + [n]) && n !in ToMap(ns, vs)
    ensures ToMap(ns + [n], vs + [v]) == ToMap(ns, vs)[n := v]
  {
    IsToMap(ns + [n], vs + [v], ToMap(ns, vs)[n := v]);
  }

  /** Overwriting a value rebinds its name and no other. */
  lemma SetBinds<V>(ns: seq<Name>, vs: seq<V>, i: nat, v: V)
    requires |ns| == |vs| && Unique(ns) && i < |ns|
    ensures ToMap(ns, vs[i := v]) == ToMap(ns, vs)[ns[i] := v]
  {
    IsToMap(ns, vs[i := v], ToMap(ns, vs)[ns[i] := v]);
  }

  lemma SwapKeeps<T>(s: seq<T>, i: nat, x: T)
    requires i < |s| && x in s && x != s[i]
    ensures x in SwapRemoved(s, i)
  {
    var j :| 0 <= j < |s| && s[j] == x;
    assert SwapRemoved(s, i)[if j == |s| - 1 then i else j] == x;
  }

  /** Removal with swap takes exactly one binding away. */
  lemma RemoveUnbinds<V>(ns: seq<Name>, vs: seq<V>, i: nat)
    requires |ns| == |vs| && Unique(ns) && i < |ns|
    ensures Unique(SwapRemoved(ns, i))
    ensures ToMap(SwapRemoved(ns, i), SwapRemoved(vs, i)) == ToMap(ns, vs) - {ns[i]}
  {
    var m := ToMap(ns, vs) - {ns[i]};
    forall k | k in m ensures k in SwapRemoved(ns, i) {
      SwapKeeps(ns, i, k);
    }
    IsToMap(SwapRemoved(ns, i), SwapRemoved(vs, i), m);
  }

  /** Adding a name and removing it again leaves both arrays as they were. */
  lemma AddThenRemove<T>(s: seq<T>, x: T)
    ensures SwapRemoved(s + [x], |s|) == s
  {
  }

  /** The first position of a name. */
  function Index(ns: seq<Name>, n: Name, i: nat): (r: nat)
    requires i <= |ns|
    ensures i <= r <= |ns| && (r < |ns| ==> ns[r] == n)
    ensures forall k :: i <= k < r ==> ns[k] != n
    decreases |ns| - i
  {
    if i == |ns| || ns[i] == n then i else Index(ns, n, i + 1)
  }

  // ----------------------------------------------------------------------- classes

  /** JSON_Value, as far as objects care: the object it belongs to. */
  class Item {
    var parent: Table?

    constructor ()
      ensures parent == null
    {
      parent := null;
    }
  }

  /** JSON_Object. */
  class Table {
    var names: array?<Name>
    var values: array?<Item?>
    var capacity: nat
    var count: nat

    /** Two arrays of one capacity, or none; distinct names and no null value in use. */
    ghost predicate Valid()
      reads this, names, values
    {
      && (names == null <==> values == null)
      && (names == null ==> capacity == 0)
      && (names != null ==> names.Length == capacity && values.Length == capacity)
      && count <= capacity
      && Unique(Names())
      && null !in Values()
    }

    ghost function Names(): (ns: seq<Name>)
      requires names != null ==> count <= names.Length
      reads this, names
    {
      if names == null then [] else names[..count]
    }

    ghost function Values(): (vs: seq<Item?>)
      requires values != null ==> count <= values.Length
      reads this, values
    {
      if values == null then [] else values[..count]
    }

    /** What the object means. */
    ghost function Bindings(): map<Name, Item?>
      requires Valid()
      reads this, names, values
    {
      ToMap(Names(), Values())
    }

    constructor ()
      ensures Valid() && names == null && Bindings() == map[]
    {
      names, values, capacity, count := null, null, 0, 0;
    }

    /** json_object_getn_value. */
    method GetN(name: Name) returns (v: Item?)
      requires Valid()
      ensures v == if name in Bindings() then Bindings()[name] else null
      ensures v != null <==> name in Names()
    {
      var i := 0;
      while i < count
        invariant 0 <= i <= count
        invariant forall k :: 0 <= k < i ==> Names()[k] != name
      {
        if names[i] == name {
          assert Names()[i] == name && Values()[i] == values[i];
          return values[i];
        }
        i := i + 1;
      }
      return null;
    }

    /** Another array, with the used part of the old one copied over. */
    static method Moved<T(0)>(a: array?<T>, count: nat, newCapacity: nat) returns (more: array<T>)
      requires count <= newCapacity && (a == null ==> count == 0) && (a != null ==> count <= a.Length)
      ensures fresh(more) && more.Length == newCapacity
      ensures more[..count] == if a == null then [] else a[..count]
    {
      more := new T[newCapacity];
      if a != null && count > 0 {
        forall i | 0 <= i < count { more[i] := a[i]; }
      }
    }

    /** json_object_resize; callers never ask for less than count. */
    method Resize(newCapacity: nat) returns (ok: bool)
      requires Valid() && count <= newCapacity
      modifies this
      ensures Valid() && count == old(count)
      ensures ok <==> newCapacity != 0
      ensures if ok then capacity == newCapacity && fresh(names) && fresh(values)
              else capacity == old(capacity) && names == old(names) && values == old(values)
      ensures Names() == old(Names()) && Values() == old(Values())
    {
      if newCapacity == 0 {
        return false;
      }
      var moreNames := Moved(names, count, newCapacity);
      var moreValues := Moved(values, count, newCapacity);
      names := moreNames;
      values := moreValues;
      capacity := newCapacity;
      return true;
    }

    /** json_object_addn, with the capacity doubled when it is used up. */
    method AddN(name: Name, value: Item) returns (ok: bool)
      requires Valid()
      modifies this, names, values, value
      ensures Valid() && ok == (name !in old(Bindings()))
      ensures Bindings() == if ok then old(Bindings())[name := value] else old(Bindings())
      ensures Names() == old(Names()) + if ok then [name] else []
      ensures Values() == old(Values()) + if ok then [value] else []
      ensures value.parent == if ok then this else old(value.parent)
      ensures ok && old(count) == old(capacity) ==> capacity == if old(capacity) > 8 then 2 * old(capacity) else 16
      ensures !ok || old(count) < old(capacity) ==> capacity == old(capacity)
      ensures fresh(names) || names == old(names)
      ensures fresh(values) || values == old(values)
    {
      var known := GetN(name);
      if known != null {
        return false;
      }
      if count >= capacity {
        ok := Resize(if capacity * 2 > STARTING_CAPACITY then capacity * 2 else STARTING_CAPACITY);
      }
      ok := Append(name, value);
    }

    /** The tail of json_object_addn: there is room now. */
    method Append(name: Name, value: Item) returns (ok: bool)
      requires Valid() && count < capacity && name !in Names()
      modifies this`count, names, values, value
      ensures Valid() && ok
      ensures Names() == old(Names()) + [name] && Values() == old(Values()) + [value]
      ensures Bindings() == old(Bindings())[name := value] && value.parent == this
    {
      AddBinds<Item?>(Names(), Values(), name, value);
      Store(name, value);
      ok := true;
    }

    method Store(name: Name, value: Item)
      requires names != null && values != null && names.Length == values.Length && count < names.Length
      modifies this`count, names, values, value
      ensures count == old(count) + 1 && value.parent == this
      ensures Names() == old(Names()) + [name] && Values() == old(Values()) + [value]
    {
      names[count] := name;
      value.parent := this;
      values[count] := value;
      count := count + 1;
    }

    /** The loop body of json_object_remove_internal at a match: the last pair takes the
        place of the removed one. */
    method RemoveAt(i: nat)
      requires Valid() && i < count
      modifies this`count, names, values
      ensures Valid()
      ensures Names() == SwapRemoved(old(Names()), i) && Values() == SwapRemoved(old(Values()), i)
      ensures Bindings() == old(Bindings()) - {old(Names())[i]}
    {
      RemoveUnbinds(Names(), Values(), i);
      SwapOut(i);
    }

    method SwapOut(i: nat)
      requires names != null && values != null && names.Length == values.Length && i < count <= names.Length
      modifies this`count, names, values
      ensures count == old(count) - 1
      ensures Names() == SwapRemoved(old(Names()), i) && Values() == SwapRemoved(old(Values()), i)
    {
      var last := count - 1;
      if i != last {
        names[i] := names[last];
        values[i] := values[last];
      }
      count := count - 1;
    }

    /** json_object_remove_internal. */
    method Remove(name: Name) returns (ok: bool)
      requires Valid()
      modifies this`count, names, values
      ensures Valid() && ok == (name in old(Bindings()))
      ensures Bindings() == old(Bindings()) - {name}
      ensures var i := Index(old(Names()), name, 0);
        if i < old(count) then Names() == SwapRemoved(old(Names()), i) && Values() == SwapRemoved(old(Values()), i)
        else Names() == old(Names()) && Values() == old(Values())
    {
      var known := GetN(name);
      if known == null {
        return false;
      }
      var i := 0;
      while i < count
        invariant 0 <= i <= count
        invariant Index(Names(), name, 0) == Index(Names(), name, i)
      {
        if names[i] == name {
          RemoveAt(i);
          return true;
        }
        i := i + 1;
      }
      return false;
    }

    /** The loop body of json_object_set_value at a match. */
    method SetAt(i: nat, value: Item)
      requires Valid() && i < count
      modifies values, value
      ensures Valid() && Names() == old(Names()) && Values() == old(Values())[i := value]
      ensures Bindings() == old(Bindings())[old(Names())[i] := value] && value.parent == this
    {
      SetBinds<Item?>(Names(), Values(), i, value);
      value.parent := this;
      values[i] := value;
      assert Values() == old(Values())[i := value];
    }

    /** json_object_set_value. */
    method Set(name: Name, value: Item) returns (ok: bool)
      requires Valid()
      modifies this, names, values, value
      ensures Valid() && ok == (old(value.parent) == null) && value.parent != null
      ensures Bindings() == if ok then old(Bindings())[name := value] else old(Bindings())
      ensures ok ==> value.parent == this
      ensures ok && name in old(Bindings()) ==> Names() == old(Names())
      ensures (fresh(names) || names == old(names)) && (fresh(values) || values == old(values))
    {
      if value.parent != null {
        return false;
      }
      var known := GetN(name);
      if known != null {
        var i := PositionOf(name);
        if i < count {
          SetAt(i, value);
          return true;
        }
      }
      ok := AddN(name, value);
    }

    /** The loop of its caller. */
    method PositionOf(name: Name) returns (i: nat)
      requires Valid()
      ensures i == Index(Names(), name, 0)
    {
      i := 0;
      while i < count
        invariant 0 <= i <= count && Index(Names(), name, 0) == Index(Names(), name, i)
      {
        if names[i] == name { return; }
        i := i + 1;
      }
    }

    /** parse_object_value trims the object it has read. */
    method Trim() returns (ok: bool)
      requires Valid()
      modifies this
      ensures Valid() && Bindings() == old(Bindings()) && ok == (Bindings() != map[])
      ensures ok ==> capacity == count
      ensures (fresh(names) || names == old(names)) && (fresh(values) || values == old(values))
    {
      assert count > 0 ==> Names()[0] in Bindings();
      assert count == 0 ==> Bindings() == map[];
      ok := Resize(count);
    }

    /** json_object_clear. */
    method Clear()
      requires Valid()
      modifies this`count
      ensures Valid() && Bindings() == map[]
    {
      count := 0;
    }
  }

  // ------------------------------------------------------------------- whole runs

  /** Trim is the resize to the count at the end of parse_object_value. */
  datatype Op = Add(name: Name, value: Item) | Set(name: Name, value: Item) | Remove(name: Name) | Clear | Trim

  ghost function ItemOf(op: Op): set<Item> {
    if op.Add? || op.Set? then {op.value} else {}
  }

  ghost function ItemsOf(ops: seq<Op>): set<Item> {
    set op, v | op in ops && v in ItemOf(op) :: v
  }

  /** A finite map, the items that have a parent, and what the operations returned. */
  datatype Model = Model(bound: map<Name, Item?>, attached: set<Item>, answers: seq<bool>)

  ghost function Bind(m: Model, n: Name, v: Item): Model {
    Model(m.bound[n := v], m.attached + {v}, m.answers + [true])
  }

  ghost function Refuse(m: Model): Model {
    m.(answers := m.answers + [false])
  }

  /** Adding refuses a known name, setting an item that has a parent, removing an unknown
      name, and trimming an empty object. */
  ghost function Apply(m: Model, op: Op): Model {
    match op
    case Add(n, v) => if n in m.bound then Refuse(m) else Bind(m, n, v)
    case Set(n, v) => if v in m.attached then Refuse(m) else Bind(m, n, v)
    case Remove(n) =>
      if n in m.bound then m.(bound := m.bound - {n}, answers := m.answers + [true]) else Refuse(m)
    case Clear => m.(bound := map[], answers := m.answers + [true])
    case Trim => if m.bound == map[] then Refuse(m) else m.(answers := m.answers + [true])
  }

  ghost function After(ops: seq<Op>, attached: set<Item>): Model {
    if ops == [] then Model(map[], attached, [])
    else Apply(After(ops[..|ops| - 1], attached), ops[|ops| - 1])
  }

  lemma {:induction false} CountIsSize(ns: seq<Name>, names: set<Name>)
    requires Unique(ns) && forall n :: n in names <==> n in ns
    ensures |names| == |ns|
  {
    if ns == [] {
      assert names == {};
    } else {
      var last := ns[|ns| - 1];
      CountIsSize(ns[..|ns| - 1], names - {last});
    }
  }

  /** The items that have a parent are those the model calls attached. */
  ghost predicate Attached(items: set<Item>, m: Model)
    reads items
  {
    forall v <- items :: v.parent != null <==> v in m.attached
  }

  lemma AfterStep(ops: seq<Op>, i: nat, attached: set<Item>)
    requires i < |ops|
    ensures After(ops[..i + 1], attached) == Apply(After(ops[..i], attached), ops[i])
    ensures ItemOf(ops[i]) <= ItemsOf(ops)
  {
    assert ops[..i + 1][..i] == ops[..i];
    assert ops[i] in ops;
  }

  /** Any run of operations on the arrays is the run on the finite map: the same bindings,
      the same answers, and as many names as bindings, within the capacity. */
  method Play(ops: seq<Op>) returns (t: Table, answers: seq<bool>)
    modifies ItemsOf(ops)
    ensures t.Valid()
    ensures var m := After(ops, old(set v | v in ItemsOf(ops) && v.parent != null));
      t.Bindings() == m.bound && answers == m.answers && t.count == |m.bound| <= t.capacity
  {
    ghost var items := ItemsOf(ops);
    ghost var attached := set v | v in items && v.parent != null;
    ghost var m := Model(map[], attached, []);
    t := new Table();
    answers := [];
    for i := 0 to |ops|
      invariant fresh(t) && t.Valid()
      invariant (t.names != null ==> fresh(t.names)) && (t.values != null ==> fresh(t.values))
      invariant m == After(ops[..i], attached)
      invariant t.Bindings() == m.bound && answers == m.answers && Attached(items, m)
    {
      AfterStep(ops, i, attached);
      var ok := PlayOne(t, ops[i], items, m);
      m := Apply(m, ops[i]);
      answers := answers + [ok];
    }
    assert ops[..|ops|] == ops;
    CountIsSize(t.Names(), t.Bindings().Keys);
  }

  method PlayAdd(t: Table, n: Name, v: Item, ghost items: set<Item>, ghost m: Model) returns (ok: bool)
    requires t.Valid() && t.Bindings() == m.bound && v in items && Attached(items, m)
    modifies t, t.names, t.values, v
    ensures t.Valid() && t.Bindings() == Apply(m, Add(n, v)).bound && Attached(items, Apply(m, Add(n, v)))
    ensures Apply(m, Add(n, v)).answers == m.answers + [ok]
    ensures t.names == old(t.names) || fresh(t.names)
    ensures t.values == old(t.values) || fresh(t.values)
  {
    ok := t.AddN(n, v);
    forall w | w in items ensures w.parent != null <==> w in Apply(m, Add(n, v)).attached {
      if w != v { assert unchanged(w); }
    }
  }

  method PlaySet(t: Table, n: Name, v: Item, ghost items: set<Item>, ghost m: Model) returns (ok: bool)
    requires t.Valid() && t.Bindings() == m.bound && v in items && Attached(items, m)
    modifies t, t.names, t.values, v
    ensures t.Valid() && t.Bindings() == Apply(m, Set(n, v)).bound && Attached(items, Apply(m, Set(n, v)))
    ensures Apply(m, Set(n, v)).answers == m.answers + [ok]
    ensures t.names == old(t.names) || fresh(t.names)
    ensures t.values == old(t.values) || fresh(t.values)
  {
    ok := t.Set(n, v);
    forall w | w in items ensures w.parent != null <==> w in Apply(m, Set(n, v)).attached {
      if w != v { assert unchanged(w); }
    }
  }

  method PlayOne(t: Table, op: Op, ghost items: set<Item>, ghost m: Model) returns (ok: bool)
    requires t.Valid() && t.Bindings() == m.bound && ItemOf(op) <= items && Attached(items, m)
    modifies t, t.names, t.values, ItemOf(op)
    ensures t.Valid() && t.Bindings() == Apply(m, op).bound && Attached(items, Apply(m, op))
    ensures Apply(m, op).answers == m.answers + [ok]
    ensures t.names == old(t.names) || fresh(t.names)
    ensures t.values == old(t.values) || fresh(t.values)
  {
    match op {
      case Add(n, v) => ok := PlayAdd(t, n, v, items, m);
      case Set(n, v) => ok := PlaySet(t, n, v, items, m);
      case Remove(n) => ok := t.Remove(n);
      case Clear => t.Clear(); ok := true;
      case Trim => ok := t.Trim();
    }
  }
}
