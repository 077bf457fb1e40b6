/** json_value_equals, and what two equal trees have in common. */
module JsonEquality {
  import opened Bytes
  import opened JsonTree

  function Signed(v: Value): int
    requires v.Number?
  {
    var mag: int := v.mag;
    if v.neg then -mag else mag
  }

  /** How the code compares two numbers: fabs of their difference is below an epsilon. */
  type Comparison = (Value, Value) -> bool

  predicate IsNumber(v: Value) {
    v.Number? || v.Real?
  }

  /** All that is used of it: it is reflexive and symmetric, and integers, which differ by
      less than the epsilon only when they are equal, and the two zeros, it tells apart. */
  ghost predicate Close(close: Comparison) {
    && (forall x: Value :: IsNumber(x) ==> close(x, x))
    && (forall x: Value, y: Value :: IsNumber(x) && IsNumber(y) && close(x, y) ==> close(y, x))
    && (forall x: Value, y: Value :: x.Number? && y.Number? ==> (close(x, y) <==> SameInteger(x, y)))
  }

  predicate SameInteger(x: Value, y: Value)
    requires x.Number? && y.Number?
  {
    x.mag == y.mag && (x.neg == y.neg || x.mag == 0)
  }

  /** The code's comparison, when the differences of doubles are taken as exact. */
  function Epsilon(double: Value -> real): Comparison {
    (x: Value, y: Value) => -0.000001 < double(x) - double(y) < 0.000001
  }

  /** It has these properties ... */
  lemma EpsilonIsClose(double: Value -> real)
    requires forall v: Value :: v.Number? ==> double(v) == Signed(v) as real
    ensures Close(Epsilon(double))
  {
    var close := Epsilon(double);
    forall x: Value, y: Value | x.Number? && y.Number? ensures close(x, y) <==> SameInteger(x, y) {
      assert double(x) - double(y) == (Signed(x) - Signed(y)) as real;
    }
  }

  /** json_value_equals. */
  predicate Equals(a: Value, b: Value, close: Comparison)
    decreases a
  {
    match a
    case Null => b.Null?
    case Bool(x) => b.Bool? && x == b.b
    case Number(_, _) => IsNumber(b) && close(a, b)
    case Real(_) => IsNumber(b) && close(a, b)
    case String(x) => b.String? && x == b.chars
    case Array(items) =>
      b.Array? && |items| == |b.items| && forall i :: 0 <= i < |items| ==> ItemEquals(a, b, i, close)
    case Object(ms) =>
      b.Object? && |ms| == |b.members| && forall i :: 0 <= i < |ms| ==> MemberEquals(a, b, i, close)
  }

  predicate ItemEquals(a: Value, b: Value, i: nat, close: Comparison)
    requires a.Array? && b.Array? && i < |a.items| == |b.items|
    decreases a, 0
  {
    assert Child(a, i) < a;
    Equals(a.items[i], b.items[i], close)
  }

  /** Both objects are asked for the i-th key of the first. */
  predicate MemberEquals(a: Value, b: Value, i: nat, close: Comparison)
    requires a.Object? && b.Object? && i < |a.members|
    decreases a, 0
  {
    var key := a.members[i].name;
    var j, k := Index(a.members, key, 0), Index(b.members, key, 0);
    j < |a.members| && k < |b.members| &&
    assert Child(a, j) < a;
    Equals(a.members[j].value, b.members[k].value, close)
  }

  // ------------------------------------------------------------- what a tree means

  /** Objects are maps from keys to meanings and numbers are integers: neither the order
      of the keys nor the sign of zero is left. */
  datatype Meaning =
    | MNull
    | MBool(b: bool)
    | MNumber(n: int)
    | MString(chars: seq<byte>)
    | MArray(items: seq<Meaning>)
    | MObject(members: map<seq<byte>, Meaning>)

  ghost function MeaningOf(v: Value): Meaning
    requires WellFormed(v) && Integral(v)
    decreases v, 2
  {
    match v
    case Null => MNull
    case Bool(x) => MBool(x)
    case Number(_, _) => MNumber(Signed(v))
    case String(x) => MString(x)
    case Array(items) => MArray(seq(|items|, i requires 0 <= i < |items| => ChildMeaning(v, i)))
    case Object(ms) => MObject(MemberMeanings(v))
  }

  ghost function MemberMeanings(v: Value): (m: map<seq<byte>, Meaning>)
    requires WellFormed(v) && Integral(v) && v.Object?
    ensures m.Keys == Keys(v.members)
    ensures forall i :: 0 <= i < |v.members| ==> m[v.members[i].name] == ChildMeaning(v, i)
    decreases v, 1
  {
    map i | 0 <= i < |v.members| :: v.members[i].name := ChildMeaning(v, i)
  }

  ghost function ChildMeaning(v: Value, i: nat): Meaning
    requires WellFormed(v) && Integral(v) && i < Count(v)
    decreases v, 0
  {
    MeaningOf(Child(v, i))
  }

  ghost function Keys(ms: seq<Member>): set<seq<byte>> {
    set i | 0 <= i < |ms| :: ms[i].name
  }

  lemma {:induction false} KeysCount(ms: seq<Member>)
    requires UniqueNames(ms)
    ensures |Keys(ms)| == |ms|
  {
    if ms != [] {
      var rest := ms[..|ms| - 1];
      KeysCount(rest);
      var last := ms[|ms| - 1].name;
      assert Keys(ms) == Keys(rest) + {last} && last !in Keys(rest);
    }
  }

  /** Equally many keys, and every key of the first among the second: the same keys. */
  lemma SameKeys(a: seq<Member>, b: seq<Member>)
    requires UniqueNames(a) && UniqueNames(b) && |a| == |b|
    requires Keys(a) <= Keys(b)
    ensures Keys(a) == Keys(b)
  {
    KeysCount(a);
    KeysCount(b);
    SubsetOfSameSize(Keys(a), Keys(b));
  }

  lemma SubsetOfSameSize(s: set<seq<byte>>, t: set<seq<byte>>)
    requires s <= t && |s| == |t|
    ensures s == t
  {
    assert t == s + (t - s);
  }

  lemma IndexOfUnique(ms: seq<Member>, i: nat)
    requires UniqueNames(ms) && i < |ms|
    ensures Index(ms, ms[i].name, 0) == i
  {
  }

  /** Two trees are equal for json_value_equals exactly when they mean the same. */
  lemma {:induction false} EqualsIsSameMeaning(a: Value, b: Value, close: Comparison)
    requires WellFormed(a) && WellFormed(b) && Integral(a) && Integral(b) && Close(close)
    ensures Equals(a, b, close) <==> MeaningOf(a) == MeaningOf(b)
    decreases a
  {
    if a.Array? && b.Array? && |a.items| == |b.items| {
      forall i | 0 <= i < |a.items|
        ensures ItemEquals(a, b, i, close) <==> ChildMeaning(a, i) == ChildMeaning(b, i)
      {
        EqualsIsSameMeaning(Child(a, i), Child(b, i), close);
      }
      ArraysMeanTheSame(a, b, close);
    } else if a.Array? && b.Array? {
      assert |MeaningOf(a).items| != |MeaningOf(b).items|;
    } else if a.Object? && b.Object? {
      forall i | 0 <= i < |a.members|
        ensures MemberEquals(a, b, i, close) <==> SameForKey(a, b, a.members[i].name)
      {
        forall k | 0 <= k < |b.members|
          ensures Equals(Child(a, i), Child(b, k), close) <==> ChildMeaning(a, i) == ChildMeaning(b, k)
        {
          EqualsIsSameMeaning(Child(a, i), Child(b, k), close);
        }
        SameValueForKey(a, b, i, close);
      }
      ObjectsMeanTheSame(a, b, close);
    }
  }

  lemma ArraysMeanTheSame(a: Value, b: Value, close: Comparison)
    requires WellFormed(a) && WellFormed(b) && Integral(a) && Integral(b)
    requires a.Array? && b.Array? && |a.items| == |b.items|
    requires forall i :: 0 <= i < |a.items| ==>
               (ItemEquals(a, b, i, close) <==> ChildMeaning(a, i) == ChildMeaning(b, i))
    ensures Equals(a, b, close) <==> MeaningOf(a) == MeaningOf(b)
  {
    var x, y := MeaningOf(a).items, MeaningOf(b).items;
    if x == y {
      forall i | 0 <= i < |a.items| ensures ItemEquals(a, b, i, close) {
        assert x[i] == y[i];
      }
    }
  }

  ghost predicate SameForKey(a: Value, b: Value, key: seq<byte>)
    requires WellFormed(a) && WellFormed(b) && Integral(a) && Integral(b) && a.Object? && b.Object?
    requires key in Keys(a.members)
  {
    key in Keys(b.members) && MemberMeanings(a)[key] == MemberMeanings(b)[key]
  }

  lemma ObjectsMeanTheSame(a: Value, b: Value, close: Comparison)
    requires WellFormed(a) && WellFormed(b) && Integral(a) && Integral(b) && a.Object? && b.Object?
    requires forall i :: 0 <= i < |a.members| ==>
               (MemberEquals(a, b, i, close) <==> SameForKey(a, b, a.members[i].name))
    ensures Equals(a, b, close) <==> MeaningOf(a) == MeaningOf(b)
  {
    AgreeOnKeys(a.members, b.members, MemberMeanings(a), MemberMeanings(b));
  }

  lemma SameValueForKey(a: Value, b: Value, i: nat, close: Comparison)
    requires WellFormed(a) && WellFormed(b) && Integral(a) && Integral(b) && a.Object? && b.Object?
    requires i < |a.members|
    requires forall k :: 0 <= k < |b.members| ==>
               (Equals(Child(a, i), Child(b, k), close) <==> ChildMeaning(a, i) == ChildMeaning(b, k))
    ensures MemberEquals(a, b, i, close) <==> SameForKey(a, b, a.members[i].name)
  {
    var key := a.members[i].name;
    IndexOfUnique(a.members, i);
    if key in Keys(b.members) {
      var k :| 0 <= k < |b.members| && b.members[k].name == key;
      IndexOfUnique(b.members, k);
      assert MemberEquals(a, b, i, close) <==> Equals(Child(a, i), Child(b, k), close);
      assert MemberMeanings(b)[key] == ChildMeaning(b, k);
    }
  }

  /** Two maps over unique keys are one when their sizes and all values agree. */
  lemma AgreeOnKeys(a: seq<Member>, b: seq<Member>, x: map<seq<byte>, Meaning>, y: map<seq<byte>, Meaning>)
    requires UniqueNames(a) && UniqueNames(b) && x.Keys == Keys(a) && y.Keys == Keys(b)
    ensures x == y <==>
              |a| == |b| && forall i :: 0 <= i < |a| ==> a[i].name in y && x[a[i].name] == y[a[i].name]
  {
    if x == y {
      KeysCount(a);
      KeysCount(b);
      forall i | 0 <= i < |a| ensures a[i].name in y {
        assert a[i].name in Keys(a);
      }
    } else if |a| == |b| && forall i :: 0 <= i < |a| ==> a[i].name in y && x[a[i].name] == y[a[i].name] {
      SameMaps(a, b, x, y);
    }
  }

  lemma SameMaps(a: seq<Member>, b: seq<Member>, x: map<seq<byte>, Meaning>, y: map<seq<byte>, Meaning>)
    requires UniqueNames(a) && UniqueNames(b) && |a| == |b|
    requires x.Keys == Keys(a) && y.Keys == Keys(b)
    requires forall i :: 0 <= i < |a| ==> a[i].name in y && x[a[i].name] == y[a[i].name]
    ensures x == y
  {
    assert Keys(a) <= Keys(b);
    SameKeys(a, b);
  }

  // ------------------------------------------------------------------ consequences

  /** Every tree equals itself, whatever its numbers. */
  lemma {:induction false} EqualsReflexive(a: Value, close: Comparison)
    requires WellFormed(a) && Close(close)
    ensures Equals(a, a, close)
    decreases a
  {
    forall k | 0 <= k < Count(a) ensures Equals(Child(a, k), Child(a, k), close) {
      EqualsReflexive(Child(a, k), close);
    }
    if a.Object? {
      forall i | 0 <= i < |a.members| ensures MemberEquals(a, a, i, close) {
        IndexOfUnique(a.members, i);
        assert Equals(Child(a, i), Child(a, i), close);
      }
    } else if a.Array? {
      forall i | 0 <= i < |a.items| ensures ItemEquals(a, a, i, close) {
        assert Equals(Child(a, i), Child(a, i), close);
      }
    }
  }

  /** Where the key of b's i-th member stands in an equal object a. */
  lemma KeyOfEqual(a: Value, b: Value, i: nat, close: Comparison) returns (j: nat)
    requires WellFormed(a) && WellFormed(b) && a.Object? && b.Object? && i < |b.members|
    requires Equals(a, b, close)
    ensures j < |a.members| && a.members[j].name == b.members[i].name
    ensures Equals(Child(a, j), Child(b, i), close)
  {
    forall j | 0 <= j < |a.members| ensures a.members[j].name in Keys(b.members) {
      assert MemberEquals(a, b, j, close);
    }
    SameKeys(a.members, b.members);
    assert b.members[i].name in Keys(a.members);
    j :| 0 <= j < |a.members| && a.members[j].name == b.members[i].name;
    assert MemberEquals(a, b, j, close);
    IndexOfUnique(a.members, j);
    IndexOfUnique(b.members, i);
  }

  /** The i-th keys of both objects are looked up where they stand. */
  lemma MemberEqualsAt(a: Value, b: Value, i: nat, j: nat, close: Comparison)
    requires WellFormed(a) && WellFormed(b) && a.Object? && b.Object? && i < |a.members| && j < |b.members|
    requires a.members[i].name == b.members[j].name
    ensures MemberEquals(a, b, i, close) <==> Equals(Child(a, i), Child(b, j), close)
  {
    IndexOfUnique(a.members, i);
    IndexOfUnique(b.members, j);
  }

  lemma {:induction false} EqualsSymmetric(a: Value, b: Value, close: Comparison)
    requires WellFormed(a) && WellFormed(b) && Close(close) && Equals(a, b, close)
    ensures Equals(b, a, close)
    decreases a
  {
    if a.Array? {
      forall i | 0 <= i < |b.items| ensures ItemEquals(b, a, i, close) {
        assert ItemEquals(a, b, i, close);
        EqualsSymmetric(Child(a, i), Child(b, i), close);
      }
    } else if a.Object? {
      forall i | 0 <= i < |b.members| ensures MemberEquals(b, a, i, close) {
        var j := KeyOfEqual(a, b, i, close);
        EqualsSymmetric(Child(a, j), Child(b, i), close);
        MemberEqualsAt(b, a, i, j, close);
      }
    }
  }

  /** Numbers that are close to one number are close to each other. */
  ghost predicate Transitive(close: Comparison) {
    forall x: Value, y: Value, z: Value ::
      (IsNumber(x) && IsNumber(y) && IsNumber(z) && WellFormed(x) && WellFormed(y) && WellFormed(z)
       && close(x, y) && close(y, z)) ==> close(x, z)
  }

  lemma {:induction false} EqualsTransitive(a: Value, b: Value, c: Value, close: Comparison)
    requires WellFormed(a) && WellFormed(b) && WellFormed(c) && Close(close) && Transitive(close)
    requires Equals(a, b, close) && Equals(b, c, close)
    ensures Equals(a, c, close)
    decreases a
  {
    if a.Array? {
      forall i | 0 <= i < |a.items| ensures ItemEquals(a, c, i, close) {
        assert ItemEquals(a, b, i, close) && ItemEquals(b, c, i, close);
        EqualsTransitive(Child(a, i), Child(b, i), Child(c, i), close);
      }
    } else if a.Object? {
      forall i | 0 <= i < |a.members| ensures MemberEquals(a, c, i, close) {
        MemberTransitive(a, b, c, i, close);
      }
    }
  }

  lemma {:induction false} MemberTransitive(a: Value, b: Value, c: Value, i: nat, close: Comparison)
    requires WellFormed(a) && WellFormed(b) && WellFormed(c) && Close(close) && Transitive(close)
    requires a.Object? && i < |a.members| && Equals(a, b, close) && Equals(b, c, close)
    ensures c.Object? && MemberEquals(a, c, i, close)
    decreases a, 0
  {
    assert MemberEquals(a, b, i, close);
    var j := Index(b.members, a.members[i].name, 0);
    assert MemberEquals(b, c, j, close);
    var k := Index(c.members, a.members[i].name, 0);
    MemberEqualsAt(a, b, i, j, close);
    MemberEqualsAt(b, c, j, k, close);
    EqualsTransitive(Child(a, i), Child(b, j), Child(c, k), close);
    MemberEqualsAt(a, c, i, k, close);
  }

  /** ... and is not transitive: two differences below the epsilon can add up to it. */
  lemma EpsilonIsNotTransitive(double: Value -> real, x: seq<byte>, y: seq<byte>, z: seq<byte>)
    requires 0.0 < double(Real(x)) - double(Real(y)) < 0.000001
    requires 0.0 < double(Real(y)) - double(Real(z)) < 0.000001 <= double(Real(x)) - double(Real(z))
    ensures !Transitive(Epsilon(double))
  {
    var close := Epsilon(double);
    assert close(Real(x), Real(y)) && close(Real(y), Real(z)) && !close(Real(x), Real(z));
  }

  ghost predicate TransitiveOnTrees(close: Comparison) {
    forall a: Value, b: Value, c: Value ::
      (WellFormed(a) && WellFormed(b) && WellFormed(c) && Equals(a, b, close) && Equals(b, c, close)) ==>
        Equals(a, c, close)
  }

  /** Reflexive and symmetric json_value_equals is on all trees. Transitive it is exactly as
      far as the comparison of numbers is: on all trees when that is, and on trees of integers
      anyway. */
  lemma EqualsIsEquivalence(close: Comparison)
    requires Close(close)
    ensures forall a: Value :: WellFormed(a) ==> Equals(a, a, close)
    ensures forall a: Value, b: Value ::
      WellFormed(a) && WellFormed(b) ==> (Equals(a, b, close) <==> Equals(b, a, close))
    ensures TransitiveOnTrees(close) <==> Transitive(close)
    ensures forall a: Value, b: Value, c: Value ::
      (WellFormed(a) && WellFormed(b) && WellFormed(c) && Integral(a) && Integral(b) && Integral(c)
       && Equals(a, b, close) && Equals(b, c, close)) ==> Equals(a, c, close)
  {
    forall a: Value | WellFormed(a) ensures Equals(a, a, close) { EqualsReflexive(a, close); }
    forall a: Value, b: Value | WellFormed(a) && WellFormed(b) ensures Equals(a, b, close) <==> Equals(b, a, close) {
      if Equals(a, b, close) { EqualsSymmetric(a, b, close); }
      if Equals(b, a, close) { EqualsSymmetric(b, a, close); }
    }
    TransitiveAsNumbersAre(close);
    forall a: Value, b: Value, c: Value |
      WellFormed(a) && WellFormed(b) && WellFormed(c) && Integral(a) && Integral(b) && Integral(c)
      && Equals(a, b, close) && Equals(b, c, close)
      ensures Equals(a, c, close)
    {
      EqualsIsSameMeaning(a, b, close);
      EqualsIsSameMeaning(b, c, close);
      EqualsIsSameMeaning(a, c, close);
    }
  }

  lemma TransitiveAsNumbersAre(close: Comparison)
    requires Close(close)
    ensures TransitiveOnTrees(close) <==> Transitive(close)
  {
    if TransitiveOnTrees(close) {
      forall x: Value, y: Value, z: Value |
        IsNumber(x) && IsNumber(y) && IsNumber(z) && WellFormed(x) && WellFormed(y) && WellFormed(z)
        && close(x, y) && close(y, z)
        ensures close(x, z)
      {
        assert Equals(x, y, close) && Equals(y, z, close);
      }
    }
    if Transitive(close) {
      forall a: Value, b: Value, c: Value |
        WellFormed(a) && WellFormed(b) && WellFormed(c) && Equals(a, b, close) && Equals(b, c, close)
        ensures Equals(a, c, close)
      {
        EqualsTransitive(a, b, c, close);
      }
    }
  }

  /** The order of the keys does not matter. */
  lemma EqualsIgnoresKeyOrder(ms: seq<Member>, ns: seq<Member>, close: Comparison)
    requires WellFormed(Object(ms)) && WellFormed(Object(ns)) && Close(close)
    requires |ms| == |ns| && forall m <- ms :: m in ns
    ensures Equals(Object(ms), Object(ns), close)
  {
    var a, b := Object(ms), Object(ns);
    forall i | 0 <= i < |ms| ensures MemberEquals(a, b, i, close) {
      assert ms[i] in ns;
      var k :| 0 <= k < |ns| && ns[k] == ms[i];
      MemberEqualsAt(a, b, i, k, close);
      EqualsReflexive(Child(a, i), close);
    }
  }

  // --------------------------------------------------------------------- methods

  /** json_object_getn_value. */
  method FindMember(ms: seq<Member>, name: seq<byte>) returns (i: nat)
    ensures i == Index(ms, name, 0)
  {
    i := 0;
    while i < |ms|
      invariant i <= |ms| && Index(ms, name, 0) == Index(ms, name, i)
    {
      if ms[i].name == name {
        return;
      }
      i := i + 1;
    }
    assert Index(ms, name, i) == i;
  }

  ghost predicate AllItemsEqual(a: Value, b: Value, close: Comparison)
    requires a.Array? && b.Array? && |a.items| == |b.items|
  {
    forall i :: 0 <= i < |a.items| ==> ItemEquals(a, b, i, close)
  }

  ghost predicate AllMembersEqual(a: Value, b: Value, close: Comparison)
    requires a.Object? && b.Object?
  {
    forall i :: 0 <= i < |a.members| ==> MemberEquals(a, b, i, close)
  }

  lemma AllItemsThenEqual(a: Value, b: Value, close: Comparison)
    requires a.Array? && b.Array? && |a.items| == |b.items|
    requires AllItemsEqual(a, b, close)
    ensures Equals(a, b, close)
  {
  }

  lemma EqualThenAllItems(a: Value, b: Value, close: Comparison)
    requires a.Array? && b.Array? && |a.items| == |b.items|
    requires Equals(a, b, close)
    ensures AllItemsEqual(a, b, close)
  {
  }

  lemma AllMembersThenEqual(a: Value, b: Value, close: Comparison)
    requires a.Object? && b.Object? && |a.members| == |b.members|
    requires AllMembersEqual(a, b, close)
    ensures Equals(a, b, close)
  {
  }

  lemma EqualThenAllMembers(a: Value, b: Value, close: Comparison)
    requires a.Object? && b.Object? && |a.members| == |b.members|
    requires Equals(a, b, close)
    ensures AllMembersEqual(a, b, close)
  {
  }

  /** json_value_equals. */
  method ValueEquals(a: Value, b: Value, close: Comparison) returns (r: bool)
    ensures r == Equals(a, b, close)
    decreases a, 1
  {
    match a {
      case Null => r := b.Null?;
      case Bool(x) => r := b.Bool? && x == b.b;
      case Number(_, _) => r := IsNumber(b) && close(a, b);
      case Real(_) => r := IsNumber(b) && close(a, b);
      case String(x) => r := b.String? && x == b.chars;
      case Array(items) =>
        if !b.Array? || |items| != |b.items| {
          return false;
        }
        r := ItemsEqual(a, b, close);
        if r { AllItemsThenEqual(a, b, close); } else if Equals(a, b, close) { EqualThenAllItems(a, b, close); }
      case Object(ms) =>
        if !b.Object? || |ms| != |b.members| {
          return false;
        }
        r := MembersEqual(a, b, close);
        if r { AllMembersThenEqual(a, b, close); } else if Equals(a, b, close) { EqualThenAllMembers(a, b, close); }
    }
  }

  method ItemsEqual(a: Value, b: Value, close: Comparison) returns (r: bool)
    requires a.Array? && b.Array? && |a.items| == |b.items|
    ensures r == AllItemsEqual(a, b, close)
    decreases a, 0
  {
    var i := 0;
    while i < |a.items|
      invariant 0 <= i <= |a.items|
      invariant forall k :: 0 <= k < i ==> ItemEquals(a, b, k, close)
    {
      assert Child(a, i) < a;
      r := ValueEquals(a.items[i], b.items[i], close);
      if !r {
        assert !ItemEquals(a, b, i, close);
        return;
      }
      i := i + 1;
    }
    r := true;
  }

  method MembersEqual(a: Value, b: Value, close: Comparison) returns (r: bool)
    requires a.Object? && b.Object?
    ensures r == AllMembersEqual(a, b, close)
    decreases a, 0
  {
    var i := 0;
    while i < |a.members|
      invariant 0 <= i <= |a.members|
      invariant forall k :: 0 <= k < i ==> MemberEquals(a, b, k, close)
    {
      var key := a.members[i].name;
      var j := FindMember(a.members, key);
      var k := FindMember(b.members, key);
      if j == |a.members| || k == |b.members| {
        assert !MemberEquals(a, b, i, close);
        return false;
      }
      assert Child(a, j) < a;
      r := ValueEquals(a.members[j].value, b.members[k].value, close);
      if !r {
        assert !MemberEquals(a, b, i, close);
        return;
      }
      i := i + 1;
    }
    r := true;
  }
}
