/** Dotted paths: what json_object_dotset_value does to a tree, and what
    json_object_dotget_value finds in it. */
module DotPath {
  import opened Bytes
  import opened JsonTree

  /** strchr(name, '.'), or the length of the name. */
  function DotAt(name: seq<byte>): (d: nat)
    ensures d <= |name| && (d < |name| ==> name[d] == DOT)
    ensures forall k :: 0 <= k < d ==> name[k] != DOT
  {
    if name == [] || name[0] == DOT then 0 else 1 + DotAt(name[1..])
  }

  function Lookup(ms: seq<Member>, name: seq<byte>): Option<Value> {
    var i := Index(ms, name, 0);
    if i < |ms| then Some(ms[i].value) else None
  }

  /** Overwrite in place, or append. */
  function Put(ms: seq<Member>, name: seq<byte>, x: Value): seq<Member> {
    var i := Index(ms, name, 0);
    if i < |ms| then ms[i := Member(name, x)] else ms + [Member(name, x)]
  }

  /** json_object_dotget_value; a null object answers like an empty one. */
  function DotGet(ms: seq<Member>, name: seq<byte>): Option<Value>
    decreases |name|
  {
    var d := DotAt(name);
    if d == |name| then Lookup(ms, name)
    else
      var t := Lookup(ms, name[..d]);
      DotGet(if t.Some? && t.value.Object? then t.value.members else [], name[d + 1..])
  }

  /** json_object_dotset_value; attached says that the value already has a parent. None
      is failure. */
  function DotSet(ms: seq<Member>, name: seq<byte>, x: Value, attached: bool): Option<seq<Member>>
    decreases |name|
  {
    var d := DotAt(name);
    if d == |name| then if attached then None else Some(Put(ms, name, x))
    else
      var t := Lookup(ms, name[..d]);
      if t.Some? && !t.value.Object? then None
      else
        match DotSet(if t.Some? then t.value.members else [], name[d + 1..], x, attached)
        case None => None
        case Some(inner) => Some(Put(ms, name[..d], Object(inner)))
  }

  // --------------------------------------------------- the same on lists of segments

  type Path = p: seq<seq<byte>> | p != [] witness [[]]

  function Split(name: seq<byte>): Path
    decreases |name|
  {
    var d := DotAt(name);
    if d == |name| then [name] else [name[..d]] + Split(name[d + 1..])
  }

  function Join(p: Path): seq<byte>
    decreases |p|
  {
    if |p| == 1 then p[0] else p[0] + [DOT] + Join(p[1..])
  }

  /** The segments have no dots, and with dots between them they are the name. */
  lemma {:induction false} SplitJoins(name: seq<byte>)
    ensures Join(Split(name)) == name
    ensures forall k :: 0 <= k < |Split(name)| ==> DOT !in Split(name)[k]
    decreases |name|
  {
    var d := DotAt(name);
    if d < |name| {
      var p, rest := Split(name), name[d + 1..];
      SplitStep(name);
      SplitJoins(rest);
      forall k | 0 <= k < |p| ensures DOT !in p[k] {
        if k > 0 { assert p[k] == p[1..][k - 1]; }
      }
      assert name == name[..d] + [DOT] + rest;
    }
  }

  lemma SplitIs(name: seq<byte>, head: seq<byte>, rest: seq<byte>)
    requires DotAt(name) < |name| && head == name[..DotAt(name)] && rest == name[DotAt(name) + 1..]
    ensures Split(name) == [head] + Split(rest)
  {
  }

  lemma SplitStep(name: seq<byte>)
    requires DotAt(name) < |name|
    ensures var d, p := DotAt(name), Split(name); |p| > 1 && p[0] == name[..d] && p[1..] == Split(name[d + 1..])
  {
    var head, rest := name[..DotAt(name)], name[DotAt(name) + 1..];
    SplitIs(name, head, rest);
    var p := Split(rest);
    assert ([head] + p)[1..] == p;
  }

  function GetPath(ms: seq<Member>, p: Path): Option<Value>
    decreases |p|
  {
    var t := Lookup(ms, p[0]);
    if |p| == 1 then t
    else if t.Some? && t.value.Object? then GetPath(t.value.members, p[1..]) else None
  }

  function MembersAt(ms: seq<Member>, p: Path): seq<Member> {
    var v := GetPath(ms, p);
    if v.Some? && v.value.Object? then v.value.members else []
  }

  /** A proper prefix of the path is bound to something else than an object. */
  ghost predicate Blocked(ms: seq<Member>, p: Path) {
    exists k :: 0 < k < |p| && BlockedAt(ms, p, k)
  }

  predicate BlockedAt(ms: seq<Member>, p: Path, k: nat)
    requires 0 < k < |p|
  {
    var v := GetPath(ms, p[..k]);
    v.Some? && !v.value.Object?
  }

  function SetPath(ms: seq<Member>, p: Path, x: Value): Option<seq<Member>>
    decreases |p|
  {
    var t := Lookup(ms, p[0]);
    if |p| == 1 then Some(Put(ms, p[0], x))
    else if t.Some? && !t.value.Object? then None
    else
      match SetPath(if t.Some? then t.value.members else [], p[1..], x)
      case None => None
      case Some(inner) => Some(Put(ms, p[0], Object(inner)))
  }

  lemma {:induction false} GetPathOfEmpty(p: Path)
    ensures GetPath([], p) == None
  {
  }

  lemma {:induction false} DotGetIsGetPath(ms: seq<Member>, name: seq<byte>)
    ensures DotGet(ms, name) == GetPath(ms, Split(name))
    decreases |name|
  {
    var d := DotAt(name);
    if d < |name| {
      var t := Lookup(ms, name[..d]);
      var inner := if t.Some? && t.value.Object? then t.value.members else [];
      DotGetIsGetPath(inner, name[d + 1..]);
      GetPathOfEmpty(Split(name[d + 1..]));
      SplitStep(name);
    }
  }

  /** What both do with a result from one level down. */
  function Rebind(ms: seq<Member>, head: seq<byte>, below: Option<seq<Member>>): Option<seq<Member>> {
    if below == None then None else Some(Put(ms, head, Object(below.value)))
  }

  predicate InTheWay(ms: seq<Member>, head: seq<byte>) {
    var t := Lookup(ms, head);
    t.Some? && !t.value.Object?
  }

  lemma DotSetStep(ms: seq<Member>, name: seq<byte>, x: Value, attached: bool, head: seq<byte>, rest: seq<byte>)
    requires DotAt(name) < |name| && head == name[..DotAt(name)] && rest == name[DotAt(name) + 1..]
    ensures DotSet(ms, name, x, attached) ==
            if InTheWay(ms, head) then None else Rebind(ms, head, DotSet(MembersAt(ms, [head]), rest, x, attached))
  {
  }

  lemma SetPathStep(ms: seq<Member>, p: Path, x: Value, head: seq<byte>, rest: Path)
    requires p == [head] + rest
    ensures SetPath(ms, p, x) ==
            if InTheWay(ms, head) then None else Rebind(ms, head, SetPath(MembersAt(ms, [head]), rest, x))
  {
    assert p[0] == head && p[1..] == rest;
  }

  lemma {:induction false} DotSetIsSetPath(ms: seq<Member>, name: seq<byte>, x: Value, attached: bool)
    ensures DotSet(ms, name, x, attached) == if attached then None else SetPath(ms, Split(name), x)
    decreases |name|
  {
    var d := DotAt(name);
    if d == |name| {
      assert Split(name) == [name];
    } else {
      var head, rest := name[..d], name[d + 1..];
      var p := Split(rest);
      SplitIs(name, head, rest);
      DotSetStep(ms, name, x, attached, head, rest);
      SetPathStep(ms, [head] + p, x, head, p);
      DotSetIsSetPath(MembersAt(ms, [head]), rest, x, attached);
    }
  }

  // -------------------------------------------------------------------- one object

  lemma {:induction false} IndexSkips(ms: seq<Member>, name: seq<byte>, i: nat, j: nat)
    requires i <= j <= |ms| && forall k :: i <= k < j ==> ms[k].name != name
    ensures Index(ms, name, i) == Index(ms, name, j)
    decreases j - i
  {
    if i < j { IndexSkips(ms, name, i + 1, j); }
  }

  lemma LookupIs(ms: seq<Member>, name: seq<byte>, j: nat)
    requires j <= |ms| && (forall k :: 0 <= k < j ==> ms[k].name != name) && (j < |ms| ==> ms[j].name == name)
    ensures Lookup(ms, name) == if j < |ms| then Some(ms[j].value) else None
  {
    IndexSkips(ms, name, 0, j);
  }

  /** No member moves: a name that is new comes last, one that is there keeps its place. */
  lemma PutKeepsOrder(ms: seq<Member>, name: seq<byte>, x: Value)
    ensures !HasName(ms, name) ==> Put(ms, name, x) == ms + [Member(name, x)]
    ensures HasName(ms, name) ==> |Put(ms, name, x)| == |ms|
    ensures forall k :: 0 <= k < |ms| ==> Put(ms, name, x)[k].name == ms[k].name
    ensures forall k :: 0 <= k < |ms| && ms[k].name != name ==> Put(ms, name, x)[k] == ms[k]
  {
    if HasName(ms, name) { assert Index(ms, name, 0) < |ms|; }
  }

  lemma LookupAfterPut(ms: seq<Member>, name: seq<byte>, x: Value, other: seq<byte>)
    ensures Lookup(Put(ms, name, x), other) == if other == name then Some(x) else Lookup(ms, other)
  {
    var r := Put(ms, name, x);
    var i, j := Index(ms, name, 0), Index(ms, other, 0);
    if other == name {
      LookupIs(r, other, i);
    } else if j < |ms| || i < |ms| {
      LookupIs(r, other, j);
    } else {
      LookupIs(r, other, |ms| + 1);
    }
  }

  // --------------------------------------------------------------------- the laws

  /** A path that was set leads to the value. */
  lemma {:induction false} GetAfterSet(ms: seq<Member>, p: Path, x: Value)
    requires SetPath(ms, p, x).Some?
    ensures GetPath(SetPath(ms, p, x).value, p) == Some(x)
    decreases |p|
  {
    var t := Lookup(ms, p[0]);
    if |p| == 1 {
      LookupAfterPut(ms, p[0], x, p[0]);
    } else {
      var inner := if t.Some? then t.value.members else [];
      GetAfterSet(inner, p[1..], x);
      LookupAfterPut(ms, p[0], Object(SetPath(inner, p[1..], x).value), p[0]);
    }
  }

  /** A longer path is looked up inside the value. */
  lemma {:induction false} GetBelowSet(ms: seq<Member>, p: Path, x: Value, q: Path)
    requires SetPath(ms, p, x).Some?
    ensures GetPath(SetPath(ms, p, x).value, p + q) == if x.Object? then GetPath(x.members, q) else None
    decreases |p|
  {
    var t := Lookup(ms, p[0]);
    if |p| == 1 {
      LookupAfterPut(ms, p[0], x, p[0]);
      assert (p + q)[1..] == q;
    } else {
      var inner := if t.Some? then t.value.members else [];
      GetBelowSet(inner, p[1..], x, q);
      LookupAfterPut(ms, p[0], Object(SetPath(inner, p[1..], x).value), p[0]);
      assert (p + q)[1..] == p[1..] + q;
    }
  }

  /** A shorter path leads to the object that was there, or a new one, with the rest of
      the path set in it. */
  lemma {:induction false} GetAboveSet(ms: seq<Member>, p: Path, x: Value, k: nat)
    requires SetPath(ms, p, x).Some? && 0 < k < |p|
    ensures SetPath(MembersAt(ms, p[..k]), p[k..], x).Some?
    ensures GetPath(SetPath(ms, p, x).value, p[..k]) ==
            Some(Object(SetPath(MembersAt(ms, p[..k]), p[k..], x).value))
    decreases |p|
  {
    var inner, r := SetBelowHead(ms, p, x);
    var whole := SetPath(ms, p, x).value;
    if k == 1 {
      assert p[..1] == [p[0]];
    } else {
      GetAboveSet(inner, p[1..], x, k - 1);
      AtTail(ms, p, k);
      AtTail(whole, p, k);
    }
  }

  /** One step down: the members below the first segment, before and after. */
  lemma SetBelowHead(ms: seq<Member>, p: Path, x: Value) returns (inner: seq<Member>, r: seq<Member>)
    requires SetPath(ms, p, x).Some? && |p| > 1
    ensures inner == MembersAt(ms, [p[0]]) && SetPath(inner, p[1..], x) == Some(r)
    ensures GetPath(SetPath(ms, p, x).value, [p[0]]) == Some(Object(r))
  {
    var t := Lookup(ms, p[0]);
    inner := if t.Some? then t.value.members else [];
    r := SetPath(inner, p[1..], x).value;
    LookupAfterPut(ms, p[0], Object(r), p[0]);
  }

  lemma AtTail(ms: seq<Member>, p: Path, k: nat)
    requires 1 < k < |p|
    ensures p[k..] == p[1..][k - 1..]
    ensures GetPath(ms, p[..k]) == GetPath(MembersAt(ms, [p[0]]), p[1..][..k - 1])
  {
    assert p[..k][1..] == p[1..][..k - 1];
    GetPathOfEmpty(p[1..][..k - 1]);
  }

  ghost predicate Unrelated(p: Path, q: Path) {
    !(p <= q) && !(q <= p)
  }

  /** Every path that is neither a prefix nor an extension leads where it led. */
  lemma {:induction false} GetElsewhere(ms: seq<Member>, p: Path, x: Value, q: Path)
    requires SetPath(ms, p, x).Some? && Unrelated(p, q)
    ensures GetPath(SetPath(ms, p, x).value, q) == GetPath(ms, q)
    decreases |p|
  {
    var t := Lookup(ms, p[0]);
    if |p| == 1 {
      LookupAfterPut(ms, p[0], x, q[0]);
    } else {
      var inner := if t.Some? then t.value.members else [];
      var r := SetPath(inner, p[1..], x).value;
      LookupAfterPut(ms, p[0], Object(r), q[0]);
      if p[0] == q[0] {
        TailsUnrelated(p, q);
        if |q| > 1 {
          GetElsewhere(inner, p[1..], x, q[1..]);
          GetPathOfEmpty(q[1..]);
        }
      }
    }
  }

  lemma TailsUnrelated(p: Path, q: Path)
    requires Unrelated(p, q) && p[0] == q[0]
    ensures |p| > 1 && |q| > 1 && Unrelated(p[1..], q[1..])
  {
    assert p == [p[0]] + p[1..] && q == [q[0]] + q[1..];
  }

  /** Setting fails exactly when something that is not an object is in the way. */
  lemma {:induction false} SetFailsWhenBlocked(ms: seq<Member>, p: Path, x: Value)
    ensures SetPath(ms, p, x) == None <==> Blocked(ms, p)
    decreases |p|
  {
    if |p| > 1 {
      var t := Lookup(ms, p[0]);
      var inner := if t.Some? && t.value.Object? then t.value.members else [];
      SetFailsWhenBlocked(inner, p[1..], x);
      assert BlockedAt(ms, p, 1) <==> t.Some? && !t.value.Object?;
      forall k | 1 < k < |p| ensures BlockedAt(ms, p, k) <==> BlockedAt(inner, p[1..], k - 1) {
        BlockedBelow(ms, p, k);
      }
      if Blocked(inner, p[1..]) {
        var k :| 0 < k < |p[1..]| && BlockedAt(inner, p[1..], k);
        assert BlockedAt(ms, p, k + 1);
      }
    }
  }

  lemma BlockedBelow(ms: seq<Member>, p: Path, k: nat)
    requires 1 < k < |p|
    ensures var t := Lookup(ms, p[0]);
      BlockedAt(ms, p, k) <==>
      BlockedAt(if t.Some? && t.value.Object? then t.value.members else [], p[1..], k - 1)
  {
    assert p[..k][1..] == p[1..][..k - 1];
    GetPathOfEmpty(p[1..][..k - 1]);
  }

  lemma PutKeepsWellFormed(ms: seq<Member>, name: seq<byte>, x: Value)
    requires WellFormed(Object(ms)) && WellFormed(x) && NoNul(name)
    ensures WellFormed(Object(Put(ms, name, x)))
  {
    var v, w := Object(ms), Object(Put(ms, name, x));
    forall k | 0 <= k < Count(w) ensures WellFormed(Child(w, k)) {
      assert k < |ms| ==> WellFormed(Child(v, k));
    }
  }

  /** Keys stay unique all the way down. */
  lemma {:induction false} SetKeepsWellFormed(ms: seq<Member>, p: Path, x: Value)
    requires WellFormed(Object(ms)) && WellFormed(x) && forall s <- p :: NoNul(s)
    ensures SetPath(ms, p, x).Some? ==> WellFormed(Object(SetPath(ms, p, x).value))
    decreases |p|
  {
    var t := Lookup(ms, p[0]);
    if |p| == 1 {
      PutKeepsWellFormed(ms, p[0], x);
    } else if t.Some? && !t.value.Object? {
    } else {
      if t.Some? { assert t.value == Child(Object(ms), Index(ms, p[0], 0)); }
      var inner := if t.Some? then t.value.members else [];
      SetKeepsWellFormed(inner, p[1..], x);
      var r := SetPath(inner, p[1..], x);
      if r.Some? { PutKeepsWellFormed(ms, p[0], Object(r.value)); }
    }
  }

  // ------------------------------------------------------------ on dotted names

  /** After json_object_dotset_value: the name leads to the value, unrelated names lead
      where they led, and failure means a parent or a blocked path. */
  lemma DotSetThenGet(ms: seq<Member>, name: seq<byte>, x: Value, attached: bool, other: seq<byte>)
    ensures DotSet(ms, name, x, attached) == None <==> attached || Blocked(ms, Split(name))
    ensures DotSet(ms, name, x, attached).Some? ==>
              var r := DotSet(ms, name, x, attached).value;
              && DotGet(r, name) == Some(x)
              && (Unrelated(Split(name), Split(other)) ==> DotGet(r, other) == DotGet(ms, other))
  {
    DotSetIsSetPath(ms, name, x, attached);
    SetFailsWhenBlocked(ms, Split(name), x);
    if DotSet(ms, name, x, attached).Some? {
      var r := DotSet(ms, name, x, attached).value;
      DotGetIsGetPath(r, name);
      GetAfterSet(ms, Split(name), x);
      DotGetIsGetPath(r, other);
      DotGetIsGetPath(ms, other);
      if Unrelated(Split(name), Split(other)) { GetElsewhere(ms, Split(name), x, Split(other)); }
    }
  }
}
