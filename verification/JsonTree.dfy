/** The JSON tree, and what every tree built through parson satisfies. */
module JsonTree {
  import opened Bytes

  const MAX_NESTING := 2048

  /** 2^53: up to here every integer is a double, and "%1.17g" prints it as plain
      decimal digits. */
  const MAX_EXACT := 0x20_0000_0000_0000

  /** Number(neg, mag) is the double (-1)^neg * mag, so minus zero is kept apart
      from zero. Real(token) stands for the double of any other number token. */
  datatype Value =
    | Null
    | Bool(b: bool)
    | Number(neg: bool, mag: nat)
    | Real(token: seq<byte>)
    | String(chars: seq<byte>)
    | Array(items: seq<Value>)
    | Object(members: seq<Member>)

  datatype Member = Member(name: seq<byte>, value: Value)

  predicate IsContainer(v: Value) {
    v.Array? || v.Object?
  }

  /** json_array_get_count and json_object_get_count. */
  function Count(v: Value): nat {
    match v
    case Array(items) => |items|
    case Object(ms) => |ms|
    case _ => 0
  }

  function Child(v: Value, k: nat): (c: Value)
    requires k < Count(v)
    ensures c < v
  {
    if v.Array? then v.items[k] else v.members[k].value
  }

  /** The position json_object_getn_value finds a name at, or the count. */
  function Index(ms: seq<Member>, name: seq<byte>, i: nat): (r: nat)
    requires i <= |ms|
    ensures i <= r <= |ms| && (r < |ms| ==> ms[r].name == name)
    ensures forall k :: i <= k < r ==> ms[k].name != name
    decreases |ms| - i
  {
    if i == |ms| || ms[i].name == name then i else Index(ms, name, i + 1)
  }

  predicate HasName(ms: seq<Member>, name: seq<byte>) {
    exists k :: 0 <= k < |ms| && ms[k].name == name
  }

  predicate UniqueNames(ms: seq<Member>) {
    forall j, k :: 0 <= j < k < |ms| ==> ms[j].name != ms[k].name
  }

  /** Keys are C strings and occur once per object; numbers are in the modelled range. */
  predicate WellFormed(v: Value) {
    && (v.Number? ==> v.mag <= MAX_EXACT)
    && (v.Object? ==> UniqueNames(v.members)
                      && forall k :: 0 <= k < |v.members| ==> NoNul(v.members[k].name))
    && forall k :: 0 <= k < Count(v) ==> WellFormed(Child(v, k))
  }

  /** Every number of the tree is a modelled integer. */
  predicate Integral(v: Value) {
    !v.Real? && forall k :: 0 <= k < Count(v) ==> Integral(Child(v, k))
  }

  /** A tree below n containers keeps at most MAX_NESTING containers around any node. */
  predicate Fits(v: Value, n: nat) {
    n <= MAX_NESTING && forall k :: 0 <= k < Count(v) ==> Fits(Child(v, k), n + 1)
  }
}
