// The value tree of steam-shim/jsoncpp.cpp.
module JsonValue {
  import opened Numbers

  const MAX_INT := 0x7FFF_FFFF
  const MAX_LARGEST_INT := 0x7FFF_FFFF_FFFF_FFFF
  const MIN_LARGEST_INT := -0x8000_0000_0000_0000
  const MAX_LARGEST_UINT := 0xFFFF_FFFF_FFFF_FFFF

  datatype Member = Member(name: string, value: Value)

  // An object holds its members the way std::map iterates over them, in key order.
  // A double is kept as the token it was read from.
  datatype Value =
    | Null
    | Bool(b: bool)
    | Int(i: int)
    | UInt(u: nat)
    | Real(token: string)
    | Str(s: string)
    | Arr(items: seq<Value>)
    | Obj(members: seq<Member>)

  // Value::CZString::operator<: memcmp on the common length, then the lengths.
  predicate Before(a: string, b: string) {
    if b == "" then false
    else if a == "" then true
    else a[0] < b[0] || (a[0] == b[0] && Before(a[1..], b[1..]))
  }

  lemma {:induction false} BeforeIsIrreflexive(a: string)
    ensures !Before(a, a)
  {
    if a != "" {
      BeforeIsIrreflexive(a[1..]);
    }
  }

  // The two agree up to place k, where a ends first or has the smaller byte.
  predicate PartAt(a: string, b: string, k: nat) {
    && k <= |a| && k < |b| && a[..k] == b[..k]
    && (k < |a| ==> a[k] < b[k])
  }

  // What the order is: the first byte that differs decides, and of two keys one of which begins
  // the other the shorter comes first.
  lemma {:induction false} BeforeMeans(a: string, b: string)
    ensures Before(a, b) <==> exists k :: PartAt(a, b, k)
  {
    if a != "" && b != "" && a[0] == b[0] {
      BeforeMeans(a[1..], b[1..]);
      if Before(a[1..], b[1..]) {
        var k: nat :| PartAt(a[1..], b[1..], k);
        assert a[..k + 1] == [a[0]] + a[1..][..k] && b[..k + 1] == [b[0]] + b[1..][..k];
        assert PartAt(a, b, k + 1);
      }
      if k: nat :| PartAt(a, b, k) {
        assert k > 0 && a[1..][..k - 1] == a[..k][1..] && b[1..][..k - 1] == b[..k][1..];
        assert PartAt(a[1..], b[1..], k - 1);
      }
    } else {
      assert a[..0] == b[..0];
      if Before(a, b) {
        assert PartAt(a, b, 0);
      }
    }
  }

  // The strict key order of an object's members.
  predicate KeysAscend(members: seq<Member>) {
    forall i, j :: 0 <= i < j < |members| ==> Before(members[i].name, members[j].name)
  }

  // Value::operator[](key) followed by an assignment: lower_bound, then insert or overwrite.
  function Put(members: seq<Member>, name: string, value: Value): seq<Member> {
    if members == [] then [Member(name, value)]
    else if Before(members[0].name, name) then [members[0]] + Put(members[1..], name, value)
    else if members[0].name == name then [Member(name, value)] + members[1..]
    else [Member(name, value)] + members
  }

  lemma {:induction false} PutAppendsALaterKey(members: seq<Member>, name: string, value: Value)
    requires forall m :: m in members ==> Before(m.name, name)
    ensures Put(members, name, value) == members + [Member(name, value)]
  {
    if members == [] {
    } else {
      PutAppendsALaterKey(members[1..], name, value);
    }
  }

  lemma {:induction false} PutKeysAre(members: seq<Member>, name: string, value: Value, m: Member)
    requires m in Put(members, name, value)
    ensures m in members || m == Member(name, value)
  {
    if members == [] {
    } else if Before(members[0].name, name) && m != members[0] {
      PutKeysAre(members[1..], name, value, m);
    }
  }

  // Nested readValue calls that reading the value back takes.
  function Depth(v: Value): (d: nat)
    ensures d >= 1
    decreases v, 1
  {
    match v
    case Arr(items) => 1 + ItemsDepth(items)
    case Obj(members) => 1 + MembersDepth(members)
    case _ => 1
  }

  function ItemsDepth(items: seq<Value>): nat
    decreases items, 0
  {
    if items == [] then 0 else Max(Depth(items[0]), ItemsDepth(items[1..]))
  }

  function MembersDepth(members: seq<Member>): nat
    decreases members, 0
  {
    if members == [] then 0 else Max(Depth(members[0].value), MembersDepth(members[1..]))
  }

  // Trees without doubles whose integers fit the C++ types and whose objects are maps.
  predicate DoubleFree(v: Value)
    decreases v, 1
  {
    match v
    case Int(i) => MIN_LARGEST_INT <= i <= MAX_LARGEST_INT
    case UInt(u) => u <= MAX_LARGEST_UINT
    case Real(_) => false
    case Arr(items) => forall x :: x in items ==> DoubleFree(x)
    case Obj(members) => KeysAscend(members) && forall m :: m in members ==> DoubleFree(m.value)
    case _ => true
  }

  predicate HasDouble(v: Value)
    decreases v, 1
  {
    match v
    case Real(_) => true
    case Arr(items) => exists x :: x in items && HasDouble(x)
    case Obj(members) => exists m :: m in members && HasDouble(m.value)
    case _ => false
  }

  // What a number reads back as: intValue up to 2^31-1, uintValue above.
  function NormalNumber(n: int): Value {
    if n <= MAX_INT then Int(n) else UInt(n)
  }

  function Normal(v: Value): Value
    decreases v, 1
  {
    match v
    case Int(i) => NormalNumber(i)
    case UInt(u) => NormalNumber(u)
    case Arr(items) => Arr(NormalItems(items))
    case Obj(members) => Obj(NormalMembers(members))
    case _ => v
  }

  function NormalItems(items: seq<Value>): (r: seq<Value>)
    ensures |r| == |items|
    decreases items, 0
  {
    if items == [] then [] else [Normal(items[0])] + NormalItems(items[1..])
  }

  function NormalMembers(members: seq<Member>): (r: seq<Member>)
    ensures |r| == |members| && forall k :: 0 <= k < |r| ==> r[k].name == members[k].name
    decreases members, 0
  {
    if members == [] then []
    else [Member(members[0].name, Normal(members[0].value))] + NormalMembers(members[1..])
  }

  // Values that compare equal as numbers become the same value.
  lemma {:induction false} NormalIsIdempotent(v: Value)
    ensures Normal(Normal(v)) == Normal(v)
    decreases v, 1
  {
    match v
    case Arr(items) => NormalItemsIdempotent(items);
    case Obj(members) => NormalMembersIdempotent(members);
    case _ =>
  }

  lemma {:induction false} NormalItemsIdempotent(items: seq<Value>)
    ensures NormalItems(NormalItems(items)) == NormalItems(items)
    decreases items, 0
  {
    if items != [] {
      NormalIsIdempotent(items[0]);
      NormalItemsIdempotent(items[1..]);
      assert NormalItems(items)[1..] == NormalItems(items[1..]);
    }
  }

  lemma {:induction false} NormalMembersIdempotent(members: seq<Member>)
    ensures NormalMembers(NormalMembers(members)) == NormalMembers(members)
    decreases members, 0
  {
    if members != [] {
      NormalIsIdempotent(members[0].value);
      NormalMembersIdempotent(members[1..]);
      assert NormalMembers(members)[1..] == NormalMembers(members[1..]);
    }
  }
}
