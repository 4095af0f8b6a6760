// dylib/core/macho.c: np_function_bounds, which walks a table of function starts kept as ULEB128
// differences (section 7.6 of DWARF Version 5) to find the function around an address.
module FunctionStarts {
  import opened Options

  const TWO_64: nat := 0x1_0000_0000_0000_0000

  type Byte = b: nat | b < 256

  datatype Bounds = Bounds(start: nat, end: nat)

  function Pow2(n: nat): (p: nat)
    ensures p > 0
  {
    if n == 0 then 1 else 2 * Pow2(n - 1)
  }

  // ---- the encoding ----

  function Encode(n: nat): seq<Byte> {
    if n < 128 then [n] else [n % 128 + 128] + Encode(n / 128)
  }

  // The value of a group of bytes, seven bits each, lowest first.
  function Value(group: seq<Byte>): nat {
    if group == [] then 0 else group[0] % 128 + 128 * Value(group[1..])
  }

  // The length of the group at the front: up to the first byte without the top bit.
  function GroupLength(bytes: seq<Byte>): (n: Option<nat>)
    ensures n.Some? ==> 0 < n.value <= |bytes|
  {
    if bytes == [] then None
    else if bytes[0] < 128 then Some(1)
    else
      match GroupLength(bytes[1..])
      case None => None
      case Some(n) => Some(n + 1)
  }

  lemma {:induction false} EncodeIsOneGroup(n: nat, rest: seq<Byte>)
    ensures GroupLength(Encode(n) + rest) == Some(|Encode(n)|) && Value(Encode(n)) == n
  {
    var e := Encode(n);
    if n < 128 {
      assert e[1..] == [];
    } else {
      EncodeIsOneGroup(n / 128, rest);
      assert e[1..] == Encode(n / 128) && (e + rest)[1..] == e[1..] + rest;
    }
  }

  // ---- the specification of the walk ----

  // va is the last start read, start the last one not past addr (0 for none yet).
  function Find(va: nat, start: nat, bytes: seq<Byte>, addr: nat): Option<Bounds>
    decreases |bytes|
  {
    match GroupLength(bytes)
    case None => None
    case Some(n) =>
      var delta := Value(bytes[..n]) % TWO_64;
      var next := (va + delta) % TWO_64;
      if delta == 0 then None
      else if next <= addr then Find(next, next, bytes[n..], addr)
      else if start == 0 then None
      else Some(Bounds(start, next))
  }

  // ---- the code ----

  lemma {:induction false} ValueOneMore(group: seq<Byte>, b: Byte)
    ensures Value(group + [b]) == Value(group) + b % 128 * Pow2(7 * |group|)
    ensures Value(group) < Pow2(7 * |group|)
    decreases |group|
  {
    if group == [] {
      assert (group + [b])[1..] == [];
    } else {
      var n := |group|;
      assert (group + [b])[1..] == group[1..] + [b];
      ValueOneMore(group[1..], b);
      SevenMore(7 * (n - 1));
      var p := Pow2(7 * (n - 1));
      assert 128 * (b % 128 * p) == b % 128 * (128 * p);
      assert Value(group[1..]) + 1 <= p;
    }
  }

  lemma {:induction false} SevenMore(n: nat)
    ensures Pow2(n + 7) == 128 * Pow2(n)
  {
    hide Pow2;
    Pow2Adds(n, 7);
    SmallPowers();
  }

  lemma {:induction false} SmallPowers()
    ensures Value([]) == 0 && Pow2(0) == 1 && Pow2(7) == 128
  {
    assert Pow2(3) == 8;
    assert Pow2(5) == 32;
  }

  lemma {:induction false} Pow2Adds(a: nat, b: nat)
    ensures Pow2(a + b) == Pow2(a) * Pow2(b)
  {
    if b > 0 { Pow2Adds(a, b - 1); }
  }

  lemma {:induction false} Pow2Of64()
    ensures Pow2(64) == TWO_64
  {
    SevenMore(0);
    Pow2Squares(8, 64, 256);
  }

  // Squared three times.
  lemma {:induction false} Pow2Squares(a: nat, b: nat, p: nat)
    requires b == 8 * a && p == Pow2(a)
    ensures Pow2(b) == (p * p) * (p * p) * ((p * p) * (p * p))
  {
    hide Pow2;
    Pow2Adds(a, a);
    Pow2Adds(2 * a, 2 * a);
    Pow2Adds(4 * a, 4 * a);
  }

  // A shift of 64 or more contributes nothing to 64 bits.
  lemma {:induction false} HighBitsVanish(v: nat, x: nat, shift: nat)
    requires shift >= 64
    ensures (v + x * Pow2(shift)) % TWO_64 == v % TWO_64
  {
    hide Pow2;
    Pow2Of64();
    Pow2Adds(shift - 64, 64);
    var k := x * Pow2(shift - 64);
    assert x * Pow2(shift) == k * TWO_64;
    AddMultiple(v, k);
  }

  lemma {:induction false} AddMultiple(v: nat, k: nat)
    ensures (v + k * TWO_64) % TWO_64 == v % TWO_64
  {}

  // The inner loop: one difference. The bits or-ed in lie above all bits of delta, which is why
  // the or is written as a sum.
  method ReadDelta(bytes: seq<Byte>, start: nat) returns (p: nat, delta: nat, complete: bool)
    requires start <= |bytes|
    ensures complete <==> GroupLength(bytes[start..]).Some?
    ensures complete ==> p == start + GroupLength(bytes[start..]).value
    ensures complete ==> delta == Value(bytes[start..p]) % TWO_64
    ensures start <= p <= |bytes|
  {
    hide Value, Pow2;
    p, delta, complete := start, 0, false;
    var shift := 0;
    assert bytes[start..p] == [];
    SmallPowers();
    while p < |bytes|
      invariant start <= p <= |bytes| && shift == 7 * (p - start) && !complete
      invariant delta == Value(bytes[start..p]) % TWO_64
      invariant shift < 64 ==> delta < Pow2(shift)
      invariant GroupLength(bytes[p..]).Some? <==> GroupLength(bytes[start..]).Some?
      invariant GroupLength(bytes[p..]).Some? ==>
                  GroupLength(bytes[start..]).value == p - start + GroupLength(bytes[p..]).value
    {
      ghost var group := bytes[start..p];
      var b := bytes[p];
      assert bytes[p..][0] == b && bytes[p..][1..] == bytes[p + 1..];
      assert bytes[start..p + 1] == group + [b];
      DeltaOneMore(group, b);
      p := p + 1;
      if shift < 64 { delta := delta + (b % 128 * Pow2(shift)) % TWO_64; }
      shift := shift + 7;
      if b < 128 {
        complete := true;
        break;
      }
    }
  }

  lemma {:induction false} ModIs(a: nat, k: nat, r: nat)
    requires r < TWO_64 && a == k * TWO_64 + r
    ensures a % TWO_64 == r
  {}

  // Seven more bits on top of a value below p, taken modulo p * q.
  lemma {:induction false} BitsOnTop(v: nat, x: nat, p: nat, q: nat)
    requires v < p && q > 0 && p * q == TWO_64
    ensures v % TWO_64 == v && (v + x * p) % TWO_64 == v + (x * p) % TWO_64
  {
    var k, r := x / q, x % q;
    TimesBoth(x, k, q, r, p);
    assert r * p + p <= TWO_64 by { RoomAbove(r, q, p); }
    ModIs(x * p, k, r * p);
    ModIs(v + x * p, k, v + r * p);
  }

  lemma {:induction false} TimesBoth(x: nat, k: nat, q: nat, r: nat, p: nat)
    requires x == k * q + r
    ensures x * p == k * (p * q) + r * p
  {}

  lemma {:induction false} RoomAbove(r: nat, q: nat, p: nat)
    requires r < q
    ensures r * p + p <= p * q
  {
    assert (r + 1) * p <= q * p;
  }

  lemma {:induction false} DeltaOneMore(group: seq<Byte>, b: Byte)
    ensures var shift, delta := 7 * |group|, Value(group) % TWO_64;
            Value(group + [b]) % TWO_64 == if shift < 64 then delta + (b % 128 * Pow2(shift)) % TWO_64 else delta
    ensures 7 * |group| + 7 < 64 ==> Value(group + [b]) % TWO_64 < Pow2(7 * |group| + 7)
  {
    hide Value, Pow2;
    var shift, v := 7 * |group|, Value(group);
    ValueOneMore(group, b);
    ValueOneMore(group + [b], 0);
    Pow2Of64();
    if shift < 64 {
      Pow2Adds(shift, 64 - shift);
      BitsOnTop(v, b % 128, Pow2(shift), Pow2(64 - shift));
    } else {
      HighBitsVanish(v, b % 128, shift);
    }
    if shift + 7 < 64 { SmallStaysWhole(Value(group + [b])); }
  }

  lemma {:induction false} SmallStaysWhole(v: nat)
    ensures v % TWO_64 <= v
  {}

  method FunctionBounds(mh: nat, table: Option<seq<Byte>>, addr: nat) returns (found: Option<Bounds>)
    requires mh < TWO_64
    ensures found == if mh == 0 || table.None? then None else Find(mh, 0, table.value, addr)
  {
    hide GroupLength, Value, Find;
    if mh == 0 || table.None? { return None; }
    var bytes := table.value;
    var p: nat, va: nat, start: nat := 0, mh, 0;
    assert bytes[0..] == bytes;
    while p < |bytes|
      invariant p <= |bytes| && Find(va, start, bytes[p..], addr) == Find(mh, 0, bytes, addr)
    {
      FindStep(bytes, p, va, start, addr);
      var delta, complete;
      p, delta, complete := ReadDelta(bytes, p);
      if !complete { break; }
      if delta == 0 { break; }
      va := (va + delta) % TWO_64;
      if va <= addr {
        start := va;
        continue;
      }
      if start == 0 { return None; }
      return Some(Bounds(start, va));
    }
    if p == |bytes| { FindStep(bytes, p, va, start, addr); }
    return None;
  }

  lemma {:induction false} FindStep(bytes: seq<Byte>, p: nat, va: nat, start: nat, addr: nat)
    requires p <= |bytes|
    ensures p == |bytes| ==> Find(va, start, bytes[p..], addr) == None
    ensures Find(va, start, bytes[p..], addr) ==
            match GroupLength(bytes[p..])
            case None => None
            case Some(n) =>
              var delta := Value(bytes[p..p + n]) % TWO_64;
              var next := (va + delta) % TWO_64;
              if delta == 0 then None
              else if next <= addr then Find(next, next, bytes[p + n..], addr)
              else if start == 0 then None
              else Some(Bounds(start, next))
  {
    hide GroupLength, Value;
    var rest := bytes[p..];
    match GroupLength(rest)
    case None =>
    case Some(n) =>
      assert rest[..n] == bytes[p..p + n] && rest[n..] == bytes[p + n..];
  }

  // ---- what the walk finds ----

  ghost predicate Ascending(prev: nat, starts: seq<nat>)
    decreases |starts|
  {
    starts != [] ==> prev < starts[0] < TWO_64 && Ascending(starts[0], starts[1..])
  }

  // The table of the given starts, each as its distance from the one before it.
  function Table(prev: nat, starts: seq<nat>): seq<Byte>
    requires Ascending(prev, starts)
    decreases |starts|
  {
    if starts == [] then [] else Encode(starts[0] - prev) + Table(starts[0], starts[1..])
  }

  function Around(start: nat, starts: seq<nat>, addr: nat): Option<Bounds>
    decreases |starts|
  {
    if starts == [] then None
    else if starts[0] <= addr then Around(starts[0], starts[1..], addr)
    else if start == 0 then None
    else Some(Bounds(start, starts[0]))
  }

  lemma {:induction false} FindInTable(va: nat, start: nat, starts: seq<nat>, tail: seq<Byte>, addr: nat)
    requires Ascending(va, starts) && (tail == [] || tail[0] == 0)
    ensures Find(va, start, Table(va, starts) + tail, addr) == Around(start, starts, addr)
    decreases |starts|
  {
    var bytes := Table(va, starts) + tail;
    if starts == [] {
      assert bytes == tail;
      if tail != [] { assert tail[..1] == [0] && Value([0]) == 0 by { assert [0][1..] == []; } }
    } else {
      FindOne(va, start, starts, tail, addr);
      if starts[0] <= addr { FindInTable(starts[0], starts[0], starts[1..], tail, addr); }
    }
  }

  // One turn of the walk on a table.
  lemma {:induction false} FindOne(va: nat, start: nat, starts: seq<nat>, tail: seq<Byte>, addr: nat)
    requires starts != [] && Ascending(va, starts)
    ensures Find(va, start, Table(va, starts) + tail, addr) ==
            if starts[0] <= addr then Find(starts[0], starts[0], Table(starts[0], starts[1..]) + tail, addr)
            else if start == 0 then None
            else Some(Bounds(start, starts[0]))
  {
    hide Encode, GroupLength, Value;
    var d := starts[0] - va;
    var bytes, rest := Table(va, starts) + tail, Table(starts[0], starts[1..]) + tail;
    EncodeIsOneGroup(d, rest);
    assert bytes == Encode(d) + rest;
    assert bytes[..|Encode(d)|] == Encode(d) && bytes[|Encode(d)|..] == rest;
  }

  lemma {:induction false} AscendingAt(prev: nat, starts: seq<nat>, i: nat)
    requires Ascending(prev, starts) && i < |starts|
    ensures prev < starts[i] && starts[0] <= starts[i]
    decreases i
  {
    if i > 0 { AscendingAt(starts[0], starts[1..], i - 1); }
  }

  lemma {:induction false} AroundIsExact(prev: nat, start: nat, starts: seq<nat>, addr: nat)
    requires Ascending(prev, starts) && (start == 0 || start == prev <= addr)
    ensures forall i :: 0 <= i < |starts| - 1 && starts[i] <= addr < starts[i + 1] ==>
              Around(start, starts, addr) == Some(Bounds(starts[i], starts[i + 1]))
    ensures start > 0 && starts != [] && addr < starts[0] ==> Around(start, starts, addr) == Some(Bounds(start,
          starts[0]))
    ensures Around(start, starts, addr) == None <==>
            starts == [] || addr >= starts[|starts| - 1] || (start == 0 && addr < starts[0])
    decreases |starts|
  {
    if starts != [] {
      AscendingAt(prev, starts, |starts| - 1);
      if starts[0] <= addr {
        AroundIsExact(starts[0], starts[0], starts[1..], addr);
        assert forall i :: 1 <= i < |starts| ==> starts[i] == starts[1..][i - 1];
      } else {
        forall i | 0 <= i < |starts|
          ensures starts[i] > addr
        {
          AscendingAt(prev, starts, i);
        }
      }
    }
  }

  // For every strictly ascending list of starts after the header, with or without the closing
  // zero: the pair around the address, and nothing exactly before the first or from the last on.
  lemma {:induction false} BoundsAreExact(mh: nat, starts: seq<nat>, tail: seq<Byte>, addr: nat)
    requires Ascending(mh, starts) && (tail == [] || tail[0] == 0)
    ensures var found := Find(mh, 0, Table(mh, starts) + tail, addr);
            && (forall i :: 0 <= i < |starts| - 1 && starts[i] <= addr < starts[i + 1] ==>
                  found == Some(Bounds(starts[i], starts[i + 1])))
            && (found == None <==> starts == [] || addr < starts[0] || addr >= starts[|starts| - 1])
  {
    FindInTable(mh, 0, starts, tail, addr);
    AroundIsExact(mh, 0, starts, addr);
  }
}
