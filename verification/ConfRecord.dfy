// dylib/feats/conf.c: a record keeps its fields packed in one 4096-byte buffer, as
// "name\0value\0" pairs, and np_conf_next walks them.
module ConfRecord {
  import opened Options
  import opened ConfSchema

  function Packed(fields: seq<Field>): string {
    if fields == [] then ""
    else
      var f := fields[|fields| - 1];
      Packed(fields[..|fields| - 1]) + (f.name + "\0" + f.value + "\0")
  }

  predicate NoNul(f: Field) { '\0' !in f.name && '\0' !in f.value }

  lemma {:induction false} PackedNothing()
    ensures Packed([]) == ""
  {}

  lemma {:induction false} PackedOneMore(fields: seq<Field>, f: Field)
    ensures Packed(fields + [f]) == Packed(fields) + (f.name + "\0" + f.value + "\0")
  {
    assert (fields + [f])[..|fields|] == fields;
  }

  lemma {:induction false} PackedAppend(a: seq<Field>, b: seq<Field>)
    ensures Packed(a + b) == Packed(a) + Packed(b)
    decreases |b|
  {
    if b == [] {
      assert a + b == a;
    } else {
      var init, f := b[..|b| - 1], b[|b| - 1];
      assert (a + b)[..|a + b| - 1] == a + init;
      PackedAppend(a, init);
      Regroup(Packed(a), Packed(init), f.name + "\0" + f.value + "\0");
    }
  }

  lemma {:induction false} Regroup(a: string, b: string, c: string)
    ensures a + b + c == a + (b + c)
  {}

  // Where the text of the i-th field starts, and what stands there.
  lemma {:induction false} PackedAt(fields: seq<Field>, i: nat)
    requires i < |fields|
    ensures var f, p, all := fields[i], |Packed(fields[..i])|, Packed(fields);
            && p + |f.name| + |f.value| + 2 == |Packed(fields[..i + 1])| <= |all|
            && all[p..p + |f.name| + 1] == f.name + "\0"
            && all[p + |f.name| + 1..p + |f.name| + |f.value| + 2] == f.value + "\0"
  {
    var f, before, after := fields[i], fields[..i], fields[i + 1..];
    assert fields == fields[..i + 1] + after && fields[..i + 1] == before + [f];
    PackedAppend(fields[..i + 1], after);
    PackedOneMore(before, f);
    var name, value := f.name + "\0", f.value + "\0";
    assert f.name + "\0" + f.value + "\0" == name + value;
    Slices(Packed(before), name, value, Packed(after));
  }

  lemma {:induction false} Slices(a: string, b: string, c: string, d: string)
    ensures var s := a + (b + c) + d; s[|a|..|a| + |b|] == b && s[|a| + |b|..|a| + |b| + |c|] == c
  {}

  class Record {
    var id: string
    const kv: array<char>
    var kvlen: nat
    var nkv: nat
    ghost var fields: seq<Field>

    ghost predicate Valid()
      reads this, kv
    {
      && kv.Length == REC_BUF && nkv == |fields| && kvlen == |Packed(fields)| <= REC_BUF
      && kv[..kvlen] == Packed(fields) && forall f <- fields :: NoNul(f)
    }

    constructor ()
      ensures Valid() && id == "" && fields == [] && fresh(kv)
    {
      id, kv, kvlen, nkv, fields := "", new char[REC_BUF](_ => '\0'), 0, 0, [];
    }

    // The end of conf_emit.
    method Clear()
      requires Valid()
      modifies this
      ensures Valid() && id == "" && fields == []
    {
      id, kvlen, nkv, fields := "", 0, 0, [];
    }

    // The end of the line loop of conf_read_file: the pair is added when the buffer has room.
    method Append(name: string, value: string) returns (fits: bool)
      requires Valid() && NoNul(Field(name, value))
      modifies this, kv
      ensures Valid() && id == old(id)
      ensures fits <==> |Packed(old(fields) + [Field(name, value)])| <= REC_BUF
      ensures fields == if fits then old(fields) + [Field(name, value)] else old(fields)
    {
      ghost var f := Field(name, value);
      PackedOneMore(fields, f);
      if kvlen + |name| + |value| + 2 > REC_BUF { return false; }
      ghost var was := kv[..kvlen];
      var text := name + "\0" + value + "\0";
      forall k | 0 <= k < |text| { kv[kvlen + k] := text[k]; }
      assert kv[..kvlen + |text|] == was + text;
      kvlen := kvlen + |text|;
      nkv := nkv + 1;
      fields := fields + [f];
      return true;
    }

    // The length of the text that begins at p.
    method Length(p: nat, ghost text: string) returns (n: nat)
      requires Valid() && p + |text| < kvlen && '\0' !in text && kv[p..p + |text| + 1] == text + "\0"
      ensures n == |text|
    {
      n := 0;
      assert forall k :: p <= k <= p + |text| ==> kv[k] == (text + "\0")[k - p];
      while kv[p + n] != '\0'
        invariant n <= |text|
        decreases |text| - n
      {
        n := n + 1;
      }
    }

    // np_conf_next: the pairs in the order they were added, and nothing after the last.
    method Next(iter: nat) returns (next: Option<Field>)
      requires Valid()
      ensures next == if iter < |fields| then Some(fields[iter]) else None
    {
      hide Packed;
      if iter >= nkv { return None; }
      var p, i := 0, 0;
      assert fields[..0] == [];
      PackedNothing();
      while i < iter
        invariant i <= iter && p == |Packed(fields[..i])|
      {
        p := SkipPair(p, i);
        i := i + 1;
      }
      FieldStands(iter);
      var n := Length(p, fields[iter].name);
      var m := Length(p + n + 1, fields[iter].value);
      WithoutNul(p, n, fields[iter].name);
      WithoutNul(p + n + 1, m, fields[iter].value);
      next := Some(Field(kv[p..p + n], kv[p + n + 1..p + n + 1 + m]));
    }

    lemma {:induction false} WithoutNul(p: nat, n: nat, text: string)
      requires p + n < kv.Length && |text| == n && kv[p..p + n + 1] == text + "\0"
      ensures kv[p..p + n] == text
    {
      assert kv[p..p + n] == kv[p..p + n + 1][..n];
    }

    lemma {:induction false} FieldStands(i: nat)
      requires Valid() && i < |fields|
      ensures var f, p := fields[i], |Packed(fields[..i])|;
              && p + |f.name| + |f.value| + 2 == |Packed(fields[..i + 1])| <= kvlen
              && kv[p..p + |f.name| + 1] == f.name + "\0"
              && kv[p + |f.name| + 1..p + |f.name| + |f.value| + 2] == f.value + "\0"
              && NoNul(f)
    {
      hide Packed;
      var f, p := fields[i], |Packed(fields[..i])|;
      PackedAt(fields, i);
      var all := kv[..kvlen];
      assert kv[p..p + |f.name| + 1] == all[p..p + |f.name| + 1];
      assert kv[p + |f.name| + 1..p + |f.name| + |f.value| + 2] == all[p + |f.name| + 1..p + |f.name| + |f.value| + 2];
      assert f in fields;
    }

    // Past a name and a value with their terminators.
    method SkipPair(start: nat, ghost i: nat) returns (p: nat)
      requires Valid() && i < |fields| && start == |Packed(fields[..i])|
      ensures p == |Packed(fields[..i + 1])|
    {
      hide Packed;
      FieldStands(i);
      var n := Length(start, fields[i].name);
      p := start + n + 1;
      n := Length(p, fields[i].value);
      p := p + n + 1;
    }

    // np_conf_get
    method First(name: string) returns (value: Option<string>)
      requires Valid()
      ensures value == Get(fields, name)
    {
      var it := 0;
      assert fields[0..] == fields;
      while true
        invariant it <= |fields| && Get(fields, name) == Get(fields[it..], name)
        decreases |fields| - it
      {
        var next := Next(it);
        if next.None? { return None; }
        if next.value.name == name { return Some(next.value.value); }
        assert fields[it..][1..] == fields[it + 1..];
        it := it + 1;
      }
    }

    // np_conf_count
    method CountOf(name: string) returns (count: nat)
      requires Valid()
      ensures count == Count(fields, name)
    {
      var it := 0;
      count := 0;
      while true
        invariant it <= |fields| && count == Count(fields[..it], name)
        decreases |fields| - it
      {
        assert it == |fields| ==> fields[..it] == fields;
        var next := Next(it);
        if next.None? { return; }
        assert fields[..it + 1][..it] == fields[..it];
        if next.value.name == name { count := count + 1; }
        it := it + 1;
      }
    }
  }
}
