// dylib/core/macho.c: np_import_stub_symbol names the import behind a stub, and
// np_import_stub_for_symbol finds the stub of an import.
module ImportStubs {
  import opened Options
  import opened Pieces

  const LOCAL_OR_ABS: nat := 0x4000_0000 // no index with either of the two top bits is below this

  // load_symbols: the tables found in the image.
  datatype Symbols = Symbols(indirect: seq<nat>, offsets: seq<nat>, strings: string) {
    // indirect_symbol_name
    function Name(slot: nat): Option<string> {
      if slot >= |indirect| || indirect[slot] >= LOCAL_OR_ABS || indirect[slot] >= |offsets| then None
      else
        var at := offsets[indirect[slot]];
        if at >= |strings| then None else Some(FirstPiece('\0', strings[at..]))
    }
  }

  // The string table holds `text` and its terminator at this place.
  predicate HoldsAt(strings: string, at: nat, text: string) {
    at + |text| < |strings| && strings[at..at + |text|] == text && strings[at + |text|] == '\0' && '\0' !in text
  }

  // Which name a slot has: its indirect entry chooses the symbol, whose offset chooses the text in
  // the string table. Entries for local and absolute symbols, and places outside the tables, have
  // none.
  lemma {:induction false} NameMeans(symbols: Symbols, slot: nat, text: string)
    requires slot < |symbols.indirect| && symbols.indirect[slot] < |symbols.offsets|
    requires HoldsAt(symbols.strings, symbols.offsets[symbols.indirect[slot]], text)
    ensures symbols.Name(slot) == if symbols.indirect[slot] < LOCAL_OR_ABS then Some(text) else None
  {
    var s, at := symbols.strings, symbols.offsets[symbols.indirect[slot]];
    var rest := s[at + |text|..];
    assert s[at..] == text + rest && rest[0] == '\0';
    FirstPieceOf('\0', text, rest);
  }

  lemma {:induction false} NoNameExactly(symbols: Symbols, slot: nat)
    ensures symbols.Name(slot).None? <==>
            || slot >= |symbols.indirect| || symbols.indirect[slot] >= LOCAL_OR_ABS
            || symbols.indirect[slot] >= |symbols.offsets|
            || symbols.offsets[symbols.indirect[slot]] >= |symbols.strings|
  {}

  // A section where it is mapped; `stride` and `first` are reserved2 and reserved1.
  datatype Section = Section(stubType: bool, base: nat, size: nat, stride: nat, first: nat) {
    predicate IsStubs() { stubType && stride != 0 }

    function Count(): nat { if stride == 0 then 0 else size / stride }

    predicate Contains(stub: nat) { base <= stub < base + size }
  }

  // The k-th stub of a section covers this address.
  predicate Covers(s: Section, k: nat, address: nat) {
    s.base + k * s.stride <= address < s.base + (k + 1) * s.stride
  }

  // A section that holds whole stubs is exactly the bytes of its stubs.
  lemma {:induction false} BytesOfStubs(s: Section, address: nat)
    requires s.IsStubs() && s.size % s.stride == 0
    ensures s.Contains(address) <==> exists k: nat :: k < s.Count() && Covers(s, k, address)
  {
    var n := s.Count();
    assert s.size == n * s.stride;
    if s.Contains(address) {
      var k := (address - s.base) / s.stride;
      Quotient(address - s.base, s.stride, n);
      assert Covers(s, k, address);
    }
    if k: nat :| k < n && Covers(s, k, address) {
      NoFurther(k + 1, n, s.stride);
    }
  }

  lemma {:induction false} Quotient(x: nat, stride: nat, n: nat)
    requires stride > 0 && x < n * stride
    ensures var k := x / stride; 0 <= k < n && k * stride <= x < (k + 1) * stride
  {
    var k := x / stride;
    assert x == k * stride + x % stride;
    if k >= n { NoFurther(n, k, stride); }
  }

  lemma {:induction false} NoFurther(a: nat, b: nat, stride: nat)
    requires a <= b
    ensures a * stride <= b * stride
  {}

  // The sections in load order; `whole` says that no malformed command follows them.
  datatype Image = Image(symbols: Option<Symbols>, sections: seq<Section>, whole: bool)

  // ---- specifications ----

  function SymbolFrom(sections: seq<Section>, stub: nat, symbols: Symbols): Option<string> {
    if sections == [] then None
    else
      var s := sections[0];
      if s.IsStubs() && s.Contains(stub) then
        if (stub - s.base) % s.stride != 0 then None else symbols.Name(s.first + (stub - s.base) / s.stride)
      else SymbolFrom(sections[1..], stub, symbols)
  }

  datatype Stub = Stub(address: nat, name: Option<string>)

  function StubsOf(s: Section, n: nat, symbols: Symbols): seq<Stub> {
    if n == 0 then []
    else StubsOf(s, n - 1, symbols) + [Stub(s.base + (n - 1) * s.stride, symbols.Name(s.first + (n - 1)))]
  }

  // Every stub of the image, in the order of the walk.
  function AllStubs(sections: seq<Section>, symbols: Symbols): seq<Stub> {
    if sections == [] then []
    else
      var s := sections[|sections| - 1];
      AllStubs(sections[..|sections| - 1], symbols) + if s.IsStubs() then StubsOf(s, s.Count(), symbols) else []
  }

  // The addresses of the stubs with a name.
  function Named(stubs: seq<Stub>, name: string): seq<nat> {
    if stubs == [] then []
    else
      var last := stubs[|stubs| - 1];
      Named(stubs[..|stubs| - 1], name) + if last.name == Some(name) then [last.address] else []
  }

  // ---- the code ----

  method SymbolOf(image: Option<Image>, stub: nat) returns (name: Option<string>)
    ensures name == if image.None? || stub == 0 || image.value.symbols.None? then None
                    else SymbolFrom(image.value.sections, stub, image.value.symbols.value)
  {
    if image.None? || stub == 0 || image.value.symbols.None? { return None; }
    var sections, symbols := image.value.sections, image.value.symbols.value;
    assert sections[0..] == sections;
    for i := 0 to |sections|
      invariant SymbolFrom(sections[i..], stub, symbols) == SymbolFrom(sections, stub, symbols)
    {
      var s := sections[i];
      assert sections[i..][0] == s && sections[i..][1..] == sections[i + 1..];
      if !s.IsStubs() { continue; }
      if stub < s.base || stub >= s.base + s.size { continue; }
      var offset := stub - s.base;
      if offset % s.stride != 0 { return None; }
      return symbols.Name(s.first + offset / s.stride);
    }
    return None;
  }

  // `found` is the one address so far, 0 for none.
  predicate Records(found: nat, so: seq<nat>) {
    |so| <= 1 && found == (if so == [] then 0 else so[0]) && (so != [] ==> so[0] > 0)
  }

  // The inner loop: the stubs of one section, after those of the sections before it.
  method ScanSection(s: Section, symbols: Symbols, name: string, start: nat, ghost before: seq<Stub>)
      returns (found: nat, twice: bool)
    requires s.base > 0 && Records(start, Named(before + StubsOf(s, 0, symbols), name))
    ensures twice ==> |Named(before + StubsOf(s, s.Count(), symbols), name)| > 1
    ensures !twice ==> Records(found, Named(before + StubsOf(s, s.Count(), symbols), name))
  {
    hide Named, StubsOf;
    found, twice := start, false;
    var count := s.Count();
    for k := 0 to count
      invariant Records(found, Named(before + StubsOf(s, k, symbols), name))
    {
      NamedOneMore(before, s, k, symbols, name);
      if symbols.Name(s.first + k) != Some(name) { continue; }
      if found != 0 {
        NamedGrow(before, s, k + 1, count, symbols, name);
        return found, true;
      }
      found := s.base + k * s.stride;
    }
  }

  // 0 for nothing found, and for two.
  method StubFor(image: Option<Image>, symbol: Option<string>) returns (found: nat)
    requires image.Some? ==> forall s <- image.value.sections :: s.base > 0
    ensures image.None? || image.value.symbols.None? || symbol.None? || symbol.value == "" || !image.value.whole ==>
              found == 0
    ensures image.Some? && image.value.symbols.Some? && symbol.Some? && symbol.value != "" && image.value.whole ==>
              var all := Named(AllStubs(image.value.sections, image.value.symbols.value), symbol.value);
              found == if |all| == 1 then all[0] else 0
  {
    if image.None? || image.value.symbols.None? || symbol.None? || symbol.value == "" { return 0; }
    var sections, symbols, name := image.value.sections, image.value.symbols.value, symbol.value;
    ghost var all := Named(AllStubs(sections, symbols), name);
    hide Named, AllStubs, StubsOf;
    found := 0;
    assert sections[..0] == [];
    NoStubs(symbols, name);
    for i := 0 to |sections|
      invariant Records(found, Named(AllStubs(sections[..i], symbols), name))
    {
      var s := sections[i];
      assert s in sections;
      OneMoreSection(sections, i, symbols);
      if !s.IsStubs() { continue; }
      var twice;
      found, twice := ScanSection(s, symbols, name, found, AllStubs(sections[..i], symbols));
      if twice {
        TooMany(sections, i, symbols, name);
        return 0;
      }
    }
    assert sections[..|sections|] == sections;
    if !image.value.whole { found := 0; }
  }

  lemma {:induction false} NoStubs(symbols: Symbols, name: string)
    ensures Named(AllStubs([], symbols), name) == []
  {}

  lemma {:induction false} OneMoreSection(sections: seq<Section>, i: nat, symbols: Symbols)
    requires i < |sections|
    ensures var before, s := AllStubs(sections[..i], symbols), sections[i];
            && before + StubsOf(s, 0, symbols) == before
            && AllStubs(sections[..i + 1], symbols) ==
               if s.IsStubs() then before + StubsOf(s, s.Count(), symbols) else before
  {
    assert sections[..i + 1][..i] == sections[..i];
  }

  lemma {:induction false} StubsOneMore(before: seq<Stub>, s: Section, k: nat, symbols: Symbols)
    ensures before + StubsOf(s, k + 1, symbols) ==
            before + StubsOf(s, k, symbols) + [Stub(s.base + k * s.stride, symbols.Name(s.first + k))]
    ensures s.base + k * s.stride >= s.base
  {}

  lemma {:induction false} NamedOneMore(before: seq<Stub>, s: Section, k: nat, symbols: Symbols, name: string)
    ensures Named(before + StubsOf(s, k + 1, symbols), name) ==
            Named(before + StubsOf(s, k, symbols), name) +
            if symbols.Name(s.first + k) == Some(name) then [s.base + k * s.stride] else []
    ensures s.base + k * s.stride >= s.base
  {
    hide StubsOf;
    var so, e := before + StubsOf(s, k, symbols), Stub(s.base + k * s.stride, symbols.Name(s.first + k));
    StubsOneMore(before, s, k, symbols);
    assert (so + [e])[..|so|] == so;
  }

  lemma {:induction false} NamedAppend(a: seq<Stub>, b: seq<Stub>, name: string)
    ensures Named(a + b, name) == Named(a, name) + Named(b, name)
    decreases |b|
  {
    if b == [] {
      assert a + b == a;
    } else {
      var init := b[..|b| - 1];
      assert (a + b)[..|a + b| - 1] == a + init;
      NamedAppend(a, init, name);
    }
  }

  lemma {:induction false} StubsOfGrow(s: Section, k: nat, n: nat, symbols: Symbols)
    requires k <= n
    ensures StubsOf(s, k, symbols) <= StubsOf(s, n, symbols)
    decreases n
  {
    if k < n { StubsOfGrow(s, k, n - 1, symbols); }
  }

  lemma {:induction false} AllStubsGrow(sections: seq<Section>, i: nat, symbols: Symbols)
    requires i <= |sections|
    ensures AllStubs(sections[..i], symbols) <= AllStubs(sections, symbols)
    decreases |sections|
  {
    if i < |sections| {
      var init := sections[..|sections| - 1];
      AllStubsGrow(init, i, symbols);
      assert init[..i] == sections[..i];
    } else {
      assert sections[..i] == sections;
    }
  }

  lemma {:induction false} NamedGrow(before: seq<Stub>, s: Section, k: nat, n: nat, symbols: Symbols, name: string)
    requires k <= n
    ensures |Named(before + StubsOf(s, k, symbols), name)| <= |Named(before + StubsOf(s, n, symbols), name)|
  {
    StubsOfGrow(s, k, n, symbols);
    var part, full := StubsOf(s, k, symbols), StubsOf(s, n, symbols);
    assert before + full == before + part + full[|part|..];
    NamedAppend(before + part, full[|part|..], name);
  }

  // What is seen part of the way is still there at the end.
  lemma {:induction false} TooMany(sections: seq<Section>, i: nat, symbols: Symbols, name: string)
    requires i < |sections| && sections[i].IsStubs()
    ensures |Named(AllStubs(sections[..i], symbols) + StubsOf(sections[i], sections[i].Count(), symbols), name)| <=
            |Named(AllStubs(sections, symbols), name)|
  {
    hide StubsOf;
    var all, part := AllStubs(sections, symbols), AllStubs(sections[..i + 1], symbols);
    OneMoreSection(sections, i, symbols);
    AllStubsGrow(sections, i + 1, symbols);
    assert all == part + all[|part|..];
    NamedAppend(part, all[|part|..], name);
  }

  // ---- the two are inverses ----

  ghost predicate Disjoint(sections: seq<Section>) {
    forall i, j, x :: 0 <= i < j < |sections| && sections[i].IsStubs() && sections[j].IsStubs() ==>
      !(sections[i].Contains(x) && sections[j].Contains(x))
  }

  // The stub lies in the i-th section, and the section has room for all of it.
  predicate StubIn(s: Section, stub: nat) {
    s.IsStubs() && s.Contains(stub) && (stub - s.base) / s.stride < s.Count()
  }

  lemma {:induction false} OffsetOfStub(s: Section, k: nat)
    requires s.stride > 0 && k < s.Count()
    ensures k * s.stride < s.size && (k * s.stride) / s.stride == k && (k * s.stride) % s.stride == 0
  {
    DivModOf(s.size, s.stride);
    AtLeastOne(s.Count() - k, s.stride);
    assert s.Count() * s.stride == k * s.stride + (s.Count() - k) * s.stride;
    DivMod(k, s.stride);
  }

  lemma {:induction false} DivMod(k: nat, d: nat)
    requires d > 0
    ensures (k * d) / d == k && (k * d) % d == 0
  {
    DivModOf(k * d, d);
    var q, r := (k * d) / d, (k * d) % d;
    assert (k - q) * d == r;
    if q < k { AtLeastOne(k - q, d); }
  }

  lemma {:induction false} DivModOf(x: nat, d: nat)
    requires d > 0
    ensures x == (x / d) * d + x % d && x % d < d
  {}

  lemma {:induction false} AtLeastOne(a: nat, d: nat)
    requires a >= 1
    ensures a * d >= d
  {}

  // The stub of the k-th slot of a section is named after that slot.
  lemma {:induction false} SymbolAtStub(sections: seq<Section>, i: nat, stub: nat, symbols: Symbols)
    requires Disjoint(sections) && i < |sections| && sections[i].IsStubs() && sections[i].Contains(stub)
    ensures var s := sections[i];
            SymbolFrom(sections, stub, symbols) ==
            if (stub - s.base) % s.stride != 0 then None else symbols.Name(s.first + (stub - s.base) / s.stride)
    decreases i
  {
    if i > 0 {
      assert !(sections[0].IsStubs() && sections[0].Contains(stub));
      SymbolAtStub(sections[1..], i - 1, stub, symbols);
    }
  }

  lemma {:induction false} SymbolHasSection(sections: seq<Section>, stub: nat, symbols: Symbols) returns (i: nat)
    requires SymbolFrom(sections, stub, symbols).Some?
    ensures i < |sections| && sections[i].IsStubs() && sections[i].Contains(stub)
    decreases |sections|
  {
    if sections[0].IsStubs() && sections[0].Contains(stub) {
      i := 0;
    } else {
      i := SymbolHasSection(sections[1..], stub, symbols);
      i := i + 1;
    }
  }

  lemma {:induction false} StubsOfHas(s: Section, n: nat, k: nat, symbols: Symbols)
    requires k < n
    ensures Stub(s.base + k * s.stride, symbols.Name(s.first + k)) in StubsOf(s, n, symbols)
  {
    if k < n - 1 { StubsOfHas(s, n - 1, k, symbols); }
  }

  lemma {:induction false} StubsOfOnly(s: Section, n: nat, e: Stub, symbols: Symbols) returns (k: nat)
    requires e in StubsOf(s, n, symbols)
    ensures k < n && e == Stub(s.base + k * s.stride, symbols.Name(s.first + k))
  {
    k := n - 1;
    if e in StubsOf(s, n - 1, symbols) { k := StubsOfOnly(s, n - 1, e, symbols); }
  }

  lemma {:induction false} AllStubsOnly(sections: seq<Section>, e: Stub, symbols: Symbols) returns (i: nat, k: nat)
    requires e in AllStubs(sections, symbols)
    ensures i < |sections| && sections[i].IsStubs() && k < sections[i].Count()
    ensures e == Stub(sections[i].base + k * sections[i].stride, symbols.Name(sections[i].first + k))
    decreases |sections|
  {
    hide StubsOf;
    var init, s := sections[..|sections| - 1], sections[|sections| - 1];
    if e in AllStubs(init, symbols) {
      i, k := AllStubsOnly(init, e, symbols);
    } else {
      i := |sections| - 1;
      k := StubsOfOnly(s, s.Count(), e, symbols);
    }
  }

  lemma {:induction false} AllStubsHas(sections: seq<Section>, i: nat, e: Stub, symbols: Symbols)
    requires i < |sections| && sections[i].IsStubs() && e in StubsOf(sections[i], sections[i].Count(), symbols)
    ensures e in AllStubs(sections, symbols)
  {
    hide StubsOf;
    OneMoreSection(sections, i, symbols);
    AllStubsGrow(sections, i + 1, symbols);
    var part, all := AllStubs(sections[..i + 1], symbols), AllStubs(sections, symbols);
    assert e in part;
    var n :| 0 <= n < |part| && part[n] == e;
    assert all[n] == e;
  }

  lemma {:induction false} NamedHas(stubs: seq<Stub>, name: string, address: nat)
    ensures address in Named(stubs, name) <==> Stub(address, Some(name)) in stubs
    decreases |stubs|
  {
    if stubs != [] {
      var init := stubs[..|stubs| - 1];
      NamedHas(init, name, address);
      assert stubs == init + [stubs[|stubs| - 1]];
    }
  }

  // The stubs found for a name are exactly the whole stubs that carry it.
  lemma {:induction false} NamedStubs(sections: seq<Section>, symbols: Symbols, name: string, stub: nat)
    requires Disjoint(sections)
    ensures stub in Named(AllStubs(sections, symbols), name) <==>
            SymbolFrom(sections, stub, symbols) == Some(name) && exists s <- sections :: StubIn(s, stub)
  {
    hide Disjoint, SymbolFrom, Named, AllStubs, StubsOf;
    var e := Stub(stub, Some(name));
    NamedHas(AllStubs(sections, symbols), name, stub);
    if e in AllStubs(sections, symbols) {
      var i, k := AllStubsOnly(sections, e, symbols);
      OffsetOfStub(sections[i], k);
      SymbolAtStub(sections, i, stub, symbols);
      assert sections[i] in sections && StubIn(sections[i], stub);
    }
    if SymbolFrom(sections, stub, symbols) == Some(name) && exists s <- sections :: StubIn(s, stub) {
      var i :| 0 <= i < |sections| && StubIn(sections[i], stub);
      WholeStubIsListed(sections, i, stub, symbols);
    }
  }

  lemma {:induction false} WholeStubIsListed(sections: seq<Section>, i: nat, stub: nat, symbols: Symbols)
    requires Disjoint(sections) && i < |sections| && StubIn(sections[i], stub)
    requires SymbolFrom(sections, stub, symbols).Some?
    ensures Stub(stub, SymbolFrom(sections, stub, symbols)) in AllStubs(sections, symbols)
  {
    hide Disjoint, SymbolFrom, AllStubs, StubsOf;
    var s := sections[i];
    var k := (stub - s.base) / s.stride;
    SymbolAtStub(sections, i, stub, symbols);
    DivModOf(stub - s.base, s.stride);
    StubsOfHas(s, s.Count(), k, symbols);
    AllStubsHas(sections, i, Stub(stub, symbols.Name(s.first + k)), symbols);
  }
}
