// np_webpatch_transform of dylib/feats/webpatch.c: which gates are on, when the script is left
// alone, and what the chosen gates then do.
module WebPatchTransform {
  import opened Options
  import opened WebPatchMatch
  import opened WebPatchRewrite
  import opened WebPatchFires

  // Platform: one of the fixes that look games up in the platform lists. Toolbar: one of the two
  // anchors for the library's toolbar.
  datatype Kind = Mandatory | Optional | Page | Platform | Toolbar

  datatype Entry = Entry(gate: Gate, times: nat, kind: Kind)

  datatype Shape = Shape(probe: string, entries: seq<Entry>)

  // g_shapes, g_fixes and g_library_filters.
  datatype Tables = Tables(shapes: seq<Shape>, fixes: seq<Entry>, library: seq<Entry>)

  // What goes in front, and the gates that are on.
  datatype Plan = Plan(prefix: string, entries: seq<Entry>)

  predicate Matches(src: string, e: Entry, markers: Markers) {
    Count(src, 0, e.gate.find, markers) == e.times
  }

  function Present(src: string, shapes: seq<Shape>, markers: Markers): seq<Shape> {
    if shapes == [] then []
    else if Count(src, 0, shapes[0].probe, markers) == 0 then Present(src, shapes[1..], markers)
    else [shapes[0]] + Present(src, shapes[1..], markers)
  }

  predicate Drifted(src: string, entries: seq<Entry>, markers: Markers) {
    exists k :: 0 <= k < |entries| && entries[k].kind == Mandatory && !Matches(src, entries[k], markers)
  }

  // settle_page: the page's gates are on together or not at all. `barrel` is whether the
  // script's component table has every name the page takes.
  predicate PageSettled(src: string, entries: seq<Entry>, barrel: bool, markers: Markers) {
    barrel && forall e :: e in entries && e.kind == Page ==> Matches(src, e, markers)
  }

  // The entries that match, in table order.
  function Live(src: string, entries: seq<Entry>, markers: Markers): (r: seq<Entry>)
    ensures forall e :: e in r <==> e in entries && Matches(src, e, markers)
  {
    if entries == [] then []
    else if Matches(src, entries[0], markers) then [entries[0]] + Live(src, entries[1..], markers)
    else Live(src, entries[1..], markers)
  }

  function Without(entries: seq<Entry>, kind: Kind): (r: seq<Entry>)
    ensures forall e :: e in r <==> e in entries && e.kind != kind
  {
    if entries == [] then []
    else if entries[0].kind == kind then Without(entries[1..], kind)
    else [entries[0]] + Without(entries[1..], kind)
  }

  // Some fix that needs the platform lists matches.
  predicate WantsPlatform(src: string, fixes: seq<Entry>, markers: Markers) {
    exists k :: 0 <= k < |fixes| && fixes[k].kind == Platform && Matches(src, fixes[k], markers)
  }

  function ToolbarsOn(src: string, library: seq<Entry>, markers: Markers): nat {
    if library == [] then 0
    else (if library[0].kind == Toolbar && Matches(src, library[0], markers) then 1 else 0)
         + ToolbarsOn(src, library[1..], markers)
  }

  // The library's filter button is added with every anchor it needs, and one toolbar, or not at all.
  predicate LibrarySettled(src: string, library: seq<Entry>, markers: Markers) {
    ToolbarsOn(src, library, markers) == 1
    && forall e :: e in library && e.kind != Toolbar ==> Matches(src, e, markers)
  }

  function Gates(entries: seq<Entry>): (r: seq<Gate>)
    ensures |r| == |entries| && forall k :: 0 <= k < |r| ==> r[k] == entries[k].gate
  {
    if entries == [] then [] else [entries[0].gate] + Gates(entries[1..])
  }

  // The definitions of the platform lists that go in front, `lists` where there are any.
  function Prefix(src: string, fixes: seq<Entry>, lists: Option<string>, markers: Markers): Option<string> {
    if WantsPlatform(src, fixes, markers) then lists else None
  }

  function LiveFixes(src: string, tables: Tables, lists: Option<string>, markers: Markers): seq<Entry> {
    var on := Live(src, tables.fixes, markers);
    if Prefix(src, tables.fixes, lists, markers).Some? then on else Without(on, Platform)
  }

  function LiveLibrary(src: string, tables: Tables, lists: Option<string>, markers: Markers): seq<Entry> {
    if Prefix(src, tables.fixes, lists, markers).Some? && LibrarySettled(src, tables.library, markers)
    then Live(src, tables.library, markers) else []
  }

  function LiveShape(src: string, entries: seq<Entry>, barrel: bool, markers: Markers): seq<Entry> {
    var on := Live(src, entries, markers);
    if PageSettled(src, entries, barrel, markers) then on else Without(on, Page)
  }

  // What is rewritten with, or None when the script is left as it is.
  function PlanFor(src: string, tables: Tables, barrel: bool, lists: Option<string>, markers: Markers): Option<Plan> {
    var present := Present(src, tables.shapes, markers);
    var text := Prefix(src, tables.fixes, lists, markers);
    var prefix := if text.Some? then text.value else "";
    var fixes, library := LiveFixes(src, tables, lists, markers), LiveLibrary(src, tables, lists, markers);
    if |present| > 1 then None
    else if |present| == 0 then if fixes == [] then None else Some(Plan(prefix, fixes + library))
    else if Drifted(src, present[0].entries, markers) then None
    else Some(Plan(prefix, LiveShape(src, present[0].entries, barrel, markers) + fixes + library))
  }

  predicate Bytes(entries: seq<Entry>) {
    forall e, k :: e in entries && 0 <= k < |e.gate.find| ==> IsByte(e.gate.find[k])
  }

  method Transform(src: string, tables: Tables, barrel: bool, lists: Option<string>, markers: Markers)
        returns (result: Option<string>)
    requires (forall k :: 0 <= k < |src| ==> IsByte(src[k])) && Bytes(tables.fixes) && Bytes(tables.library)
    requires forall s :: s in tables.shapes ==> Bytes(s.entries)
    ensures result == match PlanFor(src, tables, barrel, lists, markers)
                      case None => None
                      case Some(plan) => Prepend(plan.prefix, Scan(src, 0, Gates(plan.entries), markers))
  {
    hide Live, Drifted, WantsPlatform, PageSettled, LibrarySettled, Present, Scan, Without, LiveShape;
    hide IsByte, Bytes, Gates;
    var shape, clash := FindShape(src, tables.shapes, markers);
    if clash {
      return None;
    }
    var fixes, unused, wanted := SwitchOn(src, tables.fixes, markers);
    var prefix := if wanted then lists else None;
    if prefix.None? {
      fixes := SwitchOff(fixes, Platform);
    }
    var library := [];
    if prefix.Some? {
      library := SwitchLibrary(src, tables.library, markers);
    }
    if shape.None? && fixes == [] {
      return None;
    }
    var on := [];
    if shape.Some? {
      var drifted;
      on, drifted, unused := SwitchOn(src, shape.value.entries, markers);
      if drifted {
        return None;
      }
      on := SettlePage(src, shape.value.entries, on, barrel, markers);
    }
    var live := on + fixes + library;
    assert [] + fixes + library == fixes + library;
    LiveBytes(src, tables, barrel, lists, markers);
    result := RewriteAfter(src, if prefix.Some? then prefix.value else "", live, markers);
  }

  method RewriteAfter(src: string, prefix: string, live: seq<Entry>, markers: Markers) returns (result: Option<string>)
    requires (forall k :: 0 <= k < |src| ==> IsByte(src[k])) && Bytes(live)
    ensures result == Prepend(prefix, Scan(src, 0, Gates(live), markers))
  {
    forall g, k | 0 <= g < |live| && 0 <= k < |Gates(live)[g].find|
      ensures IsByte(Gates(live)[g].find[k])
    {
      assert live[g] in live;
    }
    var rest := Rewrite(src, Gates(live), markers);
    result := Prepend(prefix, rest);
  }

  lemma {:induction false} LiveBytes(src: string, tables: Tables, barrel: bool, lists: Option<string>, markers: Markers)
    requires PlanFor(src, tables, barrel, lists, markers).Some?
    requires Bytes(tables.fixes) && Bytes(tables.library) && forall s :: s in tables.shapes ==> Bytes(s.entries)
    ensures Bytes(PlanFor(src, tables, barrel, lists, markers).value.entries)
  {
    hide Drifted, WantsPlatform, PageSettled, LibrarySettled, Matches, IsByte;
    PresentAre(src, tables.shapes, markers);
  }

  lemma {:induction false} PresentAre(src: string, shapes: seq<Shape>, markers: Markers)
    ensures forall s <- Present(src, shapes, markers) :: s in shapes
  {
    if shapes != [] { PresentAre(src, shapes[1..], markers); }
  }

  // The one shape whose probe occurs, or that several do.
  method FindShape(src: string, shapes: seq<Shape>, markers: Markers) returns (shape: Option<Shape>, clash: bool)
    ensures clash <==> |Present(src, shapes, markers)| > 1
    ensures !clash ==> Present(src, shapes, markers) == if shape.Some? then [shape.value] else []
    ensures shape.Some? ==> shape.value in shapes
  {
    shape, clash := None, false;
    for i := 0 to |shapes|
      invariant Present(src, shapes, markers) ==
                (if shape.Some? then [shape.value] else []) + Present(src, shapes[i..], markers)
      invariant shape.Some? ==> shape.value in shapes
    {
      assert shapes[i..][1..] == shapes[i + 1..];
      var n := CountMatches(src, shapes[i].probe, markers);
      if n != 0 {
        if shape.Some? {
          return shape, true;
        }
        shape := Some(shapes[i]);
      }
    }
  }

  lemma {:induction false} LiveFrom(src: string, entries: seq<Entry>, g: nat, markers: Markers)
    requires g <= |entries|
    ensures Live(src, entries[g..], markers) ==
            if g == |entries| then []
            else if Matches(src, entries[g], markers) then [entries[g]] + Live(src, entries[g + 1..], markers)
            else Live(src, entries[g + 1..], markers)
    ensures g < |entries| ==>
              (Matches(src, entries[g], markers) <==> Count(src, 0, entries[g].gate.find, markers) == entries[g].times)
  {
    hide Count;
    assert g < |entries| ==> entries[g..][1..] == entries[g + 1..];
  }

  // The counting loop over a table.
  method SwitchOn(src: string, entries: seq<Entry>, markers: Markers)
        returns (live: seq<Entry>, drifted: bool, platform: bool)
    ensures live == Live(src, entries, markers)
    ensures drifted == Drifted(src, entries, markers)
    ensures platform == WantsPlatform(src, entries, markers)
  {
    hide Count, Live, Matches;
    live, drifted, platform := [], false, false;
    assert entries[0..] == entries;
    for g := 0 to |entries|
      invariant Live(src, entries, markers) == live + Live(src, entries[g..], markers)
      invariant drifted == exists k :: 0 <= k < g && entries[k].kind == Mandatory && !Matches(src, entries[k], markers)
      invariant platform == exists k :: 0 <= k < g && entries[k].kind == Platform && Matches(src, entries[k], markers)
    {
      LiveFrom(src, entries, g, markers);
      var n := CountMatches(src, entries[g].gate.find, markers);
      if n == entries[g].times {
        live := live + [entries[g]];
        platform := platform || entries[g].kind == Platform;
      } else if entries[g].kind == Mandatory {
        drifted := true;
      }
    }
    LiveFrom(src, entries, |entries|, markers);
  }

  lemma {:induction false} WithoutOneMore(entries: seq<Entry>, e: Entry, kind: Kind)
    ensures Without(entries + [e], kind) == Without(entries, kind) + if e.kind == kind then [] else [e]
  {
    if entries == [] {
      assert entries + [e] == [e];
    } else {
      WithoutOneMore(entries[1..], e, kind);
      assert (entries + [e])[1..] == entries[1..] + [e];
    }
  }

  // Takes the gates of one kind back out.
  method SwitchOff(on: seq<Entry>, kind: Kind) returns (left: seq<Entry>)
    ensures left == Without(on, kind)
  {
    hide Without;
    left := [];
    assert Without([], kind) == [] by { NothingWithout(kind); }
    for g := 0 to |on|
      invariant left == Without(on[..g], kind)
    {
      WithoutOneMore(on[..g], on[g], kind);
      assert on[..g] + [on[g]] == on[..g + 1];
      if on[g].kind != kind {
        left := left + [on[g]];
      }
    }
    assert on[..|on|] == on;
  }

  lemma {:induction false} NothingWithout(kind: Kind)
    ensures Without([], kind) == []
  {}

  // The counting loop over the library's anchors, which gives up at the first that is missing.
  method SwitchLibrary(src: string, library: seq<Entry>, markers: Markers) returns (on: seq<Entry>)
    ensures on == if LibrarySettled(src, library, markers) then Live(src, library, markers) else []
  {
    hide Count, Live, Matches;
    var toolbars := 0;
    on := [];
    assert library[0..] == library;
    for g := 0 to |library|
      invariant Live(src, library, markers) == on + Live(src, library[g..], markers)
      invariant ToolbarsOn(src, library, markers) == toolbars + ToolbarsOn(src, library[g..], markers)
      invariant forall k :: 0 <= k < g && library[k].kind != Toolbar ==> Matches(src, library[k], markers)
    {
      LiveFrom(src, library, g, markers);
      assert library[g..][1..] == library[g + 1..];
      var n := CountMatches(src, library[g].gate.find, markers);
      if n == library[g].times {
        on := on + [library[g]];
        if library[g].kind == Toolbar {
          toolbars := toolbars + 1;
        }
      } else if library[g].kind != Toolbar {
        return [];
      }
    }
    LiveFrom(src, library, |library|, markers);
    if toolbars != 1 {
      return [];
    }
  }

  method SettlePage(src: string, entries: seq<Entry>, on: seq<Entry>, barrel: bool, markers: Markers)
        returns (left: seq<Entry>)
    requires on == Live(src, entries, markers)
    ensures left == LiveShape(src, entries, barrel, markers)
  {
    hide Without;
    var page := barrel;
    for g := 0 to |entries|
      invariant page ==
                (barrel && forall k :: 0 <= k < g && entries[k].kind == Page ==> Matches(src, entries[k], markers))
    {
      if entries[g].kind == Page && entries[g] !in on {
        page := false;
      }
    }
    left := on;
    if !page {
      left := SwitchOff(on, Page);
    }
  }

  // ---- what a plan keeps ----

  // Each table has the kinds that belong to it.
  predicate KindsApart(tables: Tables) {
    && (forall s, e :: s in tables.shapes && e in s.entries ==> e.kind !in {Platform, Toolbar})
    && (forall e :: e in tables.fixes ==> e.kind !in {Page, Toolbar})
    && (forall e :: e in tables.library ==> e.kind !in {Page, Platform})
  }

  // When a script of one shape is rewritten, no gate takes part whose count is off, every mandatory
  // gate does, and the page's gates do together or not at all.
  lemma {:induction false} PlanIsAllOrNothing(src: string, tables: Tables, barrel: bool, lists: Option<string>,
        markers: Markers, shape: Shape)
    requires PlanFor(src, tables, barrel, lists, markers).Some? && Present(src, tables.shapes, markers) == [shape]
    requires KindsApart(tables)
    ensures var entries := PlanFor(src, tables, barrel, lists, markers).value.entries;
            && (forall e :: e in entries ==> Matches(src, e, markers))
            && (forall e :: e in shape.entries && e.kind == Mandatory ==> e in entries)
            && ((forall e :: e in shape.entries && e.kind == Page ==> e in entries && barrel)
                || (forall e :: e in entries ==> e.kind != Page))
  {
  }

  // The definitions of the platform lists go in front exactly when a gate that uses them takes
  // part, and one that would use them takes part only if there are any.
  lemma {:induction false} PlatformGoesWithItsLists(src: string, tables: Tables, barrel: bool, lists: Option<string>,
        markers: Markers)
    requires PlanFor(src, tables, barrel, lists, markers).Some? && KindsApart(tables)
    ensures var plan := PlanFor(src, tables, barrel, lists, markers).value;
            var platform := exists e :: e in plan.entries && e.kind == Platform;
            && (platform <==> lists.Some? && WantsPlatform(src, tables.fixes, markers))
            && plan.prefix == if platform then lists.value else ""
  {
    PresentAre(src, tables.shapes, markers);
  }

  lemma {:induction false} ToolbarsAppend(src: string, a: seq<Entry>, b: seq<Entry>, markers: Markers)
    ensures ToolbarsOn(src, a + b, markers) == ToolbarsOn(src, a, markers) + ToolbarsOn(src, b, markers)
    decreases |a|
  {
    hide Matches;
    if a == [] {
      assert a + b == b;
    } else {
      ToolbarsAppend(src, a[1..], b, markers);
      assert (a + b)[1..] == a[1..] + b;
    }
  }

  lemma {:induction false} NoToolbars(src: string, entries: seq<Entry>, markers: Markers)
    requires forall e :: e in entries ==> e.kind != Toolbar
    ensures ToolbarsOn(src, entries, markers) == 0
  {
    if entries != [] { NoToolbars(src, entries[1..], markers); }
  }

  lemma {:induction false} ToolbarsOfLive(src: string, entries: seq<Entry>, markers: Markers)
    ensures ToolbarsOn(src, Live(src, entries, markers), markers) == ToolbarsOn(src, entries, markers)
  {
    hide Matches;
    if entries != [] {
      ToolbarsOfLive(src, entries[1..], markers);
      var rest := Live(src, entries[1..], markers);
      assert ([entries[0]] + rest)[1..] == rest;
    }
  }

  // The library's button takes part whole, with one of its two toolbars and with the platform
  // lists it needs, or no part of it does.
  lemma {:induction false} LibraryIsAllOrNothing(src: string, tables: Tables, barrel: bool, lists: Option<string>,
        markers: Markers)
    requires PlanFor(src, tables, barrel, lists, markers).Some? && KindsApart(tables)
    ensures var plan := PlanFor(src, tables, barrel, lists, markers).value;
            if Prefix(src, tables.fixes, lists, markers).Some? && LibrarySettled(src, tables.library, markers) then
              && ToolbarsOn(src, plan.entries, markers) == 1
              && (forall e :: e in tables.library && e.kind != Toolbar ==> e in plan.entries)
              && (exists e :: e in plan.entries && e.kind == Platform)
            else
              && PlanFor(src, tables.(library := []), barrel, lists, markers) == Some(plan)
              && (forall e :: e in plan.entries ==> e.kind != Toolbar)
  {
    hide Matches, Drifted, PageSettled, ToolbarsOn;
    var plan, library := PlanFor(src, tables, barrel, lists, markers).value, LiveLibrary(src, tables, lists, markers);
    var others := plan.entries[..|plan.entries| - |library|];
    assert plan.entries == others + library;
    PresentAre(src, tables.shapes, markers);
    NoToolbars(src, others, markers);
    ToolbarsAppend(src, others, library, markers);
    ToolbarsOfLive(src, tables.library, markers);
    PlatformGoesWithItsLists(src, tables, barrel, lists, markers);
  }

  // Every gate of the plan fires exactly as often as its table entry says, provided no two
  // of them match overlapping bytes, and never more often.
  lemma {:induction false} GatesFireAsExpected(src: string, tables: Tables, barrel: bool, lists: Option<string>,
        markers: Markers, g: nat)
    requires PlanFor(src, tables, barrel, lists, markers).Some?
    requires g < |PlanFor(src, tables, barrel, lists, markers).value.entries|
    ensures var entries := PlanFor(src, tables, barrel, lists, markers).value.entries;
            var fires := Fires(src, 0, Gates(entries), markers, g);
            fires <= entries[g].times && (NoOverlap(src, Gates(entries), markers) ==> fires == entries[g].times)
  {
    hide NoOverlap, Fires, Count, WantsPlatform, PageSettled, Drifted, LibrarySettled;
    var entries := PlanFor(src, tables, barrel, lists, markers).value.entries;
    FiresAtMostCounted(src, 0, Gates(entries), markers, g);
    if NoOverlap(src, Gates(entries), markers) {
      FiresAsCounted(src, 0, Gates(entries), markers, g);
    }
    assert entries[g] in entries;
  }

  lemma {:induction false} LiteralPairMatches(src: string, i: nat, a: char, b: char, markers: Markers)
    requires i <= |src| && IsLiteral(a) && IsLiteral(b)
    ensures MatchAt(src, i, [a, b], markers)
         == if i + 2 <= |src| && src[i] == a && src[i + 1] == b then Some(Matched(i + 2, NO_CAPS)) else None
  {
    var find := [a, b];
    assert find[1..] == [b] && [b][1..] == "";
    assert MatchFrom(src, i, find, NO_CAPS, markers)
        == (if i < |src| && src[i] == a then MatchFrom(src, i + 1, [b], NO_CAPS, markers) else None);
  }

  lemma {:induction false} AbcMatches(markers: Markers)
    ensures MatchAt("abc", 0, "ab", markers) == Some(Matched(2, NO_CAPS)) && MatchAt("abc", 0, "bc", markers) == None
    ensures MatchAt("abc", 1, "ab", markers) == None && MatchAt("abc", 1, "bc", markers) == Some(Matched(3, NO_CAPS))
    ensures MatchAt("abc", 2, "ab", markers) == None && MatchAt("abc", 2, "bc", markers) == None
  {
    hide MatchAt;
    assert ['a', 'b'] == "ab" && ['b', 'c'] == "bc";
    LiteralPairMatches("abc", 0, 'a', 'b', markers);
    LiteralPairMatches("abc", 1, 'a', 'b', markers);
    LiteralPairMatches("abc", 2, 'a', 'b', markers);
    LiteralPairMatches("abc", 0, 'b', 'c', markers);
    LiteralPairMatches("abc", 1, 'b', 'c', markers);
    LiteralPairMatches("abc", 2, 'b', 'c', markers);
  }

  lemma {:induction false} ExpandsToX(markers: Markers)
    ensures Expand("x", NO_CAPS, markers) == Some("x")
  {
    assert "x"[1..] == "" && Piece('x', NO_CAPS, markers) == Some("x") && "x" + "" == "x";
  }

  // Overlap does matter, whatever the order of the table: the gate whose match begins further left
  // takes the bytes, and the other, though it matched once when counted, never fires.
  lemma {:induction false} OverlapStarvesAGate(markers: Markers, gates: seq<Gate>, ab: nat, bc: nat)
    requires |gates| == 2 && ab + bc == 1 && gates[ab] == Gate("ab", "x") && gates[bc] == Gate("bc", "y")
    ensures Count("abc", 0, "ab", markers) == 1 && Count("abc", 0, "bc", markers) == 1
    ensures Fires("abc", 0, gates, markers, ab) == 1 && Fires("abc", 0, gates, markers, bc) == 0
    ensures Scan("abc", 0, gates, markers) == Some("xc")
  {
    hide MatchAt, Expand;
    AbcMatches(markers);
    ExpandsToX(markers);
    assert Count("abc", 3, "ab", markers) == 0 && Count("abc", 2, "ab", markers) == 0;
    assert Count("abc", 3, "bc", markers) == 0 && Count("abc", 1, "bc", markers) == 1;
    assert FirstHit("abc", 0, gates, markers, 0) == Some(Hit(ab, Matched(2, NO_CAPS)));
    assert FirstHit("abc", 2, gates, markers, 0) == None;
    assert ['c'] + "" == "c" && "x" + "c" == "xc";
    assert Scan("abc", 3, gates, markers) == Some("") && Scan("abc", 2, gates, markers) == Some("c");
    forall g: nat | g < 2 ensures Fires("abc", 2, gates, markers, g) == 0 {
      assert Fires("abc", 3, gates, markers, g) == 0;
    }
  }
}
