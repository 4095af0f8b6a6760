// What np_webpatch_transform of dylib/feats/webpatch.c plans, told by the flags of its tables: which
// entry of which table is on.
module WebPatchPlan {
  import opened Options
  import opened WebPatchMatch
  import opened WebPatchRewrite
  import opened WebPatchTransform

  // The entries whose flag is set, in table order.
  function Picked(entries: seq<Entry>, on: seq<bool>): seq<Entry>
    requires |on| == |entries|
  {
    if entries == [] then []
    else Picked(entries[..|entries| - 1], on[..|on| - 1]) + if on[|on| - 1] then [entries[|entries| - 1]] else []
  }

  // A fix is on when it counts as expected, one for the platform lists only if there are lists.
  predicate FixFlags(src: string, fixes: seq<Entry>, lists: bool, markers: Markers, on: seq<bool>) {
    && |on| == |fixes|
    && forall k :: 0 <= k < |on| ==>
      (on[k] <==> Matches(src, fixes[k], markers) && (fixes[k].kind == Platform ==> lists))
  }

  // A page gate is on only if all of them count and the component table has its names.
  predicate ShapeFlags(src: string, gates: seq<Entry>, barrel: bool, markers: Markers, on: seq<bool>) {
    && |on| == |gates|
    && forall k :: 0 <= k < |on| ==>
      (on[k] <==> Matches(src, gates[k], markers)
                  && (gates[k].kind == Page ==> barrel && PageCounts(src, gates, markers)))
  }

  predicate PageCounts(src: string, gates: seq<Entry>, markers: Markers) {
    forall j :: 0 <= j < |gates| && gates[j].kind == Page ==> Matches(src, gates[j], markers)
  }

  // The library's entries are on only if some platform fix is, every anchor counts, and exactly
  // one toolbar does.
  predicate LibraryFlags(src: string, library: seq<Entry>, wanted: bool, markers: Markers, on: seq<bool>) {
    && |on| == |library|
    && forall k :: 0 <= k < |on| ==>
      (on[k] <==> Matches(src, library[k], markers) && wanted && Anchored(src, library, markers))
  }

  predicate Anchored(src: string, library: seq<Entry>, markers: Markers) {
    && (forall j :: 0 <= j < |library| && library[j].kind != Toolbar ==> Matches(src, library[j], markers))
    && exists t :: 0 <= t < |library| && OnlyToolbar(src, library, t, markers)
  }

  predicate OnlyToolbar(src: string, library: seq<Entry>, t: nat, markers: Markers) {
    && t < |library| && library[t].kind == Toolbar && Matches(src, library[t], markers)
    && forall u :: 0 <= u < |library| && u != t && library[u].kind == Toolbar ==> !Matches(src, library[u], markers)
  }

  // Some fix for the platform lists is on.
  predicate PlatformOn(fixes: seq<Entry>, on: seq<bool>) {
    |on| == |fixes| && exists k :: 0 <= k < |on| && on[k] && fixes[k].kind == Platform
  }

  predicate Carries(src: string, shapes: seq<Shape>, k: nat, markers: Markers) {
    k < |shapes| && Count(src, 0, shapes[k].probe, markers) > 0
  }

  // ---- lists and flags ----

  lemma {:induction false} PickedAt(entries: seq<Entry>, on: seq<bool>)
    requires |on| == |entries| > 0
    ensures Picked(entries, on) == (if on[0] then [entries[0]] else []) + Picked(entries[1..], on[1..])
    decreases |entries|
  {
    var n := |entries| - 1;
    if n > 0 {
      PickedAt(entries[..n], on[..n]);
      assert entries[..n][1..] == entries[1..][..n - 1] && on[..n][1..] == on[1..][..n - 1];
    }
  }

  // Without(Live(..), kind) and Live(..) are Picked.
  lemma {:induction false} LivePicked(src: string, entries: seq<Entry>, off: Option<Kind>, markers: Markers,
        on: seq<bool>)
    requires |on| == |entries|
    requires forall k :: 0 <= k < |on| ==>
               (on[k] <==> Matches(src, entries[k], markers) && off != Some(entries[k].kind))
    ensures Picked(entries, on) ==
            var live := Live(src, entries, markers); if off.Some? then Without(live, off.value) else live
    decreases |entries|
  {
    hide Matches;
    if entries != [] {
      PickedAt(entries, on);
      LivePicked(src, entries[1..], off, markers, on[1..]);
      if Matches(src, entries[0], markers) {
        var rest := Live(src, entries[1..], markers);
        assert ([entries[0]] + rest)[1..] == rest;
      }
    }
  }

  lemma {:induction false} NonePicked(entries: seq<Entry>, on: seq<bool>)
    requires |on| == |entries|
    ensures Picked(entries, on) == [] <==> forall k :: 0 <= k < |on| ==> !on[k]
    decreases |entries|
  {
    if entries != [] { NonePicked(entries[..|entries| - 1], on[..|on| - 1]); }
  }

  lemma {:induction false} ToolbarsMean(src: string, library: seq<Entry>, markers: Markers)
    ensures ToolbarsOn(src, library, markers) == 0 <==>
            forall u :: 0 <= u < |library| && library[u].kind == Toolbar ==> !Matches(src, library[u], markers)
    ensures ToolbarsOn(src, library, markers) == 1 <==>
            exists t :: 0 <= t < |library| && OnlyToolbar(src, library, t, markers)
    decreases |library|
  {
    hide Matches;
    if library != [] {
      var rest := library[1..];
      ToolbarsMean(src, rest, markers);
      if library[0].kind == Toolbar && Matches(src, library[0], markers) {
        assert ToolbarsOn(src, rest, markers) == 0 ==> OnlyToolbar(src, library, 0, markers);
        forall t | 0 <= t < |library| && OnlyToolbar(src, library, t, markers) ensures t == 0 {}
      } else {
        forall t: nat | t < |rest|
          ensures OnlyToolbar(src, rest, t, markers) <==> OnlyToolbar(src, library, t + 1, markers)
        {
          assert forall u :: 0 <= u < |rest| ==> rest[u] == library[u + 1];
          assert forall u :: 0 < u < |library| ==> library[u] == rest[u - 1];
        }
        if t :| 0 <= t < |library| && OnlyToolbar(src, library, t, markers) {
          assert OnlyToolbar(src, rest, t - 1, markers);
        }
      }
    }
  }

  lemma {:induction false} NoneCarries(src: string, shapes: seq<Shape>, markers: Markers)
    requires forall k: nat :: !Carries(src, shapes, k, markers)
    ensures Present(src, shapes, markers) == []
    decreases |shapes|
  {
    hide Count;
    if shapes != [] {
      assert !Carries(src, shapes, 0, markers);
      assert forall k: nat :: Carries(src, shapes[1..], k, markers) ==> Carries(src, shapes, k + 1, markers);
      NoneCarries(src, shapes[1..], markers);
    }
  }

  lemma {:induction false} OneCarries(src: string, shapes: seq<Shape>, i: nat, markers: Markers)
    requires Carries(src, shapes, i, markers) && forall k: nat :: Carries(src, shapes, k, markers) ==> k == i
    ensures Present(src, shapes, markers) == [shapes[i]]
    decreases |shapes|
  {
    hide Count;
    var rest := shapes[1..];
    assert forall k: nat :: Carries(src, rest, k, markers) ==> Carries(src, shapes, k + 1, markers);
    if i == 0 {
      NoneCarries(src, rest, markers);
    } else {
      assert !Carries(src, shapes, 0, markers) && Carries(src, rest, i - 1, markers);
      OneCarries(src, rest, i - 1, markers);
    }
  }

  lemma {:induction false} TwoCarry(src: string, shapes: seq<Shape>, i: nat, j: nat, markers: Markers)
    requires i < j && Carries(src, shapes, i, markers) && Carries(src, shapes, j, markers)
    ensures |Present(src, shapes, markers)| > 1
    decreases |shapes|
  {
    hide Count;
    var rest := shapes[1..];
    assert Carries(src, rest, j - 1, markers);
    if i == 0 {
      SomeCarries(src, rest, j - 1, markers);
    } else {
      assert Carries(src, rest, i - 1, markers);
      TwoCarry(src, rest, i - 1, j - 1, markers);
    }
  }

  lemma {:induction false} SomeCarries(src: string, shapes: seq<Shape>, i: nat, markers: Markers)
    requires Carries(src, shapes, i, markers)
    ensures Present(src, shapes, markers) != []
    decreases |shapes|
  {
    hide Count;
    if i > 0 {
      assert Carries(src, shapes[1..], i - 1, markers);
      SomeCarries(src, shapes[1..], i - 1, markers);
    }
  }

  // ---- the plan ----

  // The fixes and the library's entries a plan holds, and what goes in front.
  lemma {:induction false} TablesByFlags(src: string, tables: Tables, lists: Option<string>, markers: Markers,
        fixOn: seq<bool>, libraryOn: seq<bool>)
    requires KindsApart(tables) && FixFlags(src, tables.fixes, lists.Some?, markers, fixOn)
    requires LibraryFlags(src, tables.library, PlatformOn(tables.fixes, fixOn), markers, libraryOn)
    ensures LiveFixes(src, tables, lists, markers) == Picked(tables.fixes, fixOn)
    ensures LiveLibrary(src, tables, lists, markers) == Picked(tables.library, libraryOn)
    ensures Prefix(src, tables.fixes, lists, markers) == if PlatformOn(tables.fixes, fixOn) then lists else None
  {
    hide Matches, Live, Without, ToolbarsOn, Picked;
    var wanted := WantsPlatform(src, tables.fixes, markers);
    var off := if lists.Some? then None else Some(Platform);
    assert PlatformOn(tables.fixes, fixOn) <==> wanted && lists.Some?;
    LivePicked(src, tables.fixes, off, markers, fixOn);
    if lists.Some? && !wanted { LivePicked(src, tables.fixes, Some(Platform), markers, fixOn); }
    ToolbarsMean(src, tables.library, markers);
    assert LibrarySettled(src, tables.library, markers) <==> Anchored(src, tables.library, markers) by {
      assert forall j :: 0 <= j < |tables.library| ==> tables.library[j] in tables.library;
    }
    if PlatformOn(tables.fixes, fixOn) && Anchored(src, tables.library, markers) {
      LivePicked(src, tables.library, None, markers, libraryOn);
    } else {
      NonePicked(tables.library, libraryOn);
    }
  }

  lemma {:induction false} ShapeByFlags(src: string, gates: seq<Entry>, barrel: bool, markers: Markers, on: seq<bool>)
    requires ShapeFlags(src, gates, barrel, markers, on)
    ensures LiveShape(src, gates, barrel, markers) == Picked(gates, on)
  {
    hide Matches, Live, Without, Picked;
    assert PageSettled(src, gates, barrel, markers) <==> barrel && PageCounts(src, gates, markers) by {
      assert forall j :: 0 <= j < |gates| ==> gates[j] in gates;
    }
    LivePicked(src, gates, if PageSettled(src, gates, barrel, markers) then None else Some(Page), markers, on);
  }

  // No shape: the fixes that are on, and the library with them; nothing if and only if no fix is.
  lemma {:induction false} PlanWithoutShape(src: string, tables: Tables, barrel: bool, lists: Option<string>,
        markers: Markers, fixOn: seq<bool>, libraryOn: seq<bool>)
    requires KindsApart(tables) && FixFlags(src, tables.fixes, lists.Some?, markers, fixOn)
    requires LibraryFlags(src, tables.library, PlatformOn(tables.fixes, fixOn), markers, libraryOn)
    requires forall k: nat :: !Carries(src, tables.shapes, k, markers)
    ensures PlanFor(src, tables, barrel, lists, markers) ==
            if forall k :: 0 <= k < |fixOn| ==> !fixOn[k] then None
            else Some(Plan(if PlatformOn(tables.fixes, fixOn) then lists.value else "",
                           Picked(tables.fixes, fixOn) + Picked(tables.library, libraryOn)))
  {
    hide Present, LiveFixes, LiveLibrary, Prefix, Picked, Matches, Carries, LibraryFlags;
    TablesByFlags(src, tables, lists, markers, fixOn, libraryOn);
    NoneCarries(src, tables.shapes, markers);
    NonePicked(tables.fixes, fixOn);
    NeedsLists(src, tables, lists, markers, fixOn);
  }

  // One shape: nothing if and only if a mandatory gate of it does not count as expected; otherwise
  // its gates that are on, then the fixes, then the library.
  lemma {:induction false} PlanOfOneShape(src: string, tables: Tables, barrel: bool, lists: Option<string>,
        markers: Markers, i: nat, shapeOn: seq<bool>, fixOn: seq<bool>, libraryOn: seq<bool>)
    requires KindsApart(tables) && FixFlags(src, tables.fixes, lists.Some?, markers, fixOn)
    requires LibraryFlags(src, tables.library, PlatformOn(tables.fixes, fixOn), markers, libraryOn)
    requires Carries(src, tables.shapes, i, markers)
    requires forall k: nat :: Carries(src, tables.shapes, k, markers) ==> k == i
    requires ShapeFlags(src, tables.shapes[i].entries, barrel, markers, shapeOn)
    ensures PlanFor(src, tables, barrel, lists, markers) ==
            var gates := tables.shapes[i].entries;
            if exists k :: 0 <= k < |gates| && gates[k].kind == Mandatory && !shapeOn[k] then None
            else Some(Plan(if PlatformOn(tables.fixes, fixOn) then lists.value else "",
                           Picked(gates, shapeOn) + Picked(tables.fixes, fixOn) + Picked(tables.library, libraryOn)))
  {
    hide Present, LiveFixes, LiveLibrary, LiveShape, Prefix, Picked, Matches, LibraryFlags;
    TablesByFlags(src, tables, lists, markers, fixOn, libraryOn);
    ShapeByFlags(src, tables.shapes[i].entries, barrel, markers, shapeOn);
    OneCarries(src, tables.shapes, i, markers);
    NeedsLists(src, tables, lists, markers, fixOn);
  }

  lemma {:induction false} NeedsLists(src: string, tables: Tables, lists: Option<string>, markers: Markers,
        fixOn: seq<bool>)
    requires FixFlags(src, tables.fixes, lists.Some?, markers, fixOn)
    ensures PlatformOn(tables.fixes, fixOn) ==> lists.Some?
  {}

  // Two shapes: the script is left alone.
  lemma {:induction false} PlanOfTwoShapes(src: string, tables: Tables, barrel: bool, lists: Option<string>,
        markers: Markers, i: nat, j: nat)
    requires i < j && Carries(src, tables.shapes, i, markers) && Carries(src, tables.shapes, j, markers)
    ensures PlanFor(src, tables, barrel, lists, markers) == None
  {
    TwoCarry(src, tables.shapes, i, j, markers);
  }
}
