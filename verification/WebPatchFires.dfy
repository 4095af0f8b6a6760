// How often each gate of dylib/feats/webpatch.c fires in the common pass, against how often its
// pattern was counted alone, and when the pass succeeds.
module WebPatchFires {
  import opened WebPatchMatch
  import opened WebPatchRewrite

  function Fires(src: string, i: nat, gates: seq<Gate>, markers: Markers, g: nat): nat
    requires i <= |src|
    decreases |src| - i
  {
    if i == |src| then 0
    else
      match FirstHit(src, i, gates, markers, 0)
      case None => Fires(src, i + 1, gates, markers, g)
      case Some(h) => (if h.index == g then 1 else 0) + Fires(src, h.matched.end, gates, markers, g)
  }

  ghost predicate MatchesApart(src: string, markers: Markers, p: nat, find: string, q: nat, other: string) {
    p < |src| && q < |src| && MatchAt(src, p, find, markers).Some? && MatchAt(src, q, other, markers).Some?
    ==> MatchAt(src, p, find, markers).value.end <= q || MatchAt(src, q, other, markers).value.end <= p
  }

  // No match of one gate overlaps a match of another.
  ghost predicate NoOverlap(src: string, gates: seq<Gate>, markers: Markers) {
    forall g, h, p, q :: 0 <= g < |gates| && 0 <= h < |gates| && g != h && p >= 0 && q >= 0
      ==> MatchesApart(src, markers, p, gates[g].find, q, gates[h].find)
  }

  // Without overlaps the gates do not disturb each other: in the common pass each fires as
  // often as it matches alone.
  lemma {:induction false} FiresAsCounted(src: string, i: nat, gates: seq<Gate>, markers: Markers, g: nat)
    requires i <= |src| && g < |gates| && NoOverlap(src, gates, markers)
    ensures Fires(src, i, gates, markers, g) == Count(src, i, gates[g].find, markers)
    decreases |src| - i
  {
    if i < |src| {
      match FirstHit(src, i, gates, markers, 0)
      case None =>
        FiresAsCounted(src, i + 1, gates, markers, g);
      case Some(h) =>
        FiresAsCounted(src, h.matched.end, gates, markers, g);
        if h.index == g {
        } else {
          forall k | i <= k < h.matched.end ensures MatchAt(src, k, gates[g].find, markers).None? {
            assert MatchesApart(src, markers, k, gates[g].find, i, gates[h.index].find);
            assert MatchesApart(src, markers, i, gates[h.index].find, k, gates[g].find);
          }
          CountSkips(src, i, h.matched.end, gates[g].find, markers);
        }
    }
  }

  // ---- at most as often as counted ----

  // A later identifier run ends no earlier.
  lemma {:induction false} RunsAreOrdered(src: string, s: nat, t: nat)
    requires s <= t <= |src|
    ensures s + RunLength(src, s) <= t + RunLength(src, t)
  {
    var e := s + RunLength(src, s);
    if t < e {
      RunLengthIs(src, t, e - t);
    }
  }

  lemma {:induction false} OneIsOrdered(src: string, s: nat, t: nat, c: char, caps: Caps, other: Caps, markers: Markers)
    requires s <= t <= |src|
    requires MatchOne(src, s, c, caps, markers).Some? && MatchOne(src, t, c, other, markers).Some?
    ensures MatchOne(src, s, c, caps, markers).value.end <= MatchOne(src, t, c, other, markers).value.end
  {
    RunsAreOrdered(src, s, t);
  }

  // Of two matches of one pattern the later one ends no earlier, captures or not.
  lemma {:induction false} MatchesAreOrdered(src: string, s: nat, t: nat, find: string, caps: Caps, other: Caps,
        markers: Markers)
    requires s <= t <= |src|
    requires MatchFrom(src, s, find, caps, markers).Some? && MatchFrom(src, t, find, other, markers).Some?
    ensures MatchFrom(src, s, find, caps, markers).value.end <= MatchFrom(src, t, find, other, markers).value.end
    decreases |find|
  {
    hide MatchOne;
    if find != "" {
      var m, n := MatchOne(src, s, find[0], caps, markers).value, MatchOne(src, t, find[0], other, markers).value;
      OneIsOrdered(src, s, t, find[0], caps, other, markers);
      MatchesAreOrdered(src, m.end, n.end, find[1..], m.caps, n.caps, markers);
    }
  }

  // Counting from further on finds no more, and starting inside a match finds at most one more
  // than starting at its end.
  lemma {:induction false} CountIsOrdered(src: string, i: nat, j: nat, find: string, markers: Markers)
    requires i <= j <= |src|
    ensures Count(src, j, find, markers) <= Count(src, i, find, markers)
    ensures MatchAt(src, i, find, markers).Some? ==>
              Count(src, j, find, markers) <= 1 + Count(src, MatchAt(src, i, find, markers).value.end, find, markers)
    decreases |src| - i, |src| - j
  {
    hide MatchAt;
    var m := MatchAt(src, i, find, markers);
    if j < |src| {
      var n := MatchAt(src, j, find, markers);
      if m.Some? {
        if n.Some? {
          AtIsOrdered(src, i, j, find, markers);
          CountIsOrdered(src, m.value.end, n.value.end, find, markers);
        } else {
          CountIsOrdered(src, i, j + 1, find, markers);
        }
      } else if i < j {
        CountIsOrdered(src, i + 1, j, find, markers);
      }
    }
  }

  lemma {:induction false} AtIsOrdered(src: string, i: nat, j: nat, find: string, markers: Markers)
    requires i <= j <= |src| && MatchAt(src, i, find, markers).Some? && MatchAt(src, j, find, markers).Some?
    ensures MatchAt(src, i, find, markers).value.end <= MatchAt(src, j, find, markers).value.end
  {
    MatchesAreOrdered(src, i, j, find, NO_CAPS, NO_CAPS, markers);
  }

  // Whatever the other gates take, none fires more often than its pattern was counted.
  lemma {:induction false} FiresAtMostCounted(src: string, i: nat, gates: seq<Gate>, markers: Markers, g: nat)
    requires i <= |src| && g < |gates|
    ensures Fires(src, i, gates, markers, g) <= Count(src, i, gates[g].find, markers)
    decreases |src| - i
  {
    hide MatchAt;
    if i < |src| {
      match FirstHit(src, i, gates, markers, 0)
      case None => FiresAtMostCounted(src, i + 1, gates, markers, g);
      case Some(h) =>
        FiresAtMostCounted(src, h.matched.end, gates, markers, g);
        CountIsOrdered(src, i, h.matched.end, gates[g].find, markers);
    }
  }

  // ---- when the pass succeeds ----

  // Every capture of the template is one of the pattern's.
  predicate SelfContained(gate: Gate) { forall c <- gate.replace :: IsCap(c) ==> c in gate.find }

  lemma {:induction false} CapturesSet(src: string, s: nat, find: string, caps: Caps, markers: Markers, c: char)
    requires s <= |src| && IsCap(c) && MatchFrom(src, s, find, caps, markers).Some?
    ensures MatchFrom(src, s, find, caps, markers).value.caps[CapIndex(c)].Run? <==>
            caps[CapIndex(c)].Run? || c in find
    decreases |find|
  {
    if find != "" {
      var m := MatchOne(src, s, find[0], caps, markers).value;
      CapturesSet(src, m.end, find[1..], m.caps, markers, c);
      OneSets(src, s, find[0], caps, markers, c);
      assert c in find <==> c == find[0] || c in find[1..];
    }
  }

  lemma {:induction false} OneSets(src: string, s: nat, d: char, caps: Caps, markers: Markers, c: char)
    requires s <= |src| && IsCap(c) && MatchOne(src, s, d, caps, markers).Some?
    ensures MatchOne(src, s, d, caps, markers).value.caps[CapIndex(c)].Run? <==> caps[CapIndex(c)].Run? || c == d
  {
  }

  lemma {:induction false} ExpandSucceeds(template: string, caps: Caps, markers: Markers)
    ensures Expand(template, caps, markers).Some? <==>
            forall c <- template :: IsCap(c) ==> caps[CapIndex(c)].Run?
    decreases |template|
  {
    if template != "" {
      ExpandSucceeds(template[1..], caps, markers);
      assert forall c <- template :: c == template[0] || c in template[1..];
      assert template[0] in template && forall c <- template[1..] :: c in template;
    }
  }

  // A template can be expanded with what its pattern captured exactly when it uses nothing else.
  lemma {:induction false} HitExpands(src: string, i: nat, gate: Gate, markers: Markers)
    requires i <= |src| && MatchAt(src, i, gate.find, markers).Some?
    ensures Expand(gate.replace, MatchAt(src, i, gate.find, markers).value.caps, markers).Some? <==> SelfContained(gate)
  {
    hide Expand, IsCap;
    var caps := MatchAt(src, i, gate.find, markers).value.caps;
    ExpandSucceeds(gate.replace, caps, markers);
    forall c | c in gate.replace && IsCap(c)
      ensures caps[CapIndex(c)].Run? <==> c in gate.find
    {
      CapturesSet(src, i, gate.find, NO_CAPS, markers, c);
    }
  }

  // The pass succeeds exactly when every gate that fires uses only captures of its own pattern;
  // so with a table of such gates it succeeds on every text.
  lemma {:induction false} ScanSucceeds(src: string, i: nat, gates: seq<Gate>, markers: Markers)
    requires i <= |src|
    ensures Scan(src, i, gates, markers).Some? <==>
            forall g :: 0 <= g < |gates| && Fires(src, i, gates, markers, g) > 0 ==> SelfContained(gates[g])
    decreases |src| - i
  {
    hide MatchAt, Expand, SelfContained;
    if i < |src| {
      match FirstHit(src, i, gates, markers, 0)
      case None => ScanSucceeds(src, i + 1, gates, markers);
      case Some(h) =>
        ScanSucceeds(src, h.matched.end, gates, markers);
        HitExpands(src, i, gates[h.index], markers);
        assert Fires(src, i, gates, markers, h.index) > 0;
    }
  }
}
