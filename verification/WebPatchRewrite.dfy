// The counting and rewriting passes of dylib/feats/webpatch.c, with their shortcuts, against
// the plain scan that tries every gate at every byte.
module WebPatchRewrite {
  import opened Options
  import opened Chars
  import opened WebPatchMatch

  // ---- counting ----

  // Matches of one pattern found from left to right, none overlapping the one before.
  function Count(src: string, i: nat, find: string, markers: Markers): nat
    requires i <= |src|
    decreases |src| - i
  {
    if i == |src| then 0
    else
      match MatchAt(src, i, find, markers)
      case Some(m) => 1 + Count(src, m.end, find, markers)
      case None => Count(src, i + 1, find, markers)
  }

  function LiteralPrefix(find: string): (n: nat)
    ensures n <= |find|
  {
    if find != "" && IsLiteral(find[0]) then 1 + LiteralPrefix(find[1..]) else 0
  }

  // A match begins with the literal prefix of its pattern.
  lemma {:induction false} MatchHasPrefix(src: string, s: nat, find: string, caps: Caps, markers: Markers)
    requires s <= |src| && MatchFrom(src, s, find, caps, markers).Some?
    ensures TextAt(src, s, find[..LiteralPrefix(find)])
    decreases |find|
  {
    if find != "" && IsLiteral(find[0]) {
      MatchHasPrefix(src, s + 1, find[1..], caps, markers);
      var n := LiteralPrefix(find[1..]);
      assert find[..n + 1] == [find[0]] + find[1..][..n];
      assert src[s..s + 1 + n] == [src[s]] + src[s + 1..s + 1 + n];
    }
  }

  lemma {:induction false} CountSkips(src: string, i: nat, p: nat, find: string, markers: Markers)
    requires i <= p <= |src| && forall k :: i <= k < p ==> MatchAt(src, k, find, markers).None?
    ensures Count(src, i, find, markers) == Count(src, p, find, markers)
    decreases p - i
  {
    if i < p {
      CountSkips(src, i + 1, p, find, markers);
    }
  }

  // memmem: the first place at or after i where the text stands.
  method FindText(src: string, i: nat, text: string) returns (at: Option<nat>)
    requires i <= |src|
    ensures at.Some? ==> i <= at.value <= |src| && TextAt(src, at.value, text)
    ensures at.Some? ==> forall k :: i <= k < at.value ==> !TextAt(src, k, text)
    ensures at.None? ==> forall k :: i <= k <= |src| ==> !TextAt(src, k, text)
  {
    for k := i to |src| + 1
      invariant forall j :: i <= j < k ==> !TextAt(src, j, text)
    {
      if TextAt(src, k, text) {
        return Some(k);
      }
    }
    return None;
  }

  // Where count_matches looks next: nothing matches before the next literal prefix.
  method NextCandidate(src: string, i: nat, find: string, lit: nat, markers: Markers) returns (at: Option<nat>)
    requires i < |src| && 0 < lit == LiteralPrefix(find)
    ensures at.Some? ==> i <= at.value < |src| && Count(src, i, find, markers) == Count(src, at.value, find, markers)
    ensures at.None? ==> Count(src, i, find, markers) == 0
  {
    at := FindText(src, i, find[..lit]);
    var stop := if at.Some? then at.value else |src|;
    NoPrefixNoMatch(src, i, stop, find, markers);
    CountSkips(src, i, stop, find, markers);
  }

  // count_matches: jumps to the next occurrence of the pattern's literal prefix.
  method CountMatches(src: string, find: string, markers: Markers) returns (n: nat)
    ensures n == Count(src, 0, find, markers)
  {
    hide MatchAt;
    var caps := new Cap[CAP_MAX](_ => Unset);
    n := 0;
    var lit := 0;
    while lit < |find| && IsLiteral(find[lit])
      invariant lit <= |find| && LiteralPrefix(find) == lit + LiteralPrefix(find[lit..])
    {
      lit := lit + 1;
    }
    var i := 0;
    while i < |src|
      invariant i <= |src| && n + Count(src, i, find, markers) == Count(src, 0, find, markers)
    {
      if lit > 0 {
        var at := NextCandidate(src, i, find, lit, markers);
        if at.None? {
          break;
        }
        i := at.value;
      }
      var used := Match(src, i, find, markers, caps);
      if used > 0 {
        n := n + 1;
        i := i + used;
      } else {
        i := i + 1;
      }
    }
  }

  lemma {:induction false} NoPrefixNoMatch(src: string, i: nat, p: nat, find: string, markers: Markers)
    requires i <= p <= |src| && forall k :: i <= k < p ==> !TextAt(src, k, find[..LiteralPrefix(find)])
    ensures forall k :: i <= k < p ==> MatchAt(src, k, find, markers).None?
  {
    forall k | i <= k < p ensures MatchAt(src, k, find, markers).None? {
      if MatchAt(src, k, find, markers).Some? {
        MatchHasPrefix(src, k, find, NO_CAPS, markers);
      }
    }
  }

  // ---- rewriting ----

  datatype Gate = Gate(find: string, replace: string)

  datatype Hit = Hit(index: nat, matched: Matched)

  // The first gate, in table order from `from` on, that matches at i.
  function FirstHit(src: string, i: nat, gates: seq<Gate>, markers: Markers, from: nat): (h: Option<Hit>)
    requires i <= |src| && from <= |gates|
    requires forall g :: 0 <= g < from ==> MatchAt(src, i, gates[g].find, markers).None?
    ensures h.Some? ==> h.value.index < |gates|
    ensures h.Some? ==> MatchAt(src, i, gates[h.value.index].find, markers) == Some(h.value.matched)
    ensures h.Some? ==> forall g :: 0 <= g < h.value.index ==> MatchAt(src, i, gates[g].find, markers).None?
    ensures h.None? ==> forall g :: 0 <= g < |gates| ==> MatchAt(src, i, gates[g].find, markers).None?
    decreases |gates| - from
  {
    if from == |gates| then None
    else
      match MatchAt(src, i, gates[from].find, markers)
      case Some(m) => Some(Hit(from, m))
      case None => FirstHit(src, i, gates, markers, from + 1)
  }

  // The plain scan: at every byte try every gate, expand the first that matches, and copy
  // the byte when none does. None when a template uses a capture its pattern did not set.
  function Scan(src: string, i: nat, gates: seq<Gate>, markers: Markers): Option<string>
    requires i <= |src|
    decreases |src| - i
  {
    if i == |src| then Some("")
    else
      match FirstHit(src, i, gates, markers, 0)
      case None => Prepend([src[i]], Scan(src, i + 1, gates, markers))
      case Some(h) =>
        match Expand(gates[h.index].replace, h.matched.caps, markers)
        case None => None
        case Some(text) => Prepend(text, Scan(src, h.matched.end, gates, markers))
  }

  predicate IsByte(c: char) { c as nat < 256 }

  // mark_start: the bytes a match of the pattern can begin with.
  predicate CanStart(find: string, c: char) {
    if find == "" then c == '\0'
    else if find[0] in MARKERS then true
    else if IsCap(find[0]) then IsIdent(c) && !IsDigit(c)
    else c == find[0]
  }

  lemma {:induction false} MatchStarts(src: string, i: nat, find: string, markers: Markers)
    requires i < |src| && MatchAt(src, i, find, markers).Some?
    ensures CanStart(find, src[i])
  {
    assert find != "";
    assert MatchOne(src, i, find[0], NO_CAPS, markers).Some?;
  }

  // Adds a pattern's bytes to the 256-entry table.
  method MarkStart(canStart: array<bool>, find: string)
    requires canStart.Length == 256 && forall k :: 0 <= k < |find| ==> IsByte(find[k])
    modifies canStart
    ensures forall c: char :: IsByte(c) ==> (canStart[c as nat] <==> old(canStart[c as nat]) || CanStart(find, c))
  {
    if find == "" {
      canStart[0] := true;
    } else if find[0] in MARKERS {
      for k := 0 to 256
        invariant forall j :: 0 <= j < k ==> canStart[j]
      {
        canStart[k] := true;
      }
    } else if IsCap(find[0]) {
      for k := 0 to 256
        invariant forall j :: 0 <= j < 256 ==> (canStart[j] <==> old(canStart[j]) || (j < k && CanStart(find,
              j as char)))
      {
        if IsIdent(k as char) && !IsDigit(k as char) {
          canStart[k] := true;
        }
      }
      assert forall c: char :: IsByte(c) ==> (c as nat) as char == c;
    } else {
      canStart[find[0] as nat] := true;
    }
  }

  predicate AnyCanStart(gates: seq<Gate>, c: char) {
    exists g :: 0 <= g < |gates| && CanStart(gates[g].find, c)
  }

  lemma {:induction false} PlainByteIsCopied(src: string, i: nat, gates: seq<Gate>, markers: Markers)
    requires i < |src| && !AnyCanStart(gates, src[i])
    ensures Scan(src, i, gates, markers) == Prepend([src[i]], Scan(src, i + 1, gates, markers))
  {
    if FirstHit(src, i, gates, markers, 0).Some? {
      MatchStarts(src, i, gates[FirstHit(src, i, gates, markers, 0).value.index].find, markers);
    }
  }

  lemma {:induction false} PlainBytesAreCopied(src: string, i: nat, plain: nat, gates: seq<Gate>, markers: Markers)
    requires i <= plain <= |src| && forall k :: i <= k < plain ==> !AnyCanStart(gates, src[k])
    ensures Scan(src, i, gates, markers) == Prepend(src[i..plain], Scan(src, plain, gates, markers))
    decreases plain - i
  {
    hide AnyCanStart, FirstHit, MatchAt, Scan;
    if i == plain {
      PrependNothing(Scan(src, i, gates, markers));
      assert src[i..plain] == "";
    } else {
      PlainByteIsCopied(src, i, gates, markers);
      PlainBytesAreCopied(src, i + 1, plain, gates, markers);
      PrependTwice([src[i]], src[i + 1..plain], Scan(src, plain, gates, markers));
      assert src[i..plain] == [src[i]] + src[i + 1..plain];
    }
  }

  // The rewrite loop of np_webpatch_transform over the gates that are on. The table lets it
  // copy runs of bytes no gate can start with; the result is the plain scan's.
  method Rewrite(src: string, gates: seq<Gate>, markers: Markers) returns (result: Option<string>)
    requires forall k :: 0 <= k < |src| ==> IsByte(src[k])
    requires forall g, k :: 0 <= g < |gates| && 0 <= k < |gates[g].find| ==> IsByte(gates[g].find[k])
    ensures result == Scan(src, 0, gates, markers)
  {
    hide AnyCanStart, FirstHit, MatchAt, Expand;
    var caps := new Cap[CAP_MAX](_ => Unset);
    var canStart := StartTable(gates);
    var out, i := "", 0;
    PrependNothing(Scan(src, 0, gates, markers));
    while i < |src|
      invariant i <= |src| && Scan(src, 0, gates, markers) == Prepend(out, Scan(src, i, gates, markers))
      invariant forall c: char :: IsByte(c) ==> (canStart[c as nat] <==> AnyCanStart(gates, c))
    {
      var plain := PlainEnd(src, i, gates, canStart);
      if plain > i {
        PlainBytesAreCopied(src, i, plain, gates, markers);
        PrependTwice(out, src[i..plain], Scan(src, plain, gates, markers));
        out, i := out + src[i..plain], plain;
      } else {
        var hit, used := FindHit(src, i, gates, markers, caps);
        if hit.None? {
          PrependTwice(out, [src[i]], Scan(src, i + 1, gates, markers));
          out, i := out + [src[i]], i + 1;
        } else {
          var text := Expand(gates[hit.value].replace, caps[..], markers);
          if text.None? {
            return None;
          }
          PrependTwice(out, text.value, Scan(src, i + used, gates, markers));
          out, i := out + text.value, i + used;
        }
      }
    }
    assert out + "" == out;
    return Some(out);
  }

  method PlainEnd(src: string, i: nat, gates: seq<Gate>, canStart: array<bool>) returns (plain: nat)
    requires i <= |src| && canStart.Length == 256 && forall k :: 0 <= k < |src| ==> IsByte(src[k])
    requires forall c: char :: IsByte(c) ==> (canStart[c as nat] <==> AnyCanStart(gates, c))
    ensures i <= plain <= |src| && forall k :: i <= k < plain ==> !AnyCanStart(gates, src[k])
    ensures plain < |src| ==> AnyCanStart(gates, src[plain])
  {
    plain := i;
    while plain < |src| && !canStart[src[plain] as nat]
      invariant i <= plain <= |src| && forall k :: i <= k < plain ==> !AnyCanStart(gates, src[k])
    {
      plain := plain + 1;
    }
  }

  method StartTable(gates: seq<Gate>) returns (canStart: array<bool>)
    requires forall g, k :: 0 <= g < |gates| && 0 <= k < |gates[g].find| ==> IsByte(gates[g].find[k])
    ensures fresh(canStart) && canStart.Length == 256
    ensures forall c: char :: IsByte(c) ==> (canStart[c as nat] <==> AnyCanStart(gates, c))
  {
    canStart := new bool[256](_ => false);
    for g := 0 to |gates|
      invariant forall c: char :: IsByte(c) ==> (canStart[c as nat] <==> AnyCanStart(gates[..g], c))
    {
      ghost var before := canStart[..];
      MarkStart(canStart, gates[g].find);
      forall c: char | IsByte(c) ensures canStart[c as nat] <==> AnyCanStart(gates[..g + 1], c) {
        AnyCanStartNext(gates, g, c);
      }
    }
    assert gates[..|gates|] == gates;
  }

  lemma {:induction false} AnyCanStartNext(gates: seq<Gate>, g: nat, c: char)
    requires g < |gates|
    ensures AnyCanStart(gates[..g + 1], c) <==> AnyCanStart(gates[..g], c) || CanStart(gates[g].find, c)
  {
    if AnyCanStart(gates[..g], c) {
      var k :| 0 <= k < g && CanStart(gates[..g][k].find, c);
      assert gates[..g + 1][k] == gates[k];
    }
    if CanStart(gates[g].find, c) {
      assert gates[..g + 1][g] == gates[g];
    }
    if AnyCanStart(gates[..g + 1], c) {
      var k :| 0 <= k <= g && CanStart(gates[..g + 1][k].find, c);
      assert k < g ==> gates[..g][k] == gates[k];
    }
  }

  method FindHit(src: string, i: nat, gates: seq<Gate>, markers: Markers, caps: array<Cap>)
        returns (hit: Option<nat>, used: nat)
    requires i < |src| && caps.Length == CAP_MAX
    modifies caps
    ensures match FirstHit(src, i, gates, markers, 0)
            case None => hit == None
            case Some(h) => hit == Some(h.index) && i + used == h.matched.end && caps[..] == h.matched.caps
  {
    used := 0;
    for g := 0 to |gates|
      invariant forall k :: 0 <= k < g ==> MatchAt(src, i, gates[k].find, markers).None?
    {
      used := Match(src, i, gates[g].find, markers, caps);
      if used > 0 {
        return Some(g), used;
      }
    }
    return None, 0;
  }

  // Gates whose template is their own pattern leave the text as it was.
  lemma {:induction false} IdentityGates(src: string, i: nat, gates: seq<Gate>, markers: Markers)
    requires i <= |src| && forall g :: 0 <= g < |gates| ==> gates[g].replace == gates[g].find
    ensures Scan(src, i, gates, markers) == Some(src[i..])
    decreases |src| - i
  {
    if i == |src| {
      assert src[i..] == "";
    } else {
      match FirstHit(src, i, gates, markers, 0)
      case None =>
        IdentityGates(src, i + 1, gates, markers);
        assert src[i..] == [src[i]] + src[i + 1..];
      case Some(h) =>
        MatchExpandsToItself(src, i, gates[h.index].find, markers);
        IdentityGates(src, h.matched.end, gates, markers);
        assert src[i..] == src[i..h.matched.end] + src[h.matched.end..];
    }
  }
}
