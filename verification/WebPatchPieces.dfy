// What the counting and rewriting passes of dylib/feats/webpatch.c make of a text, told by the
// places where it is cut and without the passes themselves.
module WebPatchPieces {
  import opened Options
  import opened Chars
  import opened WebPatchMatch
  import opened WebPatchRewrite
  import opened WebPatchFires

  function Concat(texts: seq<string>): string {
    if texts == [] then "" else texts[0] + Concat(texts[1..])
  }

  // ---- templates ----

  // Which bytes an identifier has, and which stand for a capture.
  lemma {:induction false} ClassesAre(c: char)
    ensures IsIdent(c) <==> c in UPPER + LOWER + DIGITS + "_$"
    ensures IsCap(c) <==> c as int in {1, 2, 3, 4, 5, 6, 7, 8, 19, 20, 21, 22}
    ensures IsCap(c) ==> CapIndex(c) == c as int - if c as int <= 8 then 1 else 11
  {
    LetterOrDigit(c);
  }

  // A capture catches a whole identifier: it does not begin with a digit, nothing an identifier
  // could go on with stands behind it, and in front of the pattern neither that nor a dot.
  lemma {:induction false} CaptureMeans(src: string, pos: nat, c: char, markers: Markers, end: nat)
    requires pos <= |src| && IsCap(c)
    ensures (MatchAt(src, pos, [c], markers).Some? && MatchAt(src, pos, [c], markers).value.end == end) <==>
            && pos < end <= |src| && src[pos] !in DIGITS
            && (forall k :: pos <= k < end ==> src[k] in UPPER + LOWER + DIGITS + "_$")
            && (end < |src| ==> src[end] !in UPPER + LOWER + DIGITS + "_$")
            && (pos > 0 ==> src[pos - 1] !in UPPER + LOWER + DIGITS + "_$.")
  {
    hide MatchAt;
    CaptureCatches(src, pos, c, markers, end);
    forall k | 0 <= k < |src|
      ensures IsIdent(src[k]) <==> src[k] in UPPER + LOWER + DIGITS + "_$"
      ensures IsDigit(src[k]) <==> src[k] in DIGITS
    {
      ClassesAre(src[k]);
      LetterOrDigit(src[k]);
    }
  }

  lemma {:induction false} CaptureCatches(src: string, pos: nat, c: char, markers: Markers, end: nat)
    requires pos <= |src| && IsCap(c)
    ensures (MatchAt(src, pos, [c], markers).Some? && MatchAt(src, pos, [c], markers).value.end == end) <==>
            && pos < end <= |src| && !IsDigit(src[pos]) && (forall k :: pos <= k < end ==> IsIdent(src[k]))
            && (end < |src| ==> !IsIdent(src[end]))
            && (pos > 0 ==> !IsIdent(src[pos - 1]) && src[pos - 1] != '.')
  {
    hide IsIdent, IsDigit;
    OneCapture(src, pos, c, markers);
    if pos < end <= |src| && (forall k :: pos <= k < end ==> IsIdent(src[k])) && (end < |src| ==> !IsIdent(src[end])) {
      RunLengthIs(src, pos, end - pos);
    }
  }

  lemma {:induction false} OneCapture(src: string, pos: nat, c: char, markers: Markers)
    requires pos <= |src| && IsCap(c)
    ensures var n := RunLength(src, pos);
            MatchAt(src, pos, [c], markers) ==
            if n > 0 && !IsDigit(src[pos]) && (pos > 0 ==> !IsIdent(src[pos - 1]) && src[pos - 1] != '.') then
              Some(Matched(pos + n, NO_CAPS[CapIndex(c) := Run(src[pos..pos + n])]))
            else None
  {
    hide IsIdent, IsDigit;
    assert [c][1..] == "" && c !in MARKERS;
    assert NO_CAPS[CapIndex(c)] == Unset;
    var one := MatchOne(src, pos, c, NO_CAPS, markers);
    assert MatchFrom(src, pos, [c], NO_CAPS, markers)
        == if one.Some? then MatchFrom(src, one.value.end, "", one.value.caps, markers) else None;
  }

  // Two captures never share a place.
  lemma {:induction false} CapturesAreApart(c: char, d: char)
    requires IsCap(c) && IsCap(d) && c != d
    ensures CapIndex(c) != CapIndex(d)
  {}

  // A marker stands for its text, a capture for what it caught, anything else for itself.
  predicate StandsFor(c: char, text: string, caps: Caps, markers: Markers) {
    && (c in MARKERS ==> text == markers[c])
    && (IsCap(c) ==> caps[CapIndex(c)] == Run(text))
    && (IsLiteral(c) ==> text == [c])
  }

  ghost predicate AllStandFor(template: string, texts: seq<string>, caps: Caps, markers: Markers) {
    |texts| == |template| && forall k :: 0 <= k < |template| ==> StandsFor(template[k], texts[k], caps, markers)
  }

  lemma {:induction false} PieceStands(c: char, text: string, caps: Caps, markers: Markers)
    ensures Piece(c, caps, markers) == Some(text) <==> StandsFor(c, text, caps, markers)
  {}

  lemma {:induction false} ExpandedTexts(template: string, caps: Caps, markers: Markers) returns (texts: seq<string>)
    requires Expand(template, caps, markers).Some?
    ensures AllStandFor(template, texts, caps, markers) && Expand(template, caps, markers).value == Concat(texts)
  {
    hide Piece, StandsFor;
    if template == "" {
      return [];
    }
    var more := ExpandedTexts(template[1..], caps, markers);
    var text := Piece(template[0], caps, markers).value;
    PieceStands(template[0], text, caps, markers);
    texts := [text] + more;
    assert texts[1..] == more;
  }

  lemma {:induction false} TextsExpand(template: string, texts: seq<string>, caps: Caps, markers: Markers)
    requires AllStandFor(template, texts, caps, markers)
    ensures Expand(template, caps, markers) == Some(Concat(texts))
    decreases |template|
  {
    hide Piece, StandsFor;
    if template != "" {
      PieceStands(template[0], texts[0], caps, markers);
      TextsExpand(template[1..], texts[1..], caps, markers);
    }
  }

  // Expanding a template puts the texts its characters stand for one after the other.
  lemma {:induction false} ExpandMeans(template: string, caps: Caps, markers: Markers, out: string)
    ensures Expand(template, caps, markers) == Some(out) <==>
            exists texts :: AllStandFor(template, texts, caps, markers) && out == Concat(texts)
  {
    hide Expand, AllStandFor;
    if Expand(template, caps, markers) == Some(out) {
      var texts := ExpandedTexts(template, caps, markers);
    }
    forall texts | AllStandFor(template, texts, caps, markers)
      ensures Expand(template, caps, markers) == Some(Concat(texts))
    {
      TextsExpand(template, texts, caps, markers);
    }
  }

  // ---- rewriting ----

  // From s to e stands one byte no gate matches at, which is kept, or the match of the first gate
  // that matches at s, for which its template comes with what that match caught.
  ghost predicate IsPiece(src: string, gates: seq<Gate>, markers: Markers, s: nat, e: nat, text: string) {
    && s < e <= |src|
    && (|| (e == s + 1 && text == [src[s]]
            && forall g :: 0 <= g < |gates| ==> MatchAt(src, s, gates[g].find, markers).None?)
        || exists g :: 0 <= g < |gates| && FiresAt(src, gates, markers, s, e, text, g))
  }

  ghost predicate FiresAt(src: string, gates: seq<Gate>, markers: Markers, s: nat, e: nat, text: string, g: nat)
    requires s <= |src| && g < |gates|
  {
    var m := MatchAt(src, s, gates[g].find, markers);
    && (forall h :: 0 <= h < g ==> MatchAt(src, s, gates[h].find, markers).None?)
    && m.Some? && m.value.end == e && Expand(gates[g].replace, m.value.caps, markers) == Some(text)
  }

  // The text from i on is cut into such pieces, and `texts` is what each becomes.
  ghost predicate Rewritten(src: string, i: nat, gates: seq<Gate>, markers: Markers, cuts: seq<nat>,
        texts: seq<string>) {
    && |cuts| == |texts| + 1 && cuts[0] == i && cuts[|texts|] == |src|
    && forall k :: 0 <= k < |texts| ==> IsPiece(src, gates, markers, cuts[k], cuts[k + 1], texts[k])
  }

  lemma {:induction false} PieceAfterHit(src: string, i: nat, gates: seq<Gate>, markers: Markers)
    requires i < |src|
    ensures match FirstHit(src, i, gates, markers, 0)
            case None => IsPiece(src, gates, markers, i, i + 1, [src[i]])
            case Some(h) =>
              forall text :: Expand(gates[h.index].replace, h.matched.caps, markers) == Some(text) ==>
                               IsPiece(src, gates, markers, i, h.matched.end, text)
  {
    hide MatchAt, Expand;
    var hit := FirstHit(src, i, gates, markers, 0);
    if hit.Some? {
      var h := hit.value;
      forall text | Expand(gates[h.index].replace, h.matched.caps, markers) == Some(text)
        ensures IsPiece(src, gates, markers, i, h.matched.end, text)
      {
        assert FiresAt(src, gates, markers, i, h.matched.end, text, h.index);
      }
    }
  }

  // A piece is what the scan does at its place.
  lemma {:induction false} PieceIsScanned(src: string, s: nat, e: nat, gates: seq<Gate>, markers: Markers,
        text: string)
    requires IsPiece(src, gates, markers, s, e, text)
    ensures Scan(src, s, gates, markers) == Prepend(text, Scan(src, e, gates, markers))
  {
    hide MatchAt, Expand;
  }

  lemma {:induction false} OnePieceMore(src: string, i: nat, e: nat, gates: seq<Gate>, markers: Markers, text: string,
        cuts: seq<nat>, texts: seq<string>)
    requires IsPiece(src, gates, markers, i, e, text) && Rewritten(src, e, gates, markers, cuts, texts)
    ensures Rewritten(src, i, gates, markers, [i] + cuts, [text] + texts)
    ensures Concat([text] + texts) == text + Concat(texts)
  {
    hide IsPiece;
    var cs, ts := [i] + cuts, [text] + texts;
    assert ts[1..] == texts;
    forall k | 0 <= k < |ts|
      ensures IsPiece(src, gates, markers, cs[k], cs[k + 1], ts[k])
    {
      if k > 0 {
        assert cs[k] == cuts[k - 1] && cs[k + 1] == cuts[k - 1 + 1] && ts[k] == texts[k - 1];
      }
    }
  }

  lemma {:induction false} ScanCuts(src: string, i: nat, gates: seq<Gate>, markers: Markers)
      returns (cuts: seq<nat>, texts: seq<string>)
    requires i <= |src| && Scan(src, i, gates, markers).Some?
    ensures Rewritten(src, i, gates, markers, cuts, texts) && Scan(src, i, gates, markers).value == Concat(texts)
    decreases |src| - i
  {
    hide MatchAt, Expand, IsPiece, Rewritten, Concat;
    if i == |src| {
      NothingLeft(src, gates, markers);
      return [i], [];
    }
    PieceAfterHit(src, i, gates, markers);
    var text, e := [src[i]], i + 1;
    match FirstHit(src, i, gates, markers, 0) {
      case None =>
      case Some(h) => text, e := Expand(gates[h.index].replace, h.matched.caps, markers).value, h.matched.end;
    }
    cuts, texts := ScanCuts(src, e, gates, markers);
    OnePieceMore(src, i, e, gates, markers, text, cuts, texts);
    cuts, texts := [i] + cuts, [text] + texts;
  }

  lemma {:induction false} NothingLeft(src: string, gates: seq<Gate>, markers: Markers)
    ensures Rewritten(src, |src|, gates, markers, [|src|], []) && Concat([]) == ""
  {}

  lemma {:induction false} PiecesAreScanned(src: string, i: nat, gates: seq<Gate>, markers: Markers, cuts: seq<nat>,
        texts: seq<string>)
    requires i <= |src| && Rewritten(src, i, gates, markers, cuts, texts)
    ensures Scan(src, i, gates, markers) == Some(Concat(texts))
    decreases |texts|
  {
    hide IsPiece, FirstHit, MatchAt, Expand;
    if texts != [] {
      assert IsPiece(src, gates, markers, cuts[0], cuts[0 + 1], texts[0]);
      PieceIsScanned(src, i, cuts[1], gates, markers, texts[0]);
      var cs, ts := cuts[1..], texts[1..];
      forall k | 0 <= k < |ts|
        ensures IsPiece(src, gates, markers, cs[k], cs[k + 1], ts[k])
      {
        assert IsPiece(src, gates, markers, cuts[k + 1], cuts[k + 1 + 1], texts[k + 1]);
      }
      PieceEnds(src, cuts[0], cuts[1], gates, markers, texts[0]);
      PiecesAreScanned(src, cuts[1], gates, markers, cs, ts);
    } else {
      assert cuts == [|src|];
    }
  }

  lemma {:induction false} PieceEnds(src: string, s: nat, e: nat, gates: seq<Gate>, markers: Markers, text: string)
    requires IsPiece(src, gates, markers, s, e, text)
    ensures s < e <= |src|
  {}

  // What the pass gives, for every text and table: cut the text into pieces, each a byte no gate
  // matches at or the match of the first gate that does; the result is those bytes and the
  // templates of those gates, in order.
  lemma {:induction false} RewriteMeans(src: string, gates: seq<Gate>, markers: Markers, out: string)
    ensures Scan(src, 0, gates, markers) == Some(out) <==>
            exists cuts, texts :: Rewritten(src, 0, gates, markers, cuts, texts) && out == Concat(texts)
  {
    hide Scan, Rewritten;
    if Scan(src, 0, gates, markers) == Some(out) {
      var cuts, texts := ScanCuts(src, 0, gates, markers);
    }
    forall cuts, texts | Rewritten(src, 0, gates, markers, cuts, texts)
      ensures Scan(src, 0, gates, markers) == Some(Concat(texts))
    {
      PiecesAreScanned(src, 0, gates, markers, cuts, texts);
    }
  }

  // ---- one gate without captures ----

  predicate AllLiteral(s: string) { forall c <- s :: IsLiteral(c) }

  // Every occurrence, taken from left to right, is replaced; every other byte is kept.
  function Replaced(src: string, i: nat, find: string, replace: string): string
    requires i <= |src| && find != ""
    decreases |src| - i
  {
    if i == |src| then ""
    else if TextAt(src, i, find) then replace + Replaced(src, i + |find|, find, replace)
    else [src[i]] + Replaced(src, i + 1, find, replace)
  }

  lemma {:induction false} LiteralMatches(src: string, s: nat, find: string, markers: Markers)
    requires s <= |src| && AllLiteral(find)
    ensures MatchFrom(src, s, find, NO_CAPS, markers) ==
            if TextAt(src, s, find) then Some(Matched(s + |find|, NO_CAPS)) else None
    decreases |find|
  {
    if find != "" {
      assert IsLiteral(find[0]);
      if s < |src| {
        LiteralMatches(src, s + 1, find[1..], markers);
        TextAtFirst(src, s, find);
      }
    } else {
      assert src[s..s] == "";
    }
  }

  lemma {:induction false} TextAtFirst(src: string, s: nat, text: string)
    requires s < |src| && text != ""
    ensures TextAt(src, s, text) <==> src[s] == text[0] && TextAt(src, s + 1, text[1..])
  {
    if src[s] == text[0] && TextAt(src, s + 1, text[1..]) {
      assert src[s..s + |text|] == [src[s]] + src[s + 1..s + |text|] && text == [text[0]] + text[1..];
    }
    if TextAt(src, s, text) {
      assert src[s..s + |text|][0] == src[s] && src[s..s + |text|][1..] == src[s + 1..s + |text|];
    }
  }

  lemma {:induction false} LiteralExpands(template: string, caps: Caps, markers: Markers)
    requires AllLiteral(template)
    ensures Expand(template, caps, markers) == Some(template)
  {
    if template != "" {
      assert IsLiteral(template[0]);
      LiteralExpands(template[1..], caps, markers);
      assert [template[0]] + template[1..] == template;
    }
  }

  lemma {:induction false} LiteralGateReplaces(src: string, i: nat, gate: Gate, markers: Markers)
    requires i <= |src| && gate.find != "" && AllLiteral(gate.find) && AllLiteral(gate.replace)
    ensures Scan(src, i, [gate], markers) == Some(Replaced(src, i, gate.find, gate.replace))
    decreases |src| - i
  {
    hide MatchFrom, Expand;
    if i < |src| {
      LiteralMatches(src, i, gate.find, markers);
      assert IsLiteral(gate.find[0]);
      LiteralExpands(gate.replace, NO_CAPS, markers);
      assert MatchAt(src, i, [gate][0].find, markers).Some? <==> TextAt(src, i, gate.find);
      if TextAt(src, i, gate.find) {
        LiteralGateReplaces(src, i + |gate.find|, gate, markers);
      } else {
        LiteralGateReplaces(src, i + 1, gate, markers);
      }
    }
  }

  // ---- counting ----

  // Places where the pattern matches, each at or behind the end of the match before it.
  ghost predicate MatchesApartFrom(src: string, i: nat, find: string, markers: Markers, starts: seq<nat>)
    requires i <= |src|
    decreases |starts|
  {
    starts == [] || (i <= starts[0] <= |src| && MatchAt(src, starts[0], find, markers).Some?
                     && MatchesApartFrom(src, MatchAt(src, starts[0], find, markers).value.end, find, markers,
                          starts[1..]))
  }

  // The count is the largest number of matches that do not overlap.
  lemma {:induction false} CountIsMost(src: string, i: nat, find: string, markers: Markers, starts: seq<nat>)
    requires i <= |src| && MatchesApartFrom(src, i, find, markers, starts)
    ensures |starts| <= Count(src, i, find, markers)
    decreases |starts|
  {
    hide MatchAt;
    if starts != [] {
      CountIsMost(src, MatchAt(src, starts[0], find, markers).value.end, find, markers, starts[1..]);
      CountIsOrdered(src, i, starts[0], find, markers);
    }
  }

  lemma {:induction false} CountIsReached(src: string, i: nat, find: string, markers: Markers)
        returns (starts: seq<nat>)
    requires i <= |src|
    ensures MatchesApartFrom(src, i, find, markers, starts) && |starts| == Count(src, i, find, markers)
    decreases |src| - i
  {
    hide MatchAt;
    if i == |src| {
      return [];
    }
    match MatchAt(src, i, find, markers)
    case Some(m) =>
      var more := CountIsReached(src, m.end, find, markers);
      starts := [i] + more;
      assert starts[1..] == more;
    case None =>
      starts := CountIsReached(src, i + 1, find, markers);
  }
}
