// dylib/feats/webpatch.c: a pattern matcher with identifier captures, the template expander,
// and the one-pass rewriter with its two shortcuts.
module WebPatchMatch {
  import opened Options
  import opened Chars

  const CAP_MAX := 12
  // The control characters that stand for texts set at run time, such as a tool name.
  const MARKERS: set<char> := {'\U{11}', '\U{12}', '\U{17}', '\U{18}', '\U{19}', '\U{1A}', '\U{1B}', '\U{1C}'}

  // marker_text: every marker has a text, if only its default.
  type Markers = m: map<char, string> | m.Keys == MARKERS
    witness map c | c in MARKERS :: ""

  predicate IsIdent(c: char) {
    IsAlnum(c) || c == '_' || c == '$'
  }

  // cap_index: captures 1-8 are the codes 1-8, captures 9-12 the codes 19-22.
  predicate IsCap(c: char) { '\U{1}' <= c <= '\U{8}' || '\U{13}' <= c <= '\U{16}' }

  function CapIndex(c: char): (i: nat)
    requires IsCap(c)
    ensures i < CAP_MAX
  {
    if c <= '\U{8}' then c as nat - 1 else c as nat - 0x13 + 8
  }

  predicate IsLiteral(c: char) { !IsCap(c) && c !in MARKERS }

  datatype Cap = Unset | Run(text: string)

  type Caps = c: seq<Cap> | |c| == CAP_MAX
    witness seq(CAP_MAX, _ => Unset)

  const NO_CAPS: Caps := [Unset, Unset, Unset, Unset, Unset, Unset, Unset, Unset, Unset, Unset, Unset, Unset]

  predicate TextAt(src: string, s: nat, text: string) {
    s + |text| <= |src| && src[s..s + |text|] == text
  }

  // The length of the run of identifier characters at s.
  function RunLength(src: string, s: nat): (n: nat)
    requires s <= |src|
    ensures s + n <= |src| && (forall k :: s <= k < s + n ==> IsIdent(src[k]))
    ensures s + n == |src| || !IsIdent(src[s + n])
    decreases |src| - s
  {
    if s < |src| && IsIdent(src[s]) then 1 + RunLength(src, s + 1) else 0
  }

  datatype Matched = Matched(end: nat, caps: Caps)

  // One turn of match_at's loop: pattern character c at s, with the captures so far.
  function MatchOne(src: string, s: nat, c: char, caps: Caps, markers: Markers): (m: Option<Matched>)
    requires s <= |src|
    ensures m.Some? ==> s <= m.value.end <= |src|
  {
    if c in MARKERS then
      if TextAt(src, s, markers[c]) then Some(Matched(s + |markers[c]|, caps)) else None
    else if !IsCap(c) then
      if s < |src| && src[s] == c then Some(Matched(s + 1, caps)) else None
    else
      var run := RunLength(src, s);
      if run == 0 || IsDigit(src[s]) then None
      else
        var text, i := src[s..s + run], CapIndex(c);
        if caps[i].Unset? then Some(Matched(s + run, caps[i := Run(text)]))
        else if caps[i].text == text then Some(Matched(s + run, caps))
        else None
  }

  function MatchFrom(src: string, s: nat, find: string, caps: Caps, markers: Markers): (m: Option<Matched>)
    requires s <= |src|
    ensures m.Some? ==> s <= m.value.end <= |src|
    decreases |find|
  {
    if find == "" then Some(Matched(s, caps))
    else
      match MatchOne(src, s, find[0], caps, markers)
      case None => None
      case Some(m) => MatchFrom(src, m.end, find[1..], m.caps, markers)
  }

  // A pattern that begins with a capture starts only where an identifier may start.
  predicate LeftBoundary(src: string, pos: nat, find: string)
    requires pos <= |src|
  {
    find != "" && IsCap(find[0]) && pos > 0 ==> !IsIdent(src[pos - 1]) && src[pos - 1] != '.'
  }

  // match_at: a match of length 0 counts as none.
  function MatchAt(src: string, pos: nat, find: string, markers: Markers): (m: Option<Matched>)
    requires pos <= |src|
    ensures m.Some? ==> pos < m.value.end <= |src|
  {
    if !LeftBoundary(src, pos, find) then None
    else
      var m := MatchFrom(src, pos, find, NO_CAPS, markers);
      if m.Some? && m.value.end > pos then m else None
  }

  // out_expand: fails on a capture that was never set.
  function Expand(template: string, caps: Caps, markers: Markers): Option<string> {
    if template == "" then Some("")
    else
      match (Piece(template[0], caps, markers), Expand(template[1..], caps, markers))
      case (Some(head), Some(tail)) => Some(head + tail)
      case _ => None
  }

  function Piece(c: char, caps: Caps, markers: Markers): Option<string> {
    if c in MARKERS then Some(markers[c])
    else if !IsCap(c) then Some([c])
    else if caps[CapIndex(c)].Run? then Some(caps[CapIndex(c)].text)
    else None
  }

  // ---- what a match means, without the order in which captures are filled ----

  // A capture's text: a whole identifier run of src at s that does not begin with a digit.
  predicate WholeIdentifier(src: string, s: nat, text: string) {
    TextAt(src, s, text) && text != "" && !IsDigit(text[0]) && (forall k :: s <= k < s + |text| ==> IsIdent(src[k]))
    && (s + |text| == |src| || !IsIdent(src[s + |text|]))
  }

  // The pattern, with its captures replaced by the texts in caps, is src[s..e].
  predicate Fits(src: string, s: nat, find: string, caps: Caps, markers: Markers, e: nat)
    decreases |find|
  {
    if find == "" then s == e
    else
      && OneFits(src, s, find[0], caps, markers)
      && Fits(src, s + |Piece(find[0], caps, markers).value|, find[1..], caps, markers, e)
  }

  ghost predicate FitsSomehow(src: string, s: nat, find: string, markers: Markers, e: nat) {
    exists caps :: Fits(src, s, find, caps, markers, e)
  }

  // Every capture set in a is set to the same text in b.
  predicate Agree(a: Caps, b: Caps) {
    forall i :: 0 <= i < CAP_MAX && a[i].Run? ==> b[i] == a[i]
  }

  lemma {:induction false} RunLengthIs(src: string, s: nat, n: nat)
    requires s + n <= |src| && (forall k :: s <= k < s + n ==> IsIdent(src[k]))
    requires s + n == |src| || !IsIdent(src[s + n])
    ensures RunLength(src, s) == n
    decreases n
  {
    if n > 0 {
      RunLengthIs(src, s + 1, n - 1);
    }
  }

  lemma {:induction false} WholeIdentifierIsTheRun(src: string, s: nat, text: string)
    requires s <= |src| && WholeIdentifier(src, s, text)
    ensures RunLength(src, s) == |text| && text == src[s..s + |text|] && !IsDigit(src[s])
  {
    RunLengthIs(src, s, |text|);
  }

  lemma {:induction false} TheRunIsAWholeIdentifier(src: string, s: nat, n: nat, text: string)
    requires 0 < n && s + n <= |src| && text == src[s..s + n] && !IsDigit(src[s])
    requires forall k :: s <= k < s + n ==> IsIdent(src[k])
    requires s + n == |src| || !IsIdent(src[s + n])
    ensures WholeIdentifier(src, s, text)
  {
    hide IsIdent, IsDigit;
    assert TextAt(src, s, text) && |text| == n;
  }

  // What the pattern character stands for under caps is src[s..e].
  predicate OneFits(src: string, s: nat, c: char, caps: Caps, markers: Markers) {
    && Piece(c, caps, markers).Some?
    && TextAt(src, s, Piece(c, caps, markers).value)
    && (IsCap(c) ==> WholeIdentifier(src, s, Piece(c, caps, markers).value))
  }

  lemma {:induction false} MatchOneFits(src: string, s: nat, c: char, caps: Caps, markers: Markers, goal: Caps)
    requires s <= |src| && MatchOne(src, s, c, caps, markers).Some?
    requires Agree(MatchOne(src, s, c, caps, markers).value.caps, goal)
    ensures Agree(caps, goal) && OneFits(src, s, c, goal, markers)
    ensures MatchOne(src, s, c, caps, markers).value.end == s + |Piece(c, goal, markers).value|
  {
    var m := MatchOne(src, s, c, caps, markers).value;
    if c !in MARKERS && IsCap(c) {
      var i, text := CapIndex(c), src[s..m.end];
      TheRunIsAWholeIdentifier(src, s, RunLength(src, s), text);
      assert m.caps[i] == Run(text);
      forall k | 0 <= k < CAP_MAX && caps[k].Run? ensures goal[k] == caps[k] {
        assert m.caps[k] == caps[k];
      }
    }
  }

  lemma {:induction false} FittingMatchesOne(src: string, s: nat, c: char, caps: Caps, markers: Markers, goal: Caps)
    requires s <= |src| && OneFits(src, s, c, goal, markers) && Agree(caps, goal)
    ensures var m := MatchOne(src, s, c, caps, markers);
            m.Some? && m.value.end == s + |Piece(c, goal, markers).value| && Agree(m.value.caps, goal)
  {
    if c !in MARKERS && IsCap(c) {
      WholeIdentifierIsTheRun(src, s, Piece(c, goal, markers).value);
    }
  }

  lemma {:induction false} MatchFits(src: string, s: nat, find: string, caps: Caps, markers: Markers)
    requires s <= |src| && MatchFrom(src, s, find, caps, markers).Some?
    ensures var m := MatchFrom(src, s, find, caps, markers).value;
            Agree(caps, m.caps) && Fits(src, s, find, m.caps, markers, m.end)
    decreases |find|
  {
    hide MatchOne, Piece;
    if find == "" {
    } else {
      var one := MatchOne(src, s, find[0], caps, markers).value;
      MatchFits(src, one.end, find[1..], one.caps, markers);
      MatchOneFits(src, s, find[0], caps, markers, MatchFrom(src, s, find, caps, markers).value.caps);
    }
  }

  lemma {:induction false} FittingMatches(src: string, s: nat, find: string, caps: Caps, markers: Markers, goal: Caps,
        e: nat)
    requires s <= |src| && Fits(src, s, find, goal, markers, e) && Agree(caps, goal)
    ensures var m := MatchFrom(src, s, find, caps, markers); m.Some? && m.value.end == e && Agree(m.value.caps, goal)
    decreases |find|
  {
    hide MatchOne, Piece, Agree;
    if find != "" {
      FittingMatchesOne(src, s, find[0], caps, markers, goal);
      var one := MatchOne(src, s, find[0], caps, markers).value;
      FittingMatches(src, one.end, find[1..], one.caps, markers, goal, e);
    }
  }

  // match_at succeeds with length n exactly when some choice of capture texts makes the
  // pattern spell src[pos..pos+n], and the choice it finds is one of them.
  lemma {:induction false} MatchMeans(src: string, pos: nat, find: string, markers: Markers, n: nat)
    requires pos <= |src| && n > 0
    ensures (MatchAt(src, pos, find, markers).Some? && MatchAt(src, pos, find, markers).value.end == pos + n)
       <==> LeftBoundary(src, pos, find) && FitsSomehow(src, pos, find, markers, pos + n)
  {
    hide MatchFrom;
    var m := MatchAt(src, pos, find, markers);
    if m.Some? {
      MatchFits(src, pos, find, NO_CAPS, markers);
    }
    var e := pos + n;
    if LeftBoundary(src, pos, find) && FitsSomehow(src, pos, find, markers, e) {
      var caps: Caps :| Fits(src, pos, find, caps, markers, e);
      FittingMatches(src, pos, find, NO_CAPS, markers, caps, e);
    }
  }

  // Expanding the pattern itself gives back the bytes it matched.
  lemma {:induction false} ExpandingThePattern(src: string, s: nat, find: string, caps: Caps, markers: Markers, e: nat)
    requires s <= |src| && Fits(src, s, find, caps, markers, e)
    ensures s <= e <= |src| && Expand(find, caps, markers) == Some(src[s..e])
    decreases |find|
  {
    if find == "" {
      assert src[s..s] == "";
    } else {
      var next := s + |Piece(find[0], caps, markers).value|;
      ExpandingThePattern(src, next, find[1..], caps, markers, e);
      assert src[s..e] == src[s..next] + src[next..e];
    }
  }

  lemma {:induction false} MatchExpandsToItself(src: string, pos: nat, find: string, markers: Markers)
    requires pos <= |src| && MatchAt(src, pos, find, markers).Some?
    ensures var m := MatchAt(src, pos, find, markers).value; Expand(find, m.caps, markers) == Some(src[pos..m.end])
  {
    MatchFits(src, pos, find, NO_CAPS, markers);
    var m := MatchAt(src, pos, find, markers).value;
    ExpandingThePattern(src, pos, find, m.caps, markers, m.end);
  }

  // The body of match_at's loop: the position after pattern character c.
  method MatchElement(src: string, s: nat, c: char, markers: Markers, caps: array<Cap>) returns (next: Option<nat>)
    requires s <= |src| && caps.Length == CAP_MAX
    modifies caps
    ensures match MatchOne(src, s, c, old(caps[..]), markers)
            case Some(m) => next == Some(m.end) && caps[..] == m.caps
            case None => next == None
  {
    if c in MARKERS {
      var text := markers[c];
      if s + |text| > |src| || src[s..s + |text|] != text {
        return None;
      }
      return Some(s + |text|);
    }
    if !IsCap(c) {
      if s >= |src| || src[s] != c {
        return None;
      }
      return Some(s + 1);
    }
    if s >= |src| || IsDigit(src[s]) {
      return None;
    }
    var run := 0;
    while s + run < |src| && IsIdent(src[s + run])
      invariant s + run <= |src| && RunLength(src, s) == run + RunLength(src, s + run)
    {
      run := run + 1;
    }
    if run == 0 {
      return None;
    }
    var ci := CapIndex(c);
    if caps[ci].Run? {
      if caps[ci].text != src[s..s + run] {
        return None;
      }
    } else {
      caps[ci] := Run(src[s..s + run]);
      assert caps[..] == old(caps[..])[ci := Run(src[s..s + run])];
    }
    return Some(s + run);
  }

  // match_at, filling the caller's array.
  method Match(src: string, pos: nat, find: string, markers: Markers, caps: array<Cap>) returns (used: nat)
    requires pos < |src| && caps.Length == CAP_MAX
    modifies caps
    ensures match MatchAt(src, pos, find, markers)
            case Some(m) => used == m.end - pos > 0 && caps[..] == m.caps
            case None => used == 0
  {
    if find == "" || (IsLiteral(find[0]) && src[pos] != find[0]) {
      return 0;
    }
    for i := 0 to CAP_MAX
      invariant forall k :: 0 <= k < i ==> caps[k] == Unset
    {
      caps[i] := Unset;
    }
    assert caps[..] == NO_CAPS;
    if IsCap(find[0]) && pos > 0 && (IsIdent(src[pos - 1]) || src[pos - 1] == '.') {
      return 0;
    }
    var s := pos;
    for f := 0 to |find|
      invariant pos <= s <= |src|
      invariant MatchFrom(src, pos, find, NO_CAPS, markers) == MatchFrom(src, s, find[f..], caps[..], markers)
    {
      ghost var rest := find[f..];
      assert rest[0] == find[f] && rest[1..] == find[f + 1..];
      var next := MatchElement(src, s, find[f], markers, caps);
      if next.None? {
        return 0;
      }
      s := next.value;
    }
    used := s - pos;
  }
}
