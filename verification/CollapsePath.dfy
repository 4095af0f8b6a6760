// lsteamclient/unixlib.cpp: collapse_path, which tidies a Windows path in place. The buffer is
// edited with moving pointers; the specification works on the list of components.
module CollapsePath {
  import opened Numbers
  import opened Pieces

  // The buffer holds `text` and its terminator.
  ghost predicate IsText(path: array<char>, text: string)
    reads path
  {
    |text| < path.Length && path[..|text|] == text && path[|text|] == '\0' && '\0' !in text
  }

  // ---- the specification ----

  function Backslashed(text: string): (s: string)
    ensures |s| == |text| && '/' !in s
    ensures forall i :: 0 <= i < |text| ==> s[i] == if text[i] == '/' then '\\' else text[i]
  {
    if text == "" then ""
    else Backslashed(text[..|text| - 1]) + [if text[|text| - 1] == '/' then '\\' else text[|text| - 1]]
  }

  // The second loop: a backslash right after a kept backslash is dropped.
  function Squeeze(kept: string, rest: string): (s: string)
    requires kept != ""
    ensures |kept| <= |s| <= |kept| + |rest| && s[..|kept|] == kept
    decreases |rest|
  {
    if rest == "" then kept
    else if rest[0] == '\\' && kept[|kept| - 1] == '\\' then Squeeze(kept, rest[1..])
    else Squeeze(kept + [rest[0]], rest[1..])
  }

  function Pop(done: seq<string>): seq<string> {
    if done == [] then [] else done[..|done| - 1]
  }

  function OrRoot(done: seq<string>): (cs: seq<string>)
    ensures cs != []
  {
    if done == [] then [""] else done
  }

  // Ordinary resolution of "." and "..", which never climbs above the mark.
  function Resolve(done: seq<string>, todo: seq<string>): (cs: seq<string>)
    requires todo != []
    ensures cs != []
    decreases |todo|
  {
    if |todo| == 1 then
      if todo[0] == "." then OrRoot(done) else if todo[0] == ".." then OrRoot(Pop(done)) else done + todo
    else if todo[0] == "." then Resolve(done, todo[1..])
    else if todo[0] == ".." then Resolve(Pop(done), todo[1..])
    else Resolve(done + [todo[0]], todo[1..])
  }

  // A directory name loses one trailing dot, the last name all trailing dots and spaces.
  function Undotted(c: string): string {
    if c != "" && c[|c| - 1] == '.' then c[..|c| - 1] else c
  }

  function TrimEnd(s: string): (t: string)
    ensures t <= s
    ensures t == "" || t[|t| - 1] !in " ."
    ensures forall k :: |t| <= k < |s| ==> s[k] in " ."
  {
    if s != "" && s[|s| - 1] in " ." then TrimEnd(s[..|s| - 1]) else s
  }

  function Polished(cs: seq<string>): (ps: seq<string>)
    requires cs != []
    ensures |ps| == |cs|
  {
    if |cs| == 1 then [TrimEnd(cs[0])] else [Undotted(cs[0])] + Polished(cs[1..])
  }

  function Squeezed(text: string, mark: nat): (s: string)
    requires Max(1, mark) <= |text|
    ensures mark <= |s| <= |text| && s[..mark] == Backslashed(text)[..mark]
  {
    var b, m := Backslashed(text), Max(1, mark);
    var s := Squeeze(b[..m], b[m..]);
    assert s[..mark] == s[..m][..mark];
    s
  }

  // The components that are left after resolution, as they were spelled.
  function Kept(text: string, mark: nat): (cs: seq<string>)
    requires Max(1, mark) <= |text|
    ensures cs != []
  {
    Resolve([], Cut('\\', Squeezed(text, mark)[mark..]))
  }

  function Collapsed(text: string, mark: nat): string
    requires Max(1, mark) <= |text|
  {
    Squeezed(text, mark)[..mark] + Glue('\\', Polished(Kept(text, mark)))
  }

  // Directories as the buffer holds them while the walk is under way.
  function Dirs(raw: seq<string>): string {
    if raw == [] then "" else Dirs(raw[..|raw| - 1]) + Undotted(raw[|raw| - 1]) + "\\"
  }

  lemma {:induction false} DirsThenLast(raw: seq<string>, last: string)
    ensures Glue('\\', Polished(raw + [last])) == Dirs(raw) + TrimEnd(last)
    decreases |raw|
  {
    hide Undotted, TrimEnd;
    if raw == [] {
      assert raw + [last] == [last];
    } else {
      assert (raw + [last])[1..] == raw[1..] + [last];
      DirsThenLast(raw[1..], last);
      DirsFromFront(raw);
    }
  }

  lemma {:induction false} DirsFromFront(raw: seq<string>)
    requires raw != []
    ensures Dirs(raw) == Undotted(raw[0]) + "\\" + Dirs(raw[1..])
    decreases |raw|
  {
    hide Undotted;
    var init, n := raw[..|raw| - 1], |raw| - 1;
    if n == 0 {
      assert raw == [raw[0]] && Dirs(init) == "";
    } else {
      DirsFromFront(init);
      assert init[1..] == raw[1..][..n - 1];
    }
  }

  // ---- the code ----

  method ConvertSlashes(path: array<char>, ghost text: string)
    requires IsText(path, text)
    modifies path
    ensures IsText(path, Backslashed(text))
  {
    var p := 0;
    ghost var s := Backslashed(text);
    while path[p] != '\0'
      invariant p <= |text| < path.Length && path[|text|] == '\0'
      invariant path[..p] == s[..p] && forall k :: p <= k < |text| ==> path[k] == text[k]
      decreases |text| - p
    {
      if path[p] == '/' { path[p] := '\\'; }
      assert path[..p + 1] == s[..p] + [s[p]];
      p := p + 1;
    }
  }

  lemma {:induction false} SqueezeOne(kept: string, text: string, p: nat)
    requires kept != "" && p < |text|
    ensures Squeeze(kept, text[p..]) ==
            Squeeze(if text[p] == '\\' && kept[|kept| - 1] == '\\' then kept else kept + [text[p]], text[p + 1..])
  {
    assert text[p..][1..] == text[p + 1..];
  }

  method CollapseBackslashes(path: array<char>, mark: nat, ghost text: string)
    requires IsText(path, text) && Max(1, mark) <= |text|
    modifies path
    ensures IsText(path, Squeeze(text[..Max(1, mark)], text[Max(1, mark)..]))
  {
    hide Squeeze;
    var next := Max(1, mark);
    var p := next;
    ghost var kept := text[..next];
    ghost var goal := Squeeze(kept, text[next..]);
    while path[p] != '\0'
      invariant 1 <= next <= p <= |text| < path.Length && path[|text|] == '\0'
      invariant forall k :: p <= k < |text| ==> path[k] == text[k]
      invariant |kept| == next && path[..next] == kept && '\0' !in kept
      invariant Squeeze(kept, text[p..]) == goal
      decreases |text| - p
    {
      SqueezeOne(kept, text, p);
      assert kept[next - 1] == path[..next][next - 1] == path[next - 1];
      if path[p] != '\\' || path[next - 1] != '\\' {
        path[next] := path[p];
        assert path[..next + 1] == kept + [text[p]];
        kept := kept + [text[p]];
        next := next + 1;
      }
      p := p + 1;
    }
    path[next] := '\0';
  }

  // Closes the gap between `to` and `from`: the text after it moves down, terminator and all.
  method MoveDown(path: array<char>, to: nat, from: nat, ghost text: string)
    requires IsText(path, text) && to < from <= |text|
    modifies path
    ensures IsText(path, text[..to] + text[from..])
  {
    ghost var goal := text[..to] + text[from..];
    assert '\0' !in goal;
    var k := 0;
    while path[from + k] != '\0'
      invariant from + k <= |text| < path.Length && path[|text|] == '\0'
      invariant forall j :: 0 <= j < to + k ==> path[j] == goal[j]
      invariant forall j :: from + k <= j < |text| ==> path[j] == text[j]
      decreases |text| - k
    {
      assert goal[to + k] == text[from + k];
      path[to + k] := path[from + k];
      k := k + 1;
    }
    path[to + k] := '\0';
  }

  ghost predicate Names(raw: seq<string>) { forall c <- raw :: '\\' !in c && c != "." && c != ".." }

  function Step(raw: seq<string>, c: string): seq<string> {
    if c == "." then raw else if c == ".." then Pop(raw) else raw + [c]
  }

  lemma {:induction false} ResolveOne(raw: seq<string>, rest: string)
    ensures var c := FirstPiece('\\', rest);
            Resolve(raw, Cut('\\', rest)) ==
            if |c| < |rest| then Resolve(Step(raw, c), Cut('\\', rest[|c| + 1..])) else Resolve(raw, [rest])
  {
    var c := FirstPiece('\\', rest);
    if |c| < |rest| {
      assert Cut('\\', rest)[0] == c && Cut('\\', rest)[1..] == Cut('\\', rest[|c| + 1..]);
    }
  }

  lemma {:induction false} LeadingDots(rest: string)
    requires rest != ""
    ensures FirstPiece('\\', rest) == "." <==> rest[0] == '.' && (|rest| == 1 || rest[1] == '\\')
    ensures FirstPiece('\\', rest) == ".." <==>
            |rest| > 1 && rest[0] == rest[1] == '.' && (|rest| == 2 || rest[2] == '\\')
  {
    var c := FirstPiece('\\', rest);
    assert forall i :: 0 <= i < |c| ==> c[i] == rest[i];
  }

  lemma {:induction false} Splice(a: string, b: string, to: nat, from: nat)
    requires to <= |a| <= from <= |a + b|
    ensures (a + b)[..to] + (a + b)[from..] == a[..to] + b[from - |a|..]
    ensures a[..|a|] == a
  {}

  lemma {:induction false} DirsOfPop(prefix: string, raw: seq<string>)
    ensures Dirs(Pop(raw)) <= Dirs(raw)
    ensures var k := |prefix + Dirs(Pop(raw))|; (prefix + Dirs(raw))[..k] == prefix + Dirs(Pop(raw))
  {}

  lemma {:induction false} TextFromPop(prefix: string, raw: seq<string>, rest: string)
    ensures var text, k := prefix + Dirs(raw) + rest, |prefix + Dirs(Pop(raw))|;
            k <= |text| && text == prefix + Dirs(Pop(raw)) + text[k..]
  {
    hide Dirs;
    DirsOfPop(prefix, raw);
    var d, text, k := prefix + Dirs(raw), prefix + Dirs(raw) + rest, |prefix + Dirs(Pop(raw))|;
    assert text[..k] == d[..k];
  }

  // From just behind a directory's backslash back to where that directory begins, but not past the mark.
  method StepBack(path: array<char>, mark: nat, start: nat,
      ghost prefix: string, ghost raw: seq<string>, ghost rest: string) returns (p: nat)
    requires IsText(path, prefix + Dirs(raw) + rest) && mark == |prefix|
    requires Names(raw) && raw != [] && start == |prefix + Dirs(raw)|
    ensures p == |prefix + Dirs(Pop(raw))|
  {
    ghost var init, u := Pop(raw), Undotted(raw[|raw| - 1]);
    ghost var text := prefix + Dirs(raw) + rest;
    p := start - 1;
    ghost var low := mark + |Dirs(init)|;
    assert Dirs(raw) == Dirs(init) + u + "\\";
    assert forall k :: low <= k < low + |u| ==> path[k] == text[k] == u[k - low];
    assert '\\' !in raw[|raw| - 1];
    assert forall k :: low <= k < low + |u| ==> path[k] != '\\';
    assert low > mark ==> path[low - 1] == text[low - 1] == '\\';
    while p > mark && path[p - 1] != '\\'
      invariant low <= p <= low + |u|
    {
      p := p - 1;
    }
  }

  // From the start of a component to the backslash or terminator that ends it.
  method SkipName(path: array<char>, start: nat, ghost before: string, ghost rest: string) returns (p: nat)
    requires IsText(path, before + rest) && start == |before|
    ensures p == start + |FirstPiece('\\', rest)|
  {
    p := start;
    ghost var n, c := start + |FirstPiece('\\', rest)|, FirstPiece('\\', rest);
    assert forall k :: start <= k < n ==> path[k] == (before + rest)[k] == c[k - start];
    assert n < |before + rest| ==> path[n] == (before + rest)[n] == rest[n - start];
    while path[p] != '\0' && path[p] != '\\'
      invariant start <= p <= n
      decreases n - p
    {
      p := p + 1;
    }
  }

  // What the buffer holds past the mark once the walk is over: every directory, and the last
  // name before its trailing dots and spaces are cut.
  ghost predicate Walked(kept: seq<string>, raw: seq<string>, last: string)
    requires kept != []
  {
    raw == kept[..|kept| - 1] && TrimEnd(last) == TrimEnd(kept[|kept| - 1]) && Names(raw) && '\\' !in last
  }

  lemma {:induction false} TrimEndOfUndotted(c: string)
    ensures TrimEnd(Undotted(c)) == TrimEnd(c)
  {}

  lemma {:induction false} DirsEnd(raw: seq<string>)
    ensures Dirs(raw) == "" <==> raw == []
    ensures raw != [] ==> Dirs(raw)[|Dirs(raw)| - 1] == '\\'
  {}

  // The name left at the end when the backslash after the last directory is cut.
  function ChoppedName(raw: seq<string>): string {
    if raw == [] then "" else Undotted(raw[|raw| - 1])
  }

  // Case "final .": the text loses the backslash before it, if any.
  lemma {:induction false} ChopDirs(prefix: string, raw: seq<string>)
    requires raw != []
    ensures var t := prefix + Dirs(raw); t[..|t| - 1] == prefix + Dirs(Pop(raw)) + Undotted(raw[|raw| - 1])
  {}

  lemma {:induction false} FinalDot(raw: seq<string>)
    requires Names(raw)
    ensures Resolve(raw, ["."]) == OrRoot(raw)
    ensures Walked(OrRoot(raw), Pop(raw), ChoppedName(raw))
  {
    if raw != [] {
      var c := raw[|raw| - 1];
      TrimEndOfUndotted(c);
      assert '\\' !in c;
      assert Undotted(c) <= c;
    }
  }

  lemma {:induction false} FinalDotDot(raw: seq<string>)
    requires Names(raw)
    ensures Resolve(raw, [".."]) == Resolve(Pop(raw), ["."]) && Names(Pop(raw))
  {
    assert |"."| == 1 && |".."| == 2;
    assert forall c <- Pop(raw) :: c in raw;
  }

  lemma {:induction false} FinalName(raw: seq<string>, c: string)
    requires Names(raw) && '\\' !in c && c != "." && c != ".."
    ensures Walked(Resolve(raw, [c]), raw, c)
  {
    var kept := Resolve(raw, [c]);
    assert kept == raw + [c];
    assert kept[..|kept| - 1] == raw && kept[|kept| - 1] == c;
  }

  lemma {:induction false} Regroup(a: string, b: string, c: string, d: string)
    ensures a + (b + c + "\\") + d == a + b + c + ("\\" + d)
  {
    assert b + c + "\\" == b + (c + "\\");
  }

  lemma {:induction false} DirsOfOneMore(raw: seq<string>, c: string)
    ensures Dirs(raw + [c]) == Dirs(raw) + Undotted(c) + "\\"
  {
    assert (raw + [c])[..|raw|] == raw;
  }

  // A name followed by a backslash, in the buffer and in the list of names.
  lemma {:induction false} OneMoreDir(prefix: string, raw: seq<string>, c: string, rest: string)
    requires Names(raw) && c == FirstPiece('\\', rest) && |c| < |rest| && c != "." && c != ".."
    ensures Names(raw + [c])
    ensures prefix + Dirs(raw + [c]) + rest[|c| + 1..] == prefix + Dirs(raw) + Undotted(c) + rest[|c|..]
  {
    hide Dirs, Undotted, FirstPiece;
    assert rest[|c|..] == "\\" + rest[|c| + 1..];
    DirsOfOneMore(raw, c);
    Regroup(prefix, Dirs(raw), Undotted(c), rest[|c| + 1..]);
  }

  // What the code reads just before the backslash that ends a name.
  lemma {:induction false} DotBefore(before: string, c: string, rest: string, p: nat)
    requires c <= rest && p == |before| + |c|
    ensures c != "" ==> (before + rest)[p - 1] == c[|c| - 1]
    ensures c == "" && before != "" ==> (before + rest)[p - 1] == before[p - 1]
    ensures (before + rest)[p..] == rest[|c|..]
    ensures (before + rest)[..p] == before + c
    ensures c != "" ==> (before + rest)[..p - 1] == before + c[..|c| - 1]
  {}

  // The walk stands at p, before the component that `rest` starts with.
  ghost predicate Walking(path: array<char>, p: nat, prefix: string, raw: seq<string>, rest: string)
    reads path
  {
    Names(raw) && p == |prefix + Dirs(raw)| && IsText(path, prefix + Dirs(raw) + rest)
  }

  // The walk stands at the end of the buffer's text.
  ghost predicate Ended(path: array<char>, p: nat, prefix: string, raw: seq<string>, last: string)
    reads path
  {
    p == |prefix + Dirs(raw) + last| && IsText(path, prefix + Dirs(raw) + last)
  }

  lemma {:induction false} WalkingStarts(path: array<char>, text: string, mark: nat)
    requires IsText(path, text) && mark <= |text|
    ensures Walking(path, mark, text[..mark], [], text[mark..])
  {
    assert text[..mark] + "" + text[mark..] == text && text[..mark] + "" == text[..mark];
  }

  lemma {:induction false} WalkingEnds(path: array<char>, p: nat, prefix: string, raw: seq<string>)
    requires Walking(path, p, prefix, raw, "")
    ensures Names(raw) && Ended(path, p, prefix, raw, "")
  {
    assert prefix + Dirs(raw) + "" == prefix + Dirs(raw);
  }

  lemma {:induction false} AtEnd(path: array<char>, p: nat, prefix: string, raw: seq<string>, last: string)
    requires Ended(path, p, prefix, raw, last)
    ensures p < path.Length && path[p] == '\0'
  {}

  lemma {:induction false} Peek(path: array<char>, p: nat, prefix: string, raw: seq<string>, rest: string)
    requires Walking(path, p, prefix, raw, rest)
    ensures Names(raw) && '\0' !in rest && p + |rest| < path.Length && path[p + |rest|] == '\0'
    ensures |rest| > 0 ==> path[p] == rest[0]
    ensures |rest| > 1 ==> path[p + 1] == rest[1]
    ensures |rest| > 2 ==> path[p + 2] == rest[2]
    ensures p > |prefix| <==> raw != []
  {
    DirsEnd(raw);
    assert forall k :: p <= k < p + |rest| ==> path[k] == (prefix + Dirs(raw) + rest)[k] == rest[k - p];
  }

  // A "." directory is dropped.
  method DropDot(path: array<char>, p: nat, ghost prefix: string, ghost raw: seq<string>, ghost rest: string)
    requires Walking(path, p, prefix, raw, rest) && |rest| >= 2
    modifies path
    ensures Walking(path, p, prefix, raw, rest[2..])
  {
    MoveDown(path, p, p + 2, prefix + Dirs(raw) + rest);
    Splice(prefix + Dirs(raw), rest, p, p + 2);
  }

  // A ".." directory is dropped with the directory before it.
  method DropDotDot(path: array<char>, mark: nat, start: nat,
      ghost prefix: string, ghost raw: seq<string>, ghost rest: string) returns (p: nat)
    requires Walking(path, start, prefix, raw, rest) && |rest| >= 3 && mark == |prefix|
    modifies path
    ensures Walking(path, p, prefix, Pop(raw), rest[3..])
  {
    hide Dirs;
    Peek(path, start, prefix, raw, rest);
    p := start;
    var next := p + 3;
    if p > mark {
      p := StepBack(path, mark, p, prefix, raw, rest);
    }
    DirsOfPop(prefix, raw);
    FinalDotDot(raw);
    assert raw == [] ==> Pop(raw) == raw;
    MoveDown(path, p, next, prefix + Dirs(raw) + rest);
    Splice(prefix + Dirs(raw), rest, p, next);
  }

  // Ends the text here, and takes the backslash before it away too unless that is the mark's.
  method CutHere(path: array<char>, mark: nat, start: nat,
      ghost prefix: string, ghost raw: seq<string>, ghost rest: string) returns (p: nat)
    requires Walking(path, start, prefix, raw, rest) && mark == |prefix|
    modifies path
    ensures Ended(path, p, prefix, Pop(raw), ChoppedName(raw))
  {
    DirsEnd(raw);
    p := start;
    if p > mark {
      p := p - 1;
      ChopDirs(prefix, raw);
      assert (prefix + Dirs(raw) + rest)[..p] == (prefix + Dirs(raw))[..p];
    }
    path[p] := '\0';
  }

  // final ..
  method EndAtDotDot(path: array<char>, mark: nat, start: nat,
      ghost prefix: string, ghost raw: seq<string>, ghost rest: string) returns (p: nat)
    requires Walking(path, start, prefix, raw, rest) && mark == |prefix|
    modifies path
    ensures Ended(path, p, prefix, Pop(Pop(raw)), ChoppedName(Pop(raw)))
  {
    hide Dirs;
    Peek(path, start, prefix, raw, rest);
    p := start;
    ghost var k := |prefix + Dirs(Pop(raw))|;
    TextFromPop(prefix, raw, rest);
    FinalDotDot(raw);
    if p > mark {
      p := StepBack(path, mark, p, prefix, raw, rest);
    } else {
      assert Dirs(Pop(raw)) == Dirs(raw);
    }
    ghost var tail := (prefix + Dirs(raw) + rest)[k..];
    p := CutHere(path, mark, p, prefix, Pop(raw), tail);
  }

  // Any other component: skipped, and a directory name loses its last dot.
  method TakeName(path: array<char>, mark: nat, start: nat,
      ghost prefix: string, ghost raw: seq<string>, ghost rest: string) returns (p: nat)
    requires Walking(path, start, prefix, raw, rest) && mark == |prefix|
    requires FirstPiece('\\', rest) != "." && FirstPiece('\\', rest) != ".."
    modifies path
    ensures var c := FirstPiece('\\', rest);
            if |c| < |rest| then Walking(path, p, prefix, raw + [c], rest[|c| + 1..])
            else Ended(path, p, prefix, raw, rest)
  {
    hide Dirs;
    ghost var before, c := prefix + Dirs(raw), FirstPiece('\\', rest);
    ghost var text := before + rest;
    p := SkipName(path, start, before, rest);
    assert path[p] == if |c| < |rest| then rest[|c|] else '\0' by {
      if |c| < |rest| { assert path[p] == text[p] == rest[|c|]; }
    }
    if path[p] == '\\' {
      OneMoreDir(prefix, raw, c, rest);
      DotBefore(before, c, rest, p);
      assert p > 0 ==> path[p - 1] == text[p - 1];
      DirsEnd(raw);
      DirsOfOneMore(raw, c);
      assert c == "" && p > mark ==> before[p - 1] == '\\';
      if p > mark && path[p - 1] == '.' {
        assert Undotted(c) == c[..|c| - 1];
        MoveDown(path, p - 1, p, text);
      } else {
        p := p + 1;
        assert Undotted(c) == c;
        assert text == before + c + rest[|c|..];
      }
    } else {
      assert c == rest;
    }
  }

  method RemoveComponents(path: array<char>, mark: nat, ghost text: string)
      returns (p: nat, ghost raw: seq<string>, ghost last: string)
    requires IsText(path, text) && mark <= |text|
    modifies path
    ensures Walked(Resolve([], Cut('\\', text[mark..])), raw, last)
    ensures Ended(path, p, text[..mark], raw, last)
  {
    hide Cut, Resolve, FirstPiece, Walking, Ended, Walked, Dirs, Pop, Undotted;
    p, raw, last := mark, [], "";
    ghost var prefix, rest, finished := text[..mark], text[mark..], false;
    ghost var goal := Resolve([], Cut('\\', rest));
    WalkingStarts(path, text, mark);
    Peek(path, p, prefix, raw, rest);
    while path[p] != '\0'
      invariant p < path.Length && (finished ==> path[p] == '\0')
      invariant if finished then Walked(goal, raw, last) && Ended(path, p, prefix, raw, last)
                else last == "" && Walking(path, p, prefix, raw, rest) && Resolve(raw, Cut('\\', rest)) == goal
      decreases |rest|
    {
      Peek(path, p, prefix, raw, rest);
      ghost var c := FirstPiece('\\', rest);
      ResolveOne(raw, rest);
      LeadingDots(rest);
      if path[p] == '.' && path[p + 1] == '\\' {
        DropDot(path, p, prefix, raw, rest);
        rest := rest[2..];
      } else if path[p] == '.' && path[p + 1] == '\0' {
        assert rest == ".";
        FinalDot(raw);
        p := CutHere(path, mark, p, prefix, raw, rest);
        rest, finished, raw, last := "", true, Pop(raw), ChoppedName(raw);
      } else if path[p] == '.' && path[p + 1] == '.' && path[p + 2] == '\\' {
        p := DropDotDot(path, mark, p, prefix, raw, rest);
        raw, rest := Pop(raw), rest[3..];
      } else if path[p] == '.' && path[p + 1] == '.' && path[p + 2] == '\0' {
        assert rest == "..";
        FinalDotDot(raw);
        FinalDot(Pop(raw));
        p := EndAtDotDot(path, mark, p, prefix, raw, rest);
        rest, finished, raw, last := "", true, Pop(Pop(raw)), ChoppedName(Pop(raw));
      } else {
        p := TakeName(path, mark, p, prefix, raw, rest);
        if |c| < |rest| {
          raw, rest := raw + [c], rest[|c| + 1..];
        } else {
          assert c == rest;
          FinalName(raw, c);
          rest, finished, last := "", true, c;
        }
      }
      if finished {
        AtEnd(path, p, prefix, raw, last);
      } else {
        Peek(path, p, prefix, raw, rest);
      }
    }
    if !finished {
      Peek(path, p, prefix, raw, rest);
      ResolveOne(raw, rest);
      assert rest == "" == last;
      WalkingEnds(path, p, prefix, raw);
      FinalName(raw, "");
    }
  }

  lemma {:induction false} TrimOne(before: string, left: string)
    ensures left == "" || left[|left| - 1] !in " ." ==> TrimEnd(left) == left
    ensures left != "" && left[|left| - 1] in " ." ==> TrimEnd(left) == TrimEnd(left[..|left| - 1])
    ensures left != "" ==> (before + left)[..|before + left| - 1] == before + left[..|left| - 1]
    ensures left != "" ==> (before + left)[|before + left| - 1] == left[|left| - 1]
  {}

  // Cuts the dots and spaces off the end of the text, but nothing before the mark.
  method TrimTrailing(path: array<char>, mark: nat, start: nat, ghost before: string, ghost last: string)
    requires IsText(path, before + last) && start == |before + last| && mark <= |before|
    requires |before| > mark ==> before[|before| - 1] == '\\'
    modifies path
    ensures IsText(path, before + TrimEnd(last))
  {
    hide TrimEnd;
    ghost var left := last;
    var p := start;
    while p > mark && (path[p - 1] == ' ' || path[p - 1] == '.')
      invariant p == |before + left| < path.Length && path[..p] == before + left && '\0' !in path[..p]
      invariant TrimEnd(left) == TrimEnd(last)
      decreases p
    {
      assert path[p - 1] == path[..p][p - 1];
      assert before + "" == before;
      assert path[..p - 1] == path[..p][..p - 1];
      TrimOne(before, left);
      left := left[..|left| - 1];
      p := p - 1;
    }
    assert p > 0 ==> path[p - 1] == path[..p][p - 1];
    TrimOne(before, left);
    assert left == TrimEnd(left);
    path[p] := '\0';
  }

  lemma {:induction false} CollapsedWhenWalked(text: string, mark: nat, raw: seq<string>, last: string)
    requires Max(1, mark) <= |text| && Walked(Kept(text, mark), raw, last)
    ensures Collapsed(text, mark) == Squeezed(text, mark)[..mark] + Dirs(raw) + TrimEnd(last)
  {
    hide Dirs, TrimEnd, Resolve, Cut, Polished, Squeezed;
    var kept := Kept(text, mark);
    assert kept == raw + [kept[|kept| - 1]];
    DirsThenLast(raw, kept[|kept| - 1]);
    var prefix, d, t := Squeezed(text, mark)[..mark], Dirs(raw), TrimEnd(last);
    assert prefix + (d + t) == prefix + d + t;
  }

  // The whole of collapse_path: the buffer ends up holding Collapsed.
  method CollapsePath(path: array<char>, mark: nat, ghost text: string)
    requires IsText(path, text) && Max(1, mark) <= |text|
    modifies path
    ensures IsText(path, Collapsed(text, mark))
  {
    hide Dirs, Resolve, Cut, Polished, TrimEnd, Walked;
    ConvertSlashes(path, text);
    CollapseBackslashes(path, mark, Backslashed(text));
    ghost var squeezed := Squeezed(text, mark);
    var p: nat;
    ghost var raw, last;
    p, raw, last := RemoveComponents(path, mark, squeezed);
    DirsEnd(raw);
    TrimTrailing(path, mark, p, squeezed[..mark] + Dirs(raw), last);
    CollapsedWhenWalked(text, mark, raw, last);
  }
}
