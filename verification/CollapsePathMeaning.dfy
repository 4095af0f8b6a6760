// What collapse_path (lsteamclient/unixlib.cpp) leaves in the buffer, for every text and mark.
module CollapsePathMeaning {
  import opened CollapsePath
  import opened Numbers
  import opened Pieces

  // No backslash from `from` on follows another one.
  predicate NoDoubled(s: string, from: nat) {
    forall i :: from <= i < |s| && i > 0 && s[i] == '\\' ==> s[i - 1] != '\\'
  }

  // ---- components ----

  lemma {:induction false} ComponentsHave(s: string, x: char)
    requires x !in s
    ensures NoneHas(x, Cut('\\', s))
    decreases |s|
  {
    var c := FirstPiece('\\', s);
    if |c| < |s| { ComponentsHave(s[|c| + 1..], x); }
  }

  lemma {:induction false} JoinHas(cs: seq<string>, x: char)
    requires cs != [] && NoneHas(x, cs) && x != '\\'
    ensures x !in Glue('\\', cs)
    decreases |cs|
  {
    assert x !in cs[0];
    if |cs| > 1 { JoinHas(cs[1..], x); }
  }

  // ---- doubled backslashes ----

  lemma {:induction false} SqueezeLeavesNoDoubled(kept: string, rest: string, from: nat)
    requires kept != "" && from <= |kept| && NoDoubled(kept, from)
    ensures NoDoubled(Squeeze(kept, rest), from)
    decreases |rest|
  {
    if rest != "" {
      if rest[0] == '\\' && kept[|kept| - 1] == '\\' {
        SqueezeLeavesNoDoubled(kept, rest[1..], from);
      } else {
        SqueezeLeavesNoDoubled(kept + [rest[0]], rest[1..], from);
      }
    }
  }

  // Every name but the last is non-empty, from the given index on.
  predicate Filled(cs: seq<string>, from: nat) { forall i :: from <= i < |cs| - 1 ==> cs[i] != "" }

  lemma {:induction false} ComponentsAreFilled(s: string)
    requires NoDoubled(s, 1)
    ensures Filled(Cut('\\', s), 1)
    ensures Cut('\\', s)[0] == "" <==> s == "" || s[0] == '\\'
    decreases |s|
  {
    var c := FirstPiece('\\', s);
    if |c| < |s| {
      var tail := s[|c| + 1..];
      assert tail != "" ==> tail[0] == s[|c| + 1];
      ComponentsAreFilled(tail);
      assert Cut('\\', s) == [c] + Cut('\\', tail);
    }
  }

  lemma {:induction false} JoinStart(cs: seq<string>)
    requires cs != [] && '\\' !in cs[0]
    ensures Glue('\\', cs) == "" <==> cs == [""]
    ensures Glue('\\', cs) != "" ==> (Glue('\\', cs)[0] == '\\' <==> cs[0] == "" && |cs| > 1)
  {}

  lemma {:induction false} JoinEnd(cs: seq<string>)
    requires cs != []
    ensures var j, last := Glue('\\', cs), cs[|cs| - 1];
            if last != "" then j != "" && j[|j| - 1] == last[|last| - 1] else j != "" ==> j[|j| - 1] == '\\'
    ensures |cs| > 1 ==> Glue('\\', cs) != ""
    decreases |cs|
  {
    if |cs| > 1 { JoinEnd(cs[1..]); }
  }

  lemma {:induction false} JoinNoDoubled(cs: seq<string>)
    requires cs != [] && NoneHas('\\', cs) && Filled(cs, 1)
    ensures NoDoubled(Glue('\\', cs), 1)
    decreases |cs|
  {
    assert '\\' !in cs[0];
    if |cs| > 1 {
      assert '\\' !in cs[1];
      var tail := Glue('\\', cs[1..]);
      JoinNoDoubled(cs[1..]);
      JoinStart(cs[1..]);
      var s, n := cs[0] + "\\" + tail, |cs[0]|;
      assert forall i :: n < i < |s| ==> s[i] == tail[i - n - 1];
    }
  }

  // ---- resolution ----

  lemma {:induction false} ResolveKeepsNames(done: seq<string>, todo: seq<string>, x: char)
    requires Names(done) && todo != [] && NoneHas('\\', todo) && NoneHas(x, done + todo)
    ensures Names(Resolve(done, todo)) && NoneHas(x, Resolve(done, todo))
    decreases |todo|
  {
    var next := Step(done, todo[0]);
    assert todo[0] in todo && todo[0] in done + todo;
    assert Names(Pop(done));
    assert forall c <- done :: c in done + todo;
    if |todo| > 1 {
      assert forall c <- next + todo[1..] :: c in done + todo;
      ResolveKeepsNames(next, todo[1..], x);
    }
  }

  // Only an empty name at the very start can survive as an empty directory.
  lemma {:induction false} ResolveKeepsFilled(done: seq<string>, todo: seq<string>)
    requires todo != [] && Filled(done + [""], 1) && Filled(todo, 0)
    ensures Filled(Resolve(done, todo), 1)
    ensures Filled(done + [""], 0) ==> Filled(Resolve(done, todo), 0)
    decreases |todo|
  {
    var next := Step(done, todo[0]);
    if |todo| > 1 {
      assert todo[0] != "";
      assert forall i :: 0 <= i < |next| ==> next[i] == if i < |done| then done[i] else todo[0];
      assert forall i :: 0 <= i < |done| ==> (done + [""])[i] == done[i];
      assert forall i :: 0 <= i < |next| ==> (next + [""])[i] == next[i];
      ResolveKeepsFilled(next, todo[1..]);
    } else {
      assert forall i :: 0 <= i < |done| ==> (done + [""])[i] == done[i];
    }
  }

  function Size(cs: seq<string>): nat {
    if cs == [] then 0 else |cs[0]| + 1 + Size(cs[1..])
  }

  lemma {:induction false} JoinSize(cs: seq<string>)
    requires cs != []
    ensures |Glue('\\', cs)| == Size(cs) - 1
    decreases |cs|
  {
    if |cs| > 1 { JoinSize(cs[1..]); }
  }

  predicate EndsInDot(c: string) { c != "" && c[|c| - 1] == '.' }

  predicate EndsInTwoDots(c: string) { EndsInDot(c) && |c| > 1 && c[|c| - 2] == '.' }

  predicate AnyDotted(todo: seq<string>) { exists i :: 0 <= i < |todo| - 1 && EndsInDot(todo[i]) }

  // Resolving and polishing never lengthens, and shortens when a directory name ends in a dot.
  lemma {:induction false} ResolveShrinks(done: seq<string>, todo: seq<string>)
    requires todo != []
    ensures |Glue('\\', Polished(Resolve(done, todo)))| <= |Dirs(done)| + Size(todo) - 1
    ensures AnyDotted(todo) ==> |Glue('\\', Polished(Resolve(done, todo)))| < |Dirs(done)| + Size(todo) - 1
    decreases |todo|
  {
    var next := Step(done, todo[0]);
    assert |Dirs(Pop(done))| <= |Dirs(done)|;
    assert Size(todo) == |todo[0]| + 1 + Size(todo[1..]);
    if |todo| > 1 {
      StepShrinks(done, todo[0]);
      ResolveShrinks(next, todo[1..]);
      if AnyDotted(todo) && !EndsInDot(todo[0]) {
        var i :| 0 <= i < |todo| - 1 && EndsInDot(todo[i]);
        assert todo[1..][i - 1] == todo[i];
      }
    } else if todo[0] == "." {
      RootedSize(done);
    } else if todo[0] == ".." {
      RootedSize(Pop(done));
    } else {
      DirsThenLast(done, todo[0]);
      assert done + todo == done + [todo[0]];
    }
  }

  lemma {:induction false} StepShrinks(done: seq<string>, c: string)
    ensures |Dirs(Step(done, c))| <= |Dirs(done)| + |c| + 1
    ensures EndsInDot(c) ==> |Dirs(Step(done, c))| < |Dirs(done)| + |c| + 1
  {
    DirsOfOneMore(done, c);
  }

  lemma {:induction false} RootedSize(done: seq<string>)
    ensures |Glue('\\', Polished(OrRoot(done)))| <= |Dirs(done)|
  {
    if done != [] {
      var init, c := Pop(done), done[|done| - 1];
      assert done == init + [c];
      DirsThenLast(init, c);
      DirsOfOneMore(init, c);
      TrimEndOfUndotted(c);
    }
  }

  lemma {:induction false} NothingToResolve(done: seq<string>, todo: seq<string>)
    requires todo != [] && Names(todo)
    ensures Resolve(done, todo) == done + todo
    decreases |todo|
  {
    assert todo[0] in todo;
    assert forall c <- todo[1..] :: c in todo;
    if |todo| > 1 {
      NothingToResolve(done + [todo[0]], todo[1..]);
      assert done + [todo[0]] + todo[1..] == done + todo;
    }
  }

  // ---- polishing ----

  lemma {:induction false} PolishedAt(cs: seq<string>, i: nat)
    requires i < |cs|
    ensures Polished(cs)[i] == if i < |cs| - 1 then Undotted(cs[i]) else TrimEnd(cs[i])
    decreases |cs|
  {
    if i > 0 { PolishedAt(cs[1..], i - 1); }
  }

  lemma {:induction false} PolishedOnlyCuts(cs: seq<string>, x: char)
    requires cs != [] && NoneHas(x, cs)
    ensures NoneHas(x, Polished(cs))
  {
    forall p | p in Polished(cs)
      ensures x !in p
    {
      var i :| 0 <= i < |cs| && Polished(cs)[i] == p;
      PolishedAt(cs, i);
      assert cs[i] in cs;
    }
  }

  lemma {:induction false} PolishedStaysFilled(cs: seq<string>, from: nat)
    requires cs != [] && Names(cs) && Filled(cs, from)
    ensures Filled(Polished(cs), from)
  {
    forall i | from <= i < |cs| - 1
      ensures Polished(cs)[i] != ""
    {
      PolishedAt(cs, i);
      assert cs[i] in cs;
      assert |cs[i]| == 1 ==> cs[i] == [cs[i][0]];
    }
  }

  lemma {:induction false} UndottedIsNotDot(c: string)
    requires c != ".."
    ensures Undotted(c) != "."
  {
    assert |c| == 2 ==> c == [c[0], c[1]];
  }

  lemma {:induction false} PolishedLosesDots(cs: seq<string>)
    requires cs != [] && Names(cs[..|cs| - 1])
    ensures forall c <- Polished(cs) :: c != "."
  {
    forall p | p in Polished(cs)
      ensures p != "."
    {
      var i :| 0 <= i < |cs| && Polished(cs)[i] == p;
      PolishedAt(cs, i);
      if i < |cs| - 1 {
        assert cs[..|cs| - 1][i] == cs[i];
        assert cs[i] in cs[..|cs| - 1];
        UndottedIsNotDot(cs[i]);
      }
    }
  }

  // ---- the result ----

  lemma {:induction false} SqueezeOnlyDrops(kept: string, rest: string, x: char)
    requires kept != "" && x !in kept && x !in rest
    ensures x !in Squeeze(kept, rest)
    decreases |rest|
  {
    if rest != "" {
      SqueezeOnlyDrops(kept, rest[1..], x);
      SqueezeOnlyDrops(kept + [rest[0]], rest[1..], x);
    }
  }

  lemma {:induction false} SqueezedIsClean(text: string, mark: nat)
    requires Max(1, mark) <= |text|
    ensures NoDoubled(Squeezed(text, mark), Max(1, mark)) && '/' !in Squeezed(text, mark)
  {
    var b, m := Backslashed(text), Max(1, mark);
    SqueezeLeavesNoDoubled(b[..m], b[m..], m);
    SqueezeOnlyDrops(b[..m], b[m..], '/');
  }

  lemma {:induction false} ResolveFilled(rest: string)
    requires NoDoubled(rest, 1)
    ensures Filled(Resolve([], Cut('\\', rest)), 1)
    ensures rest == "" || rest[0] != '\\' ==> Filled(Resolve([], Cut('\\', rest)), 0)
  {
    var cs := Cut('\\', rest);
    ComponentsAreFilled(rest);
    assert rest == "" ==> |cs| == 1;
    assert [] + [""] == [""];
    if |cs| > 1 && cs[0] == "" {
      ResolveKeepsFilled([""], cs[1..]);
    } else {
      ResolveKeepsFilled([], cs);
    }
  }

  // The names that survive resolution: none is "." or "..", none contains a separator, and
  // only one at a mark with no backslash before it can be an empty directory.
  lemma {:induction false} KeptNames(text: string, mark: nat)
    requires Max(1, mark) <= |text|
    ensures var kept := Kept(text, mark);
            && Names(kept) && NoneHas('/', kept) && NoneHas('\\', kept) && Filled(kept, 1)
            && (mark > 0 && Backslashed(text)[mark - 1] == '\\' ==> Filled(kept, 0))
  {
    hide Resolve, Cut, Squeeze, Backslashed;
    var squeezed := Squeezed(text, mark);
    var rest := squeezed[mark..];
    SqueezedIsClean(text, mark);
    ComponentsHave(rest, '/');
    CutIsClean('\\', rest);
    ResolveKeepsNames([], Cut('\\', rest), '/');
    ResolveKeepsNames([], Cut('\\', rest), '\\');
    assert forall i :: 0 <= i < |rest| ==> rest[i] == squeezed[mark + i];
    assert NoDoubled(rest, 1);
    ResolveFilled(rest);
    assert mark > 0 ==> squeezed[mark - 1] == squeezed[..mark][mark - 1];
  }

  // The text past the mark is exactly the polished names: collapsing is ordinary resolution of
  // "." and "..", after which directory names lose one dot and the last name its dots and spaces.
  lemma {:induction false} CollapsedComponents(text: string, mark: nat)
    requires Max(1, mark) <= |text|
    ensures mark <= |Collapsed(text, mark)| && Collapsed(text, mark)[..mark] == Backslashed(text)[..mark]
    ensures Cut('\\', Collapsed(text, mark)[mark..]) == Polished(Kept(text, mark))
  {
    hide Resolve, Cut, Squeeze, Backslashed, Polished;
    var r, ps := Collapsed(text, mark), Polished(Kept(text, mark));
    KeptNames(text, mark);
    PolishedOnlyCuts(Kept(text, mark), '\\');
    CutOfGlue('\\', ps);
    assert r[mark..] == Glue('\\', ps);
  }

  lemma {:induction false} CollapsedIsShort(text: string, mark: nat)
    requires Max(1, mark) <= |text|
    ensures |Collapsed(text, mark)| <= |text|
  {
    hide Resolve, Squeeze, Backslashed, Polished;
    var rest := Squeezed(text, mark)[mark..];
    ResolveShrinks([], Cut('\\', rest));
    JoinSize(Cut('\\', rest));
    GlueOfCut('\\', rest);
  }

  lemma {:induction false} CollapsedHasNoDoubled(text: string, mark: nat)
    requires Max(1, mark) <= |text|
    ensures NoDoubled(Collapsed(text, mark), Max(1, mark))
  {
    hide Resolve, Cut, Squeeze, Backslashed, Polished, Glue;
    var kept, prefix := Kept(text, mark), Squeezed(text, mark)[..mark];
    var ps := Polished(kept);
    KeptNames(text, mark);
    PolishedOnlyCuts(kept, '\\');
    PolishedStaysFilled(kept, 1);
    JoinNoDoubled(ps);
    assert '\\' !in ps[0];
    JoinStart(ps);
    if mark > 0 && prefix[mark - 1] == '\\' {
      PolishedStaysFilled(kept, 0);
      assert |ps| > 1 ==> ps[0] != "";
    }
    var r, tail := prefix + Glue('\\', ps), Glue('\\', ps);
    assert forall i :: mark <= i < |r| ==> r[i] == tail[i - mark];
  }

  lemma {:induction false} CollapsedHasNoSlash(text: string, mark: nat)
    requires Max(1, mark) <= |text|
    ensures '/' !in Collapsed(text, mark)
  {
    hide Resolve, Cut, Squeeze, Backslashed, Polished, Glue;
    var kept := Kept(text, mark);
    KeptNames(text, mark);
    SqueezedIsClean(text, mark);
    PolishedOnlyCuts(kept, '/');
    JoinHas(Polished(kept), '/');
  }

  lemma {:induction false} CollapsedEndsClean(text: string, mark: nat)
    requires Max(1, mark) <= |text|
    ensures var r := Collapsed(text, mark);
            && (forall c <- Cut('\\', r[mark..]) :: c != ".")
            && (|r| > mark ==> r[|r| - 1] !in " .")
  {
    hide Resolve, Cut, Squeeze, Backslashed, Polished, Squeezed;
    var kept := Kept(text, mark);
    var ps := Polished(kept);
    CollapsedComponents(text, mark);
    KeptNames(text, mark);
    FinalDotDot(kept);
    PolishedLosesDots(kept);
    PolishedAt(kept, |kept| - 1);
    JoinEnd(ps);
    GlueOfCut('\\', Collapsed(text, mark)[mark..]);
  }

  // Never longer, the prefix kept apart from slash direction, no forward slash, no doubled
  // backslash from the mark on, no "." component, no dot or space at the end past the mark.
  lemma {:induction false} CollapsedIsTidy(text: string, mark: nat)
    requires Max(1, mark) <= |text|
    ensures var r := Collapsed(text, mark);
            && mark <= |r| <= |text| && r[..mark] == Backslashed(text)[..mark]
            && '/' !in r && NoDoubled(r, Max(1, mark))
            && (forall c <- Cut('\\', r[mark..]) :: c != ".")
            && (|r| > mark ==> r[|r| - 1] !in " .")
  {
    hide Cut, Backslashed, Collapsed, NoDoubled;
    CollapsedComponents(text, mark);
    CollapsedIsShort(text, mark);
    CollapsedHasNoSlash(text, mark);
    CollapsedHasNoDoubled(text, mark);
    CollapsedEndsClean(text, mark);
  }

  // ---- from the text as given ----

  function DropEmpty(cs: seq<string>): (ds: seq<string>)
    requires cs != []
    ensures ds != []
  {
    if |cs| == 1 then cs else if cs[0] == "" then DropEmpty(cs[1..]) else [cs[0]] + DropEmpty(cs[1..])
  }

  lemma {:induction false} SqueezeName(kept: string, c: string, rest: string)
    requires kept != "" && '\\' !in c
    ensures Squeeze(kept, c + rest) == Squeeze(kept + c, rest)
    decreases |c|
  {
    if c == "" {
      assert c + rest == rest && kept + c == kept;
    } else {
      assert (c + rest)[1..] == c[1..] + rest && kept + [c[0]] + c[1..] == kept + c;
      SqueezeName(kept + [c[0]], c[1..], rest);
    }
  }

  lemma {:induction false} SqueezeDir(kept: string, rest: string)
    requires kept != "" && kept[|kept| - 1] == '\\' && |FirstPiece('\\', rest)| < |rest|
    ensures var c := FirstPiece('\\', rest);
            Squeeze(kept, rest) == Squeeze(if c == "" then kept else kept + c + "\\", rest[|c| + 1..])
  {
    var c := FirstPiece('\\', rest);
    var tail := rest[|c|..];
    assert c + tail == rest && tail[1..] == rest[|c| + 1..] && "\\" == [tail[0]];
    SqueezeName(kept, c, tail);
    assert c != "" ==> (kept + c)[|kept + c| - 1] == c[|c| - 1];
    assert kept + "" == kept;
  }

  lemma {:induction false} DropEmptyOne(rest: string)
    requires |FirstPiece('\\', rest)| < |rest|
    ensures var c, left := FirstPiece('\\', rest), DropEmpty(Cut('\\', rest[|FirstPiece('\\', rest)| + 1..]));
            if c == "" then DropEmpty(Cut('\\', rest)) == left
            else Glue('\\', DropEmpty(Cut('\\', rest))) == c + "\\" + Glue('\\', left)
  {
    hide FirstPiece;
    var c, left := FirstPiece('\\', rest), DropEmpty(Cut('\\', rest[|FirstPiece('\\', rest)| + 1..]));
    assert Cut('\\', rest)[0] == c && Cut('\\', rest)[1..] == Cut('\\', rest[|c| + 1..]);
    assert ([c] + left)[1..] == left;
  }

  lemma {:induction false} LastName(kept: string, rest: string)
    requires kept != "" && |FirstPiece('\\', rest)| == |rest|
    ensures Squeeze(kept + rest, "") == kept + rest
    ensures Glue('\\', DropEmpty(Cut('\\', rest))) == rest && '\\' !in rest
  {}

  lemma {:induction false} SqueezeDropsEmpty(kept: string, rest: string)
    requires kept != "" && kept[|kept| - 1] == '\\'
    ensures Squeeze(kept, rest) == kept + Glue('\\', DropEmpty(Cut('\\', rest)))
    decreases |rest|
  {
    hide Squeeze, Glue, Cut, DropEmpty, FirstPiece;
    var c := FirstPiece('\\', rest);
    if |c| == |rest| {
      LastName(kept, rest);
      SqueezeName(kept, rest, "");
      assert rest + "" == rest;
    } else {
      var tail := rest[|c| + 1..];
      var left := DropEmpty(Cut('\\', tail));
      SqueezeDir(kept, rest);
      DropEmptyOne(rest);
      if c == "" {
        SqueezeDropsEmpty(kept, tail);
      } else {
        SqueezeDropsEmpty(kept + c + "\\", tail);
        assert kept + c + "\\" + Glue('\\', left) == kept + (c + "\\" + Glue('\\', left));
      }
    }
  }

  lemma {:induction false} DropEmptyHas(cs: seq<string>, x: char)
    requires cs != [] && NoneHas(x, cs)
    ensures NoneHas(x, DropEmpty(cs))
    decreases |cs|
  {
    if |cs| > 1 { DropEmptyHas(cs[1..], x); }
  }

  // After a mark that follows a separator, as every caller passes, what is kept depends only on
  // the names: runs of separators of either kind count as one.
  lemma {:induction false} KeptFromNames(text: string, mark: nat)
    requires 0 < mark <= |text| && Backslashed(text)[mark - 1] == '\\'
    ensures Kept(text, mark) == Resolve([], DropEmpty(Cut('\\', Backslashed(text)[mark..])))
  {
    hide Resolve, Cut, Squeeze, Backslashed, Glue, DropEmpty, NoneHas, FirstPiece;
    var b := Backslashed(text);
    var prefix, rest := b[..mark], b[mark..];
    assert prefix[mark - 1] == b[mark - 1];
    SqueezeDropsEmpty(prefix, rest);
    NamesComeBack(rest);
    AfterPrefix(prefix, Glue('\\', DropEmpty(Cut('\\', rest))));
  }

  lemma {:induction false} NamesComeBack(rest: string)
    ensures Cut('\\', Glue('\\', DropEmpty(Cut('\\', rest)))) == DropEmpty(Cut('\\', rest))
  {
    hide Cut, DropEmpty, NoneHas;
    CutIsClean('\\', rest);
    DropEmptyHas(Cut('\\', rest), '\\');
    CutOfGlue('\\', DropEmpty(Cut('\\', rest)));
  }

  lemma {:induction false} AfterPrefix(a: string, b: string)
    ensures (a + b)[|a|..] == b
  {}

  // ---- the rules of resolution ----

  predicate IsName(c: string) { c != "." && c != ".." && c != "" && '\\' !in c && '/' !in c }

  lemma {:induction false} ResolveFirst(done: seq<string>, first: string, after: seq<string>)
    requires after != []
    ensures Resolve(done, [first] + after) == Resolve(Step(done, first), after)
  {
    assert ([first] + after)[1..] == after;
  }

  // A name and the ".." behind it cancel, wherever they stand; at the end they leave the directory
  // they stand in.
  lemma {:induction false} ResolveCancels(done: seq<string>, before: seq<string>, name: string, after: seq<string>)
    requires name != "." && name != ".."
    ensures after != [] ==> Resolve(done, before + ([name, ".."] + after)) == Resolve(done, before + after)
    ensures Resolve(done, before + [name, ".."]) == Resolve(done, before + ["."])
    decreases |before|
  {
    hide Resolve, Step;
    var pair, dot := [name, ".."], ["."];
    if before == [] {
      PairCancels(done, name, after);
      assert before + (pair + after) == pair + after && before + after == after;
      assert before + pair == pair && before + dot == dot;
    } else {
      var first, more := before[0], before[1..];
      assert before + (pair + after) == [first] + (more + (pair + after));
      assert before + after == [first] + (more + after);
      assert before + pair == [first] + (more + pair) && before + dot == [first] + (more + dot);
      ResolveFirst(done, first, more + pair);
      ResolveFirst(done, first, more + dot);
      if after != [] {
        ResolveFirst(done, first, more + (pair + after));
        ResolveFirst(done, first, more + after);
      }
      ResolveCancels(Step(done, first), more, name, after);
    }
  }

  lemma {:induction false} PairCancels(done: seq<string>, name: string, after: seq<string>)
    requires name != "." && name != ".."
    ensures after != [] ==> Resolve(done, [name, ".."] + after) == Resolve(done, after)
    ensures Resolve(done, [name, ".."]) == Resolve(done, ["."])
  {
    hide Resolve;
    assert Pop(done + [name]) == done;
    assert [name, ".."] == [name] + [".."];
    ResolveFirst(done, name, [".."]);
    ResolveLast(done, name);
    if after != [] {
      assert [name, ".."] + after == [name] + ([".."] + after);
      ResolveFirst(done, name, [".."] + after);
      ResolveFirst(done + [name], "..", after);
    }
  }

  lemma {:induction false} ResolveLast(done: seq<string>, name: string)
    ensures Resolve(done, ["."]) == OrRoot(done)
    ensures Resolve(done + [name], [".."]) == OrRoot(Pop(done + [name]))
  {}

  // A "." is nothing, except at the end, where it names the directory it stands in.
  lemma {:induction false} ResolveSkipsDots(done: seq<string>, before: seq<string>, after: seq<string>)
    requires after != []
    ensures Resolve(done, before + (["."] + after)) == Resolve(done, before + after)
    decreases |before|
  {
    if before == [] {
      assert before + (["."] + after) == ["."] + after && before + after == after && (["."] + after)[1..] == after;
    } else {
      assert (before + (["."] + after))[1..] == before[1..] + (["."] + after);
      assert (before + after)[1..] == before[1..] + after;
      ResolveSkipsDots(Step(done, before[0]), before[1..], after);
    }
  }

  lemma {:induction false} ResolveToDirectory(done: seq<string>, names: seq<string>)
    requires Names(names) && done + names != []
    ensures Resolve(done, names + ["."]) == done + names
    decreases |names|
  {
    if names == [] {
      assert names + ["."] == ["."] && done + names == done;
    } else {
      assert names[0] in names && forall c <- names[1..] :: c in names;
      assert (names + ["."])[1..] == names[1..] + ["."];
      assert done + [names[0]] + names[1..] == done + names;
      ResolveToDirectory(done + [names[0]], names[1..]);
    }
  }

  // At the mark ".." leads nowhere.
  lemma {:induction false} ResolveAtMark(after: seq<string>)
    ensures Resolve([], [".."]) == Resolve([], ["."]) == [""]
    ensures after != [] ==> Resolve([], [".."] + after) == Resolve([], after)
  {
    assert ([".."] + after)[1..] == after;
  }

  lemma {:induction false} CutAppend(a: string, b: string)
    ensures Cut('\\', a + ['\\'] + b) == Cut('\\', a) + Cut('\\', b)
    decreases |a|
  {
    hide FirstPiece;
    var c, s := FirstPiece('\\', a), a + ['\\'] + b;
    if |c| == |a| {
      FirstPieceOf('\\', a, ['\\'] + b);
      assert s == a + (['\\'] + b) && s[|a| + 1..] == b;
    } else {
      var tail := a[|c| + 1..];
      CutAppend(tail, b);
      assert a == c + ['\\'] + tail && s == c + (['\\'] + (tail + ['\\'] + b));
      FirstPieceOf('\\', c, ['\\'] + (tail + ['\\'] + b));
      assert s[|c| + 1..] == tail + ['\\'] + b;
    }
  }

  // The directories a text in front leaves, when something follows.
  function HeadNames(a: seq<string>): seq<string> {
    if a == [] then [] else DropEmpty(a + [""])[..|DropEmpty(a + [""])| - 1]
  }

  lemma {:induction false} DropEmptyAppend(a: seq<string>, b: seq<string>)
    requires b != []
    ensures DropEmpty(a + b) == HeadNames(a) + DropEmpty(b)
    decreases |a|
  {
    if a == [] {
      assert a + b == b;
    } else {
      DropEmptyAppend(a[1..], b);
      DropFirst(a[0], a[1..] + b);
      DropFirst(a[0], a[1..] + [""]);
      hide DropEmpty;
      assert a + b == [a[0]] + (a[1..] + b) && a + [""] == [a[0]] + (a[1..] + [""]);
      if |a| == 1 {
        assert a[1..] + [""] == [""];
      }
    }
  }

  lemma {:induction false} DropFirst(name: string, more: seq<string>)
    requires more != []
    ensures DropEmpty([name] + more) == (if name == "" then [] else [name]) + DropEmpty(more)
  {
    assert ([name] + more)[1..] == more;
  }

  lemma {:induction false} CollapsedByNames(prefix: string, rest: string)
    requires prefix != "" && prefix[|prefix| - 1] == '\\' && '/' !in prefix && '/' !in rest
    ensures Collapsed(prefix + rest, |prefix|)
         == prefix + Glue('\\', Polished(Resolve([], DropEmpty(Cut('\\', rest)))))
  {
    hide Resolve, Cut, Squeeze, Backslashed, Polished, Glue, DropEmpty;
    var text := prefix + rest;
    NoSlashToTurn(text);
    KeptFromNames(text, |prefix|);
    assert text[..|prefix|] == prefix && text[|prefix|..] == rest;
  }

  lemma {:induction false} NoSlashToTurn(text: string)
    requires '/' !in text
    ensures Backslashed(text) == text
  {
    forall i | 0 <= i < |text| ensures Backslashed(text)[i] == text[i] { assert text[i] in text; }
  }

  // In any text, slashes of either kind, a directory and the ".." behind it are as good as not
  // there: `head` is what stands between the mark and the directory.
  lemma {:induction false} CollapseCancels(prefix: string, head: string, name: string, rest: string)
    requires prefix != "" && prefix[|prefix| - 1] == '\\' && IsName(name)
    requires '/' !in prefix && '/' !in head && '/' !in rest
    ensures Collapsed(prefix + (head + "\\" + name + "\\..\\" + rest), |prefix|)
         == Collapsed(prefix + (head + "\\" + rest), |prefix|)
    ensures Collapsed(prefix + (name + "\\..\\" + rest), |prefix|) == Collapsed(prefix + rest, |prefix|)
  {
    hide Resolve, Cut, Polished, Glue, DropEmpty, Collapsed;
    var long, short := head + "\\" + name + "\\..\\" + rest, name + "\\..\\" + rest;
    CollapsedByNames(prefix, long);
    CollapsedByNames(prefix, head + "\\" + rest);
    CollapsedByNames(prefix, short);
    CollapsedByNames(prefix, rest);
    CutOfPair(name, rest);
    assert long == head + ['\\'] + short && head + "\\" + rest == head + ['\\'] + rest;
    CutAppend(head, short);
    CutAppend(head, rest);
    var heads, rests := Cut('\\', head), Cut('\\', rest);
    DropEmptyAppend(heads, [name, ".."] + rests);
    DropEmptyAppend(heads, rests);
    DropEmptyOfPair(name, rests);
    ResolveCancels([], HeadNames(heads), name, DropEmpty(rests));
    ResolveCancels([], [], name, DropEmpty(rests));
    assert [] + ([name, ".."] + DropEmpty(rests)) == [name, ".."] + DropEmpty(rests);
    assert [] + DropEmpty(rests) == DropEmpty(rests);
  }

  lemma {:induction false} CutOfPair(name: string, rest: string)
    requires IsName(name)
    ensures Cut('\\', name + "\\..\\" + rest) == [name, ".."] + Cut('\\', rest)
  {
    hide Cut;
    var tail := ".." + ['\\'] + rest;
    assert name + "\\..\\" + rest == name + ['\\'] + tail;
    CutAppend(name, tail);
    CutAppend("..", rest);
    CutOfOne(name);
    CutOfOne("..");
  }

  lemma {:induction false} CutOfOne(c: string)
    requires '\\' !in c
    ensures Cut('\\', c) == [c]
  {
    FirstPieceOf('\\', c, "");
    assert c + "" == c;
  }

  lemma {:induction false} DropEmptyOfPair(name: string, rest: seq<string>)
    requires IsName(name) && rest != []
    ensures DropEmpty([name, ".."] + rest) == [name, ".."] + DropEmpty(rest)
  {
    var cs := [name, ".."] + rest;
    assert cs[1..] == [".."] + rest && cs[1..][1..] == rest;
  }

  // Slashes of either kind are the same to it.
  lemma {:induction false} SlashesAreBackslashes(text: string, mark: nat)
    requires Max(1, mark) <= |text|
    ensures Collapsed(Backslashed(text), mark) == Collapsed(text, mark)
  {
    hide Backslashed;
    NoSlashToTurn(Backslashed(text));
  }

  // ---- a second pass ----

  // Some surviving directory name ends in two dots.
  predicate KeepsTwoDots(kept: seq<string>) { exists i :: 0 <= i < |kept| - 1 && EndsInTwoDots(kept[i]) }

  lemma {:induction false} SqueezeNothing(kept: string, rest: string)
    requires kept != "" && NoDoubled(kept + rest, |kept|)
    ensures Squeeze(kept, rest) == kept + rest
    decreases |rest|
  {
    if rest == "" {
      assert kept + rest == kept;
    } else {
      assert (kept + rest)[|kept|] == rest[0] && (kept + rest)[|kept| - 1] == kept[|kept| - 1];
      assert kept + [rest[0]] + rest[1..] == kept + rest;
      SqueezeNothing(kept + [rest[0]], rest[1..]);
    }
  }

  lemma {:induction false} SqueezedAgain(r: string, mark: nat)
    requires Max(1, mark) <= |r| && '/' !in r && NoDoubled(r, Max(1, mark))
    ensures Squeezed(r, mark) == r
  {
    var m := Max(1, mark);
    assert Backslashed(r) == r by {
      forall i | 0 <= i < |r| ensures Backslashed(r)[i] == r[i] { assert r[i] in r; }
    }
    assert r[..m] + r[m..] == r;
    SqueezeNothing(r[..m], r[m..]);
  }

  lemma {:induction false} UndottedEnds(c: string)
    ensures EndsInDot(Undotted(c)) <==> EndsInTwoDots(c)
    ensures !EndsInDot(c) ==> Undotted(c) == c
  {}

  lemma {:induction false} DottedIffTwoDots(kept: seq<string>)
    requires kept != []
    ensures AnyDotted(Polished(kept)) <==> KeepsTwoDots(kept)
  {
    var ps := Polished(kept);
    forall i | 0 <= i < |kept| - 1
      ensures EndsInDot(ps[i]) <==> EndsInTwoDots(kept[i])
    {
      PolishedAt(kept, i);
      UndottedEnds(kept[i]);
    }
  }

  lemma {:induction false} TrimmedEnds(t: string)
    requires t != "" ==> t[|t| - 1] !in " ."
    ensures TrimEnd(t) == t && t != "." && t != ".."
  {}

  lemma {:induction false} PolishedTwice(kept: seq<string>)
    requires kept != [] && !AnyDotted(Polished(kept)) && NoneHas('\\', Polished(kept))
    ensures Names(Polished(kept)) && Polished(Polished(kept)) == Polished(kept)
  {
    var ps := Polished(kept);
    PolishedAt(kept, |kept| - 1);
    TrimmedEnds(ps[|ps| - 1]);
    forall i | 0 <= i < |ps|
      ensures Polished(ps)[i] == ps[i] && ps[i] != "." && ps[i] != ".."
    {
      PolishedAt(ps, i);
      UndottedEnds(ps[i]);
    }
  }

  // Collapsing a collapsed path changes nothing exactly when no directory that resolution keeps
  // is spelled with two dots at its end.
  lemma {:induction false} CollapseAgain(text: string, mark: nat)
    requires Max(1, mark) <= |text| && Max(1, mark) <= |Collapsed(text, mark)|
    ensures Collapsed(Collapsed(text, mark), mark) == Collapsed(text, mark) <==> !KeepsTwoDots(Kept(text, mark))
  {
    hide Resolve, Cut, Squeeze, Backslashed, Polished, Squeezed;
    var r, kept := Collapsed(text, mark), Kept(text, mark);
    var ps := Polished(kept);
    CollapsedIsTidy(text, mark);
    CollapsedComponents(text, mark);
    SqueezedAgain(r, mark);
    assert Kept(r, mark) == Resolve([], ps);
    DottedIffTwoDots(kept);
    GlueOfCut('\\', r[mark..]);
    if KeepsTwoDots(kept) {
      ResolveShrinks([], ps);
      JoinSize(ps);
    } else {
      KeptNames(text, mark);
      FinalDotDot(kept);
      PolishedOnlyCuts(kept, '\\');
      PolishedTwice(kept);
      NothingToResolve([], ps);
      assert [] + ps == ps;
      assert r[..mark] + r[mark..] == r;
    }
  }

  lemma {:induction false} CollapseOfNames(prefix: string, cs: seq<string>)
    requires prefix != "" && cs != [] && NoneHas('\\', cs) && '/' !in prefix + Glue('\\', cs)
    requires NoDoubled(prefix + Glue('\\', cs), |prefix|)
    ensures Collapsed(prefix + Glue('\\', cs), |prefix|) == prefix + Glue('\\', Polished(Resolve([], cs)))
  {
    hide Resolve, Cut, Squeeze, Backslashed, Polished, Squeezed, Glue;
    var r := prefix + Glue('\\', cs);
    SqueezedAgain(r, |prefix|);
    CutOfGlue('\\', cs);
    assert r[..|prefix|] == prefix && r[|prefix|..] == Glue('\\', cs);
  }

  lemma {:induction false} CollapseOfTwo(prefix: string, dir: string, last: string)
    requires prefix != "" && dir != "." && dir != ".." && last != "." && last != ".." && last != ""
    requires '\\' !in dir && '\\' !in last && '/' !in prefix && '/' !in dir && '/' !in last && dir != ""
    ensures Collapsed(prefix + (dir + "\\" + last), |prefix|) == prefix + (Undotted(dir) + "\\" + TrimEnd(last))
  {
    var cs := [dir, last];
    var r := prefix + Glue('\\', cs);
    assert Glue('\\', cs) == dir + "\\" + last;
    assert '/' !in r;
    assert forall i :: |prefix| <= i < |r| ==> r[i] == (dir + "\\" + last)[i - |prefix|];
    CollapseOfNames(prefix, cs);
    NothingToResolve([], cs);
    assert [] + cs == cs;
    assert Polished(cs) == [Undotted(dir), TrimEnd(last)];
  }

  lemma {:induction false} DotDotOnlyFromThree(c: string)
    requires c != ".."
    ensures Undotted(c) == ".." <==> c == "..."
  {
    assert Undotted(c) != c ==> c == Undotted(c) + ".";
  }

  // What the first pass leaves to resolve: a ".." component remains exactly when a directory
  // spelled "..." survives the resolution.
  lemma {:induction false} LeavesDotDot(text: string, mark: nat)
    requires Max(1, mark) <= |text|
    ensures ".." in Cut('\\', Collapsed(text, mark)[mark..]) <==>
            exists i :: 0 <= i < |Kept(text, mark)| - 1 && Kept(text, mark)[i] == "..."
  {
    hide Resolve, Cut, Squeeze, Backslashed, Polished, Squeezed, Undotted, TrimEnd;
    var kept := Kept(text, mark);
    var ps := Polished(kept);
    CollapsedComponents(text, mark);
    KeptNames(text, mark);
    PolishedAt(kept, |kept| - 1);
    TrimmedEnds(ps[|ps| - 1]);
    forall i | 0 <= i < |kept| - 1
      ensures ps[i] == ".." <==> kept[i] == "..."
    {
      PolishedAt(kept, i);
      assert kept[i] in kept;
      DotDotOnlyFromThree(kept[i]);
    }
  }

  // Two directories for which it does: "..." turns into "..", which the next pass resolves.
  lemma {:induction false} CollapseTwiceDiffers()
    ensures Collapsed("\\??\\...\\b", 4) == "\\??\\..\\b" && Collapsed("\\??\\..\\b", 4) == "\\??\\b"
    ensures Collapsed("\\??\\a..\\b", 4) == "\\??\\a.\\b" && Collapsed("\\??\\a.\\b", 4) == "\\??\\a\\b"
  {
    hide Collapsed, TrimEnd;
    TrimmedEnds("b");
    CollapseOfTwo("\\??\\", "...", "b");
    CollapseOfTwo("\\??\\", "a..", "b");
    CollapseOfTwo("\\??\\", "a.", "b");
    assert "\\??\\" + ("..." + "\\" + "b") == "\\??\\...\\b" && Undotted("...") == "..";
    assert "\\??\\" + ("a.." + "\\" + "b") == "\\??\\a..\\b" && Undotted("a..") == "a.";
    assert "\\??\\" + ("a." + "\\" + "b") == "\\??\\a.\\b" && Undotted("a.") == "a";
    assert "\\??\\" + (".." + "\\" + "b") == "\\??\\..\\b" && "\\??\\" + ("a" + "\\" + "b") == "\\??\\a\\b";
    var cs := ["..", "b"];
    assert Glue('\\', cs) == ".." + "\\" + "b";
    CollapseOfNames("\\??\\", cs);
    assert Resolve([], cs) == ["b"] by { assert cs[1..] == ["b"]; }
    assert Polished(["b"]) == ["b"] && "\\??\\" + "b" == "\\??\\b";
  }
}
