// What the filter of dylib/hooks/hook_spawn.c means for a child, for every environment.
module SpawnEnvMeaning {
  import opened Pieces
  import opened SpawnEnv

  // Neither an inserted-library list nor our block list.
  function Others(env: seq<string>, ours: Ours): seq<string> {
    if env == [] then []
    else
      var init, last := Others(env[..|env| - 1], ours), env[|env| - 1];
      if IsInsert(last) || ours.IsBlock(last) then init else init + [last]
  }

  // The foreign segments of all inserted-library lists, in order.
  function ForeignOf(env: seq<string>, ours: Ours): seq<string> {
    if env == [] then []
    else
      var init, last := ForeignOf(env[..|env| - 1], ours), env[|env| - 1];
      if IsInsert(last) then init + Foreign(Cut(':', ValueOf(last)), ours.Segments()) else init
  }

  predicate CleanEntry(e: string, compat: bool, ours: Ours) {
    && !ours.IsBlock(e)
    && (IsInsert(e) ==> !compat && !AnyOurs(Cut(':', ValueOf(e)), ours.Segments()))
  }

  // A rewritten list has exactly the foreign segments it was given.
  lemma {:induction false} RewrittenSegments(value: string, ours: Ours)
    requires Foreign(Cut(':', value), ours.Segments()) != []
    ensures var kept := Foreign(Cut(':', value), ours.Segments());
            Cut(':', Joined(kept)) == kept && !AnyOurs(kept, ours.Segments())
  {
    var kept := Foreign(Cut(':', value), ours.Segments());
    ForeignIsForeign(Cut(':', value), ours.Segments());
    CutIsClean(':', value);
    CutOfGlue(':', kept);
  }

  lemma {:induction false} ForeignAgain(parts: seq<string>, ours: seq<string>)
    requires forall p <- parts :: p != "" && p !in ours
    ensures Foreign(parts, ours) == parts
    decreases |parts|
  {
    if parts != [] {
      var init := parts[..|parts| - 1];
      assert parts[|parts| - 1] in parts && forall p <- init :: p in parts;
      ForeignAgain(init, ours);
    }
  }

  // One entry passes unchanged exactly when it is clean.
  lemma {:induction false} CleanIsKept(e: string, compat: bool, ours: Ours)
    ensures One(e, compat, ours) == [e] <==> CleanEntry(e, compat, ours)
  {
    hide Cut, Foreign, AnyOurs, Joined;
    if IsInsert(e) && Foreign(Cut(':', ValueOf(e)), ours.Segments()) != [] {
      var kept := Foreign(Cut(':', ValueOf(e)), ours.Segments());
      RewrittenSegments(ValueOf(e), ours);
      assert (INSERT_KEY + Joined(kept))[|INSERT_KEY|..] == Joined(kept);
    }
  }

  lemma {:induction false} RewrittenIsClean(e: string, ours: Ours)
    requires IsInsert(e) && Foreign(Cut(':', ValueOf(e)), ours.Segments()) != []
    ensures var r := INSERT_KEY + Joined(Foreign(Cut(':', ValueOf(e)), ours.Segments()));
            CleanEntry(r, false, ours) && ForeignOf([r], ours) == ForeignOf([e], ours)
  {
    hide Cut, Foreign, AnyOurs, Joined;
    var kept := Foreign(Cut(':', ValueOf(e)), ours.Segments());
    var r := INSERT_KEY + Joined(kept);
    RewrittenSegments(ValueOf(e), ours);
    ForeignIsForeign(Cut(':', ValueOf(e)), ours.Segments());
    ForeignAgain(kept, ours.Segments());
    assert r[|INSERT_KEY|..] == Joined(kept);
    ForeignOfOne(r, ours);
    ForeignOfOne(e, ours);
    InsertIsNoBlock(r, ours);
  }

  lemma {:induction false} InsertIsNoBlock(e: string, ours: Ours)
    requires IsInsert(e)
    ensures !ours.IsBlock(e)
  {
    assert INSERT_KEY[0] == 'D' && BLOCK_KEY[0] == 'S';
  }

  lemma {:induction false} ForeignOfOne(e: string, ours: Ours)
    ensures ForeignOf([], ours) == []
    ensures ForeignOf([e], ours) == if IsInsert(e) then Foreign(Cut(':', ValueOf(e)), ours.Segments()) else []
  {
    hide Cut, Foreign;
    assert [e][..0] == [];
  }

  // What an entry becomes is clean, and keeps its foreign segments or its place among the others.
  lemma {:induction false} OneIsClean(e: string, compat: bool, ours: Ours)
    ensures forall c <- One(e, compat, ours) :: CleanEntry(c, compat, ours)
    ensures Others(One(e, compat, ours), ours) == Others([e], ours)
    ensures !compat ==> ForeignOf(One(e, compat, ours), ours) == ForeignOf([e], ours)
  {
    hide Cut, Foreign, AnyOurs, Joined, ForeignOf;
    ForeignOfOne(e, ours);
    if IsInsert(e) {
      InsertIsNoBlock(e, ours);
      var kept := Foreign(Cut(':', ValueOf(e)), ours.Segments());
      if kept != [] {
        RewrittenIsClean(e, ours);
        assert IsInsert(INSERT_KEY + Joined(kept));
      }
    }
  }

  ghost predicate AllClean(env: seq<string>, compat: bool, ours: Ours) {
    forall e <- env :: CleanEntry(e, compat, ours)
  }

  lemma {:induction false} OthersAppend(a: seq<string>, b: seq<string>, ours: Ours)
    ensures Others(a + b, ours) == Others(a, ours) + Others(b, ours)
    decreases |b|
  {
    if b == [] {
      assert a + b == a;
    } else {
      var init := b[..|b| - 1];
      assert (a + b)[..|a + b| - 1] == a + init;
      OthersAppend(a, init, ours);
    }
  }

  // One entry is among the others unless it is a list or our block list.
  lemma {:induction false} OthersOfOne(e: string, ours: Ours)
    ensures Others([], ours) == []
    ensures Others([e], ours) == if IsInsert(e) || ours.IsBlock(e) then [] else [e]
  {
    assert [e][..0] == [];
  }

  lemma {:induction false} ForeignOfNone(ours: seq<string>)
    ensures Foreign([], ours) == []
  {}

  // A segment is foreign when it is non-empty and none of ours, wherever it stands.
  lemma {:induction false} ForeignAppend(a: seq<string>, b: seq<string>, ours: seq<string>)
    ensures Foreign(a + b, ours) == Foreign(a, ours) + Foreign(b, ours)
    decreases |b|
  {
    hide Foreign, AnyOurs;
    ForeignOfNone(ours);
    if b == [] {
      assert a + b == a && Foreign(a, ours) + [] == Foreign(a, ours);
    } else {
      var init, last := b[..|b| - 1], b[|b| - 1];
      ForeignAppend(a, init, ours);
      ForeignOneMore(a + init, last, ours);
      ForeignOneMore(init, last, ours);
      assert a + b == a + init + [last] && b == init + [last];
    }
  }

  lemma {:induction false} ForeignOfAppend(a: seq<string>, b: seq<string>, ours: Ours)
    ensures ForeignOf(a + b, ours) == ForeignOf(a, ours) + ForeignOf(b, ours)
    decreases |b|
  {
    hide Foreign, Cut;
    if b == [] {
      assert a + b == a;
    } else {
      var init := b[..|b| - 1];
      assert (a + b)[..|a + b| - 1] == a + init;
      ForeignOfAppend(a, init, ours);
    }
  }

  lemma {:induction false} CleanedIsClean(env: seq<string>, compat: bool, ours: Ours)
    ensures AllClean(Cleaned(env, compat, ours), compat, ours)
    ensures Others(Cleaned(env, compat, ours), ours) == Others(env, ours)
    ensures !compat ==> ForeignOf(Cleaned(env, compat, ours), ours) == ForeignOf(env, ours)
    decreases |env|
  {
    hide One, CleanEntry, Foreign, Cut;
    if env != [] {
      var init, last := env[..|env| - 1], env[|env| - 1];
      CleanedIsClean(init, compat, ours);
      OneIsClean(last, compat, ours);
      assert env == init + [last];
      OthersAppend(Cleaned(init, compat, ours), One(last, compat, ours), ours);
      OthersAppend(init, [last], ours);
      ForeignOfAppend(Cleaned(init, compat, ours), One(last, compat, ours), ours);
      ForeignOfAppend(init, [last], ours);
    }
  }

  lemma {:induction false} CleanStays(env: seq<string>, compat: bool, ours: Ours)
    requires AllClean(env, compat, ours)
    ensures Cleaned(env, compat, ours) == env
    decreases |env|
  {
    hide One, CleanEntry;
    if env != [] {
      var init, last := env[..|env| - 1], env[|env| - 1];
      assert last in env && forall e <- init :: e in env;
      CleanStays(init, compat, ours);
      CleanIsKept(last, compat, ours);
    }
  }

  // A compat launch is still recognised as one: its mark is among the other entries.
  lemma {:induction false} CompatAmongOthers(env: seq<string>, ours: Ours)
    ensures IsCompat(Others(env, ours)) <==> IsCompat(env)
    decreases |env|
  {
    hide IsCompat;
    if env == [] {
    } else {
      var init, last := env[..|env| - 1], env[|env| - 1];
      CompatAmongOthers(init, ours);
      assert env == init + [last];
      CompatOneMore(init, last);
      CompatOneMore(Others(init, ours), last);
      if COMPAT_KEY <= last { MarkIsOther(last, ours); }
    }
  }

  lemma {:induction false} MarkIsOther(e: string, ours: Ours)
    requires COMPAT_KEY <= e
    ensures !IsInsert(e) && !ours.IsBlock(e)
  {
    assert COMPAT_KEY[1] == 'T' && BLOCK_KEY[1] == 'D' && INSERT_KEY[0] == 'D' && e[0] == 'S';
  }

  lemma {:induction false} NoListNoForeign(env: seq<string>, ours: Ours)
    requires forall e <- env :: !IsInsert(e)
    ensures ForeignOf(env, ours) == []
    decreases |env|
  {
    if env != [] {
      assert env[|env| - 1] in env && forall e <- env[..|env| - 1] :: e in env;
      NoListNoForeign(env[..|env| - 1], ours);
    }
  }

  // The child's environment holds no segment and no block entry of ours, and every other entry is
  // still there, in order. So is every foreign segment, except that a compat launch loses its
  // lists, foreign segments and all; but a process that remembered neither variable hands the
  // environment on as it is, and then a compat launch keeps the lists it was given.
  lemma {:induction false} ChildIsClean(env: seq<string>, ours: Ours)
    ensures AllClean(Child(env, ours), false, ours)
    ensures Others(Child(env, ours), ours) == Others(env, ours)
    ensures ForeignOf(Child(env, ours), ours) ==
            if IsCompat(env) && !ours.Nothing() then [] else ForeignOf(env, ours)
    ensures IsCompat(env) ==>
              ((forall e <- Child(env, ours) :: !IsInsert(e)) <==>
               !ours.Nothing() || forall e <- env :: !IsInsert(e))
  {
    hide Cut, Foreign, ForeignOf, Others, Cleaned;
    CleanedIsClean(env, IsCompat(env), ours);
    if IsCompat(env) && !ours.Nothing() {
      NoListNoForeign(Child(env, ours), ours);
    }
  }

  // Filtering what was filtered changes nothing.
  lemma {:induction false} ChildAgain(env: seq<string>, ours: Ours)
    ensures Child(Child(env, ours), ours) == Child(env, ours)
  {
    if !ours.Nothing() {
      hide CleanEntry, One, Others, Cleaned, IsCompat;
      CleanedIsClean(env, IsCompat(env), ours);
      CompatAmongOthers(env, ours);
      CompatAmongOthers(Child(env, ours), ours);
      CleanStays(Child(env, ours), IsCompat(env), ours);
    }
  }

  // ---- handing the insert on, and taking it out again ----

  // Some non-empty segment: what np_list_has can recognise.
  predicate HasSegments(list: string) { exists p <- Cut(':', list) :: p != "" }

  lemma {:induction false} NoneForeign(parts: seq<string>, ours: seq<string>)
    requires forall p <- parts :: p in ours
    ensures Foreign(parts, ours) == []
    decreases |parts|
  {
    if parts != [] {
      var init := parts[..|parts| - 1];
      assert parts[|parts| - 1] in parts && forall p <- init :: p in parts;
      NoneForeign(init, ours);
    }
  }

  // The entry np_with_insert adds is taken out again by np_without_insert, as long as the insert
  // has a segment to be recognised by; a compat launch loses it anyway.
  lemma {:induction false} InsertComesBackOut(env: seq<string>, ours: Ours)
    requires ours.insert.Some?
    ensures Child(env + [INSERT_KEY + ours.insert.value], ours) == Child(env, ours) <==>
            IsCompat(env) || HasSegments(ours.insert.value)
  {
    hide Cut, Foreign, IsCompat;
    var entry, list := INSERT_KEY + ours.insert.value, ours.insert.value;
    assert IsInsert(entry) && ValueOf(entry) == list;
    assert !(COMPAT_KEY <= entry) by { assert entry[0] == 'D' && COMPAT_KEY[0] == 'S'; }
    CompatOneMore(env, entry);
    InsertIsNoBlock(entry, ours);
    NoneForeign(Cut(':', list), ours.Segments());
    assert (env + [entry])[..|env|] == env;
  }

  // By name: the joystick block list with the remembered value goes, and every other entry that
  // lists no libraries stays.
  lemma {:induction false} OnlyOurBlockListGoes(env: seq<string>, ours: Ours, e: string)
    requires !("DYLD_INSERT_LIBRARIES=" <= e)
    ensures e in Child(env, ours) <==>
            e in env && (ours.block.Some? ==> e != "SDL_JOYSTICK_BLACKLIST_DEVICES=" + ours.block.value)
  {
    hide Child, CleanEntry, Others;
    ChildIsClean(env, ours);
    AmongOthers(env, ours, e);
    AmongOthers(Child(env, ours), ours, e);
    if e in Child(env, ours) { CleanIsNoBlock(e, ours); }
  }

  lemma {:induction false} CleanIsNoBlock(e: string, ours: Ours)
    requires CleanEntry(e, false, ours)
    ensures !ours.IsBlock(e)
  {}

  lemma {:induction false} AmongOthers(env: seq<string>, ours: Ours, e: string)
    ensures e in Others(env, ours) <==> e in env && !IsInsert(e) && !ours.IsBlock(e)
    decreases |env|
  {
    if env != [] {
      var init, last := env[..|env| - 1], env[|env| - 1];
      AmongOthers(init, ours, e);
      assert env == init + [last];
    }
  }
}
