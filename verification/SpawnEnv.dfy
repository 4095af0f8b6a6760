// dylib/hooks/hook_spawn.c: the environment a child process gets, with our part of the inserted
// libraries and our joystick block list taken out.
module SpawnEnv {
  import opened Options
  import opened Pieces

  const INSERT_KEY := "DYLD_INSERT_LIBRARIES="
  const BLOCK_KEY := "SDL_JOYSTICK_BLACKLIST_DEVICES="
  const COMPAT_KEY := "STEAM_COMPAT_DATA_PATH="

  // np_is_insert
  predicate IsInsert(entry: string) { INSERT_KEY <= entry }

  function ValueOf(entry: string): string
    requires IsInsert(entry)
  {
    entry[|INSERT_KEY|..]
  }

  // What np_remember_ours holds: the values of the two variables, where they were set.
  datatype Ours = Ours(insert: Option<string>, block: Option<string>) {
    function Segments(): seq<string> {
      if insert.Some? then Cut(':', insert.value) else []
    }
    predicate IsBlock(entry: string) { block.Some? && entry == BLOCK_KEY + block.value }
    predicate Nothing() { insert.None? && block.None? }
  }

  // ---- the specification ----

  // The non-empty segments of a list that are not ours, in order.
  function Foreign(parts: seq<string>, ours: seq<string>): seq<string> {
    if parts == [] then []
    else
      var init, last := parts[..|parts| - 1], parts[|parts| - 1];
      if last == "" || last in ours then Foreign(init, ours) else Foreign(init, ours) + [last]
  }

  lemma {:induction false} ForeignIsForeign(parts: seq<string>, ours: seq<string>)
    ensures forall p <- Foreign(parts, ours) :: p != "" && p in parts && p !in ours
    decreases |parts|
  {
    if parts != [] { ForeignIsForeign(parts[..|parts| - 1], ours); }
  }

  predicate AnyOurs(parts: seq<string>, ours: seq<string>) { exists p <- parts :: p != "" && p in ours }

  function Joined(parts: seq<string>): string { if parts == [] then "" else Glue(':', parts) }

  predicate IsCompat(env: seq<string>) { exists e <- env :: COMPAT_KEY <= e }

  // What becomes of one entry.
  function One(entry: string, compat: bool, ours: Ours): seq<string> {
    if ours.IsBlock(entry) || (compat && IsInsert(entry)) then []
    else if IsInsert(entry) && AnyOurs(Cut(':', ValueOf(entry)), ours.Segments()) then
      var kept := Foreign(Cut(':', ValueOf(entry)), ours.Segments());
      if kept == [] then [] else [INSERT_KEY + Joined(kept)]
    else [entry]
  }

  function Cleaned(env: seq<string>, compat: bool, ours: Ours): seq<string> {
    if env == [] then [] else Cleaned(env[..|env| - 1], compat, ours) + One(env[|env| - 1], compat, ours)
  }

  function Child(env: seq<string>, ours: Ours): seq<string> {
    if ours.Nothing() then env else Cleaned(env, IsCompat(env), ours)
  }

  // ---- the code ----

  // np_list_has
  method ListHas(list: string, part: string) returns (has: bool)
    ensures has <==> part != "" && part in Cut(':', list)
  {
    hide Cut, FirstPiece;
    if part == "" { return false; }
    var start := 0;
    assert list[0..] == list;
    while true
      invariant start <= |list| && (part in Cut(':', list) <==> part in Cut(':', list[start..]))
      decreases |list| - start
    {
      var piece := FirstPiece(':', list[start..]);
      HasOne(list, start, part);
      if piece == part { return true; }
      if start + |piece| == |list| { return false; }
      start := start + |piece| + 1;
    }
  }

  lemma {:induction false} HasOne(list: string, start: nat, part: string)
    requires start <= |list|
    ensures var c := FirstPiece(':', list[start..]);
            part in Cut(':', list[start..]) <==>
            part == c || (start + |c| < |list| && part in Cut(':', list[start + |c| + 1..]))
  {
    hide Cut, FirstPiece;
    CutOne(list, start);
  }

  lemma {:induction false} CutOne(s: string, start: nat)
    requires start <= |s|
    ensures var c := FirstPiece(':', s[start..]);
            Cut(':', s[start..]) == if start + |c| == |s| then [c] else [c] + Cut(':', s[start + |c| + 1..])
  {
    var c := FirstPiece(':', s[start..]);
    if start + |c| < |s| {
      assert s[start..][|c| + 1..] == s[start + |c| + 1..];
    } else {
      assert c == s[start..];
    }
  }

  lemma {:induction false} GlueOneMore(parts: seq<string>, p: string)
    ensures Joined(parts + [p]) == if parts == [] then p else Joined(parts) + ":" + p
    decreases |parts|
  {
    if parts == [] {
      assert parts + [p] == [p];
    } else {
      var tail := parts[1..];
      assert (parts + [p])[1..] == tail + [p] && (parts + [p])[0] == parts[0];
      GlueOneMore(tail, p);
      if tail != [] {
        var t := Glue(':', tail);
        assert parts[0] + [':'] + (t + ":" + p) == (parts[0] + [':'] + t) + ":" + p;
      } else {
        assert tail + [p] == [p];
      }
    }
  }

  lemma {:induction false} ForeignOneMore(parts: seq<string>, p: string, ours: seq<string>)
    ensures Foreign(parts + [p], ours) ==
            if p == "" || p in ours then Foreign(parts, ours) else Foreign(parts, ours) + [p]
    ensures AnyOurs(parts + [p], ours) <==> AnyOurs(parts, ours) || (p != "" && p in ours)
  {
    assert (parts + [p])[..|parts|] == parts;
  }

  // Adds one piece to the list being written, with a colon before every piece but the first.
  method Append(out: array<char>, at: nat, start: nat, piece: string, ghost kept: seq<string>) returns (n: nat)
    requires at + start + 1 + |piece| <= out.Length || (start == 0 && at + |piece| <= out.Length)
    requires out[at..at + start] == Joined(kept) && (start == 0 <==> kept == [])
    modifies out
    ensures n == start + |piece| + if start == 0 then 0 else 1
    ensures out[at..at + n] == Joined(kept + [piece])
    ensures forall k :: 0 <= k < at ==> out[k] == old(out[k])
  {
    hide Joined;
    GlueOneMore(kept, piece);
    ghost var goal, was := Joined(kept + [piece]), Joined(kept);
    assert forall k :: at <= k < at + start ==> out[k] == out[at..at + start][k - at] == was[k - at];
    n := start;
    if n != 0 {
      out[at + n] := ':';
      n := n + 1;
      assert goal == was + ":" + piece;
    }
    Copy(out, at + n, piece);
    n := n + |piece|;
    assert forall k :: at <= k < at + n ==> out[k] == goal[k - at];
  }

  // One turn of the loop of np_drop_ours.
  method OneSegment(piece: string, ours: string, out: array<char>, at: nat, start: nat, ghost kept: seq<string>)
      returns (has: bool, n: nat)
    requires at + start + 1 + |piece| <= out.Length || (start == 0 && at + |piece| <= out.Length)
    requires out[at..at + start] == Joined(kept) && (start == 0 <==> kept == [])
    modifies out
    ensures has <==> piece != "" && piece in Cut(':', ours)
    ensures n == (if has || piece == "" then start else start + |piece| + if start == 0 then 0 else 1)
    ensures at + n <= out.Length && out[at..at + n] == Joined(if has || piece == "" then kept else kept + [piece])
    ensures forall k :: 0 <= k < at ==> out[k] == old(out[k])
  {
    n := start;
    has := ListHas(ours, piece);
    if !has && piece != "" {
      n := Append(out, at, n, piece, kept);
    }
  }

  // np_drop_ours: writes the foreign segments, and a terminator, from `at` on.
  method DropOurs(value: string, ours: string, out: array<char>, at: nat) returns (dropped: bool, n: nat)
    requires at + |value| < out.Length
    modifies out
    ensures dropped <==> AnyOurs(Cut(':', value), Cut(':', ours))
    ensures n <= |value| && out[at..at + n] == Joined(Foreign(Cut(':', value), Cut(':', ours))) && out[at + n] == '\0'
    ensures forall k :: 0 <= k < at ==> out[k] == old(out[k])
  {
    hide Foreign, Joined, Cut, FirstPiece, AnyOurs, Dropping;
    var start, more := 0, true;
    dropped, n := false, 0;
    ghost var parts, kept, segments := [], [], Cut(':', ours);
    DroppingStarts(value, segments);
    while more
      invariant start <= |value| + 1 && (more <==> start <= |value|)
      invariant Dropping(value, segments, start, parts, dropped, kept)
      invariant n <= |value| && (n == 0 || n < start) && out[at..at + n] == Joined(kept)
      invariant n == 0 <==> kept == []
      invariant forall k :: 0 <= k < at ==> out[k] == old(out[k])
      decreases |value| + 1 - start
    {
      var piece := FirstPiece(':', value[start..]);
      DroppingOne(value, segments, start, parts, dropped, kept);
      var has;
      has, n := OneSegment(piece, ours, out, at, n, kept);
      dropped := dropped || has;
      kept := if has || piece == "" then kept else kept + [piece];
      parts := parts + [piece];
      start := start + |piece| + 1;
      more := start <= |value|;
    }
    DroppingDone(value, segments, start, parts, dropped, kept);
    Terminate(out, at, n);
  }

  // Ends the list that was written.
  method Terminate(out: array<char>, at: nat, n: nat)
    requires at + n < out.Length
    modifies out
    ensures out[at..at + n] == old(out[at..at + n]) && out[at + n] == '\0'
    ensures forall k :: 0 <= k < at ==> out[k] == old(out[k])
  {
    out[at + n] := '\0';
  }

  lemma {:induction false} DroppingStarts(value: string, segments: seq<string>)
    ensures Dropping(value, segments, 0, [], false, []) && Joined([]) == ""
  {
    assert value[0..] == value && [] + Cut(':', value) == Cut(':', value);
  }

  lemma {:induction false} DroppingDone(value: string, segments: seq<string>, start: nat, parts: seq<string>,
        dropped: bool, kept: seq<string>)
    requires start > |value| && Dropping(value, segments, start, parts, dropped, kept)
    ensures (dropped <==> AnyOurs(Cut(':', value), segments)) && kept == Foreign(Cut(':', value), segments)
  {}

  // `parts` are the segments before `start`, and the rest what they amount to.
  ghost predicate Dropping(value: string, segments: seq<string>, start: nat,
    parts: seq<string>, dropped: bool, kept: seq<string>)
  {
    && Cut(':', value) == (if start <= |value| then parts + Cut(':', value[start..]) else parts)
    && (dropped <==> AnyOurs(parts, segments)) && kept == Foreign(parts, segments)
  }

  lemma {:induction false} DroppingOne(value: string, segments: seq<string>, start: nat, parts: seq<string>,
        dropped: bool, kept: seq<string>)
    requires start <= |value| && Dropping(value, segments, start, parts, dropped, kept)
    ensures var p := FirstPiece(':', value[start..]);
            var has := p != "" && p in segments;
            Dropping(value, segments, start + |p| + 1, parts + [p], dropped || has,
                     if has || p == "" then kept else kept + [p])
  {
    hide Cut, Foreign, AnyOurs, FirstPiece;
    var p := FirstPiece(':', value[start..]);
    CutOne(value, start);
    ForeignOneMore(parts, p, segments);
    if start + |p| < |value| {
      Shift(parts, p, Cut(':', value[start + |p| + 1..]));
    }
  }

  lemma {:induction false} Shift(a: seq<string>, p: string, b: seq<string>)
    ensures a + ([p] + b) == a + [p] + b
  {}

  // Copies a text into the buffer.
  method Copy(out: array<char>, at: nat, text: string)
    requires at + |text| <= out.Length
    modifies out
    ensures forall k :: at <= k < at + |text| ==> out[k] == text[k - at]
    ensures forall k :: 0 <= k < at || at + |text| <= k < out.Length ==> out[k] == old(out[k])
  {
    forall k | at <= k < at + |text| { out[k] := text[k - at]; }
  }

  // An entry of the new array: a pointer to one of the caller's entries, or into the spare room.
  datatype Slot = Given(entry: string) | Spare(offset: nat)

  // What the child reads through a slot; texts in the spare room end before `used`.
  ghost predicate Shows(slot: Slot, spare: seq<char>, used: nat, text: string) {
    match slot
    case Given(entry) => entry == text
    case Spare(k) => k + |text| < used <= |spare| && spare[k..k + |text|] == text && spare[k + |text|] == '\0'
  }

  ghost predicate AllShow(slots: seq<Slot>, spare: seq<char>, used: nat, texts: seq<string>) {
    |slots| == |texts| && forall i :: 0 <= i < |slots| ==> Shows(slots[i], spare, used, texts[i])
  }

  // The room reserved: the length of every inserted-library entry, with its terminator.
  function Room(env: seq<string>): nat {
    if env == [] then 0
    else Room(env[..|env| - 1]) + if IsInsert(env[|env| - 1]) then |env[|env| - 1]| + 1 else 0
  }

  lemma {:induction false} RoomOfPrefix(env: seq<string>, i: nat)
    requires i <= |env|
    ensures Room(env[..i]) <= Room(env)
    decreases |env|
  {
    if i < |env| {
      RoomOfPrefix(env[..|env| - 1], i);
      assert env[..|env| - 1][..i] == env[..i];
    } else {
      assert env[..i] == env;
    }
  }

  lemma {:induction false} EarlierTextsStay(slots: seq<Slot>, was: seq<char>, spare: seq<char>, used: nat, more: nat,
        texts: seq<string>)
    requires AllShow(slots, was, used, texts) && |was| == |spare| && used <= more <= |spare|
    requires forall k :: 0 <= k < used ==> spare[k] == was[k]
    ensures AllShow(slots, spare, more, texts)
  {
    forall i | 0 <= i < |slots|
      ensures Shows(slots[i], spare, more, texts[i])
    {
      if slots[i].Spare? {
        var k, n := slots[i].offset, |texts[i]|;
        assert Shows(slots[i], was, used, texts[i]);
        assert spare[k..k + n] == was[k..k + n];
      }
    }
  }

  lemma {:induction false} JoinedIsEmpty(kept: seq<string>)
    requires forall p <- kept :: p != ""
    ensures Joined(kept) == "" <==> kept == []
  {
    assert kept != [] ==> kept[0] in kept;
  }

  lemma {:induction false} NothingIsOurs(parts: seq<string>)
    ensures !AnyOurs(parts, [])
  {}

  lemma {:induction false} NothingIsCompat()
    ensures !IsCompat([])
  {}

  lemma {:induction false} CompatOneMore(env: seq<string>, entry: string)
    ensures IsCompat(env + [entry]) <==> IsCompat(env) || COMPAT_KEY <= entry
  {
    var longer := env + [entry];
    assert longer[|env|] == entry && forall i :: 0 <= i < |env| ==> longer[i] == env[i];
    if IsCompat(env) {
      var i :| 0 <= i < |env| && COMPAT_KEY <= env[i];
      assert longer[i] in longer;
    }
    if COMPAT_KEY <= entry { assert longer[|env|] in longer; }
  }

  // One inserted-library entry: rewritten into the spare room when it has segments of ours.
  method RewriteInsert(entry: string, ours: string, spare: array<char>, used: nat) returns (dropped: bool, length: nat)
    requires IsInsert(entry) && used + |entry| < spare.Length
    modifies spare
    ensures dropped <==> AnyOurs(Cut(':', ValueOf(entry)), Cut(':', ours))
    ensures var text := INSERT_KEY + Joined(Foreign(Cut(':', ValueOf(entry)), Cut(':', ours)));
            length == |text| <= |entry| && spare[used..used + length] == text && spare[used + length] == '\0'
    ensures forall k :: 0 <= k < used ==> spare[k] == old(spare[k])
  {
    hide Foreign, Joined, Cut, AnyOurs;
    Copy(spare, used, INSERT_KEY);
    var n;
    var at := used + |INSERT_KEY|;
    dropped, n := DropOurs(entry[|INSERT_KEY|..], ours, spare, at);
    length := |INSERT_KEY| + n;
    ghost var kept := Joined(Foreign(Cut(':', ValueOf(entry)), Cut(':', ours)));
    assert forall k :: used <= k < at ==> spare[k] == INSERT_KEY[k - used];
    assert forall k :: at <= k < at + n ==> spare[k] == spare[at..at + n][k - at] == kept[k - at];
    ghost var text := INSERT_KEY + kept;
    assert forall k :: used <= k < used + length ==> spare[k] == text[k - used];
  }

  // One turn of the loop of np_without_insert.
  method AddEntry(entry: string, compat: bool, ours: Ours, clean: seq<Slot>, spare: array<char>, used: nat,
      ghost texts: seq<string>)
      returns (next: seq<Slot>, end: nat, changed: bool)
    requires AllShow(clean, spare[..], used, texts)
    requires used + (if IsInsert(entry) then |entry| + 1 else 0) <= spare.Length
    modifies spare
    ensures used <= end <= used + if IsInsert(entry) then |entry| + 1 else 0
    ensures AllShow(next, spare[..], end, texts + One(entry, compat, ours))
    ensures !changed ==> One(entry, compat, ours) == [entry]
  {
    hide Foreign, Joined, Cut, AnyOurs, AllShow;
    next, end, changed := clean, used, true;
    ghost var was := spare[..];
    if ours.IsBlock(entry) || (compat && IsInsert(entry)) {
      assert texts + [] == texts;
      return;
    }
    if ours.insert.Some? && IsInsert(entry) {
      var dropped, length := RewriteInsert(entry, ours.insert.value, spare, used);
      EarlierTextsStay(clean, was, spare[..], used, used, texts);
      if dropped {
        ghost var kept := Foreign(Cut(':', ValueOf(entry)), ours.Segments());
        ForeignIsForeign(Cut(':', ValueOf(entry)), ours.Segments());
        JoinedIsEmpty(kept);
        if length > |INSERT_KEY| {
          EarlierTextsStay(clean, was, spare[..], used, used + length + 1, texts);
          OneMoreShows(clean, spare[..], used + length + 1, texts, Spare(used), INSERT_KEY + Joined(kept));
          next, end := clean + [Spare(used)], used + length + 1;
        } else {
          assert texts + [] == texts;
        }
        return;
      }
    }
    changed := false;
    if IsInsert(entry) { NothingIsOurs(Cut(':', ValueOf(entry))); }
    OneMoreShows(clean, spare[..], used, texts, Given(entry), entry);
    next := clean + [Given(entry)];
  }

  lemma {:induction false} OneMoreShows(slots: seq<Slot>, spare: seq<char>, used: nat, texts: seq<string>, slot: Slot,
        text: string)
    requires AllShow(slots, spare, used, texts) && Shows(slot, spare, used, text)
    ensures AllShow(slots + [slot], spare, used, texts + [text])
  {}

  // The first loop of np_without_insert.
  method Measure(env: seq<string>) returns (room: nat, compat: bool)
    ensures room == Room(env) && compat == IsCompat(env)
  {
    hide IsCompat;
    room, compat := 0, false;
    var i := 0;
    assert env[..0] == [];
    NothingIsCompat();
    while i < |env|
      invariant i <= |env| && room == Room(env[..i]) && compat == IsCompat(env[..i])
    {
      assert env[..i + 1][..i] == env[..i] && env[..i + 1] == env[..i] + [env[i]];
      CompatOneMore(env[..i], env[i]);
      if IsInsert(env[i]) { room := room + |env[i]| + 1; }
      if COMPAT_KEY <= env[i] { compat := true; }
      i := i + 1;
    }
    assert env[..i] == env;
  }

  lemma {:induction false} OneMoreEntry(env: seq<string>, i: nat, compat: bool, ours: Ours)
    requires i < |env|
    ensures Room(env[..i + 1]) == Room(env[..i]) + if IsInsert(env[i]) then |env[i]| + 1 else 0
    ensures Cleaned(env[..i + 1], compat, ours) == Cleaned(env[..i], compat, ours) + One(env[i], compat, ours)
    ensures env[..i + 1] == env[..i] + [env[i]]
  {
    assert env[..i + 1][..i] == env[..i];
  }

  lemma {:induction false} NoEntries(spare: seq<char>, compat: bool, ours: Ours)
    ensures AllShow([], spare, 0, [])
    ensures Room([]) == 0 && Cleaned([], compat, ours) == []
  {}

  // np_without_insert. None stands for a NULL result, after which the caller's own environment is
  // passed on; otherwise the new array and the spare room its entries may point into.
  method WithoutInsert(envp: Option<seq<string>>, ours: Ours)
      returns (slots: Option<seq<Slot>>, spare: array<char>, used: nat)
    ensures used <= spare.Length
    ensures envp.None? || ours.Nothing() ==> slots.None?
    ensures envp.Some? && slots.None? ==> Child(envp.value, ours) == envp.value
    ensures envp.Some? && slots.Some? ==> AllShow(slots.value, spare[..], used, Child(envp.value, ours))
  {
    spare, used := new char[0], 0;
    if envp.None? || ours.Nothing() {
      return None, spare, used;
    }
    var env := envp.value;
    hide AllShow, IsCompat, One, Room, Cleaned;
    var room, compat := Measure(env);
    spare := new char[room](_ => '\0');
    var clean: seq<Slot>, changed, i := [], false, 0;
    NoEntries(spare[..], compat, ours);
    while i < |env|
      invariant i <= |env| && used <= Room(env[..i]) && used <= spare.Length
      invariant AllShow(clean, spare[..], used, Cleaned(env[..i], compat, ours))
      invariant !changed ==> Cleaned(env[..i], compat, ours) == env[..i]
    {
      OneMoreEntry(env, i, compat, ours);
      RoomOfPrefix(env, i + 1);
      var more;
      clean, used, more := AddEntry(env[i], compat, ours, clean, spare, used, Cleaned(env[..i], compat, ours));
      changed := changed || more;
      i := i + 1;
    }
    assert env[..i] == env;
    slots := if changed then Some(clean) else None;
  }

  // np_with_insert, for the two programs that keep the insert. None stands for a NULL result.
  method WithInsert(envp: Option<seq<string>>, ours: Ours) returns (full: Option<seq<string>>)
    ensures full.Some? <==>
            ours.insert.Some? && (envp.Some? ==> forall e <- envp.value :: !IsInsert(e))
    ensures full.Some? ==>
              full.value == (if envp.Some? then envp.value else []) + [INSERT_KEY + ours.insert.value]
  {
    if ours.insert.None? { return None; }
    var count := 0;
    if envp.Some? {
      while count < |envp.value|
        invariant count <= |envp.value| && forall e <- envp.value[..count] :: !IsInsert(e)
      {
        if IsInsert(envp.value[count]) { return None; }
        count := count + 1;
      }
      assert envp.value[..count] == envp.value;
    }
    full := Some((if envp.Some? then envp.value else []) + [INSERT_KEY + ours.insert.value]);
  }
}
