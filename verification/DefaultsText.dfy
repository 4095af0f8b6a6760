// dylib/feats/defaults.c: the KEY=VALUE lines of a settings file, which of them are kept, and
// the canonical text they are saved as.
module DefaultsText {
  import opened Options
  import opened Pieces

  datatype Runner = Rosetta | Fex

  const TEXT_MAX := 1024

  // ---- the settings table ----

  const SETTING_COUNT := 12
  const DXMT_CONFIG := 8

  function Key(i: nat): string {
    if i == 0 then "CX_GRAPHICS_BACKEND"
    else if i == 1 then "MTL_HUD_ENABLED"
    else if i == 2 then "D3DM_ENABLE_METALFX"
    else if i == 3 then "DXMT_ENABLE_NVEXT"
    else if i == 4 then "ROSETTA_ADVERTISE_AVX"
    else if i == 5 then "WINEMSYNC"
    else if i == 6 then "NOTPROTON_RETINA"
    else if i == 7 then "DXMT_METALFX_SPATIAL_SWAPCHAIN"
    else if i == 8 then "DXMT_CONFIG"
    else if i == 9 then "NOTPROTON_RAW_CONTROLLERS"
    else if i == 10 then "NOTPROTON_DISABLE_HIDRAW"
    else "FEX_X87REDUCEDPRECISION"
  }

  predicate Applies(i: nat, runner: Runner) {
    match runner
    case Rosetta => i != 11
    case Fex => i != 2 && i != 4
  }

  const FACTOR_PREFIX := "d3d11.metalSpatialUpscaleFactor="
  const FPS_PREFIX := "d3d11.preferredMaxFrameRate="

  predicate IsFactor(v: string) { v == "1.5" || v == "1.72" || v == "2.0" || v == "3.0" }

  predicate IsRate(v: string) { v == "30" || v == "40" || v == "60" || v == "120" || v == "144" }

  // The text after the first c.
  function Past(s: string, c: char): (r: string)
    ensures |r| <= |s| && (s != "" ==> |r| < |s|)
  {
    var n := |FirstPiece(c, s)|;
    if n < |s| then s[n + 1..] else ""
  }

  predicate StartsLonger(s: string, prefix: string) { |s| > |prefix| && prefix <= s }

  // valid_dxmt_config's clause loop.
  predicate ValidClauses(v: string, factor: bool, rate: bool)
    decreases |v|
  {
    if v == "" then factor || rate
    else
      var clause := FirstPiece(';', v);
      if StartsLonger(clause, FACTOR_PREFIX) then
        !factor && IsFactor(clause[|FACTOR_PREFIX|..]) && ValidClauses(Past(v, ';'), true, rate)
      else if StartsLonger(clause, FPS_PREFIX) then
        !rate && IsRate(clause[|FPS_PREFIX|..]) && ValidClauses(Past(v, ';'), factor, true)
      else false
  }

  predicate ValidDxmtConfig(v: string) {
    v != "" && v[0] != ';' && v[|v| - 1] != ';' && ValidClauses(v, false, false)
  }

  predicate ValidValue(i: nat, runner: Runner, v: string) {
    if i == DXMT_CONFIG then ValidDxmtConfig(v)
    else if i == 0 then v == "dxmt" || v == "dxvk" || v == "wined3d" || (runner == Rosetta && v == "d3dmetal")
    else v == "0" || v == "1"
  }

  // setting_index
  function SettingIndex(runner: Runner, key: string, from: nat): (r: Option<nat>)
    requires from <= SETTING_COUNT
    ensures r.Some? ==> r.value < SETTING_COUNT && Key(r.value) == key
    decreases SETTING_COUNT - from
  {
    if from == SETTING_COUNT then None
    else if Key(from) == key && Applies(from, runner) then Some(from)
    else SettingIndex(runner, key, from + 1)
  }

  // ---- lines ----

  datatype Line = Line(key: string, value: string)

  datatype Parsed = Parsed(kept: seq<Line>, bad: nat)

  function KeyOf(line: string): string { FirstPiece('=', line) }

  function ValueOf(line: string): string { Past(line, '=') }

  // The setting a line sets, if the line is good.
  function Accepted(runner: Runner, line: string, seen: set<nat>): (r: Option<nat>)
    ensures r.Some? ==> r.value !in seen && SettingIndex(runner, KeyOf(line), 0) == r && ValidValue(r.value, runner,
          ValueOf(line))
    ensures r.Some? ==> |KeyOf(line)| < |line|
  {
    if |KeyOf(line)| == |line| then None
    else
      match SettingIndex(runner, KeyOf(line), 0)
      case None => None
      case Some(i) => if i !in seen && ValidValue(i, runner, ValueOf(line)) then Some(i) else None
  }

  // each_line: empty lines are skipped, repeated or bad lines are counted.
  function EachLine(runner: Runner, text: string, seen: set<nat>): Parsed
    decreases |text|
  {
    if text == "" then Parsed([], 0)
    else
      var line, rest := FirstPiece('\n', text), Past(text, '\n');
      if line == "" then EachLine(runner, rest, seen)
      else
        match Accepted(runner, line, seen)
        case None =>
          var more := EachLine(runner, rest, seen);
          Parsed(more.kept, more.bad + 1)
        case Some(i) =>
          var more := EachLine(runner, rest, seen + {i});
          Parsed([Line(KeyOf(line), ValueOf(line))] + more.kept, more.bad)
  }

  function LineText(line: Line): string { line.key + "=" + line.value + "\n" }

  function Render(lines: seq<Line>): string {
    if lines == [] then "" else LineText(lines[0]) + Render(lines[1..])
  }

  // The lines a reader of the file sees.
  function Canon(runner: Runner, text: string): seq<Line> {
    EachLine(runner, text, {}).kept
  }

  // ---- canonical text is a fixpoint ----

  lemma {:induction false} PartsOf(a: string, c: char, b: string)
    requires c !in a
    ensures FirstPiece(c, a + [c] + b) == a && Past(a + [c] + b, c) == b
  {
    FirstPieceOf(c, a, [c] + b);
    assert a + [c] + b == a + ([c] + b);
  }

  // A good line is its key, an equals sign and its value.
  lemma {:induction false} LineParts(line: string)
    requires |KeyOf(line)| < |line|
    ensures line == KeyOf(line) + "=" + ValueOf(line)
  {
    var n := |KeyOf(line)|;
    assert line[..n] == KeyOf(line) && line[n] == '=';
  }

  // Reading back what was kept keeps every line of it, in order, with none bad.
  lemma {:induction false} CanonicalTextIsStable(runner: Runner, text: string, seen: set<nat>)
    ensures EachLine(runner, Render(EachLine(runner, text, seen).kept), seen) == Parsed(EachLine(runner, text,
          seen).kept, 0)
    decreases |text|
  {
    if text != "" {
      var line, rest := FirstPiece('\n', text), Past(text, '\n');
      var i := Accepted(runner, line, seen);
      if line == "" || i.None? {
        CanonicalTextIsStable(runner, rest, seen);
      } else {
        var more := EachLine(runner, rest, seen + {i.value}).kept;
        CanonicalTextIsStable(runner, rest, seen + {i.value});
        KeptLineReads(runner, line, seen, more);
      }
    }
  }

  lemma {:induction false} KeptLineReads(runner: Runner, line: string, seen: set<nat>, more: seq<Line>)
    requires '\n' !in line && Accepted(runner, line, seen).Some?
    requires EachLine(runner, Render(more), seen + {Accepted(runner, line, seen).value}) == Parsed(more, 0)
    ensures var kept := [Line(KeyOf(line), ValueOf(line))] + more;
            EachLine(runner, Render(kept), seen) == Parsed(kept, 0)
  {
    var kept := [Line(KeyOf(line), ValueOf(line))] + more;
    LineParts(line);
    assert kept[1..] == more;
    assert Render(kept) == line + ['\n'] + Render(more);
    PartsOf(line, '\n', Render(more));
  }

  lemma {:induction false} SettingIndexIsOfKey(runner: Runner, text: string, seen: set<nat>, k: nat)
    requires k < |EachLine(runner, text, seen).kept|
    ensures var i := SettingIndex(runner, EachLine(runner, text, seen).kept[k].key, 0); i.Some? && i.value !in seen
    decreases |text|
  {
    var line, rest := FirstPiece('\n', text), Past(text, '\n');
    var i := Accepted(runner, line, seen);
    if line == "" || i.None? {
      SettingIndexIsOfKey(runner, rest, seen, k);
    } else {
      var more := EachLine(runner, rest, seen + {i.value}).kept;
      assert EachLine(runner, text, seen).kept == [Line(KeyOf(line), ValueOf(line))] + more;
      if k > 0 {
        SettingIndexIsOfKey(runner, rest, seen + {i.value}, k - 1);
      }
    }
  }

  predicate KeysDistinct(lines: seq<Line>) {
    forall j, k :: 0 <= j < k < |lines| ==> lines[j].key != lines[k].key
  }

  lemma {:induction false} DistinctWithFirst(first: Line, more: seq<Line>)
    requires KeysDistinct(more) && forall k :: 0 <= k < |more| ==> more[k].key != first.key
    ensures KeysDistinct([first] + more)
  {
  }

  // No key is kept twice.
  lemma {:induction false} KeptKeysAreDistinct(runner: Runner, text: string, seen: set<nat>)
    ensures KeysDistinct(EachLine(runner, text, seen).kept)
    decreases |text|
  {
    hide KeysDistinct;
    if text == "" {
      assert KeysDistinct([]) by {
        NoLinesAreDistinct();
      }
    } else {
      var line, rest := FirstPiece('\n', text), Past(text, '\n');
      var i := Accepted(runner, line, seen);
      if line == "" || i.None? {
        KeptKeysAreDistinct(runner, rest, seen);
      } else {
        var first, more := Line(KeyOf(line), ValueOf(line)), EachLine(runner, rest, seen + {i.value}).kept;
        KeptKeysAreDistinct(runner, rest, seen + {i.value});
        forall k | 0 <= k < |more| ensures more[k].key != first.key {
          SettingIndexIsOfKey(runner, rest, seen + {i.value}, k);
        }
        DistinctWithFirst(first, more);
      }
    }
  }

  lemma {:induction false} NoLinesAreDistinct()
    ensures KeysDistinct([])
  {
  }

  // ---- which lines are kept ----

  // The line sets setting i of this runner to a value it may have: what stands before its first
  // equals sign is the key, what stands behind it the value.
  predicate Sets(runner: Runner, line: string, i: nat) {
    && i < SETTING_COUNT && Applies(i, runner)
    && FirstPiece('=', line) == Key(i) && |Key(i)| < |line| && ValidValue(i, runner, line[|Key(i)| + 1..])
  }

  lemma {:induction false} KeysAreApart(i: nat, j: nat)
    requires i < SETTING_COUNT && j < SETTING_COUNT && Key(i) == Key(j)
    ensures i == j
  {
    var lengths := [19, 15, 19, 17, 21, 9, 16, 30, 11, 25, 24, 23];
    assert |Key(i)| == lengths[i] && |Key(j)| == lengths[j];
    assert Key(0)[0] == 'C' && Key(2)[0] == 'D';
  }

  lemma {:induction false} SettingIndexIs(runner: Runner, i: nat, from: nat)
    requires from <= i < SETTING_COUNT && Applies(i, runner)
    ensures SettingIndex(runner, Key(i), from) == Some(i)
    decreases SETTING_COUNT - from
  {
    hide Key;
    if from < i {
      if Key(from) == Key(i) {
        KeysAreApart(from, i);
      }
      SettingIndexIs(runner, i, from + 1);
    }
  }

  lemma {:induction false} SettingIndexApplies(runner: Runner, key: string, from: nat)
    requires from <= SETTING_COUNT && SettingIndex(runner, key, from).Some?
    ensures Applies(SettingIndex(runner, key, from).value, runner)
    decreases SETTING_COUNT - from
  {
    hide Key;
    if !(Key(from) == key && Applies(from, runner)) {
      SettingIndexApplies(runner, key, from + 1);
    }
  }

  // A line is accepted as a setting exactly when it sets it and the setting is not yet taken.
  lemma {:induction false} AcceptedMeans(runner: Runner, line: string, seen: set<nat>, i: nat)
    ensures Accepted(runner, line, seen) == Some(i) <==> i !in seen && Sets(runner, line, i)
  {
    hide Key, ValidValue, SettingIndex, FirstPiece;
    if Accepted(runner, line, seen) == Some(i) {
      SettingIndexApplies(runner, KeyOf(line), 0);
    }
    if i !in seen && Sets(runner, line, i) {
      SettingIndexIs(runner, i, 0);
    }
  }

  // each_line, once the text is cut into lines
  function EachOf(runner: Runner, lines: seq<string>, seen: set<nat>): Parsed {
    if lines == [] then Parsed([], 0)
    else if lines[0] == "" then EachOf(runner, lines[1..], seen)
    else
      match Accepted(runner, lines[0], seen)
      case None =>
        var more := EachOf(runner, lines[1..], seen);
        Parsed(more.kept, more.bad + 1)
      case Some(i) =>
        var more := EachOf(runner, lines[1..], seen + {i});
        Parsed([Line(KeyOf(lines[0]), ValueOf(lines[0]))] + more.kept, more.bad)
  }

  lemma {:induction false} EachLineCuts(runner: Runner, text: string, seen: set<nat>)
    ensures EachLine(runner, text, seen) == EachOf(runner, Cut('\n', text), seen)
    decreases |text|
  {
    hide Accepted, FirstPiece, KeyOf, ValueOf;
    var line, rest := FirstPiece('\n', text), Past(text, '\n');
    var i := Accepted(runner, line, seen);
    if |line| < |text| {
      assert Cut('\n', text) == [line] + Cut('\n', rest) && Cut('\n', text)[1..] == Cut('\n', rest);
      EachLineCuts(runner, rest, seen);
      if i.Some? {
        EachLineCuts(runner, rest, seen + {i.value});
      }
    } else {
      assert Cut('\n', text) == [text] && [text][1..] == [] && line == text && rest == "";
    }
  }

  // Line j is the first to set its setting, among those that may still be set.
  ghost predicate FirstToSet(runner: Runner, lines: seq<string>, seen: set<nat>, j: nat)
    requires j < |lines|
  {
    exists i :: Sets(runner, lines[j], i) && i !in seen && forall e :: 0 <= e < j ==> !Sets(runner, lines[e], i)
  }

  // The kept lines are those at these places, in this order.
  ghost predicate KeptAt(lines: seq<string>, kept: seq<Line>, at: seq<nat>) {
    && |at| == |kept| && (forall k, m :: 0 <= k < m < |at| ==> at[k] < at[m])
    && (forall k :: 0 <= k < |at| ==> at[k] < |lines| && lines[at[k]] == kept[k].key + "=" + kept[k].value)
    && forall k :: 0 <= k < |at| ==> '=' !in kept[k].key
  }

  // The places are those of the lines that are the first to set their setting.
  ghost predicate FirstSetters(runner: Runner, lines: seq<string>, at: seq<nat>) {
    forall j :: 0 <= j < |lines| ==> (j in at <==> FirstToSet(runner, lines, {}, j))
  }

  function Later(at: seq<nat>): (later: seq<nat>)
    ensures |later| == |at| && forall k :: 0 <= k < |at| ==> later[k] == at[k] + 1
  {
    seq(|at|, k requires 0 <= k < |at| => at[k] + 1)
  }

  function Filled(lines: seq<string>): nat {
    if lines == [] then 0 else (if lines[0] == "" then 0 else 1) + Filled(lines[1..])
  }

  lemma {:induction false} SetsOne(runner: Runner, line: string, i: nat, j: nat)
    requires Sets(runner, line, i) && Sets(runner, line, j)
    ensures i == j
  {
    AcceptedMeans(runner, line, {}, i);
    AcceptedMeans(runner, line, {}, j);
  }

  lemma {:induction false} FirstOfRest(runner: Runner, lines: seq<string>, seen: set<nat>, j: nat)
    requires lines != [] && j < |lines| - 1
    ensures forall i :: Accepted(runner, lines[0], seen) == Some(i) ==>
              (FirstToSet(runner, lines, seen, j + 1) <==> FirstToSet(runner, lines[1..], seen + {i}, j))
    ensures Accepted(runner, lines[0], seen).None? ==>
              (FirstToSet(runner, lines, seen, j + 1) <==> FirstToSet(runner, lines[1..], seen, j))
  {
    hide Sets, Accepted;
    var rest := lines[1..];
    if FirstToSet(runner, lines, seen, j + 1) {
      var n: nat :| Sets(runner, lines[j + 1], n) && n !in seen
        && forall e :: 0 <= e < j + 1 ==> !Sets(runner, lines[e], n);
      AcceptedMeans(runner, lines[0], seen, n);
      assert Sets(runner, rest[j], n);
      assert forall e :: 0 <= e < j ==> rest[e] == lines[e + 1];
    }
    forall i | Accepted(runner, lines[0], seen) == Some(i)
      ensures FirstToSet(runner, lines, seen, j + 1) <==> FirstToSet(runner, rest, seen + {i}, j)
    {
      AcceptedMeans(runner, lines[0], seen, i);
      if FirstToSet(runner, rest, seen + {i}, j) {
        var n: nat :| Sets(runner, rest[j], n) && n !in seen + {i}
          && forall e :: 0 <= e < j ==> !Sets(runner, rest[e], n);
        if Sets(runner, lines[0], n) {
          SetsOne(runner, lines[0], i, n);
        }
        assert forall e :: 0 <= e < j + 1 ==> !Sets(runner, lines[e], n) by {
          assert forall e :: 0 < e < j + 1 ==> lines[e] == rest[e - 1];
        }
        assert Sets(runner, lines[j + 1], n);
      }
    }
    if Accepted(runner, lines[0], seen).None? && FirstToSet(runner, rest, seen, j) {
      var n: nat :| Sets(runner, rest[j], n) && n !in seen && forall e :: 0 <= e < j ==> !Sets(runner, rest[e], n);
      AcceptedMeans(runner, lines[0], seen, n);
      assert forall e :: 0 <= e < j + 1 ==> !Sets(runner, lines[e], n) by {
        assert forall e :: 0 < e < j + 1 ==> lines[e] == rest[e - 1];
      }
      assert Sets(runner, lines[j + 1], n);
    }
  }

  lemma {:induction false} FirstLineSets(runner: Runner, lines: seq<string>, seen: set<nat>)
    requires lines != []
    ensures FirstToSet(runner, lines, seen, 0) <==> Accepted(runner, lines[0], seen).Some?
    ensures lines[0] == "" ==> Accepted(runner, lines[0], seen).None?
  {
    hide Sets, Accepted;
    if Accepted(runner, lines[0], seen).Some? {
      AcceptedMeans(runner, lines[0], seen, Accepted(runner, lines[0], seen).value);
    }
    if FirstToSet(runner, lines, seen, 0) {
      var i: nat :| Sets(runner, lines[0], i) && i !in seen;
      AcceptedMeans(runner, lines[0], seen, i);
    }
    EmptyIsNotAccepted(runner, seen);
  }

  lemma {:induction false} EmptyIsNotAccepted(runner: Runner, seen: set<nat>)
    ensures Accepted(runner, "", seen).None?
  {}

  lemma {:induction false} LaterHas(at: seq<nat>)
    ensures forall j: nat :: j + 1 in Later(at) <==> j in at
    ensures 0 !in Later(at)
  {
    forall j: nat | j in at ensures j + 1 in Later(at) {
      var k :| 0 <= k < |at| && at[k] == j;
      assert Later(at)[k] == j + 1;
    }
  }

  lemma {:induction false} KeptLater(lines: seq<string>, kept: seq<Line>, at: seq<nat>, first: Line)
    requires lines != [] && KeptAt(lines[1..], kept, at)
    ensures KeptAt(lines, kept, Later(at))
    ensures lines[0] == first.key + "=" + first.value && '=' !in first.key ==>
              KeptAt(lines, [first] + kept, [0] + Later(at))
  {}

  lemma {:induction false} KeptPlaces(runner: Runner, lines: seq<string>, seen: set<nat>) returns (at: seq<nat>)
    ensures var all := EachOf(runner, lines, seen);
            KeptAt(lines, all.kept, at) && |all.kept| + all.bad == Filled(lines)
    ensures forall j :: 0 <= j < |lines| ==> (j in at <==> FirstToSet(runner, lines, seen, j))
  {
    hide Accepted, FirstPiece, KeyOf, ValueOf, FirstToSet, KeptAt;
    if lines == [] {
      NothingKept();
      return [];
    }
    var i := Accepted(runner, lines[0], seen);
    var rest := lines[1..];
    var more := KeptPlaces(runner, rest, if i.Some? then seen + {i.value} else seen);
    FirstLineSets(runner, lines, seen);
    LaterHas(more);
    var first := Line(KeyOf(lines[0]), ValueOf(lines[0]));
    if i.Some? {
      KeptLine(runner, lines[0], seen);
    }
    KeptLater(lines, EachOf(runner, rest, if i.Some? then seen + {i.value} else seen).kept, more, first);
    at := if i.Some? then [0] + Later(more) else Later(more);
    forall j | 0 <= j < |lines|
      ensures j in at <==> FirstToSet(runner, lines, seen, j)
    {
      if j > 0 {
        FirstOfRest(runner, lines, seen, j - 1);
      }
    }
  }

  lemma {:induction false} NothingKept()
    ensures KeptAt([], [], [])
  {}

  lemma {:induction false} KeptLine(runner: Runner, line: string, seen: set<nat>)
    requires Accepted(runner, line, seen).Some?
    ensures line == KeyOf(line) + "=" + ValueOf(line) && '=' !in KeyOf(line)
  {
    LineParts(line);
  }

  // Of any text are kept, in order, exactly the lines that are the first to set their setting to a
  // value it may have; every other line that is not empty is counted as bad.
  lemma {:induction false} CanonKeepsTheFirst(runner: Runner, text: string)
    ensures var lines, all := Cut('\n', text), EachLine(runner, text, {});
            && |Canon(runner, text)| + all.bad == Filled(lines)
            && exists at :: KeptAt(lines, Canon(runner, text), at) && FirstSetters(runner, lines, at)
  {
    hide EachLine, EachOf, KeptAt, FirstToSet;
    EachLineCuts(runner, text, {});
    var at := KeptPlaces(runner, Cut('\n', text), {});
  }

  // ---- which configurations are valid ----

  // One clause of each kind at most, in either order, with a semicolon between two.
  predicate IsConfig(v: string, f: string, r: string) {
    var factor, rate := FACTOR_PREFIX + f, FPS_PREFIX + r;
    || (IsFactor(f) && v == factor)
    || (IsRate(r) && v == rate)
    || (IsFactor(f) && IsRate(r) && (v == factor + ";" + rate || v == rate + ";" + factor))
  }

  // A text without a semicolon, and the same before a semicolon and more.
  lemma {:induction false} ClauseFirst(clause: string, more: string)
    requires ';' !in clause
    ensures FirstPiece(';', clause) == clause && Past(clause, ';') == ""
    ensures FirstPiece(';', clause + ";" + more) == clause && Past(clause + ";" + more, ';') == more
  {
    PartsOf(clause, ';', more);
    FirstPieceOf(';', clause, "");
    assert clause + "" == clause;
  }

  lemma {:induction false} ClauseTexts(f: string, r: string)
    ensures IsFactor(f) ==> ';' !in FACTOR_PREFIX + f && StartsLonger(FACTOR_PREFIX + f, FACTOR_PREFIX)
                            && (FACTOR_PREFIX + f)[|FACTOR_PREFIX|..] == f
    ensures IsRate(r) ==> ';' !in FPS_PREFIX + r && StartsLonger(FPS_PREFIX + r, FPS_PREFIX)
                          && (FPS_PREFIX + r)[|FPS_PREFIX|..] == r
    ensures !(FACTOR_PREFIX <= FPS_PREFIX + r) && !StartsLonger(FPS_PREFIX + r, FACTOR_PREFIX)
  {
    assert FACTOR_PREFIX[6] == 'm' && FPS_PREFIX[6] == 'p';
  }

  // What is left after the clauses that may still come.
  lemma {:induction false} ClausesLeft(v: string, factor: bool, rate: bool) returns (f: string, r: string)
    requires ValidClauses(v, factor, rate) && v != "" && v[|v| - 1] != ';'
    ensures IsConfig(v, f, r)
    ensures factor ==> IsRate(r) && v == FPS_PREFIX + r
    ensures rate ==> IsFactor(f) && v == FACTOR_PREFIX + f
    decreases |v|
  {
    hide IsFactor, IsRate;
    f, r := "", "";
    var clause, rest := FirstPiece(';', v), Past(v, ';');
    if |clause| < |v| {
      assert v == clause + ";" + rest;
      assert rest != "" && rest[|rest| - 1] == v[|v| - 1];
    }
    if StartsLonger(clause, FACTOR_PREFIX) {
      if |clause| < |v| {
        f, r := ClausesLeft(rest, true, rate);
      }
      f := clause[|FACTOR_PREFIX|..];
      assert clause == FACTOR_PREFIX + f;
    } else {
      if |clause| < |v| {
        f, r := ClausesLeft(rest, factor, true);
      }
      r := clause[|FPS_PREFIX|..];
      assert clause == FPS_PREFIX + r;
    }
  }

  // valid_dxmt_config takes exactly these texts.
  lemma {:induction false} DxmtConfigIsExact(v: string)
    ensures ValidDxmtConfig(v) <==> exists f, r :: IsConfig(v, f, r)
  {
    hide IsConfig, ValidClauses;
    if ValidDxmtConfig(v) {
      var f, r := ClausesLeft(v, false, false);
    }
    forall f, r | IsConfig(v, f, r)
      ensures ValidDxmtConfig(v)
    {
      ConfigIsValid(v, f, r);
    }
  }

  lemma {:induction false} ConfigIsValid(v: string, f: string, r: string)
    requires IsConfig(v, f, r)
    ensures ValidDxmtConfig(v)
  {
    hide IsFactor, IsRate, FirstPiece, Past, StartsLonger;
    var factor, rate := FACTOR_PREFIX + f, FPS_PREFIX + r;
    ClauseTexts(f, r);
    if IsFactor(f) {
      ClauseFirst(factor, rate);
    }
    if IsRate(r) {
      ClauseFirst(rate, factor);
    }
    ConfigEnds(v, f, r);
    assert IsFactor(f) ==> ValidClauses(factor, false, true) && ValidClauses(factor, false, false);
    assert IsRate(r) ==> ValidClauses(rate, true, false) && ValidClauses(rate, false, false);
  }

  lemma {:induction false} ConfigEnds(v: string, f: string, r: string)
    requires IsConfig(v, f, r)
    ensures v != "" && v[0] == 'd' && v[|v| - 1] != ';'
  {
    if v == FACTOR_PREFIX + f + ";" + (FPS_PREFIX + r) {
      assert v[|v| - 1] == (FPS_PREFIX + r)[|FPS_PREFIX + r| - 1];
    }
  }

  // ---- canonical text always fits ----

  lemma {:induction false} ClausesAreShort(v: string, factor: bool, rate: bool)
    requires ValidClauses(v, factor, rate)
    ensures |v| <= (if factor then 0 else 37) + (if rate then 0 else 32)
    decreases |v|
  {
    hide FirstPiece;
    if v != "" {
      var clause := FirstPiece(';', v);
      assert |v| <= |clause| + 1 + |Past(v, ';')|;
      if StartsLonger(clause, FACTOR_PREFIX) {
        ClausesAreShort(Past(v, ';'), true, rate);
      } else {
        ClausesAreShort(Past(v, ';'), factor, true);
      }
    }
  }

  // The longest line setting i allows, with its line end.
  function Weight(i: nat): nat {
    if i == DXMT_CONFIG then 82 else 41
  }

  lemma {:induction false} GoodLineIsShort(runner: Runner, line: string, seen: set<nat>)
    requires Accepted(runner, line, seen).Some?
    ensures |line| + 1 <= Weight(Accepted(runner, line, seen).value)
  {
    hide Key, ValidValue, SettingIndex;
    var i := Accepted(runner, line, seen).value;
    LineParts(line);
    KeyIsShort(i);
    GoodValueIsShort(i, runner, ValueOf(line));
  }

  lemma {:induction false} KeyIsShort(i: nat)
    ensures |Key(i)| <= 30 && |Key(DXMT_CONFIG)| == 11
  {
  }

  lemma {:induction false} GoodValueIsShort(i: nat, runner: Runner, v: string)
    requires ValidValue(i, runner, v)
    ensures |v| <= if i == DXMT_CONFIG then 69 else 8
  {
    if i == DXMT_CONFIG {
      ClausesAreShort(v, false, false);
    }
  }

  // The room the settings not yet seen can take.
  function Room(seen: set<nat>, from: nat): nat
    requires from <= SETTING_COUNT
    decreases SETTING_COUNT - from
  {
    if from == SETTING_COUNT then 0
    else (if from in seen then 0 else Weight(from)) + Room(seen, from + 1)
  }

  lemma {:induction false} RoomShrinks(seen: set<nat>, i: nat, from: nat)
    requires from <= SETTING_COUNT && i !in seen && i < SETTING_COUNT
    ensures Room(seen, from) == Room(seen + {i}, from) + if from <= i then Weight(i) else 0
    decreases SETTING_COUNT - from
  {
    if from < SETTING_COUNT {
      RoomShrinks(seen, i, from + 1);
    }
  }

  lemma {:induction false} KeptTextFits(runner: Runner, text: string, seen: set<nat>)
    ensures |Render(EachLine(runner, text, seen).kept)| <= Room(seen, 0)
    decreases |text|
  {
    if text != "" {
      var line, rest := FirstPiece('\n', text), Past(text, '\n');
      var i := Accepted(runner, line, seen);
      if line == "" || i.None? {
        KeptTextFits(runner, rest, seen);
      } else {
        KeptTextFits(runner, rest, seen + {i.value});
        RoomShrinks(seen, i.value, 0);
        GoodLineIsShort(runner, line, seen);
        LineParts(line);
        var more := EachLine(runner, rest, seen + {i.value}).kept;
        assert ([Line(KeyOf(line), ValueOf(line))] + more)[1..] == more;
      }
    }
  }

  // Whatever was read, 533 bytes hold the canonical text, so a 1025-byte buffer never
  // overflows and a canonical file is always short enough to be read again.
  lemma {:induction false} CanonicalTextIsShort(runner: Runner, text: string)
    ensures |Render(Canon(runner, text))| <= 533 < TEXT_MAX
  {
    KeptTextFits(runner, text, {});
    assert Room({}, 9) == 123 && Room({}, 8) == 205 && Room({}, 4) == 369 && Room({}, 0) == 533;
  }

  // ---- np_text_t ----

  class TextBuffer {
    const size: nat
    var text: string
    var ok: bool

    constructor (size: nat)
      requires size > 0
      ensures this.size == size && text == "" && ok && Valid()
    {
      this.size, text, ok := size, "", true;
    }

    // The text and its terminator stay inside the buffer.
    ghost predicate Valid()
      reads this
    {
      |text| < size
    }

    // put: once a piece does not fit, nothing more is written.
    method Put(s: string)
      requires Valid()
      modifies this
      ensures Valid() && ok == (old(ok) && |old(text)| + |s| < size)
      ensures text == if ok then old(text) + s else old(text)
    {
      if !ok || |text| + |s| >= size {
        ok := false;
        return;
      }
      text := text + s;
    }

    method PutLine(line: Line)
      requires Valid()
      modifies this
      ensures Valid() && ok == (old(ok) && |old(text)| + |LineText(line)| < size)
      ensures ok ==> text == old(text) + LineText(line)
    {
      Put(line.key);
      Put("=");
      Put(line.value);
      Put("\n");
      assert ok ==> text == old(text) + LineText(line);
    }

    // each_line with put_line: counts the bad lines and writes the good ones.
    method ReadLines(runner: Runner, source: string) returns (bad: nat)
      requires Valid() && ok && text == ""
      modifies this
      ensures Valid() && bad == EachLine(runner, source, {}).bad
      ensures ok == (|Render(Canon(runner, source))| < size)
      ensures ok ==> text == Render(Canon(runner, source))
    {
      hide Accepted, LineText, Key, ValidValue;
      bad := 0;
      var rest, seen: set<nat> := source, {};
      ghost var all := EachLine(runner, source, {});
      while rest != ""
        invariant Valid() && Continues(all, EachLine(runner, rest, seen), bad)
        decreases |rest|
      {
        var line := FirstPiece('\n', rest);
        ghost var left := EachLine(runner, rest, seen);
        rest := Past(rest, '\n');
        if line != "" {
          var i := Accepted(runner, line, seen);
          if i.None? {
            bad := bad + 1;
          } else {
            ghost var before := text;
            PutLine(Line(KeyOf(line), ValueOf(line)));
            seen := seen + {i.value};
            RenderFirst(before, left.kept, EachLine(runner, rest, seen).kept);
          }
        }
      }
      assert ok ==> text + "" == text;
    }

    // The lines read so far are in the buffer, or did not fit.
    ghost predicate Continues(all: Parsed, left: Parsed, bad: nat)
      reads this
    {
      all.bad == bad + left.bad
      && (ok ==> Render(all.kept) == text + Render(left.kept))
      && (!ok ==> |Render(all.kept)| >= size)
    }
  }

  lemma {:induction false} RenderFirst(before: string, lines: seq<Line>, more: seq<Line>)
    requires lines != [] && lines[1..] == more
    ensures before + Render(lines) == (before + LineText(lines[0])) + Render(more)
  {
    hide LineText;
  }

  // checked_body: the canonical text of a text without bad lines. Nothing else is refused:
  // the case of a body that does not fit never arises.
  method CheckedBody(runner: Runner, text: string) returns (body: Option<string>)
    ensures body == if |text| <= TEXT_MAX && EachLine(runner, text, {}).bad == 0 then Some(Render(Canon(runner,
          text))) else None
  {
    if |text| > TEXT_MAX {
      return None;
    }
    CanonicalTextIsShort(runner, text);
    var buffer := new TextBuffer(TEXT_MAX + 1);
    var bad := buffer.ReadLines(runner, text);
    if bad > 0 {
      return None;
    }
    return Some(buffer.text);
  }

  // ---- the table, row by row ----

  // A row of g_settings: the runners it is for, its values, and those for Rosetta on top.
  datatype Setting = Setting(key: string, runners: set<Runner>, values: seq<string>, rosettaValues: seq<string>)

  const BOTH: set<Runner> := {Rosetta, Fex}
  const BOOLS: seq<string> := ["0", "1"]
  const FACTORS: seq<string> := ["1.5", "1.72", "2.0", "3.0"]
  const RATES: seq<string> := ["30", "40", "60", "120", "144"]

  const SETTINGS: seq<Setting> := [
    Setting("CX_GRAPHICS_BACKEND", BOTH, ["dxmt", "dxvk", "wined3d"], ["d3dmetal"]),
    Setting("MTL_HUD_ENABLED", BOTH, BOOLS, []),
    Setting("D3DM_ENABLE_METALFX", {Rosetta}, BOOLS, []),
    Setting("DXMT_ENABLE_NVEXT", BOTH, BOOLS, []),
    Setting("ROSETTA_ADVERTISE_AVX", {Rosetta}, BOOLS, []),
    Setting("WINEMSYNC", BOTH, BOOLS, []),
    Setting("NOTPROTON_RETINA", BOTH, BOOLS, []),
    Setting("DXMT_METALFX_SPATIAL_SWAPCHAIN", BOTH, BOOLS, []),
    Setting("DXMT_CONFIG", BOTH, [], []),
    Setting("NOTPROTON_RAW_CONTROLLERS", BOTH, BOOLS, []),
    Setting("NOTPROTON_DISABLE_HIDRAW", BOTH, BOOLS, []),
    Setting("FEX_X87REDUCEDPRECISION", {Fex}, BOOLS, [])]

  lemma {:induction false} SettingsAreTheTable(i: nat, runner: Runner, v: string)
    requires i < SETTING_COUNT
    ensures |SETTINGS| == SETTING_COUNT && Key(i) == SETTINGS[i].key
    ensures Applies(i, runner) <==> runner in SETTINGS[i].runners
    ensures i != DXMT_CONFIG ==>
              (ValidValue(i, runner, v) <==>
               v in SETTINGS[i].values || (runner == Rosetta && v in SETTINGS[i].rosettaValues))
    ensures (IsFactor(v) <==> v in FACTORS) && (IsRate(v) <==> v in RATES)
  {
    hide ValidClauses;
    assert i in {0, 1, 2, 3, 4, 5, 6, 7, 8, 9, 10, 11};
  }
}
