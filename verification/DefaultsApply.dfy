// dylib/feats/defaults.c: the family file, the per-build overrides, and making one build's
// settings every build's. A folder is a map from file names to what they are.
module DefaultsApply {
  import opened Options
  import opened Chars
  import opened DefaultsText

  // ---- names ----

  const BUILD_ID_MAX := 63

  predicate IsBuildId(build: string) {
    0 < |build| <= BUILD_ID_MAX && forall c :: c in build ==> IsAlnum(c) || c == '.' || c == '-'
  }

  lemma {:induction false} BuildIdMeans(build: string)
    ensures IsBuildId(build) <==>
            1 <= |build| <= 63 && forall c :: c in build ==> c in UPPER + LOWER + DIGITS + ".-"
  {
    forall c: char ensures (IsAlnum(c) || c == '.' || c == '-') <==> c in UPPER + LOWER + DIGITS + ".-" {
      LetterOrDigit(c);
    }
  }

  const OVERRIDE_PREFIX := "defaults-override-"

  function Suffix(runner: Runner): string {
    if runner == Rosetta then "-rosetta" else "-fex"
  }

  function FamilyName(runner: Runner): string { "defaults" + Suffix(runner) }

  // build_path
  function OverrideName(build: string, runner: Runner): string { OVERRIDE_PREFIX + build + Suffix(runner) }

  // write_locked's temporary file
  function NewName(name: string): string { name + ".new" }

  predicate EndsWith(s: string, suffix: string) {
    |s| >= |suffix| && s[|s| - |suffix|..] == suffix
  }

  lemma {:induction false} NamesInFull(build: string)
    ensures FamilyName(Rosetta) == "defaults-rosetta" && FamilyName(Fex) == "defaults-fex"
    ensures OverrideName(build, Rosetta) == "defaults-override-" + build + "-rosetta"
    ensures OverrideName(build, Fex) == "defaults-override-" + build + "-fex"
  {}

  // The directory walk of remove_overrides_locked: the build a file name belongs to.
  function BuildOf(name: string, runner: Runner): Option<string> {
    var pre, suf := |OVERRIDE_PREFIX|, |Suffix(runner)|;
    if |name| <= pre + suf || !(OVERRIDE_PREFIX <= name) || !EndsWith(name, Suffix(runner)) then None
    else
      var build := name[pre..|name| - suf];
      if IsBuildId(build) then Some(build) else None
  }

  // Recovering the build from a name inverts build_path, hyphens in the build notwithstanding.
  lemma {:induction false} BuildOfInvertsPath(name: string, build: string, runner: Runner)
    ensures BuildOf(name, runner) == Some(build) <==> IsBuildId(build) && name == OverrideName(build, runner)
  {
    hide IsBuildId;
    var prefix, suffix := OVERRIDE_PREFIX, Suffix(runner);
    if BuildOf(name, runner) == Some(build) {
      ThreeParts(name, |prefix|, |suffix|);
      assert name[..|prefix|] == prefix;
    }
    if IsBuildId(build) && name == OverrideName(build, runner) {
      Assembled(prefix, build, suffix);
      BuildIsNotEmpty(build);
    }
  }

  lemma {:induction false} ThreeParts(s: string, n: nat, m: nat)
    requires n + m <= |s|
    ensures s == s[..n] + s[n..|s| - m] + s[|s| - m..]
  {}

  lemma {:induction false} Assembled(a: string, b: string, c: string)
    ensures var s := a + b + c; a <= s && s[|a|..|s| - |c|] == b && s[|s| - |c|..] == c
  {}

  lemma {:induction false} BuildIsNotEmpty(build: string)
    requires IsBuildId(build)
    ensures build != ""
  {}

  lemma {:induction false} LastOf(s: string, suffix: string)
    requires suffix != "" && EndsWith(s, suffix)
    ensures s[|s| - 1] == suffix[|suffix| - 1]
  {
    assert s[|s| - |suffix|..][|suffix| - 1] == s[|s| - 1];
  }

  // No name plays two parts: override of one build, family file, or temporary file.
  lemma {:induction false} NamesAreApart(build: string, runner: Runner, other: Runner)
    ensures OverrideName(build, runner) != FamilyName(other)
    ensures OverrideName(build, runner) != NewName(FamilyName(other))
    ensures FamilyName(runner) != NewName(FamilyName(other))
  {
    assert OverrideName(build, runner)[9] == 'o';
    assert FamilyName(other)[9] != 'o' && NewName(FamilyName(other))[9] == FamilyName(other)[9];
    assert NewName(FamilyName(other))[|NewName(FamilyName(other))| - 1] == 'w';
    assert FamilyName(runner)[|FamilyName(runner)| - 1] == Suffix(runner)[|Suffix(runner)| - 1] != 'w';
  }

  // Nor do the two runners share a name.
  lemma {:induction false} RunnersAreApart(build: string, runner: Runner, other: Runner)
    requires runner != other
    ensures BuildOf(OverrideName(build, runner), other) == None && FamilyName(runner) != FamilyName(other)
  {
    var name := OverrideName(build, runner);
    assert name[|name| - 1] == Suffix(runner)[|Suffix(runner)| - 1] != Suffix(other)[|Suffix(other)| - 1];
    assert FamilyName(runner)[|FamilyName(runner)| - 1] == Suffix(runner)[|Suffix(runner)| - 1];
    assert FamilyName(other)[|FamilyName(other)| - 1] == Suffix(other)[|Suffix(other)| - 1];
    if EndsWith(name, Suffix(other)) {
      LastOf(name, Suffix(other));
    }
  }

  // ---- reading ----

  datatype Node = Regular(text: string) | Special

  type Folder = map<string, Node>

  predicate IsRegular(folder: Folder, name: string) {
    name in folder && folder[name].Regular?
  }

  // read_lines: an absent file has no lines; a special or over-long one cannot be read.
  function Lines(folder: Folder, name: string, runner: Runner): Option<seq<Line>> {
    if name !in folder then Some([])
    else
      match folder[name]
      case Special => None
      case Regular(text) => if |text| <= TEXT_MAX then Some(Canon(runner, text)) else None
  }

  function SourceName(folder: Folder, build: string, runner: Runner): string {
    if IsRegular(folder, OverrideName(build, runner)) then OverrideName(build, runner) else FamilyName(runner)
  }

  // The settings a build runs with: its own file if it has one, else the family's.
  function Effective(folder: Folder, build: string, runner: Runner): Option<seq<Line>> {
    Lines(folder, SourceName(folder, build, runner), runner)
  }

  // What that is, without the choice of a name: an own regular file decides alone, whatever the
  // family's says; without one the family's decides, and its absence is no settings.
  lemma {:induction false} EffectiveMeans(folder: Folder, build: string, runner: Runner)
    ensures var own, family := OverrideName(build, runner), FamilyName(runner);
            && (forall text :: own in folder && folder[own] == Regular(text) ==>
                  Effective(folder, build, runner) == if |text| <= TEXT_MAX then Some(Canon(runner, text)) else None)
            && (!IsRegular(folder, own) && family !in folder ==> Effective(folder, build, runner) == Some([]))
            && (!IsRegular(folder, own) && family in folder && folder[family].Special? ==>
                  Effective(folder, build, runner) == None)
            && (forall text :: !IsRegular(folder, own) && family in folder && folder[family] == Regular(text) ==>
                  Effective(folder, build, runner) == if |text| <= TEXT_MAX then Some(Canon(runner, text)) else None)
  {
    hide Canon;
  }

  // ---- applying ----

  // Which system calls fail.
  datatype Faults = Faults(open: bool, read: bool, write: bool, rename: bool, stuck: set<string>)

  // Only the family file, its temporary file and overrides of this runner may differ.
  ghost predicate OthersKept(before: Folder, after: Folder, runner: Runner) {
    var family := FamilyName(runner);
    forall name ::
      (name in before || name in after) && name != family && name != NewName(family) && BuildOf(name, runner).None?
      ==> name in before && name in after && after[name] == before[name]
  }

  // Overrides of this runner have gone, nothing else has changed.
  ghost predicate Removing(before: Folder, after: Folder, runner: Runner) {
    && (forall name :: name in after ==> name in before && after[name] == before[name])
    && (forall name :: name in before && name !in after ==> BuildOf(name, runner).Some? && before[name].Regular?)
  }

  // The family file reads as the wanted settings.
  predicate Saved(folder: Folder, runner: Runner, wanted: Option<seq<Line>>) {
    FamilyName(runner) in folder && folder[FamilyName(runner)].Regular? && Lines(folder, FamilyName(runner),
          runner) == wanted
  }

  // The family file is the canonical form of this text.
  predicate FamilyHolds(folder: Folder, runner: Runner, text: string) {
    FamilyName(runner) in folder && folder[FamilyName(runner)] == Regular(Render(Canon(runner, text)))
  }

  // What is written is the canonical form of the build's own regular file, or, without one, of the family's.
  lemma {:induction false} WrittenText(before: Folder, after: Folder, build: string, runner: Runner, body: string)
    requires Effective(before, build, runner).Some? && body == Render(Effective(before, build, runner).value)
    requires after == before[FamilyName(runner) := Regular(body)] - {NewName(FamilyName(runner))}
    ensures if IsRegular(before, OverrideName(build, runner)) then
              FamilyHolds(after, runner, before[OverrideName(build, runner)].text)
            else if FamilyName(runner) in before then
              before[FamilyName(runner)].Regular? && FamilyHolds(after, runner, before[FamilyName(runner)].text)
            else FamilyHolds(after, runner, "")
  {
    hide Render, EachLine;
    NamesAreApart(build, runner, runner);
    NothingIsCanonical(runner);
  }

  lemma {:induction false} NothingIsCanonical(runner: Runner)
    ensures Canon(runner, "") == []
  {}

  lemma {:induction false} RemovingKeepsFamily(middle: Folder, after: Folder, runner: Runner)
    requires Removing(middle, after, runner) && FamilyName(runner) in middle
    ensures FamilyName(runner) in after && after[FamilyName(runner)] == middle[FamilyName(runner)]
  {
    FamilyIsNoOverride(runner);
  }

  lemma {:induction false} FamilyIsNoOverride(runner: Runner)
    ensures BuildOf(FamilyName(runner), runner).None? && BuildOf(NewName(FamilyName(runner)), runner).None?
  {
    assert FamilyName(runner)[9] != 'o' && NewName(FamilyName(runner))[9] == FamilyName(runner)[9];
    assert OVERRIDE_PREFIX[9] == 'o';
  }

  lemma {:induction false} TemporaryIsNotRead(folder: Folder, build: string, runner: Runner)
    ensures Effective(folder - {NewName(FamilyName(runner))}, build, runner) == Effective(folder, build, runner)
  {
    NamesAreApart(build, runner, runner);
  }

  // What the source reads as, written to the family file, reads as the same settings, and
  // the source build, own file or not, still runs with them.
  lemma {:induction false} WritingKeepsEffective(before: Folder, after: Folder, build: string, runner: Runner,
        body: string)
    requires Effective(before, build, runner).Some? && body == Render(Effective(before, build, runner).value)
    requires after == before[FamilyName(runner) := Regular(body)] - {NewName(FamilyName(runner))}
    ensures Saved(after, runner, Effective(before, build, runner))
    ensures Effective(after, build, runner) == Effective(before, build, runner)
  {
    var name := SourceName(before, build, runner);
    var text := if name in before then before[name].text else "";
    NamesAreApart(build, runner, runner);
    CanonicalTextIsStable(runner, text, {});
    CanonicalTextIsShort(runner, text);
    assert Canon(runner, "") == [];
  }

  // While overrides go, a build reads its own file until that goes, and the family's from then on.
  lemma {:induction false} RemovingKeepsEffective(middle: Folder, after: Folder, build: string, runner: Runner,
        wanted: Option<seq<Line>>)
    requires Saved(middle, runner, wanted) && Removing(middle, after, runner)
    ensures Saved(after, runner, wanted)
    ensures Effective(middle, build, runner) == wanted || !IsRegular(after, OverrideName(build, runner)) ==>
              Effective(after, build, runner) == wanted
  {
    FamilyIsNoOverride(runner);
    NamesAreApart(build, runner, runner);
  }

  // The other runner's builds are none the wiser.
  lemma {:induction false} OtherRunnerUntouched(before: Folder, after: Folder, runner: Runner, other: Runner,
        build: string)
    requires OthersKept(before, after, runner) && runner != other
    ensures Effective(after, build, other) == Effective(before, build, other)
  {
    RunnersAreApart(build, other, runner);
    NamesAreApart(build, other, runner);
    NamesAreApart(build, runner, other);
    FamilyIsNoOverride(other);
    assert BuildOf(FamilyName(other), runner).None? by {
      assert FamilyName(other)[9] != 'o' && OVERRIDE_PREFIX[9] == 'o';
    }
  }

  class Store {
    var folder: Folder
    ghost var history: seq<Folder>

    constructor (folder: Folder)
      ensures this.folder == folder && history == []
    {
      this.folder, history := folder, [];
    }

    // One system call's effect, which other processes can see before the next one.
    method Change(next: Folder)
      modifies this
      ensures folder == next && history == old(history) + [next]
    {
      folder, history := next, history + [next];
    }

    // write_locked on the family file: a new temporary file, renamed over the old one.
    method WriteLocked(runner: Runner, body: string, faults: Faults) returns (ok: bool)
      modifies this
      ensures ok == (!faults.write && !faults.rename)
      ensures ok ==> folder == old(folder)[FamilyName(runner) := Regular(body)] - {NewName(FamilyName(runner))}
      ensures !ok ==> folder == old(folder) - {NewName(FamilyName(runner))}
      ensures |history| >= |old(history)| && history[..|old(history)|] == old(history)
      ensures forall k :: |old(history)| <= k < |history| ==>
                || history[k] - {NewName(FamilyName(runner))} == old(folder) - {NewName(FamilyName(runner))}
                || (ok && history[k] == folder)
    {
      var path, temporary := FamilyName(runner), NewName(FamilyName(runner));
      Change(folder - {temporary});
      if faults.write {
        return false;
      }
      Change(folder[temporary := Regular(body)]);
      NamesAreApart("", runner, runner);
      if faults.rename {
        Change(folder - {temporary});
        return false;
      }
      Change(folder[path := Regular(body)] - {temporary});
      return true;
    }

    // remove_overrides_locked: the directory is listed first, then each override removed.
    method RemoveOverrides(runner: Runner, faults: Faults) returns (ok: bool)
      modifies this
      ensures Removing(old(folder), folder, runner) && (faults.stuck == {} ==> ok)
      ensures ok ==> forall name :: IsRegular(folder, name) ==> BuildOf(name, runner).None?
      ensures |history| >= |old(history)| && history[..|old(history)|] == old(history)
      ensures forall k :: |old(history)| <= k < |history| ==> Removing(old(folder), history[k], runner)
    {
      hide BuildOf;
      ok := true;
      var names := set name | name in folder && BuildOf(name, runner).Some?;
      while names != {}
        invariant Removing(old(folder), folder, runner) && (faults.stuck == {} ==> ok)
        invariant forall name :: name in names ==> BuildOf(name, runner).Some?
        invariant ok ==> forall name :: IsRegular(folder, name) && BuildOf(name, runner).Some? ==> name in names
        invariant |history| >= |old(history)| && history[..|old(history)|] == old(history)
        invariant forall k :: |old(history)| <= k < |history| ==> Removing(old(folder), history[k], runner)
        decreases names
      {
        var name :| name in names;
        names := names - {name};
        if IsRegular(folder, name) {
          if name in faults.stuck {
            ok := false;
          } else {
            Change(folder - {name});
          }
        }
      }
    }

    // read_lines on the build's own file or the family's.
    method ReadSource(build: string, runner: Runner) returns (body: Option<string>)
      ensures body == if Effective(folder, build, runner).Some? then Some(Render(Effective(folder, build,
            runner).value)) else None
    {
      var source := SourceName(folder, build, runner);
      if source !in folder {
        return Some("");
      }
      if folder[source].Special? || |folder[source].text| > TEXT_MAX {
        return None;
      }
      var text := folder[source].text;
      CanonicalTextIsShort(runner, text);
      var buffer := new TextBuffer(TEXT_MAX + 1);
      var bad := buffer.ReadLines(runner, text);
      return Some(buffer.text);
    }

    // np_defaults_apply_build. 1: every build has the set. -1: saved, but some builds kept
    // their own. 0: nothing changed. The history shows every state a reader can meet.
    method ApplyBuild(build: string, runner: Runner, faults: Faults) returns (result: int)
      modifies this
      ensures result == 1 || result == 0 || result == -1
      ensures result == 0 <==> !IsBuildId(build) || faults.open || faults.read || faults.write || faults.rename
                               || Effective(old(folder), build, runner).None?
      ensures result == -1 ==> faults.stuck != {}
      ensures OthersKept(old(folder), folder, runner)
      ensures result == 1 ==> forall b :: IsBuildId(b) ==> Effective(folder, b, runner) == Effective(old(folder),
            build, runner)
      ensures result == -1 ==> forall b :: IsBuildId(b) && !IsRegular(folder, OverrideName(b, runner)) ==>
                Effective(folder, b, runner) == Effective(old(folder), build, runner)
      ensures result != 0 && IsRegular(old(folder), OverrideName(build, runner)) ==>
                FamilyHolds(folder, runner, old(folder)[OverrideName(build, runner)].text)
      ensures result != 0 && !IsRegular(old(folder), OverrideName(build, runner)) ==>
                if FamilyName(runner) in old(folder) then
                  old(folder)[FamilyName(runner)].Regular?
                  && FamilyHolds(folder, runner, old(folder)[FamilyName(runner)].text)
                else FamilyHolds(folder, runner, "")
      ensures result == 1 ==> forall b :: IsBuildId(b) ==> !IsRegular(folder, OverrideName(b, runner))
      ensures result == 0 ==> folder - {NewName(FamilyName(runner))} == old(folder) - {NewName(FamilyName(runner))}
      ensures |history| >= |old(history)|
      ensures forall k :: |old(history)| <= k < |history| ==>
                Effective(history[k], build, runner) == Effective(old(folder), build, runner)
    {
      hide Effective, Saved, BuildOf, Render, Canon, IsBuildId, OverrideName, FamilyName, NewName, Lines;
      if !IsBuildId(build) || faults.open || faults.read {
        return 0;
      }
      ghost var before, wanted := folder, Effective(folder, build, runner);
      var body := ReadSource(build, runner);
      if body.None? {
        return 0;
      }
      var written := WriteLocked(runner, body.value, faults);
      ghost var middle, mark := folder, |history|;
      forall k | |old(history)| <= k < mark && history[k] != middle ensures Effective(history[k], build,
            runner) == wanted {
        TemporaryIsNotRead(history[k], build, runner);
        TemporaryIsNotRead(before, build, runner);
      }
      TemporaryIsNotRead(before, build, runner);
      if !written {
        return 0;
      }
      WritingKeepsEffective(before, middle, build, runner, body.value);
      WrittenText(before, middle, build, runner, body.value);
      var removed := RemoveOverrides(runner, faults);
      forall k | mark <= k < |history| ensures Effective(history[k], build, runner) == wanted {
        RemovingKeepsEffective(middle, history[k], build, runner, wanted);
      }
      forall b | IsBuildId(b) && !IsRegular(folder, OverrideName(b, runner)) ensures Effective(folder, b,
            runner) == wanted {
        RemovingKeepsEffective(middle, folder, b, runner, wanted);
      }
      forall b | IsBuildId(b) && removed ensures !IsRegular(folder, OverrideName(b, runner)) {
        BuildOfInvertsPath(OverrideName(b, runner), b, runner);
      }
      RemovingKeepsFamily(middle, folder, runner);
      result := if removed then 1 else -1;
    }
  }
}
