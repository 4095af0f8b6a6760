// The rules for the values of a descriptor (dylib/feats/conf.c), told by what an accepted text is
// made of.
module ConfRules {
  import opened Options
  import opened Chars
  import opened Pieces
  import opened ConfSchema
  import opened ConfRecord
  import opened ConfRead
  import opened ConfSpelled
  import ConfMeaning

  ghost predicate Only(s: string, letters: string) { forall c <- s :: c in letters }

  lemma {:induction false} ClassesAre(c: char)
    ensures IsSpace(c) <==> c in [' ', '\t', '\n', '\U{B}', '\U{C}', '\r']
    ensures IsNameChar(c) <==> c in UPPER + LOWER + DIGITS + "._-"
    ensures IsKeyChar(c) <==> c in UPPER + DIGITS + "_"
  {
    LetterOrDigit(c);
  }

  // Plugins are named after a switch, variants by a short name that begins with a letter or digit.
  lemma {:induction false} IdMeans(id: string)
    ensures IdOk(Plugin, id) <==>
            exists key :: id == "NOTPROTON_" + key && key != "" && Only(key, UPPER + DIGITS + "_")
    ensures IdOk(Variant, id) <==>
            1 <= |id| <= 64 && id[0] in UPPER + LOWER + DIGITS && Only(id, UPPER + LOWER + DIGITS + "._-")
  {
    forall c ensures IsNameChar(c) <==> c in UPPER + LOWER + DIGITS + "._-" { ClassesAre(c); }
    forall c ensures IsKeyChar(c) <==> c in UPPER + DIGITS + "_" { ClassesAre(c); }
    if id != "" { LetterOrDigit(id[0]); }
    if IdOk(Plugin, id) {
      assert id == "NOTPROTON_" + id[10..];
    }
    if key :| id == "NOTPROTON_" + key && key != "" && Only(key, UPPER + DIGITS + "_") {
      assert id[10..] == key;
    }
  }

  // NAME=value
  lemma {:induction false} EnvMeans(v: string)
    ensures EnvOk(v) <==>
            exists name, value :: v == name + "=" + value && name != "" && name[0] in UPPER + "_"
                                  && Only(name, UPPER + DIGITS + "_")
  {
    forall c ensures IsKeyChar(c) <==> c in UPPER + DIGITS + "_" { ClassesAre(c); }
    var n := |FirstPiece('=', v)|;
    if v != "" { LetterOrDigit(v[0]); }
    if EnvOk(v) {
      assert v == v[..n] + "=" + v[n + 1..];
    }
    if name, value :| v == name + "=" + value && name != "" && name[0] in UPPER + "_"
                      && Only(name, UPPER + DIGITS + "_") {
      assert '=' !in name;
      assert v == name + ("=" + value);
      FirstPieceOf('=', name, "=" + value);
      assert v[..n] == name;
    }
  }

  // A name, with or without a star behind it.
  lemma {:induction false} ToolMeans(v: string)
    ensures ToolOk(v) <==>
            exists name :: name != "" && Only(name, UPPER + LOWER + DIGITS + "._-") && (v == name || v == name + "*")
  {
    if ToolOk(v) {
      var name := if v[|v| - 1] == '*' then v[..|v| - 1] else v;
      forall c | c in name ensures c in UPPER + LOWER + DIGITS + "._-" { ClassesAre(c); }
      assert Only(name, UPPER + LOWER + DIGITS + "._-");
      assert v == name || v == name + "*";
    }
    forall name | name != "" && Only(name, UPPER + LOWER + DIGITS + "._-") && (v == name || v == name + "*")
      ensures ToolOk(v)
    {
      NamedTool(v, name);
    }
  }

  lemma {:induction false} NamedTool(v: string, name: string)
    requires name != "" && Only(name, UPPER + LOWER + DIGITS + "._-") && (v == name || v == name + "*")
    ensures ToolOk(v)
  {
    forall c | c in name ensures IsNameChar(c) { ClassesAre(c); }
    assert name[|name| - 1] in name && !IsNameChar('*');
    if v == name + "*" { assert v[..|v| - 1] == name; }
  }

  // A path that stays below the directory it starts in.
  lemma {:induction false} RelMeans(v: string, mayBeTop: bool)
    ensures RelOk(v, mayBeTop) <==>
            && !("/" <= v) && !(exists a, b :: v == a + ".." + b) && (mayBeTop || !Only(v, "/."))
  {
    if HasDotDot(v) {
      var i :| 0 < i < |v| && v[i - 1] == v[i] == '.';
      assert v == v[..i - 1] + ".." + v[i + 1..];
    }
    if a, b :| v == a + ".." + b {
      assert v[|a|] == v[|a| + 1] == '.';
    }
  }

  lemma {:induction false} BuildMeans(v: string)
    ensures BuildOk(v) <==> Only(v, UPPER + LOWER + DIGITS + ".-")
  {
    forall c | c in v ensures (IsAlnum(c) || c == '.' || c == '-') <==> c in UPPER + LOWER + DIGITS + ".-" {
      BuildChar(c);
    }
  }

  lemma {:induction false} BuildChar(c: char)
    ensures (IsAlnum(c) || c == '.' || c == '-') <==> c in UPPER + LOWER + DIGITS + ".-"
  {
    LetterOrDigit(c);
  }

  // The value of a choice is what stands before its label.
  lemma {:induction false} ChoiceMeans(value: string, blanks: string, shown: string)
    requires '=' !in value && Blanks(blanks) && (value == "" || !IsSpace(value[|value| - 1]))
    ensures ChoiceValue(value + blanks) == value
    ensures ChoiceValue(value + blanks + "=" + shown) == value
  {
    assert '=' !in value + blanks;
    FirstPieceOf('=', value + blanks, "");
    FirstPieceOf('=', value + blanks, "=" + shown);
    assert value + blanks + "" == value + blanks;
    assert value + blanks + "=" + shown == value + blanks + ("=" + shown);
    TrimRightOf(value, blanks);
  }

  // Which fields have a rule of their own.
  lemma {:induction false} RulesByName(name: string, v: string)
    ensures FieldOk(Plugin, Field("env", v)) <==> EnvOk(v)
    ensures FieldOk(Plugin, Field("tools", v)) <==> ToolOk(v)
    ensures FieldOk(Plugin, Field("choice", v)) <==> ChoiceValue(v) != ""
    ensures FieldOk(Variant, Field("remove", v)) <==> RelOk(v, false)
    ensures FieldOk(Variant, Field("build", v)) <==> BuildOk(v)
    ensures name !in ["env", "tools", "choice"] ==> FieldOk(Plugin, Field(name, v))
    ensures name !in ["remove", "build"] ==> FieldOk(Variant, Field(name, v))
  {
    hide EnvOk, ToolOk, ChoiceValue, RelOk, BuildOk;
  }

  // ---- a field of a record ----

  function Room(fields: seq<Field>): nat {
    if fields == [] then 0 else |fields[0].name| + |fields[0].value| + 2 + Room(fields[1..])
  }

  lemma {:induction false} RoomIsPacked(fields: seq<Field>)
    ensures |Packed(fields)| == Room(fields)
    decreases |fields|
  {
    if fields != [] {
      RoomIsPacked(fields[1..]);
      PackedAppend([fields[0]], fields[1..]);
      PackedOneMore([], fields[0]);
      assert [] + [fields[0]] == [fields[0]] && [fields[0]] + fields[1..] == fields;
    }
  }

  function Places(fields: seq<Field>, name: string): set<int> {
    set k | 0 <= k < |fields| && fields[k].name == name
  }

  // What a field with a name of the table is refused for, in this order: an empty value, a tab, one
  // too many of its name, or no room left in the buffer.
  lemma {:induction false} KnownFieldFaults(fields: seq<Field>, f: Field, kind: Kind, most: nat, required: bool)
    requires FindSpec(Table(kind), f.name) == Some(Spec(f.name, most, required))
    ensures FieldError(fields, f.name, f.value, kind) ==
            if f.value == "" then Some(Refusal(Empty, Some(f.name)))
            else if '\t' in f.value then Some(Refusal(Tab, Some(f.name)))
            else if |Places(fields, f.name)| >= most then
              Some(Refusal(if most == 1 then DupField else Limit, Some(f.name)))
            else if Room(fields) + |f.name| + |f.value| + 2 > 4096 then Some(Refusal(Limit, Some(f.name)))
            else None
  {
    hide FindSpec, Count, Packed, Room;
    CountMeans(fields, f.name);
    RoomIsPacked(fields);
    PackedOneMore(fields, f);
    assert Field(f.name, f.value) == f;
    assert Places(fields, f.name) == set k | 0 <= k < |fields| && fields[k].name == f.name;
  }

  // A field with any other name is refused with up to 63 bytes of it, or none when it has no name.
  lemma {:induction false} UnknownFieldFault(fields: seq<Field>, f: Field, kind: Kind)
    requires forall s <- Table(kind) :: s.name != f.name
    ensures var r := FieldError(fields, f.name, f.value, kind);
            && r.Some? && r.value.code == Unknown && (r.value.detail.None? <==> f.name == "")
            && (f.name != "" ==>
                  && r.value.detail.value <= f.name
                  && |r.value.detail.value| == if |f.name| < 63 then |f.name| else 63)
  {
    hide Table;
    var spec := FindSpec(Table(kind), f.name);
  }
}
