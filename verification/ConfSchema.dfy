// dylib/feats/conf.c and conf.h: the tables, the rules for values, and conf_schema.
module ConfSchema {
  import opened Options
  import opened Chars
  import opened Pieces

  datatype Kind = Plugin | Variant

  datatype Field = Field(name: string, value: string)

  datatype Rec = Rec(id: string, fields: seq<Field>)

  datatype Code =
    Unreadable | LineLong | NoHeader | BadId | DupId | Unknown | DupField | Empty | Tab
    | Required | BadValue | Limit | BadType | SliderShape | BadDefault
    | SinkCode(text: string)

  datatype Refusal = Refusal(code: Code, detail: Option<string>)

  const LINE_MAX := 2048
  const ID_MAX := 192
  const REC_BUF := 4096
  const RECORDS_MAX := 32

  // ---- the tables ----

  datatype Spec = Spec(name: string, most: nat, required: bool)

  const PLUGIN_TABLE: seq<Spec> := [
    Spec("label", 1, true), Spec("description", 1, false), Spec("description_on", 16, false),
    Spec("section", 1, false), Spec("on", 1, false), Spec("off", 1, false),
    Spec("depends", 1, false), Spec("requires", 4, false), Spec("inject", 1, false),
    Spec("env", 16, false), Spec("overrides", 1, false), Spec("stage", 1, false),
    Spec("tools", 8, false), Spec("type", 1, false), Spec("choice", 16, false), Spec("min", 1, false),
    Spec("max", 1, false), Spec("step", 1, false), Spec("default", 1, false), Spec("suffix", 1, false)]

  const VARIANT_TABLE: seq<Spec> := [
    Spec("label", 1, false), Spec("variant", 1, false), Spec("src", 1, true), Spec("dst", 1, true),
    Spec("build", 8, false), Spec("remove", 32, false)]

  function Table(kind: Kind): seq<Spec> {
    if kind.Plugin? then PLUGIN_TABLE else VARIANT_TABLE
  }

  function FindSpec(table: seq<Spec>, name: string): (s: Option<Spec>)
    ensures s.Some? ==> s.value in table && s.value.name == name
    ensures s.None? ==> forall t <- table :: t.name != name
  {
    if table == [] then None
    else if table[0].name == name then Some(table[0])
    else FindSpec(table[1..], name)
  }

  // ---- looking fields up ----

  // np_conf_get: the first value of a field.
  function Get(fields: seq<Field>, name: string): Option<string> {
    if fields == [] then None
    else if fields[0].name == name then Some(fields[0].value)
    else Get(fields[1..], name)
  }

  // np_conf_count
  function Count(fields: seq<Field>, name: string): nat {
    if fields == [] then 0
    else Count(fields[..|fields| - 1], name) + if fields[|fields| - 1].name == name then 1 else 0
  }

  // ---- rules for values ----

  predicate IsSpace(c: char) { c == ' ' || '\t' <= c <= '\r' }

  predicate IsNameChar(c: char) { IsAlnum(c) || c == '.' || c == '_' || c == '-' }

  predicate IsKeyChar(c: char) { IsUpper(c) || IsDigit(c) || c == '_' }

  predicate IdOk(kind: Kind, id: string) {
    if kind.Plugin? then "NOTPROTON_" <= id && |id| > 10 && forall c <- id[10..] :: IsKeyChar(c)
    else 0 < |id| <= 64 && IsAlnum(id[0]) && forall c <- id :: IsNameChar(c)
  }

  function TrimRight(s: string): (t: string)
    ensures t <= s && (t == "" || !IsSpace(t[|t| - 1]))
  {
    if s != "" && IsSpace(s[|s| - 1]) then TrimRight(s[..|s| - 1]) else s
  }

  function TrimLeft(s: string): (t: string)
    ensures |t| <= |s| && (t == "" || !IsSpace(t[0]))
  {
    if s != "" && IsSpace(s[0]) then TrimLeft(s[1..]) else s
  }

  lemma {:induction false} TrimLeftKeepsOut(s: string, c: char)
    requires c !in s
    ensures c !in TrimLeft(s)
  {
    if s != "" && IsSpace(s[0]) { TrimLeftKeepsOut(s[1..], c); }
  }

  // np_conf_choice: the part of "<value> = <label>" that has to be matched.
  function ChoiceValue(v: string): string { TrimRight(FirstPiece('=', v)) }

  predicate ToolOk(v: string) {
    v != "" &&
    var name := if v[|v| - 1] == '*' then v[..|v| - 1] else v;
    name != "" && forall c <- name :: IsNameChar(c)
  }

  predicate EnvOk(v: string) {
    var eq := |FirstPiece('=', v)|;
    0 < eq < |v| && (IsUpper(v[0]) || v[0] == '_') && forall c <- v[..eq] :: IsKeyChar(c)
  }

  predicate HasDotDot(v: string) { exists i :: 0 < i < |v| && v[i - 1] == v[i] == '.' }

  predicate RelOk(v: string, mayBeTop: bool) {
    && !(v != "" && v[0] == '/') && !HasDotDot(v)
    && (mayBeTop || exists c <- v :: c != '/' && c != '.')
  }

  predicate BuildOk(v: string) { forall c <- v :: IsAlnum(c) || c == '.' || c == '-' }

  // ---- conf_schema ----

  // np_conf_num with strtod: the value of a text that is a finite number.
  type Numbers = string -> Option<real>

  function MissingRequired(table: seq<Spec>, fields: seq<Field>): Option<string> {
    if table == [] then None
    else if table[0].required && Get(fields, table[0].name).None? then Some(table[0].name)
    else MissingRequired(table[1..], fields)
  }

  // The first field whose value breaks the rule for its name.
  function BadField(kind: Kind, fields: seq<Field>): Option<string> {
    if fields == [] then None
    else if FieldOk(kind, fields[0]) then BadField(kind, fields[1..])
    else Some(fields[0].name)
  }

  predicate FieldOk(kind: Kind, f: Field) {
    if kind.Variant? then (f.name == "remove" ==> RelOk(f.value, false)) && (f.name == "build" ==> BuildOk(f.value))
    else
      && (f.name == "env" ==> EnvOk(f.value)) && (f.name == "choice" ==> ChoiceValue(f.value) != "")
      && (f.name == "tools" ==> ToolOk(f.value))
  }

  function Bad(detail: string): Option<Refusal> { Some(Refusal(BadValue, Some(detail))) }

  function SchemaError(kind: Kind, fields: seq<Field>, num: Numbers): Option<Refusal> {
    var missing, bad := MissingRequired(Table(kind), fields), BadField(kind, fields);
    if missing.Some? then Some(Refusal(Required, missing))
    else if kind.Variant? then
      var dst := Get(fields, "dst");
      if dst.Some? && !RelOk(dst.value, true) then Bad("dst")
      else if bad.Some? then Bad(bad.value)
      else None
    else if bad.Some? then Bad(bad.value)
    else
      var depends, section := Get(fields, "depends"), Get(fields, "section");
      if depends.Some? && !IdOk(Plugin, depends.value) then Bad("depends")
      else if section.Some? && section.value != "dev" then Bad("section")
      else if Get(fields, "type").None? then None
      else TypeError(fields, Get(fields, "type").value, num)
  }

  function TypeError(fields: seq<Field>, ty: string, num: Numbers): Option<Refusal> {
    var values, mn, mx := Count(fields, "choice"), Get(fields, "min"), Get(fields, "max");
    if ty == "choice" then if values == 0 then Some(Refusal(Required, Some("choice"))) else None
    else if ty != "slider" then Some(Refusal(BadType, Some(ty)))
    else if (values != 0 && (mn.Some? || mx.Some?)) || (values == 0 && (mn.None? || mx.None?)) || values == 1 then
      Some(Refusal(SliderShape, None))
    else if values != 0 then LadderError(fields)
    else RangeError(fields, mn.value, mx.value, num)
  }

  function LadderError(fields: seq<Field>): Option<Refusal> {
    var dflt := Get(fields, "default");
    if dflt.Some? && !exists f <- fields :: f.name == "choice" && ChoiceValue(f.value) == dflt.value then
      Some(Refusal(BadDefault, None))
    else None
  }

  function RangeError(fields: seq<Field>, mn: string, mx: string, num: Numbers): Option<Refusal> {
    var low, high := num(mn), num(mx);
    var step, dflt := Get(fields, "step"), Get(fields, "default");
    if low.None? then Bad("min")
    else if high.None? || high.value <= low.value then Bad("max")
    else if step.Some? && (num(step.value).None? || num(step.value).value <= 0.0) then Bad("step")
    else if dflt.Some? && !(num(dflt.value).Some? && low.value <= num(dflt.value).value <= high.value) then
      Some(Refusal(BadDefault, None))
    else None
  }

  // ---- what an accepted record looks like ----

  // The shape of a plugin's setting: none, a choice, a ladder of at least two values, or a range.
  ghost predicate GoodSetting(fields: seq<Field>, num: Numbers) {
    var ty, values := Get(fields, "type"), Count(fields, "choice");
    var mn, mx, step, dflt := Get(fields, "min"), Get(fields, "max"), Get(fields, "step"), Get(fields, "default");
    ty.Some? ==>
      if ty.value == "choice" then values > 0
      else
        && ty.value == "slider"
        && if values > 0 then
          && values > 1 && mn.None? && mx.None?
          && (dflt.Some? ==> exists f <- fields :: f.name == "choice" && ChoiceValue(f.value) == dflt.value)
        else
          && mn.Some? && mx.Some? && num(mn.value).Some? && num(mx.value).Some?
          && num(mn.value).value < num(mx.value).value
          && (step.Some? ==> num(step.value).Some? && num(step.value).value > 0.0)
          && (dflt.Some? ==> num(dflt.value).Some?
                             && num(mn.value).value <= num(dflt.value).value <= num(mx.value).value)
  }

  lemma {:induction false} MissingRequiredIsExact(table: seq<Spec>, fields: seq<Field>)
    ensures MissingRequired(table, fields).None? <==> forall s <- table :: s.required ==> Get(fields, s.name).Some?
    decreases |table|
  {
    if table != [] {
      MissingRequiredIsExact(table[1..], fields);
      assert table == [table[0]] + table[1..];
      assert table[0] in table && forall s <- table[1..] :: s in table;
    }
  }

  lemma {:induction false} BadFieldIsExact(kind: Kind, fields: seq<Field>)
    ensures BadField(kind, fields).None? <==> forall f <- fields :: FieldOk(kind, f)
    decreases |fields|
  {
    hide FieldOk;
    if fields != [] {
      BadFieldIsExact(kind, fields[1..]);
      assert fields == [fields[0]] + fields[1..];
      assert fields[0] in fields && forall f <- fields[1..] :: f in fields;
    }
  }

  // The value looked up is that of the first field with the name.
  lemma {:induction false} GetMeans(fields: seq<Field>, name: string)
    ensures Get(fields, name).None? <==> forall f <- fields :: f.name != name
    ensures forall k :: 0 <= k < |fields| && fields[k].name == name
                        && (forall j :: 0 <= j < k ==> fields[j].name != name)
              ==> Get(fields, name) == Some(fields[k].value)
    decreases |fields|
  {
    if fields != [] {
      GetMeans(fields[1..], name);
      assert fields == [fields[0]] + fields[1..];
      forall k | 0 <= k < |fields| && fields[k].name == name && forall j :: 0 <= j < k ==> fields[j].name != name
        ensures Get(fields, name) == Some(fields[k].value)
      {
        if k > 0 {
          assert fields[0].name != name;
          assert fields[1..][k - 1] == fields[k];
          assert forall j :: 0 <= j < k - 1 ==> fields[1..][j] == fields[j + 1];
        }
      }
    }
  }

  lemma {:induction false} CountMeans(fields: seq<Field>, name: string)
    ensures Count(fields, name) == |set k | 0 <= k < |fields| && fields[k].name == name|
    decreases |fields|
  {
    if fields != [] {
      var init, last := fields[..|fields| - 1], |fields| - 1;
      CountMeans(init, name);
      hide Count;
      var all := set k | 0 <= k < |fields| && fields[k].name == name;
      var before := set k | 0 <= k < |init| && init[k].name == name;
      assert forall k :: k in all <==> k in before || (k == last && fields[last].name == name);
      if fields[last].name == name {
        assert all == before + {last} && last !in before;
      } else {
        assert all == before;
      }
    }
  }

  // The first required field of the table that is missing, and the first field with a bad value.
  lemma {:induction false} FirstIsNamed(kind: Kind, table: seq<Spec>, fields: seq<Field>, t: nat, k: nat)
    ensures t < |table| && table[t].required && Get(fields, table[t].name).None?
            && (forall j :: 0 <= j < t && table[j].required ==> Get(fields, table[j].name).Some?)
            ==> MissingRequired(table, fields) == Some(table[t].name)
    ensures k < |fields| && !FieldOk(kind, fields[k]) && (forall j :: 0 <= j < k ==> FieldOk(kind, fields[j]))
            ==> BadField(kind, fields) == Some(fields[k].name)
    decreases |table| + |fields|
  {
    hide FieldOk, Get;
    if t < |table| && t > 0 {
      FirstIsNamed(kind, table[1..], fields, t - 1, |fields|);
      assert forall j :: 0 <= j < t - 1 ==> table[1..][j] == table[j + 1];
    }
    if k < |fields| && k > 0 {
      FirstIsNamed(kind, table, fields[1..], |table|, k - 1);
      assert forall j :: 0 <= j < k - 1 ==> fields[1..][j] == fields[j + 1];
    }
  }

  lemma {:induction false} SettingIsExact(fields: seq<Field>, num: Numbers)
    ensures GoodSetting(fields, num) <==>
            Get(fields, "type").None? || TypeError(fields, Get(fields, "type").value, num).None?
  {
    hide Get, Count, ChoiceValue;
  }

  lemma {:induction false} DstIsRequired()
    ensures exists s <- Table(Variant) :: s.name == "dst" && s.required
  {
    assert VARIANT_TABLE[3] in Table(Variant);
  }

  // A record passes exactly when it has its required fields, every value keeps the rule for its
  // name, and a plugin's setting has one of the allowed shapes.
  lemma {:induction false} SchemaIsExact(kind: Kind, fields: seq<Field>, num: Numbers)
    ensures SchemaError(kind, fields, num).None? <==>
            && (forall s <- Table(kind) :: s.required ==> Get(fields, s.name).Some?)
            && (forall f <- fields :: FieldOk(kind, f))
            && (kind.Variant? ==> Get(fields, "dst").Some? && RelOk(Get(fields, "dst").value, true))
            && (kind.Plugin? ==>
                  && (Get(fields, "depends").Some? ==> IdOk(Plugin, Get(fields, "depends").value))
                  && (Get(fields, "section").Some? ==> Get(fields, "section").value == "dev")
                  && GoodSetting(fields, num))
  {
    hide FieldOk, Get, Count, RelOk, IdOk, TypeError, GoodSetting, MissingRequired, BadField, Table;
    MissingRequiredIsExact(Table(kind), fields);
    BadFieldIsExact(kind, fields);
    if kind.Variant? {
      DstIsRequired();
    } else {
      SettingIsExact(fields, num);
    }
  }

  // ---- what a refusal says ----

  predicate IsRung(fields: seq<Field>, value: string) {
    exists f <- fields :: f.name == "choice" && ChoiceValue(f.value) == value
  }

  // Some value of the field breaks the rule for its name.
  ghost predicate Breaks(kind: Kind, fields: seq<Field>, name: string, num: Numbers) {
    var first := Get(fields, name);
    || (exists f <- fields :: f.name == name && !FieldOk(kind, f))
    || (kind.Variant? && name == "dst" && first.Some? && !RelOk(first.value, true))
    || (kind.Plugin? && first.Some? &&
        (|| (name == "depends" && !IdOk(Plugin, first.value))
         || (name == "section" && first.value != "dev")
         || (name in ["min", "max"] && num(first.value).None?)
         || (name == "step" && (num(first.value).None? || num(first.value).value <= 0.0))))
    || (kind.Plugin? && name == "max" && first.Some? && Get(fields, "min").Some? &&
        var low, high := num(Get(fields, "min").value), num(first.value);
        low.Some? && high.Some? && high.value <= low.value)
  }

  // A refused record has the fault the refusal names: the code says which, the detail which field,
  // or for an unknown type its name.
  lemma {:induction false} RefusalNamesTheFault(kind: Kind, fields: seq<Field>, num: Numbers)
    requires SchemaError(kind, fields, num).Some?
    ensures var r := SchemaError(kind, fields, num).value;
            var ty, dflt, values := Get(fields, "type"), Get(fields, "default"), Count(fields, "choice");
            var mn, mx := Get(fields, "min"), Get(fields, "max");
            match r.code
            case Required =>
              r.detail.Some? &&
              ((r.detail.value == "choice" && kind.Plugin? && ty == Some("choice") && values == 0)
               || exists s <- Table(kind) :: s.required && s.name == r.detail.value && Get(fields, s.name).None?)
            case BadValue => r.detail.Some? && Breaks(kind, fields, r.detail.value, num)
            case BadType => kind.Plugin? && r.detail == ty && ty.Some? && ty.value !in ["choice", "slider"]
            case SliderShape =>
              kind.Plugin? && ty == Some("slider") && r.detail.None?
              && if values == 0 then mn.None? || mx.None? else values == 1 || mn.Some? || mx.Some?
            case BadDefault =>
              kind.Plugin? && ty == Some("slider") && r.detail.None? && dflt.Some?
              && if values > 0 then !IsRung(fields, dflt.value)
                 else mn.Some? && mx.Some? && num(mn.value).Some? && num(mx.value).Some?
                      && (num(dflt.value).None? || num(dflt.value).value < num(mn.value).value
                          || num(mx.value).value < num(dflt.value).value)
            case _ => false
  {
    hide FieldOk, Get, Count, RelOk, IdOk, MissingRequired, BadField, Table, ChoiceValue;
    MissingIsMissing(Table(kind), fields);
    BadIsBad(kind, fields);
  }

  lemma {:induction false} MissingIsMissing(table: seq<Spec>, fields: seq<Field>)
    ensures MissingRequired(table, fields).Some? ==>
              exists s <- table ::
                s.required && s.name == MissingRequired(table, fields).value && Get(fields, s.name).None?
    decreases |table|
  {
    hide Get;
    if table != [] {
      MissingIsMissing(table[1..], fields);
      assert table[0] in table && forall s <- table[1..] :: s in table;
    }
  }

  lemma {:induction false} BadIsBad(kind: Kind, fields: seq<Field>)
    ensures BadField(kind, fields).Some? ==>
              exists f <- fields :: f.name == BadField(kind, fields).value && !FieldOk(kind, f)
    decreases |fields|
  {
    hide FieldOk;
    if fields != [] {
      BadIsBad(kind, fields[1..]);
      assert fields[0] in fields && forall f <- fields[1..] :: f in fields;
    }
  }
}
