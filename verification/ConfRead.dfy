// dylib/feats/conf.c: the line loop of conf_read_file, conf_emit, conf_admit, and the walk over a
// directory. The sink is a function of everything it was told before, and the log lists all calls.
module ConfRead {
  import opened Options
  import opened Pieces
  import opened ConfSchema
  import opened ConfRecord

  datatype Event =
    | Opened(path: string)
    | FileRefused(path: string, code: Code)
    | Handed(rec: Rec, verdict: Option<Refusal>)
    | Refused(id: string, refusal: Refusal)

  type Sink = (seq<Event>, Rec) -> Option<Refusal>

  datatype Setup = Setup(kind: Kind, num: Numbers, sink: Sink)

  // ---- one line ----

  datatype Line = Blank | Header(id: string) | Assign(name: string, value: string)

  function LastIndexOf(s: string, c: char): (i: Option<nat>)
    ensures i.Some? ==> i.value < |s| && s[i.value] == c && c !in s[i.value + 1..]
    ensures i.None? ==> c !in s
  {
    if s == "" then None
    else if s[|s| - 1] == c then Some(|s| - 1)
    else LastIndexOf(s[..|s| - 1], c)
  }

  function Trim(s: string): string { TrimRight(TrimLeft(s)) }

  function Classify(line: string): Line {
    var k := TrimLeft(line);
    if k == "" || k[0] == '#' then Blank
    else if k[0] == '[' then
      var close := LastIndexOf(k, ']');
      if close.None? then Blank else Header(Trim(k[1..close.value]))
    else
      var eq := |FirstPiece('=', k)|;
      if eq == |k| then Blank else Assign(TrimRight(k[..eq]), Trim(k[eq + 1..]))
  }

  // ---- the state machine ----

  const NO_REC := Rec("", [])

  datatype State = State(rec: Rec, code: Option<Refusal>, header: bool, seen: seq<string>, log: seq<Event>)

  // conf_admit
  function Admit(seen: seq<string>, id: string): Option<Refusal> {
    if id in seen then Some(Refusal(DupId, None))
    else if |seen| >= RECORDS_MAX then Some(Refusal(Limit, None))
    else None
  }

  // What stands against a record: the grammar, its schema, the directory's rules, in this order.
  function Objection(st: State, setup: Setup): Option<Refusal> {
    var schema := SchemaError(setup.kind, st.rec.fields, setup.num);
    if st.code.Some? then st.code else if schema.Some? then schema else Admit(st.seen, st.rec.id)
  }

  // conf_emit
  function Emit(st: State, setup: Setup): State {
    var objection := Objection(st, setup);
    if st.rec.id == "" then st.(rec := NO_REC)
    else if objection.Some? then st.(rec := NO_REC, log := st.log + [Refused(st.rec.id, objection.value)])
    else st.(rec := NO_REC, seen := st.seen + [st.rec.id],
             log := st.log + [Handed(st.rec, setup.sink(st.log, st.rec))])
  }

  function CutId(id: string): (cut: string)
    ensures cut <= id && |cut| == if |id| < 192 then |id| else 191
  {
    if |id| >= ID_MAX then id[..ID_MAX - 1] else id
  }

  function OnHeader(st: State, id: string, shown: string, setup: Setup): State {
    var e := Emit(st, setup).(code := None, header := true);
    if id == "" then e.(log := e.log + [FileRefused(shown, BadId)])
    else
      var bad := |id| >= ID_MAX || !IdOk(setup.kind, id);
      e.(rec := Rec(CutId(id), []), code := if bad then Some(Refusal(BadId, None)) else None)
  }

  // What a field is refused for, if anything.
  function FieldError(fields: seq<Field>, name: string, value: string, kind: Kind): Option<Refusal> {
    var spec := FindSpec(Table(kind), name);
    if spec.None? then
      Some(Refusal(Unknown, if name == "" then None else Some(if |name| > 63 then name[..63] else name)))
    else if value == "" then Some(Refusal(Empty, Some(name)))
    else if '\t' in value then Some(Refusal(Tab, Some(name)))
    else if Count(fields, name) >= spec.value.most then
      Some(Refusal(if spec.value.most == 1 then DupField else Limit, Some(name)))
    else if |Packed(fields + [Field(name, value)])| > REC_BUF then Some(Refusal(Limit, Some(name)))
    else None
  }

  function OnAssign(st: State, name: string, value: string, setup: Setup): State {
    if st.code.Some? then st
    else
      var error := FieldError(st.rec.fields, name, value, setup.kind);
      if error.Some? then st.(code := error)
      else st.(rec := st.rec.(fields := st.rec.fields + [Field(name, value)]))
  }

  function Lines(st: State, lines: seq<string>, shown: string, setup: Setup): State
    decreases |lines|
  {
    if lines == [] then Emit(st, setup)
    else if |lines[0]| >= LINE_MAX then st.(rec := NO_REC, log := st.log + [FileRefused(shown, LineLong)])
    else
      match Classify(lines[0])
      case Blank => Lines(st, lines[1..], shown, setup)
      case Header(id) => Lines(OnHeader(st, id, shown, setup), lines[1..], shown, setup)
      case Assign(name, value) =>
        if !st.header then st.(log := st.log + [FileRefused(shown, NoHeader)])
        else Lines(OnAssign(st, name, value, setup), lines[1..], shown, setup)
  }

  datatype File = File(shown: string, lines: Option<seq<string>>)

  datatype Progress = Progress(seen: seq<string>, log: seq<Event>)

  function Fresh(p: Progress, shown: string): State {
    State(NO_REC, None, false, p.seen, p.log + [Opened(shown)])
  }

  // conf_read_file; None is a file that cannot be opened.
  function ReadOne(p: Progress, file: File, setup: Setup): Progress {
    match file.lines
    case None => p.(log := p.log + [FileRefused(file.shown, Unreadable)])
    case Some(lines) =>
      if lines == [] then p
      else var st := Lines(Fresh(p, file.shown), lines, file.shown, setup); Progress(st.seen, st.log)
  }

  // np_conf_read_dir, over the files in name order.
  function ReadAll(p: Progress, files: seq<File>, setup: Setup): Progress
    decreases |files|
  {
    if files == [] then p else ReadAll(ReadOne(p, files[0], setup), files[1..], setup)
  }

  // ---- the code ----

  method SkipSpaces(s: string, start: nat) returns (p: nat)
    requires start <= |s|
    ensures start <= p <= |s| && s[p..] == TrimLeft(s[start..])
  {
    hide TrimLeft;
    p := start;
    while p < |s| && IsSpace(s[p])
      invariant start <= p <= |s| && TrimLeft(s[p..]) == TrimLeft(s[start..])
    {
      TrimOne(s, p);
      p := p + 1;
    }
    TrimOne(s, p);
  }

  lemma {:induction false} TrimOne(s: string, p: nat)
    requires p <= |s|
    ensures TrimLeft(s[p..]) == if p < |s| && IsSpace(s[p]) then TrimLeft(s[p + 1..]) else s[p..]
  {
    assert p < |s| ==> s[p..][0] == s[p] && s[p..][1..] == s[p + 1..];
  }

  // conf_trim
  method TrimEnd(s: string) returns (t: string)
    ensures t == TrimRight(s)
  {
    var n := |s|;
    assert s[..n] == s;
    while n > 0 && IsSpace(s[n - 1])
      invariant n <= |s| && TrimRight(s[..n]) == TrimRight(s)
    {
      assert s[..n][..n - 1] == s[..n - 1];
      n := n - 1;
    }
    assert n > 0 ==> s[..n][n - 1] == s[n - 1];
    t := s[..n];
  }

  method Parse(line: string) returns (l: Line)
    ensures l == Classify(line)
  {
    hide TrimLeft, TrimRight, LastIndexOf, FirstPiece;
    assert line[0..] == line;
    var p := SkipSpaces(line, 0);
    var k := line[p..];
    if k == "" || k[0] == '#' { return Blank; }
    if k[0] == '[' {
      var close := LastIndexOf(k, ']');
      if close.None? { return Blank; }
      var inside := k[1..close.value];
      assert inside[0..] == inside;
      p := SkipSpaces(inside, 0);
      var id := TrimEnd(inside[p..]);
      return Header(id);
    }
    var eq := |FirstPiece('=', k)|;
    if eq == |k| { return Blank; }
    var name := TrimEnd(k[..eq]);
    var rest := k[eq + 1..];
    assert rest[0..] == rest;
    p := SkipSpaces(rest, 0);
    var value := TrimEnd(rest[p..]);
    return Assign(name, value);
  }

  // The fields a sink or the schema sees when it walks a record.
  method Walk(rec: Record) returns (fields: seq<Field>)
    requires rec.Valid()
    ensures fields == rec.fields
  {
    fields := [];
    var it := 0;
    while true
      invariant it <= |rec.fields| && fields == rec.fields[..it]
      decreases |rec.fields| - it
    {
      var next := rec.Next(it);
      if next.None? { return; }
      fields := fields + [next.value];
      it := it + 1;
    }
  }

  class Directory {
    const setup: Setup
    var seen: seq<string>
    var log: seq<Event>

    constructor (setup: Setup)
      ensures this.setup == setup && seen == [] && log == []
    {
      this.setup, seen, log := setup, [], [];
    }

    method Report(e: Event)
      modifies this
      ensures log == old(log) + [e] && seen == old(seen)
    {
      log := log + [e];
    }

    ghost predicate Holds(rec: Record, st: State)
      reads this, rec, rec.kv
    {
      rec.Valid() && rec.id == st.rec.id && rec.fields == st.rec.fields && seen == st.seen && log == st.log
    }

    // conf_emit
    method EmitRecord(rec: Record, code: Option<Refusal>, ghost st: State)
      requires Holds(rec, st) && code == st.code
      modifies this, rec
      ensures Holds(rec, Emit(st, setup))
    {
      hide SchemaError;
      if rec.id != "" {
        var fields := Walk(rec);
        var objection := code;
        if objection.None? { objection := SchemaError(setup.kind, fields, setup.num); }
        if objection.None? {
          objection := Admit(seen, rec.id);
          if objection.None? { seen := seen + [rec.id]; }
        }
        if objection.None? {
          var r := Rec(rec.id, fields);
          log := log + [Handed(r, setup.sink(log, r))];
        } else {
          log := log + [Refused(rec.id, objection.value)];
        }
      }
      rec.Clear();
    }

    // A header line.
    method OpenRecord(rec: Record, id: string, shown: string, code: Option<Refusal>, ghost st: State)
        returns (next: Option<Refusal>)
      requires Holds(rec, st) && code == st.code
      modifies this, rec
      ensures Holds(rec, OnHeader(st, id, shown, setup)) && next == OnHeader(st, id, shown, setup).code
    {
      hide Emit;
      EmitRecord(rec, code, st);
      EmitClears(st, setup);
      next := None;
      if id == "" {
        Report(FileRefused(shown, BadId));
      } else {
        rec.id := CutId(id);
        if |id| >= ID_MAX || !IdOk(setup.kind, id) { next := Some(Refusal(BadId, None)); }
      }
    }

    // A field line of a record that nothing stands against yet.
    method AddField(rec: Record, name: string, value: string, ghost st: State) returns (next: Option<Refusal>)
      requires Holds(rec, st) && st.code.None? && NoNul(Field(name, value))
      modifies rec, rec.kv
      ensures Holds(rec, OnAssign(st, name, value, setup)) && next == OnAssign(st, name, value, setup).code
    {
      hide FindSpec, Packed, Count, Table;
      var spec := FindSpec(Table(setup.kind), name);
      if spec.None? {
        return Some(Refusal(Unknown, if name == "" then None else Some(if |name| > 63 then name[..63] else name)));
      }
      if value == "" { return Some(Refusal(Empty, Some(name))); }
      if '\t' in value { return Some(Refusal(Tab, Some(name))); }
      var count := rec.CountOf(name);
      if count >= spec.value.most {
        return Some(Refusal(if spec.value.most == 1 then DupField else Limit, Some(name)));
      }
      var fits := rec.Append(name, value);
      next := if fits then None else Some(Refusal(Limit, Some(name)));
    }

    // conf_read_file
    method ReadFile(file: File)
      requires file.lines.Some? ==> forall l <- file.lines.value :: '\0' !in l
      modifies this
      ensures Progress(seen, log) == ReadOne(Progress(old(seen), old(log)), file, setup)
    {
      hide Emit, OnHeader, OnAssign, Classify;
      if file.lines.None? {
        Report(FileRefused(file.shown, Unreadable));
        return;
      }
      var lines := file.lines.value;
      if lines == [] { return; }
      ghost var st := Fresh(Progress(seen, log), file.shown);
      Report(Opened(file.shown));
      var rec := new Record();
      var code: Option<Refusal>, header, i := None, false, 0;
      ghost var goal := Lines(st, lines, file.shown, setup);
      assert lines[0..] == lines;
      while i < |lines|
        invariant i <= |lines| && fresh(rec) && fresh(rec.kv)
        invariant Holds(rec, st) && code == st.code && header == st.header
        invariant Lines(st, lines[i..], file.shown, setup) == goal
      {
        var line := lines[i];
        assert lines[i..][0] == line && lines[i..][1..] == lines[i + 1..] && line in lines;
        if |line| >= LINE_MAX {
          Report(FileRefused(file.shown, LineLong));
          return;
        }
        i := i + 1;
        var parsed := Parse(line);
        match parsed
        case Blank =>
        case Header(id) =>
          code := OpenRecord(rec, id, file.shown, code, st);
          header := true;
          HeaderIsSet(st, id, file.shown, setup);
          st := OnHeader(st, id, file.shown, setup);
        case Assign(name, value) =>
          if !header {
            Report(FileRefused(file.shown, NoHeader));
            return;
          }
          ClassifyHasNoNul(line);
          AssignKeeps(st, name, value, setup);
          if code.None? { code := AddField(rec, name, value, st); }
          st := OnAssign(st, name, value, setup);
      }
      EmitRecord(rec, code, st);
    }

    // np_conf_read_dir, over the names it collected and sorted.
    method ReadFiles(files: seq<File>)
      requires forall f <- files :: f.lines.Some? ==> forall l <- f.lines.value :: '\0' !in l
      modifies this
      ensures Progress(seen, log) == ReadAll(Progress(old(seen), old(log)), files, setup)
    {
      hide ReadOne;
      ghost var goal := ReadAll(Progress(seen, log), files, setup);
      assert files[0..] == files;
      for i := 0 to |files|
        invariant ReadAll(Progress(seen, log), files[i..], setup) == goal
      {
        assert files[i..][0] == files[i] && files[i..][1..] == files[i + 1..] && files[i] in files;
        ReadFile(files[i]);
      }
    }
  }

  lemma {:induction false} EmitClears(st: State, setup: Setup)
    ensures Emit(st, setup).rec == NO_REC
  {}

  lemma {:induction false} HeaderIsSet(st: State, id: string, shown: string, setup: Setup)
    ensures OnHeader(st, id, shown, setup).header
  {}

  lemma {:induction false} AssignKeeps(st: State, name: string, value: string, setup: Setup)
    ensures var next := OnAssign(st, name, value, setup);
            next.header == st.header && next.seen == st.seen && next.log == st.log && next.rec.id == st.rec.id
    ensures st.code.Some? ==> OnAssign(st, name, value, setup) == st
  {}

  lemma {:induction false} ClassifyHasNoNul(line: string)
    requires '\0' !in line
    ensures Classify(line).Assign? ==> NoNul(Field(Classify(line).name, Classify(line).value))
  {
    hide TrimLeft, TrimRight, LastIndexOf, FirstPiece;
    var k := TrimLeft(line);
    TrimmingKeepsOut(line, '\0');
    var eq := |FirstPiece('=', k)|;
    if eq < |k| {
      TrimmingKeepsOut(k[..eq], '\0');
      TrimmingKeepsOut(k[eq + 1..], '\0');
      TrimmingKeepsOut(TrimLeft(k[eq + 1..]), '\0');
    }
  }

  lemma {:induction false} TrimmingKeepsOut(s: string, c: char)
    requires c !in s
    ensures c !in TrimLeft(s) && c !in TrimRight(s)
  {
    hide TrimLeft, TrimRight;
    TrimLeftKeepsOut(s, c);
  }
}
