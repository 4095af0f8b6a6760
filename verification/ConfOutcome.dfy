// What becomes of every descriptor file (dylib/feats/conf.c): the records its lines spell, and for
// each whether it is handed on or what it is refused for.
module ConfOutcome {
  import opened Options
  import opened ConfSchema
  import opened ConfRecord
  import opened ConfRead
  import opened ConfSpelled

  // ---- what the lines of a file spell ----

  // How a file ends: with its last line, at a line that is too long, or at a field before the
  // first header.
  datatype Ending = AtEnd | TooLong | FieldFirst

  // The lines spell the fields still to come of the open record, if one is open, then the records
  // `more`, and end like that.
  ghost predicate Reads(lines: seq<string>, open: bool, fields: seq<Field>, more: seq<Rec>, end: Ending)
    decreases |lines|
  {
    if lines == [] then fields == [] && more == [] && end == AtEnd
    else if |lines[0]| >= LINE_MAX then fields == [] && more == [] && end == TooLong
    else
      || (IdleLine(lines[0]) && Reads(lines[1..], open, fields, more, end))
      || (open && fields != [] && FieldLine(lines[0], fields[0].name, fields[0].value)
          && Reads(lines[1..], open, fields[1..], more, end))
      || (!open && fields == [] && more == [] && end == FieldFirst
          && exists name, value :: FieldLine(lines[0], name, value))
      || (fields == [] && more != [] && HeaderLine(lines[0], more[0].id)
          && Reads(lines[1..], true, more[0].fields, more[1..], end))
  }

  lemma {:induction false} EveryFileReads(lines: seq<string>, open: bool)
        returns (fields: seq<Field>, more: seq<Rec>, end: Ending)
    ensures Reads(lines, open, fields, more, end) && (!open ==> fields == [])
    decreases |lines|
  {
    hide Classify, IdleLine, FieldLine, HeaderLine;
    fields, more, end := [], [], if lines == [] then AtEnd else TooLong;
    if lines != [] && |lines[0]| < LINE_MAX {
      LineMeans(lines[0]);
      match Classify(lines[0])
      case Blank =>
        fields, more, end := EveryFileReads(lines[1..], open);
      case Header(id) =>
        var inner, rest;
        inner, rest, end := EveryFileReads(lines[1..], true);
        more := [Rec(id, inner)] + rest;
        assert more[1..] == rest;
      case Assign(name, value) =>
        if open {
          var rest;
          rest, more, end := EveryFileReads(lines[1..], true);
          fields := [Field(name, value)] + rest;
          assert fields[1..] == rest;
        } else {
          end := FieldFirst;
        }
    }
  }

  // ---- what becomes of a record ----

  // The first field with a fault, given those before it.
  function FirstFault(kind: Kind, before: seq<Field>, fields: seq<Field>): Option<Refusal>
    decreases |fields|
  {
    if fields == [] then None
    else
      var error := FieldError(before, fields[0].name, fields[0].value, kind);
      if error.Some? then error else FirstFault(kind, before + [fields[0]], fields[1..])
  }

  // A record is refused for its id, its first bad field, its schema, or the directory's rules.
  function Verdict(seen: seq<string>, rec: Rec, setup: Setup): Option<Refusal> {
    var fault, schema := FirstFault(setup.kind, [], rec.fields), SchemaError(setup.kind, rec.fields, setup.num);
    if |rec.id| >= ID_MAX || !IdOk(setup.kind, rec.id) then Some(Refusal(BadId, None))
    else if fault.Some? then fault
    else if schema.Some? then schema
    else if rec.id in seen then Some(Refusal(DupId, None))
    else if |seen| >= RECORDS_MAX then Some(Refusal(Limit, None))
    else None
  }

  function Told(p: Progress, rec: Rec, setup: Setup): Progress {
    var verdict := Verdict(p.seen, rec, setup);
    if rec.id == "" then p
    else if verdict.Some? then p.(log := p.log + [Refused(CutId(rec.id), verdict.value)])
    else Progress(p.seen + [rec.id], p.log + [Handed(rec, setup.sink(p.log, rec))])
  }

  // A record without an id is refused where it begins.
  function Begun(p: Progress, id: string, shown: string): Progress {
    if id == "" then p.(log := p.log + [FileRefused(shown, BadId)]) else p
  }

  function Ended(p: Progress, open: Option<Rec>, setup: Setup): Progress {
    if open.Some? then Told(p, open.value, setup) else p
  }

  // A file cut short drops the record that is open.
  function Outcome(p: Progress, open: Option<Rec>, more: seq<Rec>, end: Ending, shown: string, setup: Setup): Progress
    decreases |more|
  {
    if more != [] then
      Outcome(Begun(Ended(p, open, setup), more[0].id, shown), Some(more[0]), more[1..], end, shown, setup)
    else
      match end
      case AtEnd => Ended(p, open, setup)
      case TooLong => p.(log := p.log + [FileRefused(shown, LineLong)])
      case FieldFirst => p.(log := p.log + [FileRefused(shown, NoHeader)])
  }

  // ---- the reader follows ----

  // `open` is the record under way with the fields read of it so far.
  ghost predicate Tracks(st: State, open: Option<Rec>, setup: Setup) {
    && st.header == open.Some?
    && match open
       case None => st.rec == NO_REC && st.code.None?
       case Some(rec) =>
         && st.rec.id == CutId(rec.id)
         && (rec.id != "" ==>
               && st.code == (if |rec.id| >= ID_MAX || !IdOk(setup.kind, rec.id) then Some(Refusal(BadId, None))
                              else FirstFault(setup.kind, [], rec.fields))
               && (st.code.None? ==> st.rec.fields == rec.fields))
  }

  lemma {:induction false} OneMoreFault(kind: Kind, before: seq<Field>, fields: seq<Field>, f: Field)
    ensures FirstFault(kind, before, fields + [f]) ==
            var fault := FirstFault(kind, before, fields);
            if fault.Some? then fault else FieldError(before + fields, f.name, f.value, kind)
    decreases |fields|
  {
    hide FieldError;
    if fields == [] {
      assert fields + [f] == [f] && before + fields == before;
      assert [f][1..] == [];
    } else {
      OneMoreFault(kind, before + [fields[0]], fields[1..], f);
      assert (fields + [f])[1..] == fields[1..] + [f];
      assert before + [fields[0]] + fields[1..] == before + fields;
    }
  }

  lemma {:induction false} EmitTells(st: State, open: Option<Rec>, setup: Setup)
    requires Tracks(st, open, setup)
    ensures var e, p := Emit(st, setup), Progress(st.seen, st.log);
            Progress(e.seen, e.log) == Ended(p, open, setup) && e.rec == NO_REC
  {
    hide FirstFault, SchemaError, IdOk;
  }

  lemma {:induction false} AssignTracks(st: State, rec: Rec, f: Field, setup: Setup)
    requires Tracks(st, Some(rec), setup)
    ensures var t := OnAssign(st, f.name, f.value, setup);
            Tracks(t, Some(Rec(rec.id, rec.fields + [f])), setup) && t.seen == st.seen && t.log == st.log
  {
    hide FirstFault, FieldError, IdOk;
    OneMoreFault(setup.kind, [], rec.fields, f);
    assert [] + rec.fields == rec.fields && Field(f.name, f.value) == f;
  }

  lemma {:induction false} HeaderTracks(st: State, open: Option<Rec>, id: string, shown: string, setup: Setup)
    requires Tracks(st, open, setup)
    ensures var t := OnHeader(st, id, shown, setup);
            && Tracks(t, Some(Rec(id, [])), setup)
            && Progress(t.seen, t.log) == Begun(Ended(Progress(st.seen, st.log), open, setup), id, shown)
  {
    hide Emit, IdOk, Ended;
    EmitTells(st, open, setup);
  }

  lemma {:induction false} LinesTell(st: State, lines: seq<string>, open: Option<Rec>, fields: seq<Field>,
        more: seq<Rec>, end: Ending, shown: string, setup: Setup)
    requires Reads(lines, open.Some?, fields, more, end) && Tracks(st, open, setup) && (open.None? ==> fields == [])
    ensures var e, p := Lines(st, lines, shown, setup), Progress(st.seen, st.log);
            var whole := if open.Some? then Some(Rec(open.value.id, open.value.fields + fields)) else None;
            Progress(e.seen, e.log) == Outcome(p, whole, more, end, shown, setup)
    decreases |lines|
  {
    hide Classify, Emit, OnHeader, OnAssign, Tracks, IdleLine, FieldLine, HeaderLine, Begun, Ended;
    var whole := if open.Some? then Some(Rec(open.value.id, open.value.fields + fields)) else None;
    if lines == [] || |lines[0]| >= LINE_MAX {
      assert open.Some? ==> open.value.fields + [] == open.value.fields;
      EmitTells(st, open, setup);
    } else {
      LineMeans(lines[0]);
      TracksHeader(st, open, setup);
      if IdleLine(lines[0]) && Reads(lines[1..], open.Some?, fields, more, end) {
        LinesTell(st, lines[1..], open, fields, more, end, shown, setup);
      } else if open.Some? && fields != [] && FieldLine(lines[0], fields[0].name, fields[0].value) {
        var f := fields[0];
        AssignTracks(st, open.value, f, setup);
        var t := OnAssign(st, f.name, f.value, setup);
        assert open.value.fields + [f] + fields[1..] == open.value.fields + fields;
        LinesTell(t, lines[1..], Some(Rec(open.value.id, open.value.fields + [f])), fields[1..], more, end, shown,
            setup);
      } else if fields == [] && more != [] && HeaderLine(lines[0], more[0].id) {
        assert open.Some? ==> open.value.fields + [] == open.value.fields;
        assert whole == open;
        HeaderTracks(st, open, more[0].id, shown, setup);
        assert [] + more[0].fields == more[0].fields;
        LinesTell(OnHeader(st, more[0].id, shown, setup), lines[1..], Some(Rec(more[0].id, [])), more[0].fields,
            more[1..], end, shown, setup);
      }
    }
  }

  lemma {:induction false} TracksHeader(st: State, open: Option<Rec>, setup: Setup)
    requires Tracks(st, open, setup)
    ensures st.header == open.Some?
  {}

  // Every file spells some records and ends somehow, and what reading it does is their outcome, one
  // after the other.
  lemma {:induction false} FileOutcome(p: Progress, file: File, setup: Setup)
    ensures file.lines.None? ==>
              ReadOne(p, file, setup) == Progress(p.seen, p.log + [FileRefused(file.shown, Unreadable)])
    ensures file.lines == Some([]) ==> ReadOne(p, file, setup) == p
    ensures file.lines.Some? ==> exists recs, end :: Reads(file.lines.value, false, [], recs, end)
    ensures forall recs, end ::
              file.lines.Some? && file.lines.value != [] && Reads(file.lines.value, false, [], recs, end) ==>
              ReadOne(p, file, setup)
              == Outcome(Progress(p.seen, p.log + [Opened(file.shown)]), None, recs, end, file.shown, setup)
  {
    hide Lines, Outcome, Reads;
    if file.lines.Some? {
      var none, recs, end := EveryFileReads(file.lines.value, false);
      assert none == [];
      forall recs, end | file.lines.value != [] && Reads(file.lines.value, false, [], recs, end)
        ensures ReadOne(p, file, setup)
             == Outcome(Progress(p.seen, p.log + [Opened(file.shown)]), None, recs, end, file.shown, setup)
      {
        LinesTell(Fresh(p, file.shown), file.lines.value, None, [], recs, end, file.shown, setup);
      }
    }
  }
}
