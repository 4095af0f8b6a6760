// What the descriptor reader of dylib/feats/conf.c promises about a whole directory.
module ConfMeaning {
  import opened Options
  import opened ConfSchema
  import opened ConfRecord
  import opened ConfRead

  // ---- what a sink is handed ----

  // Every field is in the table, given at most as often as the table says, not empty and without
  // a tab; the pairs fit the buffer.
  ghost predicate FieldsOk(kind: Kind, fields: seq<Field>) {
    && |Packed(fields)| <= REC_BUF
    && forall f <- fields ::
         && FindSpec(Table(kind), f.name).Some? && f.value != "" && '\t' !in f.value
         && Count(fields, f.name) <= FindSpec(Table(kind), f.name).value.most
  }

  ghost predicate GoodRecord(rec: Rec, setup: Setup) {
    IdOk(setup.kind, rec.id) && FieldsOk(setup.kind, rec.fields) && SchemaError(setup.kind, rec.fields, setup.num).None?
  }

  function HandedIds(log: seq<Event>): seq<string> {
    if log == [] then []
    else
      var init, last := HandedIds(log[..|log| - 1]), log[|log| - 1];
      if last.Handed? then init + [last.rec.id] else init
  }

  ghost predicate Distinct(ids: seq<string>) { forall i, j :: 0 <= i < j < |ids| ==> ids[i] != ids[j] }

  ghost predicate GoodProgress(p: Progress, setup: Setup) {
    && p.seen == HandedIds(p.log) && Distinct(p.seen) && |p.seen| <= RECORDS_MAX
    && forall e <- p.log :: e.Handed? ==> GoodRecord(e.rec, setup)
  }

  ghost predicate GoodState(st: State, setup: Setup) {
    && GoodProgress(Progress(st.seen, st.log), setup) && FieldsOk(setup.kind, st.rec.fields)
    && (st.rec.id == "" || st.code.Some? || IdOk(setup.kind, st.rec.id))
  }

  lemma {:induction false} LogGrows(log: seq<Event>, e: Event)
    ensures HandedIds(log + [e]) == if e.Handed? then HandedIds(log) + [e.rec.id] else HandedIds(log)
  {
    assert (log + [e])[..|log|] == log;
  }

  lemma {:induction false} EmitKeepsGood(st: State, setup: Setup)
    requires GoodState(st, setup)
    ensures GoodState(Emit(st, setup), setup)
  {
    hide FieldsOk, SchemaError, IdOk, HandedIds;
    NothingIsOk(setup.kind);
    var e := Emit(st, setup);
    if st.rec.id != "" {
      LogGrows(st.log, e.log[|st.log|]);
    }
  }

  lemma {:induction false} NothingIsOk(kind: Kind)
    ensures FieldsOk(kind, [])
  {}

  lemma {:induction false} ReportedIsGood(p: Progress, e: Event, setup: Setup)
    requires GoodProgress(p, setup) && !e.Handed?
    ensures GoodProgress(p.(log := p.log + [e]), setup)
  {
    hide HandedIds, GoodRecord;
    LogGrows(p.log, e);
  }

  lemma {:induction false} HeaderKeepsGood(st: State, id: string, shown: string, setup: Setup)
    requires GoodState(st, setup)
    ensures GoodState(OnHeader(st, id, shown, setup), setup)
  {
    hide FieldsOk, IdOk, HandedIds, GoodRecord, Emit;
    EmitKeepsGood(st, setup);
    EmitClears(st, setup);
    NothingIsOk(setup.kind);
    var e := Emit(st, setup).(code := None, header := true);
    assert GoodState(e, setup);
    if id == "" { ReportedIsGood(Progress(e.seen, e.log), FileRefused(shown, BadId), setup); }
  }

  lemma {:induction false} CountOneMore(fields: seq<Field>, f: Field, name: string)
    ensures Count(fields + [f], name) == Count(fields, name) + if f.name == name then 1 else 0
  {
    assert (fields + [f])[..|fields|] == fields;
  }

  lemma {:induction false} AssignKeepsGood(st: State, name: string, value: string, setup: Setup)
    requires GoodState(st, setup)
    ensures GoodState(OnAssign(st, name, value, setup), setup)
  {
    hide IdOk, GoodProgress, Count, FindSpec, Packed, Table;
    if st.code.None? && FieldError(st.rec.fields, name, value, setup.kind).None? {
      var fields, f := st.rec.fields, Field(name, value);
      forall g | g in fields + [f]
        ensures FindSpec(Table(setup.kind), g.name).Some? && g.value != "" && '\t' !in g.value
        ensures Count(fields + [f], g.name) <= FindSpec(Table(setup.kind), g.name).value.most
      {
        CountOneMore(fields, f, g.name);
        if g !in fields { assert g == f; }
      }
    }
  }

  lemma {:induction false} LinesKeepGood(st: State, lines: seq<string>, shown: string, setup: Setup)
    requires GoodState(st, setup)
    ensures GoodState(Lines(st, lines, shown, setup), setup)
    decreases |lines|
  {
    hide GoodProgress, FieldsOk, IdOk, OnHeader, OnAssign, Emit, Classify;
    if lines == [] {
      EmitKeepsGood(st, setup);
    } else if |lines[0]| >= LINE_MAX {
      NothingIsOk(setup.kind);
      ReportedIsGood(Progress(st.seen, st.log), FileRefused(shown, LineLong), setup);
    } else {
      match Classify(lines[0])
      case Blank => LinesKeepGood(st, lines[1..], shown, setup);
      case Header(id) =>
        HeaderKeepsGood(st, id, shown, setup);
        LinesKeepGood(OnHeader(st, id, shown, setup), lines[1..], shown, setup);
      case Assign(name, value) =>
        if st.header {
          AssignKeepsGood(st, name, value, setup);
          LinesKeepGood(OnAssign(st, name, value, setup), lines[1..], shown, setup);
        } else {
          ReportedIsGood(Progress(st.seen, st.log), FileRefused(shown, NoHeader), setup);
        }
    }
  }

  lemma {:induction false} ReadAllKeepsGood(p: Progress, files: seq<File>, setup: Setup)
    requires GoodProgress(p, setup)
    ensures GoodProgress(ReadAll(p, files, setup), setup)
    decreases |files|
  {
    hide GoodProgress, Lines, FieldsOk;
    if files != [] {
      var file := files[0];
      ReportedIsGood(p, FileRefused(file.shown, Unreadable), setup);
      ReportedIsGood(p, Opened(file.shown), setup);
      NothingIsOk(setup.kind);
      if file.lines.Some? {
        LinesKeepGood(Fresh(p, file.shown), file.lines.value, file.shown, setup);
      }
      ReadAllKeepsGood(ReadOne(p, file, setup), files[1..], setup);
    }
  }

  // Over a whole directory: every record a sink is handed keeps the tables and the schema, no id
  // is handed twice, across files too, and at most 32 records are.
  lemma {:induction false} DirectoryIsGood(files: seq<File>, setup: Setup)
    ensures var log := ReadAll(Progress([], []), files, setup).log;
            && (forall e <- log :: e.Handed? ==> GoodRecord(e.rec, setup))
            && Distinct(HandedIds(log)) && |HandedIds(log)| <= RECORDS_MAX
  {
    ReadAllKeepsGood(Progress([], []), files, setup);
  }

  // ---- every header ends once ----

  // The ids of the records that were handed on or refused, in order.
  function Ended(log: seq<Event>): seq<string> {
    if log == [] then []
    else
      var init, last := Ended(log[..|log| - 1]), log[|log| - 1];
      if last.Handed? then init + [last.rec.id] else if last.Refused? then init + [last.id] else init
  }

  function Named(id: string): seq<string> { if id == "" then [] else [id] }

  // What becomes of the headers of a file, given the open one: each ends at the next header or at
  // the end of the file; a file that is cut short loses the open one and the rest.
  function Ends(open: string, header: bool, lines: seq<string>): seq<string>
    decreases |lines|
  {
    if lines == [] then Named(open)
    else if |lines[0]| >= LINE_MAX then []
    else
      match Classify(lines[0])
      case Blank => Ends(open, header, lines[1..])
      case Header(id) => Named(open) + Ends(CutId(id), true, lines[1..])
      case Assign(_, _) => if header then Ends(open, header, lines[1..]) else []
  }

  function HeadersOf(lines: seq<string>): seq<string> {
    if lines == [] then []
    else
      var c := Classify(lines[0]);
      (if c.Header? then Named(CutId(c.id)) else []) + HeadersOf(lines[1..])
  }

  // No line is too long, and no field stands before the first header.
  predicate ReadToTheEnd(header: bool, lines: seq<string>)
    decreases |lines|
  {
    lines != [] ==>
      && |lines[0]| < LINE_MAX
      && (Classify(lines[0]).Assign? ==> header)
      && ReadToTheEnd(header || Classify(lines[0]).Header?, lines[1..])
  }

  lemma {:induction false} EndedGrows(log: seq<Event>, e: Event)
    ensures Ended(log + [e]) ==
            Ended(log) + if e.Handed? then [e.rec.id] else if e.Refused? then [e.id] else []
  {
    assert (log + [e])[..|log|] == log;
  }

  lemma {:induction false} EmitEnds(st: State, setup: Setup)
    ensures Ended(Emit(st, setup).log) == Ended(st.log) + Named(st.rec.id)
  {
    hide SchemaError;
    if st.rec.id != "" { EndedGrows(st.log, Emit(st, setup).log[|st.log|]); }
  }

  lemma {:induction false} HeaderEnds(st: State, id: string, shown: string, setup: Setup)
    ensures var next := OnHeader(st, id, shown, setup);
            Ended(next.log) == Ended(st.log) + Named(st.rec.id) && next.rec.id == CutId(id) && next.header
  {
    hide Emit, Ended;
    EmitEnds(st, setup);
    EmitClears(st, setup);
    EndedGrows(Emit(st, setup).log, FileRefused(shown, BadId));
  }

  lemma {:induction false} LinesEnd(st: State, lines: seq<string>, shown: string, setup: Setup)
    ensures Ended(Lines(st, lines, shown, setup).log) == Ended(st.log) + Ends(st.rec.id, st.header, lines)
    decreases |lines|
  {
    hide Emit, Ended, Classify, OnHeader, OnAssign;
    if lines == [] {
      EmitEnds(st, setup);
    } else if |lines[0]| >= LINE_MAX {
      EndedGrows(st.log, FileRefused(shown, LineLong));
    } else {
      match Classify(lines[0])
      case Blank => LinesEnd(st, lines[1..], shown, setup);
      case Header(id) =>
        HeaderEnds(st, id, shown, setup);
        LinesEnd(OnHeader(st, id, shown, setup), lines[1..], shown, setup);
      case Assign(name, value) =>
        EndedGrows(st.log, FileRefused(shown, NoHeader));
        if st.header {
          AssignKeeps(st, name, value, setup);
          LinesEnd(OnAssign(st, name, value, setup), lines[1..], shown, setup);
        }
    }
  }

  // Nothing is lost: no line cuts the file short, or no non-empty header is open where one does
  // and none follows.
  predicate NoneLost(open: string, header: bool, lines: seq<string>)
    decreases |lines|
  {
    lines != [] ==>
      if |lines[0]| >= LINE_MAX || (Classify(lines[0]).Assign? && !header) then open == "" && HeadersOf(lines) == []
      else
        match Classify(lines[0])
        case Header(id) => NoneLost(CutId(id), true, lines[1..])
        case _ => NoneLost(open, header, lines[1..])
  }

  lemma {:induction false} EndsAreHeaders(open: string, header: bool, lines: seq<string>)
    ensures Ends(open, header, lines) == Named(open) + HeadersOf(lines) <==> NoneLost(open, header, lines)
    decreases |lines|
  {
    hide Classify, CutId;
    if lines != [] {
      var c := Classify(lines[0]);
      var next := if c.Header? then CutId(c.id) else open;
      EndsAreHeaders(next, header || c.Header?, lines[1..]);
      var ended := Ends(next, header || c.Header?, lines[1..]);
      assert (Named(open) + ended)[|Named(open)|..] == ended;
      var due := Named(next) + HeadersOf(lines[1..]);
      assert (Named(open) + due)[|Named(open)|..] == due;
    }
  }

  // Every non-empty header of a file ends in exactly one of handed on or refused, in the order of
  // the headers, exactly when no line cuts the file short before one that counts has ended.
  lemma {:induction false} EveryHeaderEndsOnce(p: Progress, file: File, setup: Setup)
    requires file.lines.Some?
    ensures var lines := file.lines.value;
            Ended(ReadOne(p, file, setup).log) == Ended(p.log) + HeadersOf(lines) <==> NoneLost("", false, lines)
  {
    var lines := file.lines.value;
    if lines != [] {
      EndedGrows(p.log, Opened(file.shown));
      LinesEnd(Fresh(p, file.shown), lines, file.shown, setup);
      EndsAreHeaders("", false, lines);
      hide Ended, Lines, Ends, NoneLost, HeadersOf, Classify, CutId;
      assert Named("") + HeadersOf(lines) == HeadersOf(lines);
      SameRest(Ended(p.log), Ends("", false, lines), HeadersOf(lines));
    }
  }

  lemma {:induction false} SameRest(before: seq<string>, a: seq<string>, b: seq<string>)
    ensures before + a == before + b <==> a == b
  {
    assert (before + a)[|before|..] == a && (before + b)[|before|..] == b;
  }

  // So in a file that is read to its end.
  lemma {:induction false} ReadToTheEndLosesNone(open: string, header: bool, lines: seq<string>)
    requires ReadToTheEnd(header, lines)
    ensures NoneLost(open, header, lines)
    decreases |lines|
  {
    hide Classify, CutId;
    if lines != [] {
      var c := Classify(lines[0]);
      ReadToTheEndLosesNone(if c.Header? then CutId(c.id) else open, header || c.Header?, lines[1..]);
    }
  }

  lemma {:induction false} EndsArePrefix(open: string, header: bool, lines: seq<string>)
    ensures Ends(open, header, lines) <= Named(open) + HeadersOf(lines)
    decreases |lines|
  {
    hide Classify, CutId;
    if lines != [] {
      var c := Classify(lines[0]);
      EndsArePrefix(if c.Header? then CutId(c.id) else open, header || c.Header?, lines[1..]);
    }
  }

  // In any file at all no header ends twice or out of order: what ended is where the list of
  // headers starts.
  lemma {:induction false} NoHeaderEndsTwice(p: Progress, file: File, setup: Setup)
    requires file.lines.Some?
    ensures exists ended ::
              ended <= HeadersOf(file.lines.value) && Ended(ReadOne(p, file, setup).log) == Ended(p.log) + ended
  {
    hide Ended, Lines, Ends, HeadersOf;
    var lines := file.lines.value;
    if lines == [] {
      assert [] <= HeadersOf(lines) && Ended(p.log) + [] == Ended(p.log);
    } else {
      EndedGrows(p.log, Opened(file.shown));
      LinesEnd(Fresh(p, file.shown), lines, file.shown, setup);
      EndsArePrefix("", false, lines);
      var ended := Ends("", false, lines);
      assert Named("") + HeadersOf(lines) == HeadersOf(lines);
      assert ended <= HeadersOf(lines) && Ended(ReadOne(p, file, setup).log) == Ended(p.log) + ended;
    }
  }

  lemma {:induction false} FieldEndsFile(blanks: seq<string>, first: string, rest: seq<string>)
    requires forall b <- blanks :: |b| < LINE_MAX && Classify(b).Blank?
    requires |first| < LINE_MAX && Classify(first).Assign?
    ensures Ends("", false, blanks + [first] + rest) == []
    ensures HeadersOf(blanks + [first] + rest) == HeadersOf(rest)
    decreases |blanks|
  {
    hide Classify;
    var lines := blanks + [first] + rest;
    if blanks == [] {
      assert lines[0] == first && lines[1..] == rest;
    } else {
      assert lines[0] == blanks[0] && lines[1..] == blanks[1..] + [first] + rest;
      FieldEndsFile(blanks[1..], first, rest);
    }
  }

  // A field before the first header ends the file, and with it every header that follows.
  lemma {:induction false} FieldFirstLosesHeaders(p: Progress, shown: string, blanks: seq<string>, first: string,
        rest: seq<string>, setup: Setup)
    requires forall b <- blanks :: |b| < LINE_MAX && Classify(b).Blank?
    requires |first| < LINE_MAX && Classify(first).Assign?
    ensures var file := File(shown, Some(blanks + [first] + rest));
            Ended(ReadOne(p, file, setup).log) == Ended(p.log)
            && HeadersOf(blanks + [first] + rest) == HeadersOf(rest)
  {
    hide Classify, Ended, Ends, HeadersOf, Lines;
    var lines := blanks + [first] + rest;
    FieldEndsFile(blanks, first, rest);
    EndedGrows(p.log, Opened(shown));
    LinesEnd(Fresh(p, shown), lines, shown, setup);
  }
}
