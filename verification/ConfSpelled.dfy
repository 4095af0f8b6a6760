// Which line of a descriptor file means what, and what a file that spells good records hands on
// (dylib/feats/conf.c).
module ConfSpelled {
  import opened Options
  import opened Pieces
  import opened ConfSchema
  import opened ConfRecord
  import opened ConfRead
  import opened ConfMeaning

  predicate Blanks(s: string) { forall c <- s :: IsSpace(c) }

  predicate Trimmed(s: string) { s == "" || (!IsSpace(s[0]) && !IsSpace(s[|s| - 1])) }

  // ---- trimming ----

  lemma {:induction false} TrimLeftOf(a: string, s: string)
    requires Blanks(a) && (s == "" || !IsSpace(s[0]))
    ensures TrimLeft(a + s) == s
    decreases |a|
  {
    if a == "" {
      assert a + s == s;
    } else {
      assert (a + s)[0] == a[0] && (a + s)[1..] == a[1..] + s;
      TrimLeftOf(a[1..], s);
    }
  }

  lemma {:induction false} TrimRightOf(s: string, b: string)
    requires Blanks(b) && (s == "" || !IsSpace(s[|s| - 1]))
    ensures TrimRight(s + b) == s
    decreases |b|
  {
    if b == "" {
      assert s + b == s;
    } else {
      var n := |s + b| - 1;
      assert (s + b)[n] == b[|b| - 1] && (s + b)[..n] == s + b[..|b| - 1];
      TrimRightOf(s, b[..|b| - 1]);
    }
  }

  lemma {:induction false} TrimOf(a: string, s: string, b: string)
    requires Blanks(a) && Blanks(b) && Trimmed(s)
    ensures Trim(a + s + b) == s
  {
    hide TrimLeft, TrimRight;
    if s == "" {
      assert a + s + b == (a + b) + "";
      TrimLeftOf(a + b, "");
      TrimRightOf("", "");
      assert "" + "" == "";
    } else {
      assert a + s + b == a + (s + b) && (s + b)[0] == s[0];
      TrimLeftOf(a, s + b);
      TrimRightOf(s, b);
    }
  }

  lemma {:induction false} LeftBlanks(s: string) returns (a: string)
    ensures Blanks(a) && s == a + TrimLeft(s)
  {
    if s != "" && IsSpace(s[0]) {
      var more := LeftBlanks(s[1..]);
      a := [s[0]] + more;
    } else {
      a := "";
    }
  }

  lemma {:induction false} RightBlanks(s: string) returns (b: string)
    ensures Blanks(b) && s == TrimRight(s) + b
    decreases |s|
  {
    if s != "" && IsSpace(s[|s| - 1]) {
      var more := RightBlanks(s[..|s| - 1]);
      b := more + [s[|s| - 1]];
    } else {
      b := "";
    }
  }

  lemma {:induction false} BothBlanks(s: string) returns (a: string, b: string)
    ensures Blanks(a) && Blanks(b) && Trimmed(Trim(s)) && s == a + Trim(s) + b
  {
    hide TrimLeft, TrimRight;
    a := LeftBlanks(s);
    b := RightBlanks(TrimLeft(s));
    assert Trim(s) != "" ==> Trim(s)[0] == TrimLeft(s)[0];
    assert s == a + (Trim(s) + b) == a + Trim(s) + b;
  }

  // ---- lines ----

  // A name may be anything without an equals sign that does not begin like a comment or a header.
  predicate IsFieldLine(line: string, a: string, name: string, b: string, c: string, value: string, d: string) {
    && Blanks(a) && Blanks(b) && Blanks(c) && Blanks(d) && Trimmed(name) && Trimmed(value)
    && '=' !in name && (name == "" || (name[0] != '#' && name[0] != '['))
    && line == a + (name + b + ['='] + (c + value + d))
  }

  ghost predicate FieldLine(line: string, name: string, value: string) {
    exists a, b, c, d :: IsFieldLine(line, a, name, b, c, value, d)
  }

  // A header ends at the last closing bracket; what follows that counts for nothing.
  predicate IsHeaderLine(line: string, a: string, b: string, id: string, c: string, d: string) {
    && Blanks(a) && Blanks(b) && Blanks(c) && Trimmed(id) && ']' !in d
    && line == a + (['['] + (b + id + c) + [']'] + d)
  }

  ghost predicate HeaderLine(line: string, id: string) {
    exists a, b, c, d :: IsHeaderLine(line, a, b, id, c, d)
  }

  // Nothing but blanks, a comment, an opening bracket never closed, or text without an equals sign.
  predicate IsIdleLine(line: string, a: string, rest: string) {
    && Blanks(a) && line == a + rest
    && (|| rest == ""
        || rest[0] == '#'
        || (rest[0] == '[' && ']' !in rest)
        || (!IsSpace(rest[0]) && rest[0] != '[' && '=' !in rest))
  }

  ghost predicate IdleLine(line: string) {
    exists a, rest :: IsIdleLine(line, a, rest)
  }

  lemma {:induction false} LastIndexIs(s: string, c: char, i: nat)
    requires i < |s| && s[i] == c && c !in s[i + 1..]
    ensures LastIndexOf(s, c) == Some(i)
  {
    hide LastIndexOf;
    assert s[i] in s;
  }

  lemma {:induction false} FieldLineReads(line: string, a: string, name: string, b: string, c: string, value: string,
        d: string)
    requires IsFieldLine(line, a, name, b, c, value, d)
    ensures Classify(line) == Assign(name, value)
  {
    hide TrimLeft, TrimRight, FirstPiece, LastIndexOf;
    var left, right := name + b, c + value + d;
    var k := left + ['='] + right;
    assert k[0] == if name != "" then name[0] else if b != "" then b[0] else '=';
    if name == "" {
      assert line == (a + b) + (['='] + right) && k == b + (['='] + right);
      TrimLeftOf(a + b, ['='] + right);
      FirstPieceOf('=', "", ['='] + right);
      assert "" + (['='] + right) == ['='] + right && (['='] + right)[1..] == right;
      TrimRightOf("", "");
      assert "" + "" == "" && (['='] + right)[..0] == "";
    } else {
      TrimLeftOf(a, k);
      assert '=' !in b;
      FirstPieceOf('=', left, ['='] + right);
      assert k == left + (['='] + right) && k[..|left|] == left && k[|left| + 1..] == right;
      TrimRightOf(name, b);
    }
    TrimOf(c, value, d);
  }

  lemma {:induction false} HeaderLineReads(line: string, a: string, b: string, id: string, c: string, d: string)
    requires IsHeaderLine(line, a, b, id, c, d)
    ensures Classify(line) == Header(id)
  {
    hide TrimLeft, TrimRight, FirstPiece, LastIndexOf;
    var inside := b + id + c;
    var k := ['['] + inside + [']'] + d;
    TrimLeftOf(a, k);
    assert k[|inside| + 1] == ']' && k[|inside| + 2..] == d && k[1..|inside| + 1] == inside;
    LastIndexIs(k, ']', |inside| + 1);
    TrimOf(b, id, c);
  }

  lemma {:induction false} IdleLineReads(line: string, a: string, rest: string)
    requires IsIdleLine(line, a, rest)
    ensures Classify(line) == Blank
  {
    hide TrimLeft, TrimRight, LastIndexOf, FirstPiece;
    TrimLeftOf(a, rest);
    if rest != "" && rest[0] != '#' {
      if '=' !in rest {
        FirstPieceOf('=', rest, "");
        assert rest + "" == rest;
      }
    }
  }

  // Every line read as a field, a header or nothing is spelled like one.
  lemma {:induction false} LineIsSpelled(line: string)
    ensures match Classify(line)
            case Blank => IdleLine(line)
            case Header(id) => HeaderLine(line, id)
            case Assign(name, value) => FieldLine(line, name, value)
  {
    hide TrimLeft, TrimRight, LastIndexOf, FirstPiece;
    var k := TrimLeft(line);
    var a := LeftBlanks(line);
    if Classify(line).Blank? {
      if k != "" && k[0] != '#' && k[0] != '[' {
        assert FirstPiece('=', k) == k;
      }
      assert IsIdleLine(line, a, k);
    } else if Classify(line).Header? {
      var close := LastIndexOf(k, ']').value;
      var b, c := BothBlanks(k[1..close]);
      assert k == ['['] + k[1..close] + [']'] + k[close + 1..];
      assert IsHeaderLine(line, a, b, Classify(line).id, c, k[close + 1..]);
    } else {
      var eq := |FirstPiece('=', k)|;
      var b := RightBlanks(k[..eq]);
      var c, d := BothBlanks(k[eq + 1..]);
      var name := TrimRight(k[..eq]);
      assert k == k[..eq] + ['='] + k[eq + 1..] && k[..eq] == FirstPiece('=', k);
      assert name != "" ==> name[0] == k[0];
      assert IsFieldLine(line, a, name, b, c, Classify(line).value, d);
    }
  }

  // A line is read as a field, a header or nothing exactly when it is spelled like one.
  lemma {:induction false} LineMeans(line: string)
    ensures forall name, value :: Classify(line) == Assign(name, value) <==> FieldLine(line, name, value)
    ensures forall id :: Classify(line) == Header(id) <==> HeaderLine(line, id)
    ensures Classify(line) == Blank <==> IdleLine(line)
  {
    hide Classify, IsFieldLine, IsHeaderLine, IsIdleLine;
    LineIsSpelled(line);
    forall name, value | FieldLine(line, name, value)
      ensures Classify(line) == Assign(name, value)
    {
      var a, b, c, d :| IsFieldLine(line, a, name, b, c, value, d);
      FieldLineReads(line, a, name, b, c, value, d);
    }
    forall id | HeaderLine(line, id)
      ensures Classify(line) == Header(id)
    {
      var a, b, c, d :| IsHeaderLine(line, a, b, id, c, d);
      HeaderLineReads(line, a, b, id, c, d);
    }
    if IdleLine(line) {
      var a, rest :| IsIdleLine(line, a, rest);
      IdleLineReads(line, a, rest);
    }
  }

  // ---- files ----

  // The lines spell the fields still to come of the open record, and then the records `more`.
  ghost predicate Spells(lines: seq<string>, fields: seq<Field>, more: seq<Rec>)
    decreases |lines|
  {
    if lines == [] then fields == [] && more == []
    else
      && |lines[0]| < LINE_MAX
      && (|| (IdleLine(lines[0]) && Spells(lines[1..], fields, more))
          || (fields != [] && FieldLine(lines[0], fields[0].name, fields[0].value)
              && Spells(lines[1..], fields[1..], more))
          || (fields == [] && more != [] && HeaderLine(lines[0], more[0].id)
              && Spells(lines[1..], more[0].fields, more[1..])))
  }

  function Ids(recs: seq<Rec>): seq<string> {
    if recs == [] then [] else [recs[0].id] + Ids(recs[1..])
  }

  // The log once these records have been handed on, each with the sink's verdict.
  function HandOn(log: seq<Event>, recs: seq<Rec>, setup: Setup): seq<Event>
    decreases |recs|
  {
    if recs == [] then log else HandOn(log + [Handed(recs[0], setup.sink(log, recs[0]))], recs[1..], setup)
  }

  // Records a file may hold after the ids seen before it.
  ghost predicate Deliverable(seen: seq<string>, recs: seq<Rec>, setup: Setup) {
    && |seen| + |recs| <= RECORDS_MAX
    && (forall i :: 0 <= i < |recs| ==> GoodRecord(recs[i], setup) && |recs[i].id| < ID_MAX && recs[i].id !in seen)
    && forall i, j :: 0 <= i < j < |recs| ==> recs[i].id != recs[j].id
  }

  lemma {:induction false} CountGrows(a: seq<Field>, b: seq<Field>, name: string)
    ensures Count(a + b, name) >= Count(a, name)
    decreases |b|
  {
    if b == [] {
      assert a + b == a;
    } else {
      var init := b[..|b| - 1];
      assert (a + b)[..|a + b| - 1] == a + init;
      CountGrows(a, init, name);
    }
  }

  // A field of a record that is good as a whole is taken where it stands.
  lemma {:induction false} FieldIsTaken(kind: Kind, before: seq<Field>, f: Field, after: seq<Field>)
    requires FieldsOk(kind, before + [f] + after)
    ensures FieldError(before, f.name, f.value, kind).None?
  {
    hide Packed, Count, FindSpec, Table;
    var all := before + [f] + after;
    assert all[|before|] == f;
    CountGrows(before + [f], after, f.name);
    CountOneMore(before, f, f.name);
    PackedAppend(before + [f], after);
  }

  // A good record is handed on when it ends.
  lemma {:induction false} GoodIsHanded(st: State, setup: Setup)
    requires GoodRecord(st.rec, setup) && st.code.None? && st.rec.id !in st.seen && |st.seen| < RECORDS_MAX
    ensures Emit(st, setup) == st.(rec := NO_REC, seen := st.seen + [st.rec.id],
              log := st.log + [Handed(st.rec, setup.sink(st.log, st.rec))])
  {
    hide SchemaError, IsKeyChar, IsNameChar, FieldsOk;
    assert st.rec.id != "";
  }

  lemma {:induction false} NothingIsEmitted(st: State, setup: Setup)
    requires st.rec == NO_REC
    ensures Emit(st, setup) == st
  {}

  lemma {:induction false} GoodHeaderOpens(st: State, id: string, shown: string, setup: Setup)
    requires id != "" && |id| < ID_MAX && IdOk(setup.kind, id)
    ensures OnHeader(st, id, shown, setup) == Emit(st, setup).(code := None, header := true, rec := Rec(id, []))
  {
    hide Emit;
  }

  lemma {:induction false} IdsNotEmpty(kind: Kind, id: string)
    requires IdOk(kind, id)
    ensures id != ""
  {}

  lemma {:induction false} LinesFrom(st: State, lines: seq<string>, shown: string, setup: Setup)
    ensures lines == [] ==> Lines(st, lines, shown, setup) == Emit(st, setup)
    ensures lines != [] && |lines[0]| < LINE_MAX ==>
              match Classify(lines[0])
              case Blank => Lines(st, lines, shown, setup) == Lines(st, lines[1..], shown, setup)
              case Header(id) =>
                Lines(st, lines, shown, setup) == Lines(OnHeader(st, id, shown, setup), lines[1..], shown, setup)
              case Assign(name, value) =>
                st.header ==>
                  Lines(st, lines, shown, setup) == Lines(OnAssign(st, name, value, setup), lines[1..], shown, setup)
  {
    hide Classify, Emit, OnHeader, OnAssign;
  }

  // What the reader does with the lines that are left, when `fields` are still missing from the
  // open record `whole` (or there is none).
  lemma {:induction false} SpelledLines(st: State, lines: seq<string>, fields: seq<Field>, more: seq<Rec>,
        shown: string, setup: Setup)
    requires Spells(lines, fields, more) && st.code.None?
    requires if st.rec.id == "" then st.rec == NO_REC && fields == [] && Deliverable(st.seen, more, setup)
             else st.header && Deliverable(st.seen, [Rec(st.rec.id, st.rec.fields + fields)] + more, setup)
    ensures var due := (if st.rec.id == "" then [] else [Rec(st.rec.id, st.rec.fields + fields)]) + more;
            var end := Lines(st, lines, shown, setup);
            end.seen == st.seen + Ids(due) && end.log == HandOn(st.log, due, setup)
    decreases |lines|
  {
    hide Classify, Emit, OnHeader, FieldError, FieldLine, HeaderLine, IdleLine, Deliverable, HandOn, Ids, Lines;
    LinesFrom(st, lines, shown, setup);
    if lines == [] {
      SpelledEnd(st, fields, more, setup);
    } else {
      LineMeans(lines[0]);
      if IdleLine(lines[0]) && Spells(lines[1..], fields, more) {
        SpelledLines(st, lines[1..], fields, more, shown, setup);
      } else if fields != [] && FieldLine(lines[0], fields[0].name, fields[0].value) {
        var f, left := fields[0], fields[1..];
        assert [f] + left == fields;
        assert st.rec.fields + fields == st.rec.fields + [f] + left;
        TakenByRecord(st, f, left, more, setup);
        assert Field(f.name, f.value) == f;
        SpelledLines(OnAssign(st, f.name, f.value, setup), lines[1..], left, more, shown, setup);
      } else {
        SpelledHeader(st, more, shown, setup);
        var next := OnHeader(st, more[0].id, shown, setup);
        assert [] + more[0].fields == more[0].fields && [more[0]] + more[1..] == more;
        SpelledLines(next, lines[1..], more[0].fields, more[1..], shown, setup);
      }
    }
  }

  lemma {:induction false} TakenByRecord(st: State, f: Field, left: seq<Field>, more: seq<Rec>, setup: Setup)
    requires Deliverable(st.seen, [Rec(st.rec.id, st.rec.fields + [f] + left)] + more, setup)
    ensures FieldError(st.rec.fields, f.name, f.value, setup.kind).None?
  {
    hide FieldsOk, SchemaError, IdOk, FieldError;
    var all := [Rec(st.rec.id, st.rec.fields + [f] + left)] + more;
    assert GoodRecord(all[0], setup);
    FieldIsTaken(setup.kind, st.rec.fields, f, left);
  }

  lemma {:induction false} SpelledEnd(st: State, fields: seq<Field>, more: seq<Rec>, setup: Setup)
    requires fields == [] && more == [] && st.code.None?
    requires if st.rec.id == "" then st.rec == NO_REC
             else Deliverable(st.seen, [Rec(st.rec.id, st.rec.fields + fields)] + more, setup)
    ensures var due := (if st.rec.id == "" then [] else [Rec(st.rec.id, st.rec.fields + fields)]) + more;
            var end := Emit(st, setup); end.seen == st.seen + Ids(due) && end.log == HandOn(st.log, due, setup)
  {
    hide GoodRecord, Emit;
    if st.rec.id == "" {
      NothingIsEmitted(st, setup);
      assert st.seen + [] == st.seen;
    } else {
      var due := [Rec(st.rec.id, st.rec.fields + fields)] + more;
      assert st.rec.fields + [] == st.rec.fields && due == [st.rec];
      assert GoodRecord(due[0], setup) && due[0].id !in st.seen;
      GoodIsHanded(st, setup);
    }
  }

  // A header ends the open record, which is complete, and opens the next.
  lemma {:induction false} SpelledHeader(st: State, more: seq<Rec>, shown: string, setup: Setup)
    requires more != [] && st.code.None?
    requires if st.rec.id == "" then st.rec == NO_REC && Deliverable(st.seen, more, setup)
             else Deliverable(st.seen, [Rec(st.rec.id, st.rec.fields + [])] + more, setup)
    ensures var next := OnHeader(st, more[0].id, shown, setup);
            var done := if st.rec.id == "" then [] else [Rec(st.rec.id, st.rec.fields + [])];
            && next.code.None? && next.header && next.rec == Rec(more[0].id, []) && more[0].id != ""
            && next.seen == st.seen + Ids(done) && next.log == HandOn(st.log, done, setup)
            && Deliverable(next.seen, more, setup)
            && Ids(done + more) == Ids(done) + Ids(more)
            && HandOn(st.log, done + more, setup) == HandOn(HandOn(st.log, done, setup), more, setup)
  {
    hide GoodRecord, Emit, OnHeader;
    var done := if st.rec.id == "" then [] else [Rec(st.rec.id, st.rec.fields + [])];
    var due := done + more;
    assert due[|done|] == more[0];
    GoodIds(more[0], setup);
    GoodHeaderOpens(st, more[0].id, shown, setup);
    if st.rec.id == "" {
      NothingIsEmitted(st, setup);
      assert st.seen + [] == st.seen && due == more && Ids(done) + Ids(more) == Ids(more);
    } else {
      assert st.rec.fields + [] == st.rec.fields && done == [st.rec] && due[0] == st.rec && due[1..] == more;
      GoodIsHanded(st, setup);
      forall i | 0 <= i < |more|
        ensures GoodRecord(more[i], setup) && |more[i].id| < ID_MAX && more[i].id !in st.seen + [st.rec.id]
      {
        assert due[i + 1] == more[i];
      }
      forall i, j | 0 <= i < j < |more|
        ensures more[i].id != more[j].id
      {
        assert due[i + 1] == more[i] && due[j + 1] == more[j];
      }
      assert HandOn(st.log, done, setup) == st.log + [Handed(st.rec, setup.sink(st.log, st.rec))];
    }
  }

  lemma {:induction false} GoodIds(rec: Rec, setup: Setup)
    requires GoodRecord(rec, setup)
    ensures IdOk(setup.kind, rec.id) && rec.id != ""
  {
    hide FieldsOk, SchemaError;
    IdsNotEmpty(setup.kind, rec.id);
  }

  // A file that spells good records, blanks and comments anywhere, hands on exactly these records,
  // in order and with their fields in order, and refuses nothing.
  lemma {:induction false} SpelledFileIsHandedOn(p: Progress, shown: string, lines: seq<string>, recs: seq<Rec>,
        setup: Setup)
    requires lines != [] && Spells(lines, [], recs) && Deliverable(p.seen, recs, setup)
    ensures ReadOne(p, File(shown, Some(lines)), setup)
         == Progress(p.seen + Ids(recs), HandOn(p.log + [Opened(shown)], recs, setup))
  {
    hide Deliverable, Lines, Spells;
    assert [] + recs == recs;
    SpelledLines(Fresh(p, shown), lines, [], recs, shown, setup);
  }
}
