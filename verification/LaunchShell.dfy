// dylib/hooks/hook_launch.c: np_quote and np_launch_shell, which hand a launch command to a
// shell as one argument, against the quoting rules of IEEE Std 1003.1-2017, Shell Command
// Language, section 2.2.
module LaunchShell {
  import opened Options
  import opened ShellWords

  // ---- the code ----

  const ESCAPED_QUOTE := "'\\''"

  function Body(s: string): string {
    if s == "" then "" else Body(s[..|s| - 1]) + (if s[|s| - 1] == '\'' then ESCAPED_QUOTE else [s[|s| - 1]])
  }

  function Quoted(s: string): string { "'" + Body(s) + "'" }

  lemma {:induction false} BodyLength(s: string)
    ensures |Body(s)| <= 4 * |s|
    decreases |s|
  {
    if s != "" { BodyLength(s[..|s| - 1]); }
  }

  // np_quote, which writes through an index and returns how much it wrote.
  method WriteQuoted(out: array<char>, at: nat, s: string) returns (n: nat)
    requires at + 4 * |s| + 2 <= out.Length
    modifies out
    ensures n == |Quoted(s)| <= 4 * |s| + 2 && out[at..at + n] == Quoted(s)
    ensures out[..at] == old(out[..at])
  {
    hide Body;
    ghost var goal := Quoted(s);
    out[at] := '\'';
    n := 1;
    var i := 0;
    BodyLength(s);
    assert |goal| == |Body(s)| + 2 && at + |goal| <= out.Length;
    assert s[..0] == "";
    BodyLength("");
    while i < |s|
      invariant i <= |s| && n == 1 + |Body(s[..i])| < |goal|
      invariant forall k :: at <= k < at + n ==> out[k] == goal[k - at]
      invariant forall k :: 0 <= k < at ==> out[k] == old(out[k])
    {
      PieceAt(s, i);
      if s[i] == '\'' {
        out[at + n], out[at + n + 1], out[at + n + 2], out[at + n + 3] := '\'', '\\', '\'', '\'';
        n := n + 4;
      } else {
        out[at + n] := s[i];
        n := n + 1;
      }
      i := i + 1;
    }
    assert s[..i] == s;
    out[at + n] := '\'';
    n := n + 1;
  }

  lemma {:induction false} BodyAppend(a: string, b: string)
    ensures Body(a + b) == Body(a) + Body(b)
    decreases |b|
  {
    if b == "" {
      assert a + b == a;
    } else {
      var init := b[..|b| - 1];
      assert (a + b)[..|a + b| - 1] == a + init;
      BodyAppend(a, init);
    }
  }

  // Where the text of s[i] stands in the quoted whole.
  lemma {:induction false} PieceAt(s: string, i: nat)
    requires i < |s|
    ensures var n, goal := 1 + |Body(s[..i])|, Quoted(s);
            && 1 + |Body(s[..i + 1])| == n + (if s[i] == '\'' then 4 else 1) < |goal|
            && goal[n] == s[i]
            && (s[i] == '\'' ==> goal[n + 1] == '\\' && goal[n + 2] == goal[n + 3] == '\'')
  {
    assert s[..i + 1][..i] == s[..i] && s == s[..i + 1] + s[i + 1..];
    BodyAppend(s[..i + 1], s[i + 1..]);
    var piece := if s[i] == '\'' then ESCAPED_QUOTE else [s[i]];
    assert Body(s[..i + 1]) == Body(s[..i]) + piece;
    var goal, a := Quoted(s), Body(s[..i]);
    assert goal == "'" + a + piece + (Body(s[i + 1..]) + "'");
  }

  // np_launch_shell. `runsTool` is np_compat_runs_tool( cmd ).
  method Launch(cmd: Option<string>, shell: Option<string>, max: int, rest: bool, runsTool: bool)
      returns (line: Option<string>)
    ensures line.None? <==> cmd.None? || max != -1 || rest || !runsTool
    ensures line.Some? ==>
              Split(line.value) == Some(if shell.None? then ["/bin/sh", "-c", cmd.value] else [shell.value, cmd.value])
  {
    hide Quoted, Fields, Split;
    if cmd.None? || max != -1 || rest || !runsTool {
      return None;
    }
    var lead := if shell.Some? then "" else "/bin/sh -c ";
    var cap := |lead| + 4 * |cmd.value| + 3 + (if shell.Some? then 4 * |shell.value| + 3 else 0) + 1;
    var out := new char[cap](k => if 0 <= k < |lead| then lead[k] else '\0');
    var n := |lead|;
    assert out[..n] == lead;
    ghost var text := lead;
    if shell.Some? {
      var k := WriteQuoted(out, n, shell.value);
      n := n + k;
      out[n] := ' ';
      n := n + 1;
      text := Quoted(shell.value) + " ";
      assert out[..n] == text;
    }
    var k := WriteQuoted(out, n, cmd.value);
    n := n + k;
    out[n] := '\0';
    assert out[..n] == text + Quoted(cmd.value);
    line := Some(out[..n]);
    if shell.Some? { SplitsWithShell(shell.value, cmd.value); } else { SplitsWithSh(cmd.value); }
  }

  // ---- the reference reads the quoted text back ----

  lemma {:induction false} BodyReads(s: string, w: string, rest: string)
    ensures Fields(Body(s) + rest, Some(w), Single) == Fields(rest, Some(w + s), Single)
    decreases |s|
  {
    if s == "" {
      assert Body(s) + rest == rest && w + s == w;
    } else {
      var init, c := s[..|s| - 1], s[|s| - 1];
      var last := if c == '\'' then ESCAPED_QUOTE else [c];
      assert Body(s) + rest == Body(init) + (last + rest);
      BodyReads(init, w, last + rest);
      CharReads(c, w + init, rest);
      assert w + init + [c] == w + s;
    }
  }

  lemma {:induction false} CharReads(c: char, w: string, rest: string)
    ensures Fields((if c == '\'' then ESCAPED_QUOTE else [c]) + rest, Some(w), Single) == Fields(rest, Some(w + [c]),
          Single)
  {
    if c == '\'' {
      var s := ESCAPED_QUOTE + rest;
      assert s[1..] == "\\''" + rest && ("\\''" + rest)[1..] == "''" + rest && ("''" + rest)[1..] == "'" + rest;
      assert Fields(s, Some(w), Single) == Fields("\\''" + rest, Some(w), Bare);
      assert Fields("\\''" + rest, Some(w), Bare) == Fields("'" + rest, Some(w + "'"), Bare);
      assert ("'" + rest)[1..] == rest;
    } else {
      assert ([c] + rest)[1..] == rest;
    }
  }

  // Any text at all, quotes and blanks included, comes back as one word.
  lemma {:induction false} QuotedReads(s: string, word: Option<string>, rest: string)
    ensures Fields(Quoted(s) + rest, word, Bare) == Fields(rest, Some(Begun(word) + s), Bare)
  {
    assert Quoted(s) + rest == "'" + (Body(s) + ("'" + rest));
    assert ("'" + (Body(s) + ("'" + rest)))[1..] == Body(s) + ("'" + rest);
    BodyReads(s, Begun(word), "'" + rest);
    assert ("'" + rest)[1..] == rest;
  }

  lemma {:induction false} SplitsWithShell(shell: string, cmd: string)
    ensures Split(Quoted(shell) + " " + Quoted(cmd)) == Some([shell, cmd])
  {
    hide Quoted, Fields;
    var tail := " " + Quoted(cmd);
    assert Quoted(shell) + " " + Quoted(cmd) == Quoted(shell) + tail;
    QuotedReads(shell, None, tail);
    QuotedReads(cmd, None, "");
    assert tail[1..] == Quoted(cmd) + "" && "" + shell == shell && "" + cmd == cmd;
    FieldEnds(shell, tail);
    assert Fields(Quoted(shell) + tail, None, Bare) == Fields(tail, Some(shell), Bare);
    FieldEnds(cmd, "");
    assert Fields(Quoted(cmd) + "", None, Bare) == Some([cmd]);
    assert Fields(tail, Some(shell), Bare) == PrependField(shell, Some([cmd]));
    assert [shell] + [cmd] == [shell, cmd];
  }

  lemma {:induction false} FieldEnds(w: string, rest: string)
    ensures rest == "" ==> Fields(rest, Some(w), Bare) == Some([w])
    ensures rest != "" && IsBlank(rest[0]) ==>
              Fields(rest, Some(w), Bare) == PrependField(w, Fields(rest[1..], None, Bare))
  {}

  lemma {:induction false} SplitsWithSh(cmd: string)
    ensures Split("/bin/sh -c " + Quoted(cmd)) == Some(["/bin/sh", "-c", cmd])
  {
    hide Quoted, Fields;
    var q := Quoted(cmd);
    PlainReads("/bin/sh", None, " -c " + q);
    PlainReads("-c", None, " " + q);
    QuotedReads(cmd, None, "");
    assert "/bin/sh -c " + q == "/bin/sh" + (" -c " + q);
    assert (" -c " + q)[1..] == "-c" + (" " + q);
    assert (" " + q)[1..] == q + "" && "" + cmd == cmd && "" + "-c" == "-c" && "" + "/bin/sh" == "/bin/sh";
    FieldEnds("/bin/sh", " -c " + q);
    FieldEnds("-c", " " + q);
    FieldEnds(cmd, "");
    assert Fields(q + "", None, Bare) == Some([cmd]);
    assert Fields(" " + q, Some("-c"), Bare) == PrependField("-c", Some([cmd]));
    assert ["-c"] + [cmd] == ["-c", cmd];
    assert Fields("-c" + (" " + q), None, Bare) == Some(["-c", cmd]);
    assert Fields(" -c " + q, Some("/bin/sh"), Bare) == PrependField("/bin/sh", Some(["-c", cmd]));
    assert ["/bin/sh"] + ["-c", cmd] == ["/bin/sh", "-c", cmd];
  }

  lemma {:induction false} PlainReads(s: string, word: Option<string>, rest: string)
    requires forall c <- s :: !IsBlank(c) && c != '\'' && c != '"' && c != '\\'
    requires s != "" || word.Some?
    ensures Fields(s + rest, word, Bare) == Fields(rest, Some(Begun(word) + s), Bare)
    decreases |s|
  {
    if s == "" {
      assert s + rest == rest && Begun(word) + s == word.value;
    } else {
      assert (s + rest)[1..] == s[1..] + rest && s[0] in s;
      assert forall c <- s[1..] :: c in s;
      PlainReads(s[1..], Added(word, s[0]), rest);
      assert Begun(word) + [s[0]] + s[1..] == Begun(word) + s;
    }
  }
}
