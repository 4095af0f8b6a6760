// Two ways of doubling backslashes: the in-place one of dylib/hooks/hook_launch.c and the inserting
// one of steam-shim/steam.cpp.
module Backslashes {
  function Doubled(s: string): string {
    if s == "" then "" else (if s[0] == '\\' then "\\\\" else [s[0]]) + Doubled(s[1..])
  }

  function Count(s: string): nat {
    if s == "" then 0 else (if s[0] == '\\' then 1 else 0) + Count(s[1..])
  }

  lemma {:induction false} DoubledAppend(a: string, b: string)
    ensures Doubled(a + b) == Doubled(a) + Doubled(b) && Count(a + b) == Count(a) + Count(b)
    decreases |a|
  {
    if a == "" {
      assert a + b == b;
    } else {
      assert (a + b)[1..] == a[1..] + b;
      DoubledAppend(a[1..], b);
    }
  }

  lemma {:induction false} DoubledLength(s: string)
    ensures |Doubled(s)| == |s| + Count(s) && (s == "" ==> Doubled(s) == "")
  {
    if s != "" { DoubledLength(s[1..]); }
  }

  function Twice(c: char): string { if c == '\\' then "\\\\" else [c] }

  lemma {:induction false} PeelLast(s: string, n: nat)
    requires 0 < n <= |s|
    ensures Doubled(s[..n]) == Doubled(s[..n - 1]) + Twice(s[n - 1])
    ensures Count(s[..n]) == Count(s[..n - 1]) + if s[n - 1] == '\\' then 1 else 0
  {
    assert s[..n] == s[..n - 1] + [s[n - 1]];
    DoubledAppend(s[..n - 1], [s[n - 1]]);
    assert [s[n - 1]][1..] == "" && Count("") == 0 && Doubled("") == "";
    assert Doubled([s[n - 1]]) == Twice(s[n - 1]);
  }

  // Where the doubles of s[n - 1] stand in the whole.
  lemma {:induction false} DoublesAt(s: string, n: nat)
    requires 0 < n <= |s|
    ensures |Doubled(s[..n])| == |Doubled(s[..n - 1])| + if s[n - 1] == '\\' then 2 else 1
    ensures |Doubled(s[..n])| <= |Doubled(s)| && Doubled(s)[|Doubled(s[..n])| - 1] == s[n - 1]
    ensures s[n - 1] == '\\' ==> Doubled(s)[|Doubled(s[..n])| - 2] == s[n - 1]
  {
    assert s == s[..n] + s[n..];
    DoubledAppend(s[..n], s[n..]);
    PeelLast(s, n);
  }

  // np_double_backslashes: from the end, so that no byte is overwritten before it is read. It
  // fills exactly the room it was given, and touches nothing after the terminator.
  method DoubleInPlace(s: array<char>, len: nat, extra: nat)
    requires len + extra < s.Length && extra == Count(s[..len])
    modifies s
    ensures s[..len + extra] == Doubled(old(s[..len])) && s[len + extra] == '\0'
    ensures s[len + extra + 1..] == old(s[len + extra + 1..])
  {
    hide Doubled, Count;
    ghost var was, end := s[..len], len + extra;
    ghost var goal := Doubled(was);
    DoubledLength(was);
    var out, left := len + extra, len;
    s[out] := '\0';
    assert was[..left] == was;
    while left > 0
      invariant left <= len && left <= out == |Doubled(was[..left])| <= end == |goal|
      invariant forall k :: 0 <= k < left ==> s[k] == was[k]
      invariant forall k :: out <= k < end ==> s[k] == goal[k]
      invariant s[end] == '\0' && forall k :: end < k < s.Length ==> s[k] == old(s[k])
    {
      DoublesAt(was, left);
      DoubledLength(was[..left - 1]);
      left := left - 1;
      var c := s[left];
      out := out - 1;
      s[out] := c;
      if c == '\\' {
        out := out - 1;
        s[out] := c;
      }
    }
    assert was[..0] == "";
    DoubledLength("");
  }

  // np_hook_vr_support, once the arguments are known to need it: count, enlarge, double.
  method DoubleArguments(arguments: string) returns (text: string)
    ensures text == Doubled(arguments)
  {
    var extra := 0;
    var i := 0;
    while i < |arguments|
      invariant i <= |arguments| && extra == Count(arguments[..i])
    {
      PeelLast(arguments, i + 1);
      if arguments[i] == '\\' { extra := extra + 1; }
      i := i + 1;
    }
    assert arguments[..i] == arguments;
    if extra == 0 {
      NothingToDouble(arguments);
      return arguments;
    }
    var len := |arguments|;
    var buf := new char[len + extra + 1](k => if 0 <= k < len then arguments[k] else '\0');
    assert buf[..len] == arguments;
    DoubleInPlace(buf, len, extra);
    text := buf[..len + extra];
  }

  lemma {:induction false} NothingToDouble(s: string)
    requires Count(s) == 0
    ensures Doubled(s) == s
  {
    if s != "" {
      NothingToDouble(s[1..]);
      assert [s[0]] + s[1..] == s;
    }
  }

  // setup_steam_files: the same text by inserting while walking forward.
  method DoubleByInsert(path: string) returns (s: string)
    ensures s == Doubled(path)
  {
    hide Doubled, Twice;
    s := path;
    var i := 0;
    ghost var n, done := 0, "";
    assert path[..0] == "";
    DoubledLength("");
    while i < |s|
      invariant n <= |path| && i == |done| && s == done + path[n..] && done == Doubled(path[..n])
      decreases |path| - n
    {
      PeelLast(path, n + 1);
      InsertOne(done, path, n);
      if s[i] == '\\' {
        s := s[..i] + "\\" + s[i..];
        i := i + 1;
      }
      i := i + 1;
      n, done := n + 1, done + Twice(path[n]);
    }
    assert path[..n] == path && s == done;
  }

  lemma {:induction false} InsertOne(done: string, path: string, n: nat)
    requires n < |path|
    ensures var s, i, next := done + path[n..], |done|, done + Twice(path[n]) + path[n + 1..];
            && s[i] == path[n] && (if s[i] == '\\' then s[..i] + "\\" + s[i..] else s) == next
            && |done + Twice(path[n])| == if s[i] == '\\' then i + 2 else i + 1
  {
    assert path[n..] == [path[n]] + path[n + 1..];
  }
}
