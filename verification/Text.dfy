module Options {
  datatype Option<+T> = None | Some(value: T)

  // Text built so far, before the text still to come, which may fail.
  function Prepend(head: string, tail: Option<string>): Option<string> {
    if tail.Some? then Some(head + tail.value) else None
  }

  lemma {:induction false} PrependTwice(a: string, b: string, tail: Option<string>)
    ensures Prepend(a, Prepend(b, tail)) == Prepend(a + b, tail)
  {
    if tail.Some? {
      assert a + (b + tail.value) == (a + b) + tail.value;
    }
  }

  lemma {:induction false} PrependNothing(tail: Option<string>)
    ensures Prepend("", tail) == tail
  {
    if tail.Some? {
      assert "" + tail.value == tail.value;
    }
  }
}

module Numbers {
  function Max(a: nat, b: nat): nat { if a < b then b else a }
}

// A text is a sequence of bytes; a byte is written as the character with its code, so that
// punctuation stays readable.
module Chars {
  predicate IsDigit(c: char) { '0' <= c <= '9' }

  predicate IsUpper(c: char) { 'A' <= c <= 'Z' }

  predicate IsLower(c: char) { 'a' <= c <= 'z' }

  predicate IsAlnum(c: char) { IsDigit(c) || IsUpper(c) || IsLower(c) }

  const UPPER := "ABCDEFGHIJKLMNOPQRSTUVWXYZ"
  const LOWER := "abcdefghijklmnopqrstuvwxyz"
  const DIGITS := "0123456789"

  lemma {:induction false} LetterOrDigit(c: char)
    ensures IsUpper(c) <==> c in UPPER
    ensures IsLower(c) <==> c in LOWER
    ensures IsDigit(c) <==> c in DIGITS
  {
    UpperCase(c);
    LowerCase(c);
    if IsDigit(c) { assert DIGITS[c as int - '0' as int] == c; }
  }

  lemma {:induction false} UpperCase(c: char)
    ensures IsUpper(c) <==> c in UPPER
  {
    if IsUpper(c) { assert UPPER[c as int - 'A' as int] == c; }
  }

  lemma {:induction false} LowerCase(c: char)
    ensures IsLower(c) <==> c in LOWER
  {
    if IsLower(c) { assert LOWER[c as int - 'a' as int] == c; }
  }
}

// Cutting a text at a separator and putting the pieces back together.
module Pieces {
  function FirstPiece(sep: char, s: string): (c: string)
    ensures c <= s && sep !in c
    ensures |c| == |s| || s[|c|] == sep
  {
    if s == "" || s[0] == sep then "" else [s[0]] + FirstPiece(sep, s[1..])
  }

  function Cut(sep: char, s: string): (cs: seq<string>)
    ensures cs != []
    decreases |s|
  {
    var c := FirstPiece(sep, s);
    if |c| == |s| then [s] else [c] + Cut(sep, s[|c| + 1..])
  }

  function Glue(sep: char, cs: seq<string>): string
    requires cs != []
  {
    if |cs| == 1 then cs[0] else cs[0] + [sep] + Glue(sep, cs[1..])
  }

  ghost predicate NoneHas(x: char, cs: seq<string>) { forall c <- cs :: x !in c }

  lemma {:induction false} CutIsClean(sep: char, s: string)
    ensures NoneHas(sep, Cut(sep, s))
    decreases |s|
  {
    var c := FirstPiece(sep, s);
    if |c| < |s| { CutIsClean(sep, s[|c| + 1..]); }
  }

  lemma {:induction false} GlueOfCut(sep: char, s: string)
    ensures Glue(sep, Cut(sep, s)) == s
    decreases |s|
  {
    hide FirstPiece;
    var c := FirstPiece(sep, s);
    if |c| < |s| {
      var tail := s[|c| + 1..];
      GlueOfCut(sep, tail);
      assert ([c] + Cut(sep, tail))[1..] == Cut(sep, tail);
      assert s == c + [sep] + tail;
    }
  }

  lemma {:induction false} FirstPieceOf(sep: char, c: string, rest: string)
    requires sep !in c && (rest == "" || rest[0] == sep)
    ensures FirstPiece(sep, c + rest) == c
  {
    if c != "" {
      FirstPieceOf(sep, c[1..], rest);
      assert (c + rest)[1..] == c[1..] + rest;
    } else {
      assert c + rest == rest;
    }
  }

  lemma {:induction false} CutOfGlue(sep: char, cs: seq<string>)
    requires cs != [] && NoneHas(sep, cs)
    ensures Cut(sep, Glue(sep, cs)) == cs
    decreases |cs|
  {
    hide FirstPiece;
    if |cs| == 1 {
      FirstPieceOf(sep, cs[0], "");
      assert cs[0] + "" == cs[0];
    } else {
      var tail := Glue(sep, cs[1..]);
      FirstPieceOf(sep, cs[0], [sep] + tail);
      assert cs[0] + [sep] + tail == cs[0] + ([sep] + tail);
      assert Glue(sep, cs)[|cs[0]| + 1..] == tail;
      CutOfGlue(sep, cs[1..]);
    }
  }
}
