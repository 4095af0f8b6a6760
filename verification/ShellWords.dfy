// A reference for what a command line means: splitting it into words by the quoting rules of
// IEEE Std 1003.1-2017, Shell Command Language, section 2.2.
module ShellWords {
  import opened Options

  datatype Quote = Bare | Single | Double

  predicate IsBlank(c: char) { c == ' ' || c == '\t' || c == '\n' }

  function Begun(word: Option<string>): string {
    match word case None => "" case Some(w) => w
  }

  function Added(word: Option<string>, c: char): Option<string> { Some(Begun(word) + [c]) }

  // The fields of s, given the word in progress and the quote it stands in; None when a quote or
  // an escape is left open.
  function Fields(s: string, word: Option<string>, quote: Quote): Option<seq<string>>
    decreases |s|
  {
    if s == "" then
      if quote != Bare then None else if word.None? then Some([]) else Some([word.value])
    else
      var c, rest := s[0], s[1..];
      match quote
      case Single => // 2.2.2: every character stands for itself up to the next single quote
        if c == '\'' then Fields(rest, word, Bare) else Fields(rest, Added(word, c), Single)
      case Double => // 2.2.3
        if c == '"' then Fields(rest, word, Bare)
        else if c == '\\' && rest != "" && rest[0] in "$`\"\\" then Fields(rest[1..], Added(word, rest[0]), Double)
        else if c == '\\' && rest != "" && rest[0] == '\n' then Fields(rest[1..], word, Double)
        else Fields(rest, Added(word, c), Double)
      case Bare =>
        if IsBlank(c) then
          if word.None? then Fields(rest, None, Bare) else PrependField(word.value, Fields(rest, None, Bare))
        else if c == '\'' then Fields(rest, Some(Begun(word)), Single)
        else if c == '"' then Fields(rest, Some(Begun(word)), Double)
        else if c == '\\' then // 2.2.1
          if rest == "" then None
          else if rest[0] == '\n' then Fields(rest[1..], word, Bare)
          else Fields(rest[1..], Added(word, rest[0]), Bare)
        else Fields(rest, Added(word, c), Bare)
  }

  function PrependField(w: string, fields: Option<seq<string>>): Option<seq<string>> {
    match fields case None => None case Some(f) => Some([w] + f)
  }

  function Split(s: string): Option<seq<string>> { Fields(s, None, Bare) }
}
