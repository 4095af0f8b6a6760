// What the reader makes of the text that is left: one function per method of Json::Reader,
// with Features::all() (comments allowed, no other extension), the only setting in use.
module JsonSyntax {
  import opened Options
  import opened Chars
  import opened JsonValue
  import opened JsonNumber
  import opened JsonString

  const STACK_LIMIT := 1000

  datatype Token =
    | ObjectBegin | ObjectEnd | ArrayBegin | ArrayEnd
    | StringToken(text: string) | NumberToken(text: string)
    | True | False | NullWord
    | ArraySeparator | MemberSeparator
    | Comment | EndOfStream | Error

  // A token and the text after it.
  datatype Lexed = Lexed(token: Token, rest: string)

  predicate IsSpace(c: char) { c == ' ' || c == '\t' || c == '\r' || c == '\n' }

  function SkipSpaces(s: string): (r: string)
    ensures |r| <= |s| && (r != "" ==> !IsSpace(r[0]))
  {
    if s != "" && IsSpace(s[0]) then SkipSpaces(s[1..]) else s
  }

  function SkipDigits(s: string): (r: string)
    ensures |r| <= |s|
  {
    if s != "" && IsDigit(s[0]) then SkipDigits(s[1..]) else s
  }

  // readNumber, after the first character: digits, a fraction, an exponent, all optional.
  function NumberRest(s: string): (r: string)
    ensures |r| <= |s|
  {
    ExponentRest(FractionRest(SkipDigits(s)))
  }

  function FractionRest(s: string): (r: string)
    ensures |r| <= |s|
  {
    if s != "" && s[0] == '.' then SkipDigits(s[1..]) else s
  }

  function ExponentRest(s: string): (r: string)
    ensures |r| <= |s|
  {
    if s != "" && (s[0] == 'e' || s[0] == 'E') then
      SkipDigits(if |s| > 1 && (s[1] == '+' || s[1] == '-') then s[2..] else s[1..])
    else s
  }

  // readString, after the opening quote: the text after the closing one, if there is one.
  function StringRest(s: string): (r: Option<string>)
    ensures r.Some? ==> |r.value| < |s|
  {
    if s == "" then None
    else if s[0] == '"' then Some(s[1..])
    else if s[0] != '\\' then StringRest(s[1..])
    else if |s| == 1 then None
    else StringRest(s[2..])
  }

  // readCStyleComment, after the opening mark.
  function BlockCommentRest(s: string): (r: Option<string>)
    ensures r.Some? ==> |r.value| <= |s|
  {
    if s == "" then None
    else if s[0] == '*' && |s| > 1 && s[1] == '/' then Some(s[2..])
    else BlockCommentRest(s[1..])
  }

  // readCppStyleComment: up to and including the end of the line.
  function LineCommentRest(s: string): (r: string)
    ensures |r| <= |s|
  {
    if s == "" then ""
    else if s[0] == '\n' then s[1..]
    else if s[0] == '\r' then if |s| > 1 && s[1] == '\n' then s[2..] else s[1..]
    else LineCommentRest(s[1..])
  }

  // readComment, after the slash.
  function CommentRest(s: string): Lexed {
    if s == "" then Lexed(Error, "")
    else if s[0] == '*' then
      match BlockCommentRest(s[1..])
      case Some(rest) => Lexed(Comment, rest)
      case None => Lexed(Error, "")
    else if s[0] == '/' then Lexed(Comment, LineCommentRest(s[1..]))
    else Lexed(Error, s[1..])
  }

  // match(): the rest of a literal, after its first letter.
  function Literal(token: Token, letters: string, s: string): Lexed {
    if letters <= s then Lexed(token, s[|letters|..]) else Lexed(Error, s)
  }

  function Consumed(s: string, rest: string): string
    requires |rest| <= |s|
  {
    s[..|s| - |rest|]
  }

  // readToken, once spaces are skipped
  function TokenAt(s: string): (r: Lexed)
    ensures |r.rest| <= |s| && (|r.rest| == |s| ==> s == "" && r.token.EndOfStream?)
  {
    if s == "" then Lexed(EndOfStream, "")
    else
      var c, rest := s[0], s[1..];
      if c == '{' then Lexed(ObjectBegin, rest)
      else if c == '}' then Lexed(ObjectEnd, rest)
      else if c == '[' then Lexed(ArrayBegin, rest)
      else if c == ']' then Lexed(ArrayEnd, rest)
      else if c == '"' then
        match StringRest(rest)
        case Some(after) => Lexed(StringToken(Consumed(s, after)), after)
        case None => Lexed(Error, "")
      else if c == '/' then CommentRest(rest)
      else if IsDigit(c) || c == '-' then
        Lexed(NumberToken(Consumed(s, NumberRest(rest))), NumberRest(rest))
      else if c == 't' then Literal(True, "rue", rest)
      else if c == 'f' then Literal(False, "alse", rest)
      else if c == 'n' then Literal(NullWord, "ull", rest)
      else if c == ',' then Lexed(ArraySeparator, rest)
      else if c == ':' then Lexed(MemberSeparator, rest)
      else if c == '\0' then Lexed(EndOfStream, rest)
      else Lexed(Error, rest)
  }

  function ReadToken(s: string): (r: Lexed)
    ensures |r.rest| <= |s| && (|r.rest| == |s| ==> s == "" && r.token.EndOfStream?)
  {
    TokenAt(SkipSpaces(s))
  }

  // skipCommentTokens
  function ReadPastComments(s: string): (r: Lexed)
    ensures |r.rest| <= |s| && (|r.rest| == |s| ==> s == "" && r.token.EndOfStream?)
    ensures !r.token.Comment?
    decreases |s|
  {
    var lexed := ReadToken(s);
    if lexed.token.Comment? then ReadPastComments(lexed.rest) else lexed
  }

  // decodeString on a token; the length tests hold for every token readToken makes.
  function DecodeToken(text: string): Option<string> {
    if |text| < 2 then None else Unescape(text[1..|text| - 1])
  }

  // A method that returned true, one that returned false, or the runtime error of the
  // nesting limit.
  datatype Outcome = Parsed(value: Value, rest: string) | Failed | TooDeep

  // Every token but the two that open a container.
  function ReadScalar(lexed: Lexed, isDouble: string -> bool): (r: Outcome)
    ensures r.Parsed? ==> r.rest == lexed.rest && !lexed.token.EndOfStream?
    ensures !r.TooDeep?
  {
    match lexed.token
    case NumberToken(text) =>
      (match DecodeNumber(text, isDouble)
       case Some(v) => Parsed(v, lexed.rest)
       case None => Failed)
    case StringToken(text) =>
      (match DecodeToken(text)
       case Some(decoded) => Parsed(Str(decoded), lexed.rest)
       case None => Failed)
    case True => Parsed(Bool(true), lexed.rest)
    case False => Parsed(Bool(false), lexed.rest)
    case NullWord => Parsed(Null, lexed.rest)
    case _ => Failed
  }

  function ReadValue(s: string, depth: nat, isDouble: string -> bool): (r: Outcome)
    requires depth <= STACK_LIMIT
    ensures r.Parsed? ==> |r.rest| < |s|
    decreases STACK_LIMIT - depth, |s|, 0
  {
    if depth == STACK_LIMIT then TooDeep
    else
      var lexed := ReadPastComments(s);
      if lexed.token.ObjectBegin? then ReadMembers(lexed.rest, depth + 1, [], "", isDouble)
      else if lexed.token.ArrayBegin? then ReadArray(lexed.rest, depth + 1, isDouble)
      else ReadScalar(lexed, isDouble)
  }

  function ReadArray(s: string, depth: nat, isDouble: string -> bool): (r: Outcome)
    requires depth <= STACK_LIMIT
    ensures r.Parsed? ==> |r.rest| < |s|
    decreases STACK_LIMIT - depth, |s|, 2
  {
    var t := SkipSpaces(s);
    if t != "" && t[0] == ']' then Parsed(Arr([]), t[1..]) else ReadItems(t, depth, [], isDouble)
  }

  function ReadItems(s: string, depth: nat, items: seq<Value>, isDouble: string -> bool): (r: Outcome)
    requires depth <= STACK_LIMIT
    ensures r.Parsed? ==> |r.rest| < |s|
    decreases STACK_LIMIT - depth, |s|, 1
  {
    match ReadValue(s, depth, isDouble)
    case Failed => Failed
    case TooDeep => TooDeep
    case Parsed(v, rest) =>
      var lexed := ReadPastComments(rest);
      if lexed.token.ArrayEnd? then Parsed(Arr(items + [v]), lexed.rest)
      else if lexed.token.ArraySeparator? then ReadItems(lexed.rest, depth, items + [v], isDouble)
      else Failed
  }

  // readObject's loop: `name` is the last key read, "" before the first.
  function ReadMembers(s: string, depth: nat, members: seq<Member>, name: string,
        isDouble: string -> bool): (r: Outcome)
    requires depth <= STACK_LIMIT
    ensures r.Parsed? ==> |r.rest| < |s|
    decreases STACK_LIMIT - depth, |s|, 1
  {
    var lexed := ReadPastComments(s);
    match lexed.token
    case ObjectEnd => if name == "" then Parsed(Obj(members), lexed.rest) else Failed
    case StringToken(text) =>
      (match DecodeToken(text)
       case None => Failed
       case Some(key) =>
         var colon := ReadToken(lexed.rest);
         if !colon.token.MemberSeparator? then Failed
         else
           match ReadValue(colon.rest, depth, isDouble)
           case Failed => Failed
           case TooDeep => TooDeep
           case Parsed(v, rest) => AfterMember(rest, depth, Put(members, key, v), key, isDouble))
    case _ => Failed
  }

  // After a member: '}' ends the object, ',' goes on. After a comment anything but '}' goes on.
  function AfterMember(s: string, depth: nat, members: seq<Member>, key: string, isDouble: string -> bool): (r: Outcome)
    requires depth <= STACK_LIMIT
    ensures r.Parsed? ==> |r.rest| < |s|
    decreases STACK_LIMIT - depth, |s|, 2
  {
    var first := ReadToken(s);
    if !first.token.ObjectEnd? && !first.token.ArraySeparator? && !first.token.Comment? then Failed
    else
      var comma := if first.token.Comment? then ReadPastComments(first.rest) else first;
      if comma.token.ObjectEnd? then Parsed(Obj(members), comma.rest)
      else ReadMembers(comma.rest, depth, members, key, isDouble)
  }

  // Reader::parse: text after the root value is ignored.
  function Parse(document: string, isDouble: string -> bool): Outcome {
    ReadValue(document, 0, isDouble)
  }
}
