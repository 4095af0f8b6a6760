// Json::Reader: a cursor over the document, a stack of the values being filled, and the
// nesting counter.
module JsonReader {
  import opened Options
  import opened Chars
  import opened JsonValue
  import opened JsonNumber
  import Syntax = JsonSyntax
  import opened JsonSyntax

  // A method's return value, or the runtime error that readValue throws.
  datatype Status = Succeeded | Rejected | Thrown

  class Reader {
    const isDouble: string -> bool
    var document: string
    var current: nat
    // The chain from the root to the value being filled. Popping a child stores it in its
    // parent, which stands for the pointer into the parent that nodes_ holds.
    var nodes: seq<Value>
    var stackDepth: nat

    constructor (isDouble: string -> bool)
      ensures Valid() && this.isDouble == isDouble
    {
      this.isDouble := isDouble;
      document, current, nodes, stackDepth := "", 0, [], 0;
    }

    ghost predicate Valid()
      reads this
    {
      current <= |document| && stackDepth <= STACK_LIMIT
    }

    ghost function Rest(): string
      reads this
      requires Valid()
    {
      document[current..]
    }

    // ---- characters and tokens: only the cursor moves ----

    method GetNextChar() returns (c: char)
      requires Valid()
      modifies this`current
      ensures Valid()
      ensures if old(Rest()) == "" then c == '\0' && Rest() == "" else c == old(Rest())[0] && Rest() == old(Rest())[1..]
    {
      if current == |document| {
        return '\0';
      }
      c := document[current];
      current := current + 1;
    }

    method SkipSpaces()
      requires Valid()
      modifies this`current
      ensures Valid() && Rest() == Syntax.SkipSpaces(old(Rest()))
    {
      while current != |document| && IsSpace(document[current])
        invariant Valid() && Syntax.SkipSpaces(Rest()) == Syntax.SkipSpaces(old(Rest()))
        decreases |document| - current
      {
        current := current + 1;
      }
    }

    method SkipDigits()
      requires Valid()
      modifies this`current
      ensures Valid() && Rest() == Syntax.SkipDigits(old(Rest()))
    {
      while current < |document| && IsDigit(document[current])
        invariant Valid() && Syntax.SkipDigits(Rest()) == Syntax.SkipDigits(old(Rest()))
      {
        current := current + 1;
      }
    }

    method ReadFraction()
      requires Valid()
      modifies this`current
      ensures Valid() && Rest() == FractionRest(old(Rest()))
    {
      if current < |document| && document[current] == '.' {
        current := current + 1;
        SkipDigits();
      }
    }

    method ReadExponent()
      requires Valid()
      modifies this`current
      ensures Valid() && Rest() == ExponentRest(old(Rest()))
    {
      hide Syntax.SkipDigits;
      if current < |document| && (document[current] == 'e' || document[current] == 'E') {
        current := current + 1;
        if current < |document| && (document[current] == '+' || document[current] == '-') {
          current := current + 1;
        }
        SkipDigits();
      }
    }

    method ReadNumber()
      requires Valid()
      modifies this`current
      ensures Valid() && Rest() == NumberRest(old(Rest()))
    {
      SkipDigits();
      ReadFraction();
      ReadExponent();
    }

    method ReadString() returns (ok: bool)
      requires Valid()
      modifies this`current
      ensures Valid()
      ensures match StringRest(old(Rest()))
              case Some(rest) => ok && Rest() == rest
              case None => !ok && Rest() == ""
    {
      var c := '\0';
      while current != |document|
        invariant Valid() && c != '"' && StringRest(Rest()) == StringRest(old(Rest()))
        decreases |document| - current
      {
        c := GetNextChar();
        if c == '\\' {
          var escaped := GetNextChar();
        } else if c == '"' {
          break;
        }
      }
      ok := c == '"';
    }

    method Match(pattern: string) returns (ok: bool)
      requires Valid()
      modifies this`current
      ensures Valid() && ok == (pattern <= old(Rest()))
      ensures Rest() == if ok then old(Rest())[|pattern|..] else old(Rest())
    {
      if |document| - current < |pattern| {
        return false;
      }
      var index: nat := |pattern|;
      while index != 0
        invariant index <= |pattern| && current + |pattern| <= |document|
        invariant forall k :: index <= k < |pattern| ==> document[current + k] == pattern[k]
      {
        index := index - 1;
        if document[current + index] != pattern[index] {
          assert Rest()[index] != pattern[index];
          return false;
        }
      }
      assert document[current..][..|pattern|] == pattern;
      current := current + |pattern|;
      return true;
    }

    method ReadCStyleComment() returns (ok: bool)
      requires Valid()
      modifies this`current
      ensures Valid()
      ensures match BlockCommentRest(old(Rest()))
              case Some(rest) => ok && Rest() == rest
              case None => !ok && Rest() == ""
    {
      while current != |document|
        invariant Valid() && BlockCommentRest(Rest()) == BlockCommentRest(old(Rest()))
        decreases |document| - current
      {
        var c := GetNextChar();
        if c == '*' && current < |document| && document[current] == '/' {
          var slash := GetNextChar();
          return true;
        }
      }
      return false;
    }

    method ReadCppStyleComment()
      requires Valid()
      modifies this`current
      ensures Valid() && Rest() == LineCommentRest(old(Rest()))
    {
      while current != |document|
        invariant Valid() && LineCommentRest(Rest()) == LineCommentRest(old(Rest()))
        decreases |document| - current
      {
        var c := GetNextChar();
        if c == '\n' {
          return;
        }
        if c == '\r' {
          if current != |document| && document[current] == '\n' {
            var newline := GetNextChar();
          }
          return;
        }
      }
    }

    method ReadComment() returns (ok: bool)
      requires Valid()
      modifies this`current
      ensures Valid() && Lexed(if ok then Comment else Error, Rest()) == CommentRest(old(Rest()))
    {
      var c := GetNextChar();
      ok := false;
      if c == '*' {
        ok := ReadCStyleComment();
      } else if c == '/' {
        ReadCppStyleComment();
        ok := true;
      }
    }

    method ReadToken() returns (token: Token)
      requires Valid()
      modifies this`current
      ensures Valid() && Lexed(token, Rest()) == Syntax.ReadToken(old(Rest()))
    {
      hide Syntax.SkipSpaces, StringRest, NumberRest, CommentRest;
      SkipSpaces();
      var start := current;
      ghost var text := Rest();
      var c := GetNextChar();
      var ok := true;
      if c == '{' { token := ObjectBegin; }
      else if c == '}' { token := ObjectEnd; }
      else if c == '[' { token := ArrayBegin; }
      else if c == ']' { token := ArrayEnd; }
      else if c == '"' {
        ok := ReadString();
        token := StringToken(document[start..current]);
        assert ok ==> document[start..current] == Consumed(text, Rest());
      } else if c == '/' {
        ok := ReadComment();
        token := Comment;
      } else if IsDigit(c) || c == '-' {
        ReadNumber();
        token := NumberToken(document[start..current]);
        assert document[start..current] == Consumed(text, Rest());
      } else if c == 't' { ok := Match("rue"); token := True; }
      else if c == 'f' { ok := Match("alse"); token := False; }
      else if c == 'n' { ok := Match("ull"); token := NullWord; }
      else if c == ',' { token := ArraySeparator; }
      else if c == ':' { token := MemberSeparator; }
      else if c == '\0' { token := EndOfStream; }
      else { ok := false; token := Error; }
      if !ok {
        token := Error;
      }
    }

    method SkipCommentTokens() returns (token: Token)
      requires Valid()
      modifies this`current
      ensures Valid() && Lexed(token, Rest()) == ReadPastComments(old(Rest()))
    {
      token := ReadToken();
      while token.Comment?
        invariant Valid()
        invariant ReadPastComments(old(Rest())) == if token.Comment? then ReadPastComments(Rest()) else Lexed(token,
              Rest())
        decreases |document| - current, token.Comment?
      {
        token := ReadToken();
      }
    }

    // ---- values ----

    // The value on top of the stack, and whether a run did what `outcome` says.
    ghost predicate Follows(status: Status, outcome: Outcome, below: seq<Value>, depth: nat)
      reads this
    {
      Valid() &&
      match outcome
      case Parsed(v, rest) => status == Succeeded && Rest() == rest && nodes == below + [v] && stackDepth == depth
      case Failed => status == Rejected
      case TooDeep => status == Thrown
    }

    // Puts the value read into the node on top of the stack.
    method SetCurrentValue(v: Value)
      requires Valid() && nodes != []
      modifies this`nodes
      ensures nodes == old(nodes)[..|old(nodes)| - 1] + [v]
    {
      nodes := nodes[..|nodes| - 1] + [v];
    }

    method ReadValue() returns (status: Status)
      requires Valid() && nodes != []
      modifies this
      ensures document == old(document)
      ensures Follows(status, Syntax.ReadValue(old(Rest()), old(stackDepth), isDouble),
            old(nodes)[..|old(nodes)| - 1], old(stackDepth))
      decreases STACK_LIMIT - stackDepth, 0
    {
      hide ReadMembers, Syntax.ReadArray, Syntax.ReadScalar, ReadPastComments;
      if stackDepth >= STACK_LIMIT {
        return Thrown;
      }
      stackDepth := stackDepth + 1;
      var token := SkipCommentTokens();
      if token.ObjectBegin? {
        status := ReadObject();
      } else if token.ArrayBegin? {
        status := ReadArray();
      } else {
        status := ReadScalar(token);
      }
      if status == Succeeded {
        stackDepth := stackDepth - 1;
      }
    }

    method ReadScalar(token: Token) returns (status: Status)
      requires Valid() && nodes != []
      modifies this`nodes
      ensures Follows(status, Syntax.ReadScalar(Lexed(token, Rest()), isDouble), old(nodes)[..|old(nodes)| - 1],
            stackDepth)
    {
      status := Succeeded;
      match token {
        case NumberToken(text) =>
          var number := DecodeNumber(text);
          if number.None? {
            return Rejected;
          }
          SetCurrentValue(number.value);
        case StringToken(text) =>
          var decoded := DecodeString(text);
          if decoded.None? {
            return Rejected;
          }
          SetCurrentValue(Str(decoded.value));
        case True => SetCurrentValue(Bool(true));
        case False => SetCurrentValue(Bool(false));
        case NullWord => SetCurrentValue(Null);
        case _ => return Rejected;
      }
    }

    method DecodeNumber(text: string) returns (number: Option<Value>)
      ensures number == JsonNumber.DecodeNumber(text, isDouble)
    {
      number := ReadInteger(text);
      if number.None? && isDouble(text) {
        number := Some(Real(text));
      }
    }

    method DecodeString(text: string) returns (decoded: Option<string>)
      ensures decoded == DecodeToken(text)
    {
      if |text| < 2 {
        return None;
      }
      decoded := JsonString.DecodeString(text[1..|text| - 1]);
    }

    method ReadArray() returns (status: Status)
      requires Valid() && nodes != []
      modifies this
      ensures document == old(document)
      ensures Follows(status, Syntax.ReadArray(old(Rest()), old(stackDepth), isDouble),
            old(nodes)[..|old(nodes)| - 1], old(stackDepth))
      decreases STACK_LIMIT - stackDepth, 1
    {
      hide Syntax.ReadValue, Put;
      ghost var below := nodes[..|nodes| - 1];
      ghost var outcome := Syntax.ReadArray(Rest(), stackDepth, isDouble);
      SetCurrentValue(Arr([]));
      SkipSpaces();
      if current < |document| && document[current] == ']' {
        var endArray := ReadToken();
        return Succeeded;
      }
      var items: seq<Value> := [];
      while true
        invariant Valid() && document == old(document) && stackDepth == old(stackDepth)
        invariant nodes == below + [Arr(items)]
        invariant outcome == ReadItems(Rest(), stackDepth, items, isDouble)
        decreases |document| - current
      {
        nodes := nodes + [Null];
        assert nodes[..|nodes| - 1] == below + [Arr(items)];
        status := ReadValue();
        if status != Succeeded {
          return;
        }
        items := items + [nodes[|nodes| - 1]];
        nodes := nodes[..|nodes| - 1];
        SetCurrentValue(Arr(items));
        var token := SkipCommentTokens();
        if token.ArrayEnd? {
          return Succeeded;
        } else if !token.ArraySeparator? {
          return Rejected;
        }
      }
    }

    method ReadObject() returns (status: Status)
      requires Valid() && nodes != []
      modifies this
      ensures document == old(document)
      ensures Follows(status, ReadMembers(old(Rest()), old(stackDepth), [], "", isDouble),
            old(nodes)[..|old(nodes)| - 1], old(stackDepth))
      decreases STACK_LIMIT - stackDepth, 1
    {
      hide Syntax.ReadValue, Syntax.ReadToken, ReadPastComments, DecodeToken, Put;
      ghost var below := nodes[..|nodes| - 1];
      ghost var outcome := ReadMembers(Rest(), stackDepth, [], "", isDouble);
      SetCurrentValue(Obj([]));
      var members: seq<Member>, name := [], "";
      while true
        invariant Valid() && document == old(document) && stackDepth == old(stackDepth)
        invariant nodes == below + [Obj(members)]
        invariant outcome == ReadMembers(Rest(), stackDepth, members, name, isDouble)
        decreases |document| - current
      {
        var tokenName := SkipCommentTokens();
        if tokenName.ObjectEnd? && name == "" {
          return Succeeded;
        }
        if !tokenName.StringToken? {
          return Rejected;
        }
        var key := DecodeString(tokenName.text);
        if key.None? {
          return Rejected;
        }
        name := key.value;
        var colon := ReadToken();
        if !colon.MemberSeparator? {
          return Rejected;
        }
        nodes := nodes + [Null];
        assert nodes[..|nodes| - 1] == below + [Obj(members)];
        status := ReadValue();
        if status != Succeeded {
          return;
        }
        members := Put(members, name, nodes[|nodes| - 1]);
        nodes := nodes[..|nodes| - 1];
        SetCurrentValue(Obj(members));
        var comma := ReadToken();
        if !comma.ObjectEnd? && !comma.ArraySeparator? && !comma.Comment? {
          return Rejected;
        }
        if comma.Comment? {
          comma := SkipCommentTokens();
        }
        if comma.ObjectEnd? {
          return Succeeded;
        }
      }
    }

    // Reader::parse with a fresh root.
    method Parse(text: string) returns (status: Status, root: Value)
      requires Valid()
      modifies this
      ensures match Syntax.Parse(text, isDouble)
              case Parsed(v, _) => status == Succeeded && root == v
              case Failed => status == Rejected
              case TooDeep => status == Thrown
    {
      document, current, nodes, stackDepth := text, 0, [Null], 0;
      assert Rest() == text;
      status := ReadValue();
      root := if nodes != [] then nodes[0] else Null;
    }
  }
}
