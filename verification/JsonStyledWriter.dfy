// Json::StyledWriter: layout state, and what the layout can and cannot change.
module JsonStyledWriter {
  import opened JsonValue
  import opened JsonNumber
  import opened JsonString
  import opened JsonTokens
  import opened JsonFastWriter

  const RIGHT_MARGIN := 74
  const INDENT := "   " // indentSize_ 3

  // Values written without a line break: scalars and empty containers.
  predicate Flat(v: Value) {
    (v.Arr? ==> v.items == []) && (v.Obj? ==> v.members == [])
  }

  function FlatText(v: Value): string
    requires Flat(v)
  {
    if v.Arr? then "[]" else if v.Obj? then "{}" else ScalarText(v)
  }

  // writeIndent: a new line unless one was just begun, and nothing after a space.
  function Indented(doc: string, indent: string): string {
    if doc == "" then indent
    else if doc[|doc| - 1] == ' ' then doc
    else if doc[|doc| - 1] == '\n' then doc + indent
    else doc + "\n" + indent
  }

  function FlatLength(items: seq<Value>): nat
    requires forall x :: x in items ==> Flat(x)
  {
    if items == [] then 0 else FlatLength(items[..|items| - 1]) + |FlatText(items[|items| - 1])|
  }

  // The part of isMultineArray that looks at sizes only.
  predicate ForcedMultiline(items: seq<Value>) {
    |items| * 3 >= RIGHT_MARGIN || exists k :: 0 <= k < |items| && !Flat(items[k])
  }

  predicate Multiline(items: seq<Value>) {
    if ForcedMultiline(items) then true
    else
      assert forall x :: x in items ==> exists k :: 0 <= k < |items| && items[k] == x && Flat(items[k]);
      4 + (|items| - 1) * 2 + FlatLength(items) >= RIGHT_MARGIN
  }

  // The document after a value is written to it.
  function Styled(doc: string, indent: string, v: Value): string
    decreases v, 2
  {
    if Flat(v) then doc + FlatText(v)
    else if v.Obj? then
      var body := StyledMembers(Indented(doc, indent) + "{", indent + INDENT, v.members);
      Indented(body, indent) + "}"
    else if Multiline(v.items) then
      var body := StyledItems(Indented(doc, indent) + "[", indent + INDENT, v.items);
      Indented(body, indent) + "]"
    else
      doc + "[ " + OneLine(v.items, true)
  }

  function StyledItems(doc: string, indent: string, items: seq<Value>): string
    requires items != []
    decreases items, 0
  {
    var written := Styled(Indented(doc, indent), indent, items[0]);
    if |items| == 1 then written else StyledItems(written + ",", indent, items[1..])
  }

  function StyledMembers(doc: string, indent: string, members: seq<Member>): string
    requires members != []
    decreases members, 0
  {
    var key := Indented(doc, indent) + Quoted(UpToNul(members[0].name)) + " : ";
    var written := Styled(key, indent, members[0].value);
    if |members| == 1 then written else StyledMembers(written + ",", indent, members[1..])
  }

  // The rest of a single-line array.
  function OneLine(items: seq<Value>, first: bool): string {
    if items == [] then " ]"
    else if !Flat(items[0]) then ""
    else (if first then "" else ", ") + (FlatText(items[0]) + OneLine(items[1..], false))
  }

  // Comments are not modelled: no value carries one.
  class StyledWriter {
    var document: string
    var indentString: string
    var childValues: seq<string>
    var addChildValues: bool

    constructor ()
      ensures !addChildValues
    {
      document, indentString, childValues, addChildValues := "", "", [], false;
    }

    method Write(root: Value) returns (text: string)
      requires Printable(root)
      modifies this
      ensures text == Styled("", "", root) + "\n"
      ensures !addChildValues && indentString == ""
    {
      document, addChildValues, indentString := "", false, "";
      WriteValue(root);
      document := document + "\n";
      text := document;
    }

    // pushValue
    method PushValue(value: string)
      modifies this`document, this`childValues
      ensures addChildValues ==> childValues == old(childValues) + [value] && document == old(document)
      ensures !addChildValues ==> document == old(document) + value && childValues == old(childValues)
    {
      if addChildValues {
        childValues := childValues + [value];
      } else {
        document := document + value;
      }
    }

    method WriteIndent()
      modifies this`document
      ensures document == Indented(old(document), indentString)
    {
      if document != "" {
        var last := document[|document| - 1];
        if last == ' ' {
          return;
        }
        if last != '\n' {
          document := document + "\n";
        }
      }
      document := document + indentString;
    }

    method WriteWithIndent(value: string)
      modifies this`document
      ensures document == Indented(old(document), indentString) + value
    {
      WriteIndent();
      document := document + value;
    }

    method Indent()
      modifies this`indentString
      ensures indentString == old(indentString) + INDENT
    {
      indentString := indentString + INDENT;
    }

    // The source asserts this precondition.
    method Unindent()
      requires |indentString| >= |INDENT|
      modifies this`indentString
      ensures indentString == old(indentString)[..|old(indentString)| - |INDENT|]
    {
      indentString := indentString[..|indentString| - |INDENT|];
    }

    method ScalarString(value: Value) returns (text: string)
      requires Printable(value) && !value.Arr? && !value.Obj?
      ensures text == ScalarText(value)
    {
      match value
      case Null => text := "null";
      case Int(i) => text := ValueToString(i);
      case UInt(u) => text := ValueToString(u);
      case Real(token) =>
        assert false;
        text := token;
      case Str(s) => text := ValueToQuotedString(s);
      case Bool(b) => text := if b then "true" else "false";
    }

    // While child values are collected only flat values are written, so nothing but
    // childValues_ changes; otherwise the layout state is as it was.
    method WriteValue(value: Value)
      requires Printable(value) && (addChildValues ==> Flat(value))
      modifies this
      ensures addChildValues == old(addChildValues) && indentString == old(indentString)
      ensures addChildValues ==> document == old(document) && childValues == old(childValues) + [FlatText(value)]
      ensures !addChildValues ==> document == Styled(old(document), indentString, value)
      decreases value, 3
    {
      if value.Arr? {
        WriteArrayValue(value);
      } else if value.Obj? {
        WriteObjectValue(value);
      } else {
        var text := ScalarString(value);
        PushValue(text);
      }
    }

    method WriteObjectValue(value: Value)
      requires value.Obj? && Printable(value) && (addChildValues ==> Flat(value))
      modifies this
      ensures addChildValues == old(addChildValues) && indentString == old(indentString)
      ensures addChildValues ==> document == old(document) && childValues == old(childValues) + [FlatText(value)]
      ensures !addChildValues ==> document == Styled(old(document), indentString, value)
      decreases value, 2
    {
      hide OneLine, Indented, StyledItems, Quoted, ScalarText;
      var members := value.members;
      if members == [] {
        PushValue("{}");
        return;
      }
      WriteWithIndent("{");
      Indent();
      ghost var inner := indentString;
      ghost var goal := StyledMembers(document, inner, members);
      var it := 0;
      while true
        invariant 0 <= it < |members| && !addChildValues && indentString == inner
        invariant StyledMembers(document, inner, members[it..]) == goal
        decreases |members| - it
      {
        assert members[it..][1..] == members[it + 1..];
        var name := ValueToQuotedString(UpToNul(members[it].name));
        WriteWithIndent(name);
        document := document + " : ";
        WriteValue(members[it].value);
        it := it + 1;
        if it == |members| {
          break;
        }
        document := document + ",";
      }
      Unindent();
      WriteWithIndent("}");
    }

    method WriteArrayValue(value: Value)
      requires value.Arr? && Printable(value) && (addChildValues ==> Flat(value))
      modifies this
      ensures addChildValues == old(addChildValues) && indentString == old(indentString)
      ensures addChildValues ==> document == old(document) && childValues == old(childValues) + [FlatText(value)]
      ensures !addChildValues ==> document == Styled(old(document), indentString, value)
      decreases value, 2
    {
      if value.items == [] {
        PushValue("[]");
        return;
      }
      var isArrayMultiLine := IsMultilineArray(value);
      if isArrayMultiLine {
        WriteMultiline(value);
      } else {
        WriteOneLine(value);
      }
    }

    // What childValues_ holds: one text per item.
    ghost predicate Collected(items: seq<Value>)
      reads this
    {
      && |childValues| == |items|
      && forall k :: 0 <= k < |items| ==> Flat(items[k]) && childValues[k] == FlatText(items[k])
    }

    method WriteMultiline(value: Value)
      requires value.Arr? && value.items != [] && Printable(value) && !addChildValues && Multiline(value.items)
      requires childValues == [] || Collected(value.items)
      modifies this
      ensures !addChildValues && indentString == old(indentString)
      ensures document == Styled(old(document), indentString, value)
      decreases value, 0
    {
      hide FlatText, OneLine, Indented, StyledMembers, FlatLength;
      var items := value.items;
      WriteWithIndent("[");
      Indent();
      var hasChildValue := childValues != [];
      ghost var inner := indentString;
      ghost var goal := StyledItems(document, inner, items);
      var index := 0;
      while true
        invariant 0 <= index < |items| && !addChildValues && indentString == inner
        invariant hasChildValue ==> Collected(items)
        invariant StyledItems(document, inner, items[index..]) == goal
        decreases |items| - index
      {
        assert items[index..][1..] == items[index + 1..];
        if hasChildValue {
          WriteWithIndent(childValues[index]);
        } else {
          WriteIndent();
          WriteValue(items[index]);
        }
        index := index + 1;
        if index == |items| {
          break;
        }
        document := document + ",";
      }
      Unindent();
      WriteWithIndent("]");
    }

    // The source asserts childValues_.size() == size here.
    method WriteOneLine(value: Value)
      requires value.Arr? && value.items != [] && !Multiline(value.items) && !addChildValues
      requires Collected(value.items)
      modifies this`document
      ensures document == Styled(old(document), indentString, value)
    {
      hide FlatText, FlatLength;
      var items := value.items;
      document := document + "[ ";
      ghost var goal := document + OneLine(items, true);
      for index := 0 to |items|
        invariant document + OneLine(items[index..], index == 0) == goal
      {
        ghost var before, more := document, OneLine(items[index + 1..], false);
        if index > 0 {
          document := document + ", ";
        }
        document := document + childValues[index];
        assert items[index..][1..] == items[index + 1..];
        Regroup(before, if index == 0 then "" else ", ", childValues[index], more);
      }
      document := document + " ]";
    }

    method IsMultilineArray(value: Value) returns (isMultiLine: bool)
      requires value.Arr? && value.items != [] && Printable(value) && !addChildValues
      modifies this
      ensures !addChildValues && document == old(document) && indentString == old(indentString)
      ensures isMultiLine == Multiline(value.items)
      ensures if ForcedMultiline(value.items) then childValues == [] else Collected(value.items)
      decreases value, 1
    {
      hide FlatText, Styled;
      var items := value.items;
      isMultiLine := |items| * 3 >= RIGHT_MARGIN;
      childValues := [];
      var index := 0;
      while index < |items| && !isMultiLine
        invariant 0 <= index <= |items|
        invariant isMultiLine == (|items| * 3 >= RIGHT_MARGIN || exists k :: 0 <= k < index && !Flat(items[k]))
      {
        isMultiLine := !Flat(items[index]);
        index := index + 1;
      }
      if !isMultiLine {
        addChildValues := true;
        var lineLength := 4 + (|items| - 1) * 2;
        for i := 0 to |items|
          invariant addChildValues && document == old(document) && indentString == old(indentString)
          invariant Collected(items[..i])
          invariant lineLength == 4 + (|items| - 1) * 2 + FlatLength(items[..i])
        {
          WriteValue(items[i]);
          lineLength := lineLength + |childValues[i]|;
          assert items[..i + 1][..i] == items[..i];
        }
        assert items[..|items|] == items;
        addChildValues := false;
        isMultiLine := lineLength >= RIGHT_MARGIN;
      }
    }
  }
}
