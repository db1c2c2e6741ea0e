// The JSON printer in its two layouts.

module JsonText {
  import opened Strings
  import opened Json

  const LINE_TERM: string := "\n"

  function Digit(d: nat): char
    requires d < 10
  {
    "0123456789"[d]
  }

  // sprintf("%d").
  function IntToStr(n: int): string {
    if n < 0 then "-" + NatToStr(-n) else NatToStr(n)
  }

  function NatToStr(n: nat): string {
    if n < 10 then [Digit(n)] else NatToStr(n / 10) + [Digit(n % 10)]
  }

  function Unless(minify: bool, t: string): string {
    if minify then "" else t
  }

  // Stringify of a value, an array and an object.  Floats print as spelled.
  function Print(v: Value, minify: bool, indent: string): string
    decreases v, 1
  {
    match v
    case Null => "null"
    case Bool(b) => if b then "true" else "false"
    case Int(n) => IntToStr(n)
    case Float(text) => text
    case Str(s) => "\"" + s + "\""
    case Arr(items) =>
      "[" + Unless(minify, LINE_TERM) + PrintItems(items, minify, indent) + Unless(minify, indent) + "]"
    case Obj(members) =>
      "{" + Unless(minify, LINE_TERM) + PrintMembers(members, minify, indent) + Unless(minify, indent) + "}"
  }

  // An item with its indentation and what follows it.
  function PrintItems(items: seq<Value>, minify: bool, indent: string): string
    decreases items, 0
  {
    if |items| == 0 then ""
    else
      Unless(minify, indent + "\t") + Print(items[0], minify, indent + "\t") + After(|items|, minify)
      + PrintItems(items[1..], minify, indent)
  }

  // A comma unless this is the last of `left` entries, then the line end.
  function After(left: nat, minify: bool): string {
    (if left > 1 then "," else "") + Unless(minify, LINE_TERM)
  }

  function PrintMember(m: Member, minify: bool, indent: string): string
    decreases m, 2
  {
    Unless(minify, indent) + "\"" + m.name + "\"" + ":" + Unless(minify, " ") + Print(m.value, minify, indent)
  }

  function PrintMembers(members: seq<Member>, minify: bool, indent: string): string
    decreases members, 0
  {
    if |members| == 0 then ""
    else
      PrintMember(members[0], minify, indent + "\t") + After(|members|, minify)
      + PrintMembers(members[1..], minify, indent)
  }

  // ------------------------------------------------- the printers' own loops

  method Stringify(v: Value, output: StringBuffer, minify: bool, indent: string)
    modifies output
    ensures output.value == old(output.value) + Print(v, minify, indent)
    decreases v, 1
  {
    match v {
      case Null => output.value := output.value + "null";
      case Bool(b) => output.value := output.value + (if b then "true" else "false");
      case Int(n) => output.value := output.value + IntToStr(n);
      case Float(text) => output.value := output.value + text;
      case Str(s) =>
        output.value := output.value + "\"";
        output.value := output.value + s;
        output.value := output.value + "\"";
      case Arr(items) => StringifyArray(items, output, minify, indent);
      case Obj(members) => StringifyObject(members, output, minify, indent);
    }
  }

  // CWJSONArray::Stringify, lines 695-714.
  method StringifyArray(items: seq<Value>, output: StringBuffer, minify: bool, indent: string)
    modifies output
    ensures output.value == old(output.value) + Print(Arr(items), minify, indent)
    decreases items, 3
  {
    hide Print, PrintItems;
    output.value := output.value + "[";
    if !minify { output.value := output.value + LINE_TERM; }
    ghost var start := output.value;
    var count := |items|;
    var i := 0;
    assert items[0..] == items;
    while i < count
      invariant 0 <= i <= count
      invariant output.value + PrintItems(items[i..], minify, indent) == start + PrintItems(items, minify, indent)
    {
      ghost var o := output.value;
      if !minify { output.value := output.value + (indent + "\t"); }
      Stringify(items[i], output, minify, indent + "\t");
      if i < count - 1 { output.value := output.value + ","; }
      if !minify { output.value := output.value + LINE_TERM; }
      ItemStep(items, i, minify, indent, o, output.value);
      i := i + 1;
    }
    NoItems(items[count..], minify, indent);
    assert output.value == start + PrintItems(items, minify, indent);
    if !minify { output.value := output.value + indent; }
    output.value := output.value + "]";
    Chain(old(output.value), "[", Unless(minify, LINE_TERM), PrintItems(items, minify, indent),
        Unless(minify, indent), "]");
    ArrayText(items, minify, indent);
  }

  lemma Chain(o: string, a: string, b: string, c: string, d: string, e: string)
    ensures (o + a + b + c + d) + e == o + (a + b + c + d + e)
  {
  }

  lemma ItemStep(items: seq<Value>, i: nat, minify: bool, indent: string, o: string, o': string)
    requires i < |items|
    requires o' == o + Unless(minify, indent + "\t") + Print(items[i], minify, indent + "\t")
                   + (if i < |items| - 1 then "," else "") + Unless(minify, LINE_TERM)
    ensures o' + PrintItems(items[i + 1..], minify, indent) == o + PrintItems(items[i..], minify, indent)
  {
    hide Print, PrintItems, Unless, After;
    assert items[i..][1..] == items[i + 1..];
    ItemsForm(items[i..], minify, indent);
    AfterForm(|items| - i, minify);
    SixParts(o, Unless(minify, indent + "\t"), Print(items[i], minify, indent + "\t"),
             if i < |items| - 1 then "," else "", Unless(minify, LINE_TERM),
             PrintItems(items[i + 1..], minify, indent));
  }

  lemma ItemsForm(items: seq<Value>, minify: bool, indent: string)
    requires |items| > 0
    ensures PrintItems(items, minify, indent) ==
            Unless(minify, indent + "\t") + Print(items[0], minify, indent + "\t") + After(|items|, minify)
            + PrintItems(items[1..], minify, indent)
  {
  }

  lemma AfterForm(left: nat, minify: bool)
    ensures After(left, minify) == (if left > 1 then "," else "") + Unless(minify, LINE_TERM)
  {
  }

  lemma SixParts(o: string, a: string, b: string, c: string, d: string, more: string)
    ensures o + a + b + c + d + more == o + (a + b + (c + d) + more)
  {
  }

  lemma NoItems(items: seq<Value>, minify: bool, indent: string)
    ensures |items| == 0 ==> PrintItems(items, minify, indent) == ""
  {
  }

  lemma ArrayText(items: seq<Value>, minify: bool, indent: string)
    ensures Print(Arr(items), minify, indent) ==
            "[" + Unless(minify, LINE_TERM) + PrintItems(items, minify, indent) + Unless(minify, indent) + "]"
  {
  }

  // CWJSONObject::Stringify with CWJSONMemberList::Stringify, lines 1164-1173 and 1075-1087.
  method StringifyObject(members: seq<Member>, output: StringBuffer, minify: bool, indent: string)
    modifies output
    ensures output.value == old(output.value) + Print(Obj(members), minify, indent)
    decreases members, 3
  {
    hide Print, PrintMember, PrintMembers;
    output.value := output.value + "{";
    if !minify { output.value := output.value + LINE_TERM; }
    ghost var start := output.value;
    var count := |members|;
    var i := 0;
    assert members[0..] == members;
    while i < count
      invariant 0 <= i <= count
      invariant output.value + PrintMembers(members[i..], minify, indent) ==
          start + PrintMembers(members, minify, indent)
    {
      ghost var o := output.value;
      StringifyMember(members[i], output, minify, indent + "\t");
      if i < count - 1 { output.value := output.value + ","; }
      if !minify { output.value := output.value + LINE_TERM; }
      MemberStep(members, i, minify, indent, o, output.value);
      i := i + 1;
    }
    NoMembers(members[count..], minify, indent);
    assert output.value == start + PrintMembers(members, minify, indent);
    if !minify { output.value := output.value + indent; }
    output.value := output.value + "}";
    Chain(old(output.value), "{", Unless(minify, LINE_TERM), PrintMembers(members, minify, indent),
        Unless(minify, indent), "}");
    ObjectText(members, minify, indent);
  }

  lemma MemberStep(members: seq<Member>, i: nat, minify: bool, indent: string, o: string, o': string)
    requires i < |members|
    requires o' == o + PrintMember(members[i], minify, indent + "\t")
                   + (if i < |members| - 1 then "," else "") + Unless(minify, LINE_TERM)
    ensures o' + PrintMembers(members[i + 1..], minify, indent) == o + PrintMembers(members[i..], minify, indent)
  {
    hide PrintMember, PrintMembers, Unless, After;
    assert members[i..][1..] == members[i + 1..];
    MembersForm(members[i..], minify, indent);
    AfterForm(|members| - i, minify);
    FiveParts(o, PrintMember(members[i], minify, indent + "\t"), if i < |members| - 1 then "," else "",
              Unless(minify, LINE_TERM), PrintMembers(members[i + 1..], minify, indent));
  }

  lemma MembersForm(members: seq<Member>, minify: bool, indent: string)
    requires |members| > 0
    ensures PrintMembers(members, minify, indent) ==
            PrintMember(members[0], minify, indent + "\t") + After(|members|, minify)
            + PrintMembers(members[1..], minify, indent)
  {
  }

  lemma FiveParts(o: string, b: string, c: string, d: string, more: string)
    ensures o + b + c + d + more == o + (b + (c + d) + more)
  {
  }

  lemma NoMembers(members: seq<Member>, minify: bool, indent: string)
    ensures |members| == 0 ==> PrintMembers(members, minify, indent) == ""
  {
  }

  lemma ObjectText(members: seq<Member>, minify: bool, indent: string)
    ensures Print(Obj(members), minify, indent) ==
            "{" + Unless(minify, LINE_TERM) + PrintMembers(members, minify, indent) + Unless(minify, indent) + "}"
  {
  }

  method StringifyMember(m: Member, output: StringBuffer, minify: bool, indent: string)
    modifies output
    ensures output.value == old(output.value) + PrintMember(m, minify, indent)
    decreases m, 2
  {
    if !minify { output.value := output.value + indent; }
    output.value := output.value + "\"";
    output.value := output.value + m.name;
    output.value := output.value + "\"";
    output.value := output.value + ":";
    if !minify { output.value := output.value + " "; }
    Stringify(m.value, output, minify, indent);
  }
}
