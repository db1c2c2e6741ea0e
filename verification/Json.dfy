// The JSON reader: four mutually recursive parsers over one input and a
// cursor.  The functions say what each parser accepts and where it stops; the
// methods below them are the loops of the source, proved to compute the same.

module Json {
  import opened Strings

  // A node of the tree.  Strings and member names are stored as they stand
  // between the quotes, still escaped.  A float keeps its spelling.
  datatype Value =
    | Null
    | Bool(b: bool)
    | Int(n: int)
    | Float(text: string)
    | Str(s: string)
    | Arr(items: seq<Value>)
    | Obj(members: seq<Member>)

  datatype Member = Member(name: string, value: Value)

  // The outcome of a parser: what it read and the cursor after it.
  datatype Result<+T> = Fail | Ok(value: T, pos: nat)

  predicate IsWs(c: char) { c == ' ' || c == '\t' || c == '\r' || c == '\n' }
  predicate IsDigit(c: char) { '0' <= c <= '9' }
  predicate IsAlnum(c: char) { IsDigit(c) || 'a' <= c <= 'z' || 'A' <= c <= 'Z' }
  predicate EndsValue(c: char) { c == ',' || c == '}' || c == ']' }
  predicate EndsNumber(c: char) { IsWs(c) || EndsValue(c) }

  predicate StartsValue(c: char) {
    c == '\"' || c == '.' || c == '-' || c == '{' || c == '[' || IsAlnum(c)
  }

  predicate StartsNumber(c: char) {
    IsDigit(c) || c == '-' || c == '.' || c == 'e' || c == 'E'
  }

  // ------------------------------------------------------------ the scanners

  // The first position from `pos` where the loop condition fails.
  function SkipWs(s: string, pos: nat): (p: nat)
    requires pos <= |s|
    ensures pos <= p <= |s| && (p < |s| ==> !IsWs(s[p]))
    ensures forall i :: pos <= i < p ==> IsWs(s[i])
    decreases |s| - pos
  {
    if pos < |s| && IsWs(s[pos]) then SkipWs(s, pos + 1) else pos
  }

  function SkipAlnum(s: string, pos: nat): (p: nat)
    requires pos <= |s|
    ensures pos <= p <= |s| && (p < |s| ==> !IsAlnum(s[p]))
    ensures forall i :: pos <= i < p ==> IsAlnum(s[i])
    decreases |s| - pos
  {
    if pos < |s| && IsAlnum(s[pos]) then SkipAlnum(s, pos + 1) else pos
  }

  function FindValue(s: string, pos: nat): (p: nat)
    requires pos <= |s|
    ensures pos <= p <= |s| && (p < |s| ==> StartsValue(s[p]))
    ensures forall i :: pos <= i < p ==> !StartsValue(s[i])
    decreases |s| - pos
  {
    if pos < |s| && !StartsValue(s[pos]) then FindValue(s, pos + 1) else pos
  }

  // The first of `a` and `b`.
  function FindEither(s: string, pos: nat, a: char, b: char): (p: nat)
    requires pos <= |s|
    ensures pos <= p <= |s| && (p < |s| ==> s[p] == a || s[p] == b)
    ensures forall i :: pos <= i < p ==> s[i] != a && s[i] != b
    decreases |s| - pos
  {
    if pos < |s| && s[pos] != a && s[pos] != b then FindEither(s, pos + 1, a, b) else pos
  }

  // A quote that no backslash precedes closes a string; never the first
  // character of the input.
  predicate Closes(s: string, i: nat)
    requires i < |s|
  {
    s[i] == '\"' && i > 0 && s[i - 1] != '\\'
  }

  // The closing quote.
  function FindQuote(s: string, pos: nat): (p: nat)
    requires pos <= |s|
    ensures pos <= p <= |s| && (p < |s| ==> Closes(s, p))
    ensures forall i: nat :: pos <= i < p ==> !Closes(s, i)
    decreases |s| - pos
  {
    if pos < |s| && !Closes(s, pos) then FindQuote(s, pos + 1) else pos
  }

  // The last character of a number; |s| when nothing ends it.
  function NumberLast(s: string, pos: nat): (p: nat)
    requires pos <= |s|
    ensures pos <= p <= |s|
    ensures forall i :: pos < i <= p && i < |s| ==> !EndsNumber(s[i])
    ensures p < |s| ==> EndsNumber(CharAt(s, p + 1))
    decreases |s| - pos
  {
    if pos < |s| && !EndsNumber(CharAt(s, pos + 1)) then NumberLast(s, pos + 1) else pos
  }

  // atoi: optional blanks and sign, then digits up to the first other character.
  function Atoi(t: string): int {
    if |t| == 0 then 0
    else if IsWs(t[0]) || t[0] == '\U{000B}' || t[0] == '\U{000C}' then Atoi(t[1..])
    else if t[0] == '-' then (var d: int := Digits(t[1..], 0); 0 - d)
    else if t[0] == '+' then Digits(t[1..], 0)
    else Digits(t, 0)
  }

  function Digits(t: string, acc: nat): nat {
    if |t| == 0 || !IsDigit(t[0]) then acc
    else Digits(t[1..], 10 * acc + (t[0] as int - '0' as int))
  }

  predicate AllIn(t: string, chars: string) {
    forall i :: 0 <= i < |t| ==> t[i] in chars
  }

  function NumberValue(t: string): Result<Value> {
    if AllIn(t, "-0123456789") then Ok(Int(Atoi(t)), 0)
    else if AllIn(t, "+-.0123456789eE") then Ok(Float(t), 0)
    else Fail
  }

  // ------------------------------------------------------------- the parsers

  // After a value only blanks may precede a comma or a closing bracket.
  function Finish(s: string, pos: nat, v: Value): (r: Result<Value>)
    requires pos <= |s|
    ensures r.Ok? ==> pos <= r.pos < |s| && EndsValue(s[r.pos]) && r.value == v
  {
    var p := SkipWs(s, pos);
    if p >= |s| || !EndsValue(s[p]) then Fail else Ok(v, p)
  }

  function ParseWord(s: string, pos: nat, word: string, v: Value): (r: Result<Value>)
    requires pos < |s| && IsAlnum(s[pos])
    ensures r.Ok? ==> pos < r.pos < |s|
  {
    var p := SkipAlnum(s, pos);
    if p >= |s| || s[pos..p] != word then Fail else Finish(s, p, v)
  }

  // The number at `pos` and where it ends.
  function NumberAt(s: string, pos: nat): (r: Result<Value>)
    requires pos < |s|
    ensures r.Ok? ==> pos < r.pos <= |s|
  {
    var p := NumberLast(s, pos);
    if p >= |s| then Fail
    else match NumberValue(s[pos..p + 1])
      case Fail => Fail
      case Ok(v, _) => Ok(v, p + 1)
  }

  function ParseNumber(s: string, pos: nat): (r: Result<Value>)
    requires pos < |s|
    ensures r.Ok? ==> pos < r.pos < |s|
  {
    match NumberAt(s, pos)
    case Fail => Fail
    case Ok(v, q) => Finish(s, q, v)
  }

  function ParseString(s: string, pos: nat): (r: Result<Value>)
    requires pos < |s|
    ensures r.Ok? ==> pos < r.pos < |s|
  {
    var p := FindQuote(s, pos + 1);
    if p >= |s| then Fail else Finish(s, p + 1, Str(s[pos + 1..p]))
  }

  // CWJSONValue::Parse.
  function ParseValue(s: string, pos: nat): (r: Result<Value>)
    requires pos <= |s|
    ensures r.Ok? ==> pos < r.pos < |s| && EndsValue(s[r.pos])
    decreases |s| - pos, 2
  {
    var p := FindValue(s, pos);
    if p >= |s| then Fail
    else if s[p] == 'n' then ParseWord(s, p, "null", Null)
    else if s[p] == 't' then ParseWord(s, p, "true", Bool(true))
    else if s[p] == 'f' then ParseWord(s, p, "false", Bool(false))
    else if StartsNumber(s[p]) then ParseNumber(s, p)
    else if s[p] == '\"' then ParseString(s, p)
    else if s[p] == '[' then
      match ParseArray(s, p)
      case Fail => Fail
      case Ok(items, q) => if q > |s| then Fail else Finish(s, q, Arr(items))
    else if s[p] == '{' then
      match ParseObject(s, p)
      case Fail => Fail
      case Ok(members, q) => if q > |s| then Fail else Finish(s, q, Obj(members))
    else Finish(s, p, Null)
  }

  // CWJSONArray::Parse.
  function ParseArray(s: string, pos: nat): (r: Result<seq<Value>>)
    requires pos <= |s|
    ensures r.Ok? ==> pos < r.pos
    decreases |s| - pos, 1
  {
    var p := FindEither(s, pos, '[', '[');
    if p >= |s| then Fail
    else
      var q := SkipWs(s, p + 1);
      if q >= |s| then Fail else ParseItems(s, q, [])
  }

  // Its loop.
  function ParseItems(s: string, pos: nat, items: seq<Value>): (r: Result<seq<Value>>)
    requires pos <= |s|
    ensures r.Ok? ==> pos < r.pos && items <= r.value
    decreases |s| - pos, 3
  {
    if pos < |s| && s[pos] != ']' then
      match ParseValue(s, pos)
      case Fail => Fail
      case Ok(v, q) => ParseItems(s, AfterItem(s, q, ']'), items + [v])
    else Ok(items, pos + 1)
  }

  lemma ItemsStep(s: string, pos: nat, items: seq<Value>)
    requires pos <= |s|
    ensures ParseItems(s, pos, items) ==
            if pos >= |s| || s[pos] == ']' then Ok(items, pos + 1)
            else
              var r := ParseValue(s, pos);
              if r.Fail? then Fail else ParseItems(s, AfterItem(s, r.pos, ']'), items + [r.value])
  {
    hide ParseValue, AfterItem;
  }

  // The skip to the separator and past a comma.
  function AfterItem(s: string, pos: nat, close: char): (p: nat)
    requires pos <= |s|
    ensures pos <= p <= |s|
  {
    var p := FindEither(s, pos, ',', close);
    if CharAt(s, p) == ',' then SkipWs(s, p + 1) else p
  }

  // CWJSONMember::Parse.
  function ParseMember(s: string, pos: nat): (r: Result<Member>)
    requires pos <= |s|
    ensures r.Ok? ==> pos < r.pos < |s| && EndsValue(s[r.pos])
    decreases |s| - pos, 1
  {
    var p := SkipWs(s, pos);
    if p >= |s| || s[p] != '\"' then Fail
    else
      var q := FindQuote(s, p + 1);
      if q >= |s| then Fail
      else
        var c := SkipWs(s, q + 1);
        if c >= |s| || s[c] != ':' then Fail
        else Named(ParseValue(s, c + 1), s[p + 1..q])
  }

  // The member once its value is read.
  function Named(r: Result<Value>, name: string): Result<Member> {
    match r
    case Fail => Fail
    case Ok(v, e) => Ok(Member(name, v), e)
  }

  // CWJSONObject::Parse.
  function ParseObject(s: string, pos: nat): (r: Result<seq<Member>>)
    requires pos <= |s|
    ensures r.Ok? ==> pos < r.pos
    decreases |s| - pos, 1
  {
    var p := FindEither(s, pos, '{', '{');
    if p >= |s| then Fail
    else
      var q := SkipWs(s, p + 1);
      if q >= |s| then Fail else ParseMembers(s, q, [])
  }

  // Its loop.
  function ParseMembers(s: string, pos: nat, members: seq<Member>): (r: Result<seq<Member>>)
    requires pos <= |s|
    ensures r.Ok? ==> pos < r.pos && members <= r.value
    decreases |s| - pos, 3
  {
    if pos < |s| && s[pos] != '}' then
      var p := FindEither(s, pos, '\"', '\"');
      if CharAt(s, p) == '\"' then
        match ParseMember(s, p)
        case Fail => Fail
        case Ok(m, q) => ParseMembers(s, AfterItem(s, q, '}'), members + [m])
      else ParseMembers(s, AfterItem(s, p, '}'), members)
    else Ok(members, pos + 1)
  }

  lemma MembersStep(s: string, pos: nat, members: seq<Member>)
    requires pos <= |s|
    ensures ParseMembers(s, pos, members) ==
            if pos >= |s| || s[pos] == '}' then Ok(members, pos + 1)
            else
              var p := FindEither(s, pos, '\"', '\"');
              if CharAt(s, p) != '\"' then ParseMembers(s, AfterItem(s, p, '}'), members)
              else
                var r := ParseMember(s, p);
                if r.Fail? then Fail else ParseMembers(s, AfterItem(s, r.pos, '}'), members + [r.value])
  {
    hide ParseMember, AfterItem, FindEither;
  }

  // ---------------------------------------------------- the loops themselves

  method SkipBlanks(input: string, start: nat) returns (pos: nat)
    requires start <= |input|
    ensures pos == SkipWs(input, start)
  {
    pos := start;
    while pos < |input| && IsWs(input[pos])
      invariant pos <= |input| && SkipWs(input, pos) == SkipWs(input, start)
    {
      pos := pos + 1;
    }
  }

  method SkipTo(input: string, start: nat, a: char, b: char) returns (pos: nat)
    requires start <= |input|
    ensures pos == FindEither(input, start, a, b)
  {
    pos := start;
    while pos < |input| && input[pos] != a && input[pos] != b
      invariant pos <= |input| && FindEither(input, pos, a, b) == FindEither(input, start, a, b)
    {
      pos := pos + 1;
    }
  }

  method SkipToValue(input: string, start: nat) returns (pos: nat)
    requires start <= |input|
    ensures pos == FindValue(input, start)
  {
    pos := start;
    while pos < |input| && !StartsValue(input[pos])
      invariant start <= pos <= |input| && FindValue(input, pos) == FindValue(input, start)
    {
      pos := pos + 1;
    }
  }

  method SkipToQuote(input: string, start: nat) returns (pos: nat)
    requires start <= |input|
    ensures pos == FindQuote(input, start)
  {
    pos := start;
    while pos < |input| && !(input[pos] == '\"' && pos > 0 && input[pos - 1] != '\\')
      invariant pos <= |input| && FindQuote(input, pos) == FindQuote(input, start)
    {
      pos := pos + 1;
    }
  }

  // To the separator after an entry, and past a comma.
  method SkipSeparator(input: string, start: nat, close: char) returns (pos: nat)
    requires start <= |input|
    ensures pos == AfterItem(input, start, close)
  {
    hide FindEither, SkipWs;
    pos := SkipTo(input, start, ',', close);
    if CharAt(input, pos) == ',' {
      pos := SkipBlanks(input, pos + 1);
    }
  }

  // The literals null, true and false, lines 376-427.
  method ReadWord(input: string, start: nat, word: string) returns (ok: bool, pos: nat)
    requires start <= |input|
    ensures pos == SkipAlnum(input, start)
    ensures ok <==> pos < |input| && input[start..pos] == word
  {
    pos := start;
    while pos < |input| && IsAlnum(input[pos])
      invariant start <= pos <= |input| && SkipAlnum(input, pos) == SkipAlnum(input, start)
    {
      pos := pos + 1;
    }
    ok := pos < |input| && input[start..pos] == word;
  }

  ghost predicate Agrees<T(!new)>(r: Result<T>, ok: bool, v: T, pos: nat) {
    match r
    case Fail => !ok
    case Ok(w, p) => ok && v == w && pos == p
  }

  method ReadNumber(input: string, start: nat) returns (ok: bool, v: Value, pos: nat)
    requires start < |input|
    ensures Agrees(NumberAt(input, start), ok, v, pos)
  {
    v := Null;
    pos := start;
    while pos < |input| && !EndsNumber(CharAt(input, pos + 1))
      invariant start <= pos <= |input| && NumberLast(input, pos) == NumberLast(input, start)
    {
      pos := pos + 1;
    }
    if pos >= |input| {
      ok := false;
      return;
    }
    var num := input[start..pos + 1];
    ok := NumberValue(num).Ok?;
    if ok {
      v := NumberValue(num).value;
      pos := pos + 1;
    }
  }

  // CWJSONValue::Parse, lines 348-546.
  method ReadValue(input: string, start: nat) returns (ok: bool, v: Value, pos: nat)
    requires start <= |input|
    ensures Agrees(ParseValue(input, start), ok, v, pos)
    decreases |input| - start, 2
  {
    hide SkipWs, FindQuote, FindValue, SkipAlnum, NumberAt, ParseArray, ParseObject, StartsValue, StartsNumber,
        EndsValue;
    v := Null;
    pos := SkipToValue(input, start);
    if pos >= |input| {
      ok := false;
      return;
    }
    var c := input[pos];
    ok := true;
    if c == 'n' {
      ok, pos := ReadWord(input, pos, "null");
    } else if c == 't' {
      ok, pos := ReadWord(input, pos, "true");
      v := Bool(true);
    } else if c == 'f' {
      ok, pos := ReadWord(input, pos, "false");
      v := Bool(false);
    } else if StartsNumber(c) {
      ok, v, pos := ReadNumber(input, pos);
    } else if c == '\"' {
      pos := pos + 1;
      var begin := pos;
      pos := SkipToQuote(input, pos);
      if pos >= |input| {
        ok := false;
        return;
      }
      v := Str(input[begin..pos]);
      pos := pos + 1;
    } else if c == '[' {
      var items;
      ok, items, pos := ReadArray(input, pos);
      v := Arr(items);
    } else if c == '{' {
      var members;
      ok, members, pos := ReadObject(input, pos);
      v := Obj(members);
    }
    if !ok || pos > |input| {
      ok := false;
      return;
    }
    pos := SkipBlanks(input, pos);
    ok := pos < |input| && EndsValue(input[pos]);
  }

  // CWJSONArray::Parse, lines 746-805.
  method ReadArray(input: string, start: nat) returns (ok: bool, items: seq<Value>, pos: nat)
    requires start <= |input|
    ensures Agrees(ParseArray(input, start), ok, items, pos)
    decreases |input| - start, 1
  {
    hide SkipWs, FindEither, ParseValue, ParseItems, AfterItem;
    items := [];
    pos := SkipTo(input, start, '[', '[');
    if pos >= |input| {
      ok := false;
      return;
    }
    pos := SkipBlanks(input, pos + 1);
    if pos >= |input| {
      ok := false;
      return;
    }
    while pos < |input| && input[pos] != ']'
      invariant start < pos <= |input|
      invariant ParseItems(input, pos, items) == ParseArray(input, start)
    {
      ItemsStep(input, pos, items);
      var v;
      ok, v, pos := ReadValue(input, pos);
      if !ok {
        return;
      }
      items := items + [v];
      pos := SkipSeparator(input, pos, ']');
    }
    ItemsStep(input, pos, items);
    ok := true;
    pos := pos + 1;
  }

  // CWJSONMember::Parse, lines 899-956.
  method ReadMember(input: string, start: nat) returns (ok: bool, m: Member, pos: nat)
    requires start <= |input|
    ensures Agrees(ParseMember(input, start), ok, m, pos)
    decreases |input| - start, 1
  {
    hide SkipWs, FindQuote, ParseValue;
    ok, m := false, Member("", Null);
    pos := SkipBlanks(input, start);
    if pos >= |input| || input[pos] != '\"' {
      return;
    }
    pos := pos + 1;
    var begin := pos;
    pos := SkipToQuote(input, pos);
    if pos >= |input| {
      return;
    }
    var name := input[begin..pos];
    pos := SkipBlanks(input, pos + 1);
    if pos >= |input| || input[pos] != ':' {
      return;
    }
    var v;
    ok, v, pos := ReadValue(input, pos + 1);
    m := Member(name, v);
  }

  // CWJSONObject::Parse, lines 1201-1271.
  method ReadObject(input: string, start: nat) returns (ok: bool, members: seq<Member>, pos: nat)
    requires start <= |input|
    ensures Agrees(ParseObject(input, start), ok, members, pos)
    decreases |input| - start, 1
  {
    hide SkipWs, FindEither, ParseMember, ParseMembers, AfterItem, EndsValue;
    members := [];
    pos := SkipTo(input, start, '{', '{');
    if pos >= |input| {
      ok := false;
      return;
    }
    pos := SkipBlanks(input, pos + 1);
    if pos >= |input| {
      ok := false;
      return;
    }
    while pos < |input| && input[pos] != '}'
      invariant start < pos <= |input|
      invariant ParseMembers(input, pos, members) == ParseObject(input, start)
    {
      MembersStep(input, pos, members);
      pos := SkipTo(input, pos, '\"', '\"');
      if CharAt(input, pos) == '\"' {
        var m;
        ok, m, pos := ReadMember(input, pos);
        if !ok {
          return;
        }
        members := members + [m];
      }
      pos := SkipSeparator(input, pos, '}');
    }
    MembersStep(input, pos, members);
    ok := true;
    pos := pos + 1;
  }
}
