// Parsing the assignments of one line of an attributes file.

module AttrParse {
  import opened Strings
  import opened AttrRules

  // git__isspace.
  predicate IsSpace(c: char) {
    c == ' ' || c == '\t' || c == '\n' || c == '\U{000C}' || c == '\r' || c == '\U{000B}'
  }

  predicate EndsWord(c: char) {
    c == '\0' || IsSpace(c)
  }

  // Where the three scans of the parser stop.
  function SkipBlanks(s: string, pos: nat): (p: nat)
    requires pos <= |s|
    ensures pos <= p <= |s| && (IsSpace(CharAt(s, p)) ==> CharAt(s, p) == '\n')
    decreases |s| - pos
  {
    if IsSpace(CharAt(s, pos)) && CharAt(s, pos) != '\n' then SkipBlanks(s, pos + 1) else pos
  }

  function NameEnd(s: string, pos: nat): (p: nat)
    requires pos <= |s|
    ensures pos <= p <= |s| && (EndsWord(CharAt(s, p)) || CharAt(s, p) == '=')
    ensures p == pos ==> EndsWord(CharAt(s, pos)) || CharAt(s, pos) == '='
    decreases |s| - pos
  {
    if EndsWord(CharAt(s, pos)) || CharAt(s, pos) == '=' then pos else NameEnd(s, pos + 1)
  }

  function WordEnd(s: string, pos: nat): (p: nat)
    requires pos <= |s|
    ensures pos <= p <= |s| && EndsWord(CharAt(s, p))
    ensures p == pos ==> EndsWord(CharAt(s, pos))
    decreases |s| - pos
  {
    if EndsWord(CharAt(s, pos)) then pos else WordEnd(s, pos + 1)
  }

  // git__next_line.
  function NextLine(s: string, pos: nat): (p: nat)
    requires pos <= |s|
    ensures p <= |s|
    decreases |s| - pos
  {
    if CharAt(s, pos) == '\0' || CharAt(s, pos) == '\n' then SkipLineEnds(s, pos) else NextLine(s, pos + 1)
  }

  function SkipLineEnds(s: string, pos: nat): (p: nat)
    requires pos <= |s|
    ensures p <= |s|
    decreases |s| - pos
  {
    if CharAt(s, pos) == '\n' || CharAt(s, pos) == '\r' then SkipLineEnds(s, pos + 1) else pos
  }

  // What stands at a word: a comment, nothing that assigns, or an assignment.
  datatype Item = Comment | Nothing(next: nat) | Item(name: string, value: Value, next: nat)

  function ItemAt(s: string, pos: nat): (r: Item)
    requires pos <= |s|
    ensures !r.Comment? ==> pos <= r.next <= |s|
    ensures r.Nothing? && r.next == pos ==> EndsWord(CharAt(s, pos))
    ensures r.Item? ==> pos < r.next
  {
    var c := CharAt(s, pos);
    if c == '#' then Comment
    else
      var prefixed := c == '-' || c == '!';
      var start := if prefixed then pos + 1 else pos;
      var end := NameEnd(s, start);
      if end == start then Nothing(WordEnd(s, start))
      else
        var plain := if c == '-' then False else if c == '!' then Unset else True;
        if CharAt(s, end) == '=' then
          var last := WordEnd(s, end + 1);
          Item(s[start..end], if last > end + 1 then Text(s[end + 1..last]) else plain, last)
        else Item(s[start..end], plain, end)
  }

  type Macros = map<string, seq<Assign>>

  function Fresh(name: string, value: Value): Assign {
    Assign(name, NameHash(name), value)
  }

  // A set attribute that names a macro brings the macro's assignments first.
  function Expanded(macros: Macros, name: string, value: Value): seq<Assign> {
    (if value == True && name in macros then macros[name] else []) + [Fresh(name, value)]
  }

  // Every assignment on the line, in order.
  function Entries(s: string, pos: nat, macros: Macros): seq<Assign>
    requires pos <= |s|
    decreases |s| - pos
  {
    if CharAt(s, pos) == '\0' || CharAt(s, pos) == '\n' then []
    else match ItemAt(s, SkipBlanks(s, pos))
      case Comment => []
      case Nothing(next) => Entries(s, next, macros)
      case Item(name, value, next) => Expanded(macros, name, value) + Entries(s, next, macros)
  }

  predicate MacrosHashed(macros: Macros) {
    forall n :: n in macros ==> forall i :: 0 <= i < |macros[n]| ==> Hashed(macros[n][i])
  }

  lemma AssignedAppend(list: seq<Assign>, a: Assign)
    ensures Assigned(list + [a]) == Assigned(list)[a.name := a]
  {
    assert (list + [a])[..|list|] == list;
  }

  lemma Regroup(a: seq<Assign>, b: seq<Assign>, c: seq<Assign>)
    ensures a + (b + c) == a + b + c
  {
  }

  lemma NothingSorted()
    ensures Sorted([]) && Assigned([]) == map[]
  {
  }

  lemma EntriesStep(s: string, pos: nat, macros: Macros)
    requires pos <= |s| && CharAt(s, pos) != '\0' && CharAt(s, pos) != '\n'
    ensures pos < |s|
    ensures var item := ItemAt(s, SkipBlanks(s, pos));
      && (!item.Comment? ==> item.next > pos)
      && Entries(s, pos, macros) ==
         if item.Comment? then []
         else (if item.Item? then Expanded(macros, item.name, item.value) else []) + Entries(s, item.next, macros)
  {
    var p := SkipBlanks(s, pos);
    if !IsSpace(CharAt(s, pos)) { assert p == pos; }
    hide ItemAt, Expanded;
    var item := ItemAt(s, p);
    if item.Nothing? { assert [] + Entries(s, item.next, macros) == Entries(s, item.next, macros); }
  }

  // ----------------------------------------------- staying within the line

  lemma {:induction false} LineAfterBlanks(s: string, pos: nat)
    requires pos <= |s|
    ensures NextLine(s, SkipBlanks(s, pos)) == NextLine(s, pos)
    decreases |s| - pos
  {
    if IsSpace(CharAt(s, pos)) && CharAt(s, pos) != '\n' { LineAfterBlanks(s, pos + 1); }
  }

  lemma {:induction false} LineAfterName(s: string, pos: nat)
    requires pos <= |s|
    ensures NextLine(s, NameEnd(s, pos)) == NextLine(s, pos)
    decreases |s| - pos
  {
    if !(EndsWord(CharAt(s, pos)) || CharAt(s, pos) == '=') { LineAfterName(s, pos + 1); }
  }

  lemma {:induction false} LineAfterWord(s: string, pos: nat)
    requires pos <= |s|
    ensures NextLine(s, WordEnd(s, pos)) == NextLine(s, pos)
    decreases |s| - pos
  {
    if !EndsWord(CharAt(s, pos)) { LineAfterWord(s, pos + 1); }
  }

  lemma LineStep(s: string, pos: nat)
    requires pos < |s| && s[pos] != '\n' && s[pos] != '\0'
    ensures NextLine(s, pos + 1) == NextLine(s, pos)
  {
  }

  lemma LineAfterItem(s: string, pos: nat)
    requires pos <= |s|
    ensures var item := ItemAt(s, pos); !item.Comment? ==> NextLine(s, item.next) == NextLine(s, pos)
  {
    var c := CharAt(s, pos);
    var start := if c == '-' || c == '!' then pos + 1 else pos;
    if start > pos { LineStep(s, pos); }
    hide NextLine, WordEnd, NameEnd, EndsWord;
    var end := NameEnd(s, start);
    LineAfterName(s, start);
    LineAfterWord(s, start);
    if CharAt(s, end) == '=' {
      LineStep(s, end);
      LineAfterWord(s, end + 1);
    }
  }

  // The next line begins after the line ends that follow this one.
  lemma {:induction false} LineEndsAt(s: string, pos: nat, t: string, ends: string)
    requires OccursAt(s, t + ends, pos) && '\n' !in t && '\0' !in t
    requires |ends| > 0 && ends[0] == '\n' && forall i :: 0 <= i < |ends| ==> ends[i] == '\n' || ends[i] == '\r'
    requires var c := CharAt(s, pos + |t| + |ends|); c != '\n' && c != '\r'
    ensures NextLine(s, pos) == pos + |t| + |ends|
    decreases |t|
  {
    hide OccursAt;
    Split(s, t, ends, pos);
    if |t| == 0 {
      CharOf(s, ends, pos, 0);
      EndsSkipped(s, pos, ends);
    } else {
      CharOf(s, t, pos, 0);
      assert t + ends == t[..1] + (t[1..] + ends);
      Split(s, t[..1], t[1..] + ends, pos);
      LineEndsAt(s, pos + 1, t[1..], ends);
    }
  }

  lemma {:induction false} EndsSkipped(s: string, pos: nat, ends: string)
    requires OccursAt(s, ends, pos) && forall i :: 0 <= i < |ends| ==> ends[i] == '\n' || ends[i] == '\r'
    requires var c := CharAt(s, pos + |ends|); c != '\n' && c != '\r'
    ensures pos + |ends| <= |s| && SkipLineEnds(s, pos) == pos + |ends|
    decreases |ends|
  {
    hide OccursAt;
    Bound(s, ends, pos);
    if |ends| > 0 {
      CharOf(s, ends, pos, 0);
      assert ends == ends[..1] + ends[1..];
      Split(s, ends[..1], ends[1..], pos);
      EndsSkipped(s, pos + 1, ends[1..]);
    }
  }

  // -------------------------------------------------------- the source's loops

  method SkipBlanksLoop(s: string, start: nat) returns (scan: nat)
    requires start <= |s|
    ensures scan == SkipBlanks(s, start)
  {
    scan := start;
    while IsSpace(CharAt(s, scan)) && CharAt(s, scan) != '\n'
      invariant scan <= |s| && SkipBlanks(s, scan) == SkipBlanks(s, start)
      decreases |s| - scan
    {
      scan := scan + 1;
    }
  }

  method WordEndLoop(s: string, start: nat) returns (scan: nat)
    requires start <= |s|
    ensures scan == WordEnd(s, start)
  {
    scan := start;
    while CharAt(s, scan) != '\0' && !IsSpace(CharAt(s, scan))
      invariant scan <= |s| && WordEnd(s, scan) == WordEnd(s, start)
      decreases |s| - scan
    {
      scan := scan + 1;
    }
  }

  method NextLineLoop(s: string, start: nat) returns (scan: nat)
    requires start <= |s|
    ensures scan == NextLine(s, start)
  {
    scan := start;
    while CharAt(s, scan) != '\0' && CharAt(s, scan) != '\n'
      invariant scan <= |s| && NextLine(s, scan) == NextLine(s, start)
      decreases |s| - scan
    {
      scan := scan + 1;
    }
    while CharAt(s, scan) == '\n' || CharAt(s, scan) == '\r'
      invariant scan <= |s| && SkipLineEnds(s, scan) == NextLine(s, start)
      decreases |s| - scan
    {
      scan := scan + 1;
    }
  }

  // The name is hashed as it is scanned.
  method NameLoop(s: string, start: nat) returns (scan: nat, hash: nat)
    requires start <= |s|
    ensures scan == NameEnd(s, start) && hash == NameHash(s[start..scan])
  {
    scan := start;
    hash := 5381;
    while CharAt(s, scan) != '\0' && !IsSpace(CharAt(s, scan)) && CharAt(s, scan) != '='
      invariant start <= scan <= |s| && NameEnd(s, scan) == NameEnd(s, start)
      invariant hash == HashFrom(5381, s[start..scan])
      decreases |s| - scan
    {
      HashAppend(5381, s[start..scan], s[scan]);
      assert s[start..scan + 1] == s[start..scan] + [s[scan]];
      hash := HashStep(hash, s[scan]);
      scan := scan + 1;
    }
  }

  // One round up to the assignment it finds.
  method ReadItem(s: string, base: nat) returns (item: Item, hash: nat)
    requires base <= |s|
    ensures item == ItemAt(s, SkipBlanks(s, base))
    ensures item.Item? ==> hash == NameHash(item.name)
  {
    hide NameHash, SkipBlanks, NameEnd, WordEnd;
    var scan := SkipBlanksLoop(s, base);
    hash := 5381;
    var value := True;
    if CharAt(s, scan) == '-' {
      value := False;
      scan := scan + 1;
    } else if CharAt(s, scan) == '!' {
      value := Unset;
      scan := scan + 1;
    } else if CharAt(s, scan) == '#' {
      return Comment, hash;
    }
    var nameStart := scan;
    scan, hash := NameLoop(s, scan);
    if scan == nameStart {
      scan := WordEndLoop(s, scan);
      return Nothing(scan), hash;
    }
    var name := s[nameStart..scan];
    if CharAt(s, scan) == '=' {
      scan := scan + 1;
      var valueStart := scan;
      scan := WordEndLoop(s, scan);
      if scan > valueStart {
        value := Text(s[valueStart..scan]);
      }
    }
    item := Item(name, value, scan);
  }

  // git_attr_assignment__parse.
  method Parse(macros: Macros, assigns: Vector, s: string, base: nat) returns (any: bool, next: nat)
    requires base <= |s| && assigns.contents == [] && MacrosHashed(macros)
    modifies assigns
    ensures Sorted(assigns.contents)
    ensures Assigned(assigns.contents) == Assigned(Entries(s, base, macros))
    ensures any <==> |assigns.contents| > 0
    ensures next == NextLine(s, base)
  {
    NothingSorted();
    assert [] + Entries(s, base, macros) == Entries(s, base, macros);
    hide Entries, NextLine, Assigned, Sorted, SkipBlanks, NameHash, SkipLineEnds, ItemAt, Expanded;
    var scan := base;
    ghost var done: seq<Assign> := [];
    while CharAt(s, scan) != '\0' && CharAt(s, scan) != '\n'
      invariant base <= scan <= |s|
      invariant done + Entries(s, scan, macros) == Entries(s, base, macros)
      invariant Sorted(assigns.contents) && Assigned(assigns.contents) == Assigned(done)
      invariant NextLine(s, scan) == NextLine(s, base)
      decreases |s| - scan
    {
      EntriesStep(s, scan, macros);
      LineAfterBlanks(s, scan);
      LineAfterItem(s, SkipBlanks(s, scan));
      var item, hash := ReadItem(s, scan);
      if item.Comment? {
        scan := SkipBlanksLoop(s, scan);
        break;
      }
      ghost var before := done;
      if item.Item? {
        done := InsertAll(macros, assigns, item.name, hash, item.value, done);
        Regroup(before, Expanded(macros, item.name, item.value), Entries(s, item.next, macros));
      }
      scan := item.next;
    }
    AtEnd(s, scan, macros);
    assert done + [] == done;
    any := |assigns.contents| > 0;
    next := NextLineLoop(s, scan);
  }

  lemma AtEnd(s: string, pos: nat, macros: Macros)
    requires pos <= |s|
    requires CharAt(s, pos) == '\0' || CharAt(s, pos) == '\n' || ItemAt(s, pos).Comment?
    ensures Entries(s, pos, macros) == []
  {
  }

  // The macro's assignments, then the one read.
  method InsertAll(macros: Macros, assigns: Vector, name: string, hash: nat, value: Value, ghost done: seq<Assign>)
    returns (ghost all: seq<Assign>)
    requires MacrosHashed(macros) && hash == NameHash(name)
    requires Sorted(assigns.contents) && Assigned(assigns.contents) == Assigned(done)
    modifies assigns
    ensures all == done + Expanded(macros, name, value)
    ensures Sorted(assigns.contents) && Assigned(assigns.contents) == Assigned(all)
  {
    hide Assigned, Sorted, NameHash;
    all := done;
    if value == True && name in macros {
      var macro := macros[name];
      var i := 0;
      while i < |macro|
        invariant i <= |macro| && all == done + macro[..i]
        invariant Sorted(assigns.contents) && Assigned(assigns.contents) == Assigned(all)
      {
        AssignedAppend(all, macro[i]);
        var merged := assigns.InsertSorted(macro[i]);
        all := all + [macro[i]];
        i := i + 1;
      }
      assert macro[..i] == macro;
    }
    AssignedAppend(all, Assign(name, hash, value));
    var merged := assigns.InsertSorted(Assign(name, hash, value));
    all := all + [Assign(name, hash, value)];
  }

  // ---------------------------------------------------------- writing a line

  predicate PlainName(name: string) {
    |name| > 0 && forall i :: 0 <= i < |name| ==> !EndsWord(name[i]) && name[i] != '='
  }

  // An assignment as it is written on a line.
  function Written(a: Assign): string {
    match a.value
    case True => a.name
    case False => "-" + a.name
    case Unset => "!" + a.name
    case Text(t) => a.name + "=" + t
  }

  predicate Writable(a: Assign) {
    && PlainName(a.name) && Hashed(a)
    && (a.value.True? || a.value.Text? ==> a.name[0] != '-' && a.name[0] != '!' && a.name[0] != '#')
    && (a.value.Text? ==> |a.value.text| > 0 && forall i :: 0 <= i < |a.value.text| ==> !EndsWord(a.value.text[i]))
  }

  // Assignments with blanks before each, and what follows the last.
  function Line(list: seq<Assign>, gaps: seq<string>, end: string): string
    requires |gaps| == |list|
  {
    if |list| == 0 then end else gaps[0] + (Written(list[0]) + Line(list[1..], gaps[1..], end))
  }

  predicate Blanks(t: string) {
    forall i :: 0 <= i < |t| ==> IsSpace(t[i]) && t[i] != '\n'
  }

  // Nothing more on the line: the end of the text or of the line, or a comment.
  predicate StopsAt(end: string, n: nat) {
    && n <= |end| && Blanks(end[..n])
    && (n == |end| || end[n] == '\n' || end[n] == '\0' || (n > 0 && end[n] == '#'))
  }

  ghost predicate GoodLine(list: seq<Assign>, gaps: seq<string>, end: string) {
    && AllWritable(list) && |gaps| == |list|
    && (forall i :: 0 <= i < |gaps| ==> Blanks(gaps[i]) && (i > 0 ==> |gaps[i]| > 0))
    && exists n: nat :: StopsAt(end, n)
  }

  lemma {:induction false} NameStops(s: string, pos: nat, end: nat)
    requires pos <= end <= |s| && (EndsWord(CharAt(s, end)) || CharAt(s, end) == '=')
    requires forall i :: pos <= i < end ==> !EndsWord(s[i]) && s[i] != '='
    ensures NameEnd(s, pos) == end
    decreases end - pos
  {
    if pos < end { NameStops(s, pos + 1, end); }
  }

  lemma {:induction false} WordStops(s: string, pos: nat, end: nat)
    requires pos <= end <= |s| && EndsWord(CharAt(s, end))
    requires forall i :: pos <= i < end ==> !EndsWord(s[i])
    ensures WordEnd(s, pos) == end
    decreases end - pos
  {
    if pos < end { WordStops(s, pos + 1, end); }
  }

  // What follows the name.
  function Tail(v: Value): string {
    if v.Text? then "=" + v.text else ""
  }

  lemma WrittenParts(a: Assign)
    requires Writable(a)
    ensures |a.name| > 0 && Written(a) == Sign(a.value) + (a.name + Tail(a.value))
  {
    hide Hashed;
  }

  // A written assignment is read back, up to the blank or the end after it.
  lemma ItemBack(s: string, pos: nat, a: Assign)
    requires Writable(a) && OccursAt(s, Written(a), pos) && EndsWord(CharAt(s, pos + |Written(a)|))
    ensures ItemAt(s, pos) == Item(a.name, a.value, pos + |Written(a)|)
    ensures pos < |s| && !EndsWord(s[pos])
  {
    hide NameEnd, WordEnd, Hashed, OccursAt, ItemAt, PlainName, Written;
    var sign, tail := Sign(a.value), Tail(a.value);
    var start := pos + |sign|;
    WrittenParts(a);
    Split(s, sign, a.name + tail, pos);
    if |sign| > 0 { CharOf(s, sign, pos, 0); }
    NameBack(s, start, a.name, tail);
    if a.value.Text? {
      ValueBack(s, start + |a.name|, a.value.text);
      ValueItem(s, pos, a.name, a.value.text);
    } else {
      PlainItem(s, pos, start, start + |a.name|, a.name, a.value);
    }
  }

  // What the scan makes of a sign and a name, or a name and a value, that it
  // finds in their places.
  lemma PlainItem(s: string, pos: nat, start: nat, end: nat, name: string, value: Value)
    requires pos < |s| && start < end <= |s| && s[start..end] == name
    requires NameEnd(s, start) == end && CharAt(s, end) != '='
    requires match value
      case True => start == pos && s[pos] != '-' && s[pos] != '!' && s[pos] != '#'
      case False => start == pos + 1 && s[pos] == '-'
      case Unset => start == pos + 1 && s[pos] == '!'
      case Text(_) => false
    ensures ItemAt(s, pos) == Item(name, value, end)
  {
    hide NameEnd, WordEnd, EndsWord;
    assert CharAt(s, pos) == s[pos];
  }

  lemma ValueItem(s: string, pos: nat, name: string, v: string)
    requires |name| > 0 && |v| > 0 && name[0] != '-' && name[0] != '!' && name[0] != '#'
    requires var end := pos + |name|;
      var last := end + 1 + |v|;
      && last <= |s| && s[pos] == name[0] && s[pos..end] == name && NameEnd(s, pos) == end
      && s[end] == '=' && WordEnd(s, end + 1) == last && s[end + 1..last] == v
    ensures ItemAt(s, pos) == Item(name, Text(v), pos + |name| + 1 + |v|)
  {
    hide NameEnd, WordEnd;
  }

  function Sign(v: Value): string {
    if v.False? then "-" else if v.Unset? then "!" else ""
  }

  lemma NameBack(s: string, start: nat, name: string, tail: string)
    requires PlainName(name) && OccursAt(s, name + tail, start)
    requires if |tail| > 0 then tail[0] == '=' else EndsWord(CharAt(s, start + |name|))
    ensures NameEnd(s, start) == start + |name| && s[start..start + |name|] == name && OccursAt(s, tail, start + |name|)
    ensures start < |s| && s[start] == name[0] && !EndsWord(s[start])
  {
    hide OccursAt, NameEnd, EndsWord;
    Split(s, name, tail, start);
    Slice(s, name, start);
    forall i | start <= i < start + |name| ensures !EndsWord(s[i]) && s[i] != '=' { CharOf(s, name, start, i - start); }
    if |tail| > 0 { CharOf(s, tail, start + |name|, 0); }
    CharOf(s, name, start, 0);
    NameStops(s, start, start + |name|);
  }

  lemma ValueBack(s: string, pos: nat, v: string)
    requires OccursAt(s, "=" + v, pos) && EndsWord(CharAt(s, pos + 1 + |v|))
    requires forall i :: 0 <= i < |v| ==> !EndsWord(v[i])
    ensures pos + 1 + |v| <= |s| && s[pos] == '=' && WordEnd(s, pos + 1) == pos + 1 + |v|
        && s[pos + 1..pos + 1 + |v|] == v
  {
    hide OccursAt, WordEnd, EndsWord;
    Split(s, "=", v, pos);
    CharOf(s, "=", pos, 0);
    Slice(s, v, pos + 1);
    forall i | pos + 1 <= i < pos + 1 + |v| ensures !EndsWord(s[i]) { CharOf(s, v, pos + 1, i - pos - 1); }
    WordStops(s, pos + 1, pos + 1 + |v|);
  }

  lemma {:induction false} BlanksSkipped(s: string, pos: nat, b: string)
    requires OccursAt(s, b, pos) && Blanks(b)
    requires !IsSpace(CharAt(s, pos + |b|)) || CharAt(s, pos + |b|) == '\n'
    ensures pos + |b| <= |s| && SkipBlanks(s, pos) == pos + |b|
    decreases |b|
  {
    hide OccursAt, IsSpace;
    Bound(s, b, pos);
    if |b| > 0 {
      CharOf(s, b, pos, 0);
      assert b == b[..1] + b[1..];
      Split(s, b[..1], b[1..], pos);
      BlanksSkipped(s, pos + 1, b[1..]);
    }
  }

  // What one written assignment stands for: a set attribute that is a macro, for
  // the macro's assignments and then itself.
  predicate Calls(a: Assign, macros: Macros) {
    a.value == True && a.name in macros
  }

  function Meant(list: seq<Assign>, macros: Macros): seq<Assign> {
    if |list| == 0 then []
    else (if Calls(list[0], macros) then macros[list[0].name] + [list[0]] else [list[0]]) + Meant(list[1..], macros)
  }

  // None of them would bring in a macro.
  predicate MacroFree(list: seq<Assign>, macros: Macros) {
    forall i :: 0 <= i < |list| ==> list[i].value != True || list[i].name !in macros
  }

  predicate AllWritable(list: seq<Assign>) {
    forall i :: 0 <= i < |list| ==> Writable(list[i])
  }

  // What stands after an assignment ends its word.
  lemma RestStart(list: seq<Assign>, gaps: seq<string>, end: string)
    requires GoodLine(list, gaps, end) && (|list| > 0 ==> |gaps[0]| > 0)
    ensures var t := Line(list, gaps, end); |t| > 0 ==> EndsWord(t[0])
  {
    hide Written, AllWritable;
    var n: nat :| StopsAt(end, n);
    if |list| > 0 {
      assert IsSpace(gaps[0][0]);
    } else if n > 0 {
      assert IsSpace(end[..n][0]);
    }
  }

  lemma LineParts(s: string, pos: nat, list: seq<Assign>, gaps: seq<string>, end: string)
    requires GoodLine(list, gaps, end) && |list| > 0
    requires OccursAt(s, Line(list, gaps, end), pos) && pos + |Line(list, gaps, end)| == |s|
    ensures var at := pos + |gaps[0]|;
      var e := at + |Written(list[0])|;
      var rest := Line(list[1..], gaps[1..], end);
      && OccursAt(s, gaps[0], pos) && OccursAt(s, Written(list[0]), at) && GoodLine(list[1..], gaps[1..], end)
      && OccursAt(s, rest, e) && e + |rest| == |s| && EndsWord(CharAt(s, e))
  {
    hide OccursAt, Written, StopsAt, Blanks, EndsWord, Writable;
    var t, rest := Written(list[0]), Line(list[1..], gaps[1..], end);
    assert GoodLine(list[1..], gaps[1..], end) by { GoodRest(list, gaps, end); }
    RestStart(list[1..], gaps[1..], end);
    LineIs(list, gaps, end);
    Split(s, gaps[0], t + rest, pos);
    Split(s, t, rest, pos + |gaps[0]|);
    EndsAtEnd();
    if |rest| > 0 { CharOf(s, rest, pos + |gaps[0]| + |t|, 0); }
  }

  lemma EndsAtEnd()
    ensures EndsWord('\0')
  {
  }

  lemma GoodRest(list: seq<Assign>, gaps: seq<string>, end: string)
    requires GoodLine(list, gaps, end) && |list| > 0
    ensures GoodLine(list[1..], gaps[1..], end) && (|list| > 1 ==> |gaps[1]| > 0)
  {
    hide Writable, Blanks, StopsAt;
  }

  lemma LineIs(list: seq<Assign>, gaps: seq<string>, end: string)
    requires |list| == |gaps| > 0
    ensures var rest := Line(list[1..], gaps[1..], end);
      && Line(list, gaps, end) == gaps[0] + (Written(list[0]) + rest)
      && |Line(list, gaps, end)| == |gaps[0]| + |Written(list[0])| + |rest|
  {
    hide Written;
  }

  // At the end of the line no assignment is read.
  lemma LineEnds(s: string, pos: nat, end: string, macros: Macros)
    requires OccursAt(s, end, pos) && pos + |end| == |s| && exists n: nat :: StopsAt(end, n)
    ensures Entries(s, pos, macros) == []
  {
    hide OccursAt, Entries, SkipBlanks, Expanded;
    var n: nat :| StopsAt(end, n);
    assert end == end[..n] + end[n..];
    Split(s, end[..n], end[n..], pos);
    if n < |end| { CharOf(s, end, pos, n); }
    if n > 0 { CharOf(s, end[..n], pos, 0); }
    BlanksSkipped(s, pos, end[..n]);
    if n == 0 || CharAt(s, pos) == '\0' {
      AtEnd(s, pos, macros);
    } else {
      EntriesStep(s, pos, macros);
      if CharAt(s, pos + n) != '#' {
        AtStop(s, pos + n);
        AtEnd(s, pos + n, macros);
      }
    }
  }

  lemma AtStop(s: string, pos: nat)
    requires pos <= |s| && (CharAt(s, pos) == '\n' || CharAt(s, pos) == '\0')
    ensures ItemAt(s, pos) == Nothing(pos)
  {
  }

  // Reading a written line gives the assignments written on it, those of its
  // macros among them.
  lemma {:induction false} LineBack(s: string, pos: nat, list: seq<Assign>, gaps: seq<string>, end: string,
                                    macros: Macros)
    requires GoodLine(list, gaps, end)
    requires OccursAt(s, Line(list, gaps, end), pos) && pos + |Line(list, gaps, end)| == |s|
    ensures Entries(s, pos, macros) == Meant(list, macros)
    decreases |list|
  {
    hide OccursAt, Written, Entries, ItemAt, SkipBlanks, Writable, Expanded, StopsAt, Line;
    if |list| == 0 {
      NoneWritten(gaps, end);
      LineEnds(s, pos, end, macros);
    } else {
      var a := list[0];
      BroughtIn(macros, a);
      LineParts(s, pos, list, gaps, end);
      ItemBack(s, pos + |gaps[0]|, a);
      BlanksSkipped(s, pos, gaps[0]);
      if |gaps[0]| > 0 { CharOf(s, gaps[0], pos, 0); }
      LineBack(s, pos + |gaps[0]| + |Written(a)|, list[1..], gaps[1..], end, macros);
      EntriesStep(s, pos, macros);
    }
  }

  lemma NoneWritten(gaps: seq<string>, end: string)
    requires |gaps| == 0
    ensures Line([], gaps, end) == end
  {
  }

  lemma BroughtIn(macros: Macros, a: Assign)
    requires Writable(a)
    ensures Expanded(macros, a.name, a.value) == if Calls(a, macros) then macros[a.name] + [a] else [a]
  {
    hide NameHash;
    if !Calls(a, macros) { assert [] + [a] == [a]; }
  }

  // A line written from any assignments, with any blanks between them and a
  // comment or more lines after it, reads as each one's own list, in order.
  lemma LineMeans(list: seq<Assign>, gaps: seq<string>, end: string, macros: Macros)
    requires GoodLine(list, gaps, end)
    ensures Entries(Line(list, gaps, end), 0, macros) == Meant(list, macros)
  {
    var t := Line(list, gaps, end);
    assert t[0..|t|] == t;
    LineBack(t, 0, list, gaps, end, macros);
  }

  // The last of them that sets the name, itself or through its macro.
  ghost predicate SetsLast(list: seq<Assign>, macros: Macros, name: string, k: nat) {
    && k < |list| && Sets(list[k], macros, name)
    && forall j :: k < j < |list| ==> !Sets(list[j], macros, name)
  }

  ghost predicate Sets(a: Assign, macros: Macros, name: string) {
    a.name == name || (Calls(a, macros) && exists i :: 0 <= i < |macros[a.name]| && macros[a.name][i].name == name)
  }

  // With its own value, or its macro's last.
  predicate Decides(a: Assign, macros: Macros, name: string, result: map<string, Assign>) {
    && name in result
    && if a.name == name then result[name] == a
       else
         && Calls(a, macros) && name in Assigned(macros[a.name])
         && result[name] == Assigned(macros[a.name])[name]
  }

  // What a name ends up with: nothing where no assignment on the line sets it;
  // otherwise the last one that does decides, with its own value where it names
  // it and with its macro's last value where it does not.
  lemma LineAssigns(list: seq<Assign>, gaps: seq<string>, end: string, macros: Macros, name: string)
    requires GoodLine(list, gaps, end)
    ensures name in Assigned(Entries(Line(list, gaps, end), 0, macros)) <==>
            exists k: nat :: SetsLast(list, macros, name, k)
    ensures forall k: nat :: SetsLast(list, macros, name, k) ==>
              Decides(list[k], macros, name, Assigned(Entries(Line(list, gaps, end), 0, macros)))
  {
    hide Sets, Line, GoodLine, Entries;
    LineMeans(list, gaps, end, macros);
    MeantAssigns(list, macros, name);
  }

  lemma {:induction false} MeantAssigns(list: seq<Assign>, macros: Macros, name: string)
    ensures name in Assigned(Meant(list, macros)) <==> exists k: nat :: SetsLast(list, macros, name, k)
    ensures forall k: nat :: SetsLast(list, macros, name, k) ==>
              Decides(list[k], macros, name, Assigned(Meant(list, macros)))
    decreases |list|
  {
    hide Sets, Assigned, Meant;
    if |list| == 0 {
      NothingMeant(macros, name);
    } else {
      var n := |list| - 1;
      var front, a := list[..n], list[n];
      MeantAssigns(front, macros, name);
      MeantLast(list, macros);
      OwnAssigns(Meant(front, macros), a, macros, name);
      if Sets(a, macros, name) {
        assert SetsLast(list, macros, name, n);
      } else {
        forall k: nat | SetsLast(list, macros, name, k) ensures SetsLast(front, macros, name, k) { }
        forall k: nat | SetsLast(front, macros, name, k) ensures SetsLast(list, macros, name, k) { }
      }
    }
  }

  lemma NothingMeant(macros: Macros, name: string)
    ensures Meant([], macros) == [] && name !in Assigned([])
  {
  }

  lemma {:induction false} MeantLast(list: seq<Assign>, macros: Macros)
    requires |list| > 0
    ensures var n := |list| - 1;
      var a := list[n];
      Meant(list, macros) == Meant(list[..n], macros) + if Calls(a, macros) then macros[a.name] + [a] else [a]
    decreases |list|
  {
    if |list| > 1 {
      MeantLast(list[1..], macros);
      assert list[1..][..|list| - 2] == list[..|list| - 1][1..];
    } else {
      assert list[..0] == [] && list[1..] == [];
    }
  }

  // What one more adds.
  lemma OwnAssigns(before: seq<Assign>, a: Assign, macros: Macros, name: string)
    ensures var after := Assigned(before + if Calls(a, macros) then macros[a.name] + [a] else [a]);
      && (name in after <==> name in Assigned(before) || Sets(a, macros, name))
      && (name in after && !Sets(a, macros, name) ==> after[name] == Assigned(before)[name])
      && (Sets(a, macros, name) ==> Decides(a, macros, name, after))
  {
    hide Assigned;
    if Calls(a, macros) {
      var m := macros[a.name];
      Regroup(before, m, [a]);
      AssignedAppend(before + m, a);
      AssignedOver(before, m, name);
      AssignedIn(m, name);
    } else {
      AssignedAppend(before, a);
    }
  }

  // The later part of a list decides.
  lemma {:induction false} AssignedOver(a: seq<Assign>, b: seq<Assign>, name: string)
    ensures name in Assigned(a + b) <==> name in Assigned(a) || name in Assigned(b)
    ensures name in Assigned(a + b) ==>
              Assigned(a + b)[name] == if name in Assigned(b) then Assigned(b)[name] else Assigned(a)[name]
    decreases |b|
  {
    if |b| == 0 {
      assert a + b == a;
    } else {
      var n := |b| - 1;
      AssignedOver(a, b[..n], name);
      assert (a + b)[..|a| + n] == a + b[..n];
    }
  }

  // A line written from assignments none of which is a macro reads as those.
  lemma LineRoundTrip(list: seq<Assign>, gaps: seq<string>, end: string, macros: Macros)
    requires GoodLine(list, gaps, end) && MacroFree(list, macros)
    ensures Entries(Line(list, gaps, end), 0, macros) == list
  {
    LineMeans(list, gaps, end, macros);
    MeantAlone(list, macros);
  }

  lemma {:induction false} MeantAlone(list: seq<Assign>, macros: Macros)
    requires MacroFree(list, macros)
    ensures Meant(list, macros) == list
  {
    if |list| > 0 {
      MeantAlone(list[1..], macros);
      assert list == [list[0]] + list[1..];
    }
  }

  // The macro that turns a diff off, called on a line of its own.
  lemma BinaryMacro()
    ensures var macros := map["binary" := [Fresh("diff", False)]];
      Entries(" binary", 0, macros) == [Fresh("diff", False), Fresh("binary", True)]
  {
    hide NameHash;
    var macros, a := map["binary" := [Fresh("diff", False)]], Fresh("binary", True);
    assert Writable(a);
    assert [a][1..] == [] && [" "][1..] == [];
    assert Line([a], [" "], "") == " binary";
    assert StopsAt("", 0);
    LineMeans([a], [" "], "", macros);
    assert Meant([a][1..], macros) == [] by { assert [a][1..] == []; }
  }
}
