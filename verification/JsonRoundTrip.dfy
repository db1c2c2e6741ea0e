// When reading printed JSON back returns the tree that was printed: exactly
// when no raw string or name ends early or swallows its closing quote.

module JsonRoundTrip {
  import opened Strings
  import opened Json
  import opened JsonText
  import JsonEscape

  // A quote without a backslash before it.
  predicate Bare(t: string, i: nat)
    requires i < |t|
  {
    t[i] == '\"' && (i == 0 || t[i - 1] != '\\')
  }

  // Every quote inside has a backslash before it and the last character is
  // not a backslash.
  predicate Closed(t: string) {
    && (forall i: nat :: i < |t| ==> !Bare(t, i))
    && (|t| > 0 ==> t[|t| - 1] != '\\')
  }

  predicate Clean(v: Value)
    decreases v, 1
  {
    match v
    case Str(s) => Closed(s)
    case Arr(items) => CleanItems(items)
    case Obj(members) => CleanMembers(members)
    case _ => true
  }

  predicate CleanItems(items: seq<Value>)
    decreases items, 0
  {
    |items| == 0 || (Clean(items[0]) && CleanItems(items[1..]))
  }

  predicate CleanMembers(members: seq<Member>)
    decreases members, 0
  {
    |members| == 0 || (Closed(members[0].name) && Clean(members[0].value) && CleanMembers(members[1..]))
  }

  // No floats anywhere.
  predicate FloatFree(v: Value)
    decreases v, 1
  {
    match v
    case Float(_) => false
    case Arr(items) => FloatFreeItems(items)
    case Obj(members) => FloatFreeMembers(members)
    case _ => true
  }

  predicate FloatFreeItems(items: seq<Value>)
    decreases items, 0
  {
    |items| == 0 || (FloatFree(items[0]) && FloatFreeItems(items[1..]))
  }

  predicate FloatFreeMembers(members: seq<Member>)
    decreases members, 0
  {
    |members| == 0 || (FloatFree(members[0].value) && FloatFreeMembers(members[1..]))
  }

  predicate Blank(t: string) {
    forall i :: 0 <= i < |t| ==> IsWs(t[i])
  }

  // ------------------------------------------------------- positions in text

  // Blanks are skipped as a block.
  lemma {:induction false} SkipBlock(s: string, pos: nat, t: string)
    requires OccursAt(s, t, pos) && Blank(t)
    ensures SkipWs(s, pos) == SkipWs(s, pos + |t|)
    decreases |t|
  {
    if |t| > 0 {
      CharOf(s, t, pos, 0);
      assert t == t[..1] + t[1..];
      Split(s, t[..1], t[1..], pos);
      SkipBlock(s, pos + 1, t[1..]);
    }
  }

  // ----------------------------------------------------------------- strings

  lemma BareAt(s: string, pos: nat, t: string, i: nat)
    requires pos > 0 && OccursAt(s, t, pos) && s[pos - 1] == '\"' && i < |t|
    ensures Closes(s, pos + i) == Bare(t, i)
  {
    CharOf(s, t, pos, i);
    if i > 0 { CharOf(s, t, pos, i - 1); }
  }

  // Between quotes, the scan stops at the end of t exactly when t is closed.
  lemma QuoteBack(s: string, pos: nat, t: string)
    requires pos > 0 && OccursAt(s, t + "\"", pos) && s[pos - 1] == '\"'
    ensures FindQuote(s, pos) == pos + |t| <==> Closed(t)
    ensures var q := FindQuote(s, pos); q < |s| && s[pos..q] == t ==> Closed(t)
  {
    var q := FindQuote(s, pos);
    Split(s, t, "\"", pos);
    CharOf(s, "\"", pos + |t|, 0);
    forall i: nat | i < |t| ensures Closes(s, pos + i) == Bare(t, i) { BareAt(s, pos, t, i); }
    assert |t| > 0 ==> s[pos + |t| - 1] == t[|t| - 1] by { if |t| > 0 { CharOf(s, t, pos, |t| - 1); } }
    hide OccursAt, Bare;
    assert |t| == 0 || t[|t| - 1] != '\\' ==> Closes(s, pos + |t|);
    assert q == pos + |t| ==> |t| == 0 || t[|t| - 1] != '\\';
    if Closed(t) {
      forall i: nat | pos <= i < pos + |t| ensures !Closes(s, i) {
        assert !Bare(t, i - pos);
      }
    }
    if q == pos + |t| {
      forall i: nat | i < |t| ensures !Bare(t, i) {
        assert !Closes(s, pos + i);
      }
    }
    if q < |s| && s[pos..q] == t { assert |s[pos..q]| == q - pos; }
  }

  // ----------------------------------------------------------------- numbers

  lemma {:induction false} DigitsOf(n: nat, rest: string)
    ensures |NatToStr(n)| > 0
    ensures forall i :: 0 <= i < |NatToStr(n)| ==> IsDigit(NatToStr(n)[i])
    ensures Digits(NatToStr(n) + rest, 0) == Digits(rest, n)
  {
    if n < 10 {
      LastDigit(0, n, rest);
    } else {
      hide Digits;
      var last := [Digit(n % 10)];
      DigitsOf(n / 10, last + rest);
      assert NatToStr(n) + rest == NatToStr(n / 10) + (last + rest);
      LastDigit(n / 10, n % 10, rest);
    }
  }

  lemma LastDigit(acc: nat, d: nat, rest: string)
    requires d < 10
    ensures IsDigit(Digit(d)) && Digits([Digit(d)] + rest, acc) == Digits(rest, 10 * acc + d)
  {
    assert ([Digit(d)] + rest)[1..] == rest;
  }

  // Reading a printed integer returns it.
  lemma AtoiOfInt(n: int)
    ensures Atoi(IntToStr(n)) == n
    ensures AllIn(IntToStr(n), "-0123456789")
    ensures var t := IntToStr(n); |t| > 0 && StartsNumber(t[0]) && t[0] != 'e'
    ensures forall i :: 0 <= i < |IntToStr(n)| ==> !EndsNumber(IntToStr(n)[i])
  {
    var d := if n < 0 then NatToStr(-n) else NatToStr(n);
    DigitsOf(if n < 0 then -n else n, "");
    assert d + "" == d;
    forall i | 0 <= i < |d| ensures d[i] in "-0123456789" { InDigits(d[i]); }
    var t := IntToStr(n);
    if n < 0 { assert t[1..] == d; }
  }

  lemma InDigits(c: char)
    requires IsDigit(c)
    ensures c in "-0123456789"
  {
    assert "-0123456789"[c as int - '0' as int + 1] == c;
  }

  lemma NumberBack(s: string, pos: nat, n: int)
    requires OccursAt(s, IntToStr(n), pos)
    requires var e := pos + |IntToStr(n)|; e < |s| && EndsNumber(s[e])
    ensures ParseNumber(s, pos) == Finish(s, pos + |IntToStr(n)|, Int(n))
  {
    hide OccursAt, IntToStr, NumberLast, Finish, Atoi, AllIn, EndsNumber;
    var t := IntToStr(n);
    AtoiOfInt(n);
    var e := pos + |t|;
    forall i | pos < i < e ensures !EndsNumber(s[i]) { CharOf(s, t, pos, i - pos); }
    Slice(s, t, pos);
    NumberStops(s, pos, e - 1);
  }

  lemma {:induction false} NumberStops(s: string, pos: nat, last: nat)
    requires pos <= last < |s| && EndsNumber(CharAt(s, last + 1))
    requires forall i :: pos < i <= last ==> !EndsNumber(s[i])
    ensures NumberLast(s, pos) == last
    decreases last - pos
  {
    if pos < last {
      NumberStops(s, pos + 1, last);
    }
  }

  lemma WordBack(s: string, pos: nat, word: string, v: Value)
    requires |word| > 0 && forall i :: 0 <= i < |word| ==> IsAlnum(word[i])
    requires OccursAt(s, word, pos)
    requires pos + |word| < |s| && EndsNumber(s[pos + |word|])
    ensures IsAlnum(s[pos]) && ParseWord(s, pos, word, v) == Finish(s, pos + |word|, v)
  {
    forall i | 0 <= i < |word| ensures s[pos + i] == word[i] { CharOf(s, word, pos, i); }
    var p := SkipAlnum(s, pos);
    assert p <= pos + |word|;
    assert forall i :: pos <= i < pos + |word| ==> IsAlnum(s[i]);
    assert p == pos + |word|;
  }

  // ------------------------------------------------------------ whole values

  // The context of a printed value: blanks, then a separator or a closer.
  predicate Ended(s: string, e: nat) {
    e <= |s| && SkipWs(s, e) < |s| && EndsValue(s[SkipWs(s, e)])
  }

  lemma EndedFacts(s: string, e: nat, v: Value)
    requires Ended(s, e)
    ensures e < |s| && EndsNumber(s[e]) && Finish(s, e, v) == Ok(v, SkipWs(s, e))
  {
  }

  lemma EndedAt(s: string, e: nat, c: nat)
    requires e <= |s| && c < |s| && SkipWs(s, e) == c && EndsValue(s[c])
    ensures Ended(s, e)
  {
  }

  lemma NotWs(c: char)
    requires StartsValue(c)
    ensures !IsWs(c)
  {
  }

  lemma SkipNone(s: string, pos: nat)
    requires pos < |s| && !IsWs(s[pos])
    ensures SkipWs(s, pos) == pos
  {
  }

  lemma FindNone(s: string, pos: nat, a: char, b: char)
    requires pos < |s| && (s[pos] == a || s[pos] == b)
    ensures FindEither(s, pos, a, b) == pos
  {
  }

  lemma ValueHere(s: string, pos: nat)
    requires pos < |s| && StartsValue(s[pos])
    ensures FindValue(s, pos) == pos
  {
  }

  // Reading from a blank is reading from what follows it.
  lemma LeadingBlank(s: string, pos: nat)
    requires pos < |s| && IsWs(s[pos])
    ensures ParseValue(s, pos) == ParseValue(s, pos + 1)
  {
    assert FindValue(s, pos) == FindValue(s, pos + 1);
  }

  // What a printed value starts with.
  lemma PrintHead(v: Value, minify: bool, indent: string)
    requires FloatFree(v)
    ensures var t := Print(v, minify, indent); |t| > 0 && StartsValue(t[0]) && t[0] != ']' && t[0] != '}'
  {
    if v.Int? { AtoiOfInt(v.n); }
  }

  // A read of printed text returns v, or, where v is not clean, anything else.
  ghost predicate Back<T(!new)>(r: Result<T>, clean: bool, v: T, e: nat) {
    if clean then r == Ok(v, e) else r.Fail? || r.value != v
  }

  lemma {:induction false} ValueBack(s: string, pos: nat, v: Value, minify: bool, indent: string)
    requires FloatFree(v) && Blank(indent)
    requires OccursAt(s, Print(v, minify, indent), pos)
    requires Ended(s, pos + |Print(v, minify, indent)|)
    ensures Back(ParseValue(s, pos), Clean(v), v, SkipWs(s, pos + |Print(v, minify, indent)|))
    decreases v, 1
  {
    hide OccursAt, Ended, SkipWs, ParseValue, ParseArray, ParseObject, ParseString, Blank, Closed, IntToStr,
        CleanItems, CleanMembers;
    match v {
      case Arr(items) =>
        ArrayBack(s, pos, items, minify, indent);
        WrapArray(s, pos, items, pos + |Print(v, minify, indent)|);
      case Obj(members) =>
        ObjectBack(s, pos, members, minify, indent);
        WrapObject(s, pos, members, pos + |Print(v, minify, indent)|);
      case Null => WordValueBack(s, pos, "null", v);
      case Bool(b) =>
        if b { WordValueBack(s, pos, "true", v); } else { WordValueBack(s, pos, "false", v); }
      case Int(n) => IntValueBack(s, pos, n);
      case Str(x) =>
        StringHead(s, pos, x);
        StringBack(s, pos, x);
    }
  }

  lemma WrapArray(s: string, pos: nat, items: seq<Value>, e: nat)
    requires pos < |s| && s[pos] == '[' && Ended(s, e)
    requires Back(ParseArray(s, pos), CleanItems(items), items, e)
    ensures Back(ParseValue(s, pos), CleanItems(items), Arr(items), SkipWs(s, e))
  {
    hide Ended, SkipWs, ParseValue, ParseArray, CleanItems;
    Dispatch(s, pos);
    EndedFacts(s, e, Arr(items));
  }

  lemma WrapObject(s: string, pos: nat, members: seq<Member>, e: nat)
    requires pos < |s| && s[pos] == '{' && Ended(s, e)
    requires Back(ParseObject(s, pos), CleanMembers(members), members, e)
    ensures Back(ParseValue(s, pos), CleanMembers(members), Obj(members), SkipWs(s, e))
  {
    hide Ended, SkipWs, ParseValue, ParseObject, CleanMembers;
    Dispatch(s, pos);
    EndedFacts(s, e, Obj(members));
  }

  lemma WordValueBack(s: string, pos: nat, word: string, v: Value)
    requires (word == "null" && v == Null) || (word == "true" && v == Bool(true))
      || (word == "false" && v == Bool(false))
    requires OccursAt(s, word, pos) && Ended(s, pos + |word|)
    ensures ParseValue(s, pos) == Ok(v, SkipWs(s, pos + |word|))
  {
    hide OccursAt, SkipWs, Finish, Ended, ParseValue, ParseWord, ParseNumber;
    CharOf(s, word, pos, 0);
    Dispatch(s, pos);
    EndedFacts(s, pos + |word|, v);
    WordBack(s, pos, word, v);
  }

  lemma IntValueBack(s: string, pos: nat, n: int)
    requires OccursAt(s, IntToStr(n), pos) && Ended(s, pos + |IntToStr(n)|)
    ensures ParseValue(s, pos) == Ok(Int(n), SkipWs(s, pos + |IntToStr(n)|))
  {
    hide OccursAt, SkipWs, Finish, Ended, ParseValue, ParseNumber, IntToStr, Atoi, AllIn;
    AtoiOfInt(n);
    CharOf(s, IntToStr(n), pos, 0);
    Dispatch(s, pos);
    EndedFacts(s, pos + |IntToStr(n)|, Int(n));
    NumberBack(s, pos, n);
  }

  // Which parser the first character selects.
  lemma Dispatch(s: string, pos: nat)
    requires pos < |s| && StartsValue(s[pos])
    ensures s[pos] == 'n' ==> ParseValue(s, pos) == ParseWord(s, pos, "null", Null)
    ensures s[pos] == 't' ==> ParseValue(s, pos) == ParseWord(s, pos, "true", Bool(true))
    ensures s[pos] == 'f' ==> ParseValue(s, pos) == ParseWord(s, pos, "false", Bool(false))
    ensures StartsNumber(s[pos]) ==> ParseValue(s, pos) == ParseNumber(s, pos)
    ensures s[pos] == '\"' ==> ParseValue(s, pos) == ParseString(s, pos)
    ensures s[pos] == '[' ==>
              ParseValue(s, pos) == match ParseArray(s, pos)
                                    case Fail => Fail
                                    case Ok(items, q) => if q > |s| then Fail else Finish(s, q, Arr(items))
    ensures s[pos] == '{' ==>
              ParseValue(s, pos) == match ParseObject(s, pos)
                                    case Fail => Fail
                                    case Ok(members, q) => if q > |s| then Fail else Finish(s, q, Obj(members))
  {
    hide FindValue, Finish, ParseWord, ParseNumber, ParseString, ParseArray, ParseObject;
    ValueHere(s, pos);
  }

  lemma StringHead(s: string, pos: nat, x: string)
    requires OccursAt(s, "\"" + x + "\"", pos)
    ensures pos < |s| && ParseValue(s, pos) == ParseString(s, pos)
  {
    CharOf(s, "\"" + x + "\"", pos, 0);
    Dispatch(s, pos);
  }

  lemma StringBack(s: string, pos: nat, x: string)
    requires OccursAt(s, "\"" + x + "\"", pos)
    requires Ended(s, pos + |x| + 2)
    ensures pos < |s| && s[pos] == '\"'
    ensures Back(ParseString(s, pos), Closed(x), Str(x), SkipWs(s, pos + |x| + 2))
  {
    hide OccursAt, SkipWs, FindQuote, Finish, Ended, Closed, EndsNumber, ParseString;
    QuotedParts(s, pos, x);
    EndedFacts(s, pos + |x| + 2, Str(x));
    QuoteBack(s, pos + 1, x);
    StringRead(s, pos);
  }

  lemma StringRead(s: string, pos: nat)
    requires pos < |s|
    ensures var q := FindQuote(s, pos + 1);
      && (q < |s| ==> ParseString(s, pos) == Finish(s, q + 1, Str(s[pos + 1..q])))
      && (ParseString(s, pos).Ok? ==> q < |s| && ParseString(s, pos).value == Str(s[pos + 1..q]))
  {
    hide FindQuote, Finish, SkipWs;
  }

  lemma QuotedParts(s: string, pos: nat, x: string)
    requires OccursAt(s, "\"" + x + "\"", pos)
    ensures pos + |x| + 2 <= |s| && s[pos] == '\"'
    ensures OccursAt(s, x + "\"", pos + 1) && s[pos + 1..pos + 1 + |x|] == x
  {
    hide OccursAt;
    assert "\"" + x + "\"" == "\"" + (x + "\"");
    Split(s, "\"", x + "\"", pos);
    CharOf(s, "\"", pos, 0);
    Bound(s, x + "\"", pos + 1);
    Split(s, x, "\"", pos + 1);
    Slice(s, x, pos + 1);
  }

  // Between two entries, and after the last: where the value before ends and
  // where the loop goes on.
  lemma AfterBack(s: string, e: nat, left: nat, minify: bool, more: string, close: char, indent: string)
    requires close == ']' || close == '}'
    requires Blank(indent) && OccursAt(s, After(left, minify) + more, e)
    requires left <= 1 ==> more == indent + [close]
    ensures Ended(s, e)
    ensures AfterItem(s, SkipWs(s, e), close) == SkipWs(s, e + |After(left, minify)|)
  {
    hide OccursAt, SkipWs, FindEither, Ended, AfterItem;
    var nl := Unless(minify, LINE_TERM);
    Split(s, After(left, minify), more, e);
    if left > 1 {
      CommaBack(s, e, nl, close);
    } else {
      assert After(left, minify) == nl;
      CloserBack(s, e, nl, indent, close);
    }
  }

  lemma CommaBack(s: string, e: nat, nl: string, close: char)
    requires close != ',' && Blank(nl) && OccursAt(s, "," + nl, e)
    ensures Ended(s, e) && AfterItem(s, SkipWs(s, e), close) == SkipWs(s, e + 1 + |nl|)
  {
    hide OccursAt, SkipWs, FindEither, Ended;
    Bound(s, "," + nl, e);
    Split(s, ",", nl, e);
    CharOf(s, ",", e, 0);
    SkipNone(s, e);
    EndedAt(s, e, e);
    FindNone(s, e, ',', close);
    SkipBlock(s, e + 1, nl);
  }

  lemma CloserBack(s: string, e: nat, nl: string, indent: string, close: char)
    requires close == ']' || close == '}'
    requires Blank(nl) && Blank(indent) && OccursAt(s, nl, e) && OccursAt(s, indent + [close], e + |nl|)
    ensures Ended(s, e) && AfterItem(s, SkipWs(s, e), close) == SkipWs(s, e + |nl|)
  {
    hide OccursAt, SkipWs, FindEither, Ended;
    Bound(s, indent + [close], e + |nl|);
    SkipBlock(s, e, nl);
    Split(s, indent, [close], e + |nl|);
    SkipBlock(s, e + |nl|, indent);
    var c := e + |nl| + |indent|;
    CharOf(s, [close], c, 0);
    SkipNone(s, c);
    EndedAt(s, e, c);
    FindNone(s, c, ',', close);
  }

  lemma SkipInside(s: string, pos: nat, t: string)
    requires OccursAt(s, t, pos) && |t| > 0 && !IsWs(t[|t| - 1])
    ensures pos <= |s| && SkipWs(s, pos) < |s|
  {
    CharOf(s, t, pos, |t| - 1);
  }

  lemma ArrayBack(s: string, pos: nat, items: seq<Value>, minify: bool, indent: string)
    requires FloatFreeItems(items) && Blank(indent)
    requires OccursAt(s, Print(Arr(items), minify, indent), pos)
    ensures pos < |s| && s[pos] == '['
    ensures Back(ParseArray(s, pos), CleanItems(items), items, pos + |Print(Arr(items), minify, indent)|)
    decreases items, 3
  {
    hide OccursAt, SkipWs, FindEither, ParseItems, PrintItems, CleanItems;
    var nl := Unless(minify, LINE_TERM);
    var tail := Unless(minify, indent) + "]";
    var body := PrintItems(items, minify, indent);
    var start := pos + 1 + |nl|;
    assert Print(Arr(items), minify, indent) == ("[" + nl) + (body + tail);
    Split(s, "[" + nl, body + tail, pos);
    Split(s, "[", nl, pos);
    CharOf(s, "[", pos, 0);
    FindNone(s, pos, '[', '[');
    SkipBlock(s, pos + 1, nl);
    Bound(s, body + tail, start);
    SkipInside(s, start, body + tail);
    ItemsBack(s, start, items, [], minify, indent);
    assert [] + items == items;
  }

  lemma BlankIndent(minify: bool, indent: string)
    requires Blank(indent)
    ensures Blank(indent + "\t") && Blank(Unless(minify, indent + "\t")) && Blank(Unless(minify, indent))
  {
  }

  lemma Regroup(lead: string, text: string, after: string, more: string, tail: string)
    ensures lead + text + after + more + tail == lead + (text + (after + (more + tail)))
  {
  }

  lemma Entry(s: string, pos: nat, lead: string, text: string, after: string, rest: string)
    requires OccursAt(s, lead + (text + (after + rest)), pos)
    ensures OccursAt(s, lead, pos) && OccursAt(s, text, pos + |lead|)
    ensures OccursAt(s, after + rest, pos + |lead| + |text|)
    ensures OccursAt(s, rest, pos + |lead| + |text| + |after|)
    ensures pos + |lead| + |text| + |after| + |rest| <= |s|
  {
    hide OccursAt;
    Split(s, lead, text + (after + rest), pos);
    Split(s, text, after + rest, pos + |lead|);
    Split(s, after, rest, pos + |lead| + |text|);
    Bound(s, rest, pos + |lead| + |text| + |after|);
  }

  lemma ItemsEntry(s: string, pos: nat, items: seq<Value>, minify: bool, indent: string, tail: string)
    requires |items| > 0 && FloatFree(items[0]) && Blank(indent)
    requires OccursAt(s, PrintItems(items, minify, indent) + tail, pos)
    ensures var lead := Unless(minify, indent + "\t");
      var text := Print(items[0], minify, indent + "\t");
      var after := After(|items|, minify);
      var more := PrintItems(items[1..], minify, indent);
      var b := pos + |lead|;
      && |PrintItems(items, minify, indent)| == |lead| + |text| + |after| + |more|
      && OccursAt(s, text, b) && OccursAt(s, after + (more + tail), b + |text|)
      && OccursAt(s, more + tail, b + |text| + |after|)
      && b + |text| + |after| + |more + tail| <= |s|
      && SkipWs(s, pos) == b
  {
    hide OccursAt, SkipWs, Print, PrintItems, Unless, FloatFree, After, Blank, IsWs, StartsValue;
    var lead := Unless(minify, indent + "\t");
    var text := Print(items[0], minify, indent + "\t");
    ItemsForm(items, minify, indent);
    BlankIndent(minify, indent);
    Regroup(lead, text, After(|items|, minify), PrintItems(items[1..], minify, indent), tail);
    Entry(s, pos, lead, text, After(|items|, minify), PrintItems(items[1..], minify, indent) + tail);
    SkipBlock(s, pos, lead);
    PrintHead(items[0], minify, indent + "\t");
    NotWs(text[0]);
    CharOf(s, text, pos + |lead|, 0);
    SkipNone(s, pos + |lead|);
  }

  lemma ItemHead(s: string, pos: nat, v: Value, minify: bool, indent: string)
    requires FloatFree(v) && OccursAt(s, Print(v, minify, indent), pos)
    ensures pos < |s| && s[pos] != ']'
  {
    PrintHead(v, minify, indent);
    CharOf(s, Print(v, minify, indent), pos, 0);
  }

  lemma MembersEntry(s: string, pos: nat, members: seq<Member>, minify: bool, indent: string, tail: string)
    requires |members| > 0 && Blank(indent)
    requires OccursAt(s, PrintMembers(members, minify, indent) + tail, pos)
    ensures var lead := Unless(minify, indent + "\t");
      var text := MemberText(members[0], minify, indent + "\t");
      var after := After(|members|, minify);
      var more := PrintMembers(members[1..], minify, indent);
      var b := pos + |lead|;
      && |PrintMembers(members, minify, indent)| == |lead| + |text| + |after| + |more|
      && OccursAt(s, text, b) && OccursAt(s, after + (more + tail), b + |text|)
      && OccursAt(s, more + tail, b + |text| + |after|)
      && b + |text| + |after| + |more + tail| <= |s|
      && SkipWs(s, pos) == b < |s| && s[b] == '\"'
  {
    hide OccursAt, SkipWs, PrintMember, MemberText, PrintMembers, Unless, After, Blank;
    var lead := Unless(minify, indent + "\t");
    var text := MemberText(members[0], minify, indent + "\t");
    MemberForm(members[0], minify, indent + "\t");
    MembersForm(members, minify, indent);
    BlankIndent(minify, indent);
    Regroup(lead, text, After(|members|, minify), PrintMembers(members[1..], minify, indent), tail);
    Entry(s, pos, lead, text, After(|members|, minify), PrintMembers(members[1..], minify, indent) + tail);
    SkipBlock(s, pos, lead);
    CharOf(s, text, pos + |lead|, 0);
    SkipNone(s, pos + |lead|);
  }

  // The closing bracket when no entry is left.
  lemma Closing(s: string, pos: nat, ind: string, close: char)
    requires (close == ']' || close == '}') && Blank(ind)
    requires OccursAt(s, ind + [close], pos)
    ensures SkipWs(s, pos) == pos + |ind| < |s| && s[pos + |ind|] == close
  {
    Split(s, ind, [close], pos);
    SkipBlock(s, pos, ind);
    CharOf(s, [close], pos + |ind|, 0);
    SkipNone(s, pos + |ind|);
  }

  lemma NotSame<T>(acc: seq<T>, y: T, items: seq<T>, r: seq<T>)
    requires |items| > 0 && y != items[0]
    requires acc + [y] <= r
    ensures r != acc + items
  {
    assert (acc + [y])[|acc|] == r[|acc|];
    assert (acc + items)[|acc|] == items[0];
  }

  // The loop of the array parser over the entries still to come.
  lemma {:induction false} ItemsBack(s: string, pos: nat, items: seq<Value>, acc: seq<Value>, minify: bool,
                                     indent: string)
    requires FloatFreeItems(items) && Blank(indent)
    requires OccursAt(s, PrintItems(items, minify, indent) + (Unless(minify, indent) + "]"), pos)
    ensures Back(ParseItems(s, SkipWs(s, pos), acc), CleanItems(items), acc + items,
                 pos + |PrintItems(items, minify, indent)| + |Unless(minify, indent) + "]"|)
    decreases items, 2
  {
    hide IsWs, OccursAt, SkipWs, FindEither, Ended, EndsValue, ParseValue, ParseItems, AfterItem, Print, PrintItems,
        Unless, Clean, FloatFree, FloatFreeMembers, CleanMembers, After, Blank;
    var ind := Unless(minify, indent);
    var tail := ind + "]";
    BlankIndent(minify, indent);
    if |items| == 0 {
      NoItems(items, minify, indent);
      assert PrintItems(items, minify, indent) + tail == ind + [']'];
      Closing(s, pos, ind, ']');
      ItemsStep(s, pos + |ind|, acc);
      assert acc + items == acc;
    } else {
      var x, rest := items[0], items[1..];
      var b := pos + |Unless(minify, indent + "\t")|;
      var e := b + |Print(x, minify, indent + "\t")|;
      var after := After(|items|, minify);
      var more := PrintItems(rest, minify, indent);
      ItemsEntry(s, pos, items, minify, indent, tail);
      ItemHead(s, b, x, minify, indent + "\t");
      if |rest| == 0 {
        NoItems(rest, minify, indent);
        assert more + tail == ind + [']'];
      }
      AfterBack(s, e, |items|, minify, more + tail, ']', ind);
      ValueBack(s, b, x, minify, indent + "\t");
      ItemsStep(s, b, acc);
      if Clean(x) {
        ItemsBack(s, e + |after|, rest, acc + [x], minify, indent);
        assert acc + [x] + rest == acc + items;
      } else if ParseItems(s, b, acc).Ok? {
        NotSame(acc, ParseValue(s, b).value, items, ParseItems(s, b, acc).value);
      }
    }
  }

  lemma ObjectBack(s: string, pos: nat, members: seq<Member>, minify: bool, indent: string)
    requires FloatFreeMembers(members) && Blank(indent)
    requires OccursAt(s, Print(Obj(members), minify, indent), pos)
    ensures pos < |s| && s[pos] == '{'
    ensures Back(ParseObject(s, pos), CleanMembers(members), members, pos + |Print(Obj(members), minify, indent)|)
    decreases members, 3
  {
    hide OccursAt, SkipWs, FindEither, ParseMembers, PrintMembers, CleanMembers;
    var nl := Unless(minify, LINE_TERM);
    var tail := Unless(minify, indent) + "}";
    var body := PrintMembers(members, minify, indent);
    var start := pos + 1 + |nl|;
    assert Print(Obj(members), minify, indent) == ("{" + nl) + (body + tail);
    Split(s, "{" + nl, body + tail, pos);
    Split(s, "{", nl, pos);
    CharOf(s, "{", pos, 0);
    FindNone(s, pos, '{', '{');
    SkipBlock(s, pos + 1, nl);
    Bound(s, body + tail, start);
    SkipInside(s, start, body + tail);
    MembersBack(s, start, members, [], minify, indent);
    assert [] + members == members;
  }

  lemma {:induction false} MembersBack(s: string, pos: nat, members: seq<Member>, acc: seq<Member>, minify: bool,
                                       indent: string)
    requires FloatFreeMembers(members) && Blank(indent)
    requires OccursAt(s, PrintMembers(members, minify, indent) + (Unless(minify, indent) + "}"), pos)
    ensures Back(ParseMembers(s, SkipWs(s, pos), acc), CleanMembers(members), acc + members,
                 pos + |PrintMembers(members, minify, indent)| + |Unless(minify, indent) + "}"|)
    decreases members, 2
  {
    hide IsWs, OccursAt, SkipWs, FindEither, Ended, ParseMember, ParseMembers, AfterItem, Print, PrintMember,
        PrintMembers, Unless, MemberText, Clean, FloatFree, After, Closed, Blank;
    var ind := Unless(minify, indent);
    var tail := ind + "}";
    BlankIndent(minify, indent);
    if |members| == 0 {
      NoMembers(members, minify, indent);
      assert PrintMembers(members, minify, indent) + tail == ind + ['}'];
      Closing(s, pos, ind, '}');
      MembersStep(s, pos + |ind|, acc);
      assert acc + members == acc;
    } else {
      var m, rest := members[0], members[1..];
      var b := pos + |Unless(minify, indent + "\t")|;
      var e := b + |MemberText(m, minify, indent + "\t")|;
      var after := After(|members|, minify);
      var more := PrintMembers(rest, minify, indent);
      MembersEntry(s, pos, members, minify, indent, tail);
      FindNone(s, b, '\"', '\"');
      if |rest| == 0 {
        NoMembers(rest, minify, indent);
        assert more + tail == ind + ['}'];
      }
      AfterBack(s, e, |members|, minify, more + tail, '}', ind);
      MemberBack(s, b, m, minify, indent + "\t");
      MembersStep(s, b, acc);
      if Closed(m.name) && Clean(m.value) {
        MembersBack(s, e + |after|, rest, acc + [m], minify, indent);
        assert acc + [m] + rest == acc + members;
      } else if ParseMembers(s, b, acc).Ok? {
        NotSame(acc, ParseMember(s, b).value, members, ParseMembers(s, b, acc).value);
      }
    }
  }

  // A member without its indentation.
  function MemberText(m: Member, minify: bool, indent: string): string {
    "\"" + ((m.name + "\"") + (":" + (Unless(minify, " ") + Print(m.value, minify, indent))))
  }

  lemma MemberForm(m: Member, minify: bool, indent: string)
    ensures PrintMember(m, minify, indent) == Unless(minify, indent) + MemberText(m, minify, indent)
    ensures |MemberText(m, minify, indent)| > 0 && MemberText(m, minify, indent)[0] == '\"'
  {
    hide Print;
  }

  lemma MemberBack(s: string, pos: nat, m: Member, minify: bool, indent: string)
    requires FloatFree(m.value) && Blank(indent)
    requires OccursAt(s, MemberText(m, minify, indent), pos)
    requires Ended(s, pos + |MemberText(m, minify, indent)|)
    ensures var e := SkipWs(s, pos + |MemberText(m, minify, indent)|);
      Back(ParseMember(s, pos), Closed(m.name) && Clean(m.value), m, e)
    decreases m, 2
  {
    hide OccursAt, SkipWs, FindQuote, Ended, ParseValue, Print, Clean, FloatFree, Closed, Blank;
    var text := Print(m.value, minify, indent);
    var gap := Unless(minify, " ");
    var c := pos + |m.name| + 2;
    var v := c + 1 + |gap|;
    NameBack(s, pos, m.name, gap + text);
    Split(s, gap, text, c + 1);
    Bound(s, text, v);
    if !minify {
      CharOf(s, gap, c + 1, 0);
      LeadingBlank(s, c + 1);
    }
    ValueBack(s, v, m.value, minify, indent);
    MemberRead(s, pos, m.name);
  }

  // The quoted name and the colon.
  lemma NameBack(s: string, pos: nat, name: string, rest: string)
    requires OccursAt(s, "\"" + ((name + "\"") + (":" + rest)), pos)
    ensures var c := pos + |name| + 2;
      && c < |s| && s[pos] == '\"' && s[c] == ':'
      && OccursAt(s, name + "\"", pos + 1) && OccursAt(s, name, pos + 1) && OccursAt(s, rest, c + 1)
          && c + 1 + |rest| <= |s|
  {
    hide OccursAt;
    Split(s, "\"", (name + "\"") + (":" + rest), pos);
    CharOf(s, "\"", pos, 0);
    Split(s, name + "\"", ":" + rest, pos + 1);
    Split(s, name, "\"", pos + 1);
    Split(s, ":", rest, pos + |name| + 2);
    CharOf(s, ":", pos + |name| + 2, 0);
    Bound(s, rest, pos + |name| + 3);
  }

  // How the member parser goes over them.
  lemma MemberRead(s: string, pos: nat, name: string)
    requires var c := pos + |name| + 2; c < |s| && s[pos] == '\"' && s[c] == ':'
    requires OccursAt(s, name + "\"", pos + 1) && OccursAt(s, name, pos + 1)
    ensures Closed(name) ==> ParseMember(s, pos) == Named(ParseValue(s, pos + |name| + 3), name)
    ensures !Closed(name) ==> ParseMember(s, pos).Fail? || ParseMember(s, pos).value.name != name
  {
    hide OccursAt, SkipWs, FindQuote, ParseMember, ParseValue, Closed;
    SkipNone(s, pos);
    SkipNone(s, pos + |name| + 2);
    QuoteBack(s, pos + 1, name);
    Slice(s, name, pos + 1);
    if Closed(name) {
      MemberSteps(s, pos);
    } else {
      MemberName(s, pos);
    }
  }

  lemma MemberSteps(s: string, pos: nat)
    requires pos < |s| && s[pos] == '\"' && SkipWs(s, pos) == pos
    requires var q := FindQuote(s, pos + 1); q < |s| - 1 && SkipWs(s, q + 1) == q + 1 && s[q + 1] == ':'
    ensures var q := FindQuote(s, pos + 1);
      ParseMember(s, pos) == Named(ParseValue(s, q + 2), s[pos + 1..q])
  {
    hide SkipWs, FindQuote, ParseValue, Named;
  }

  lemma MemberName(s: string, pos: nat)
    requires pos < |s| && s[pos] == '\"'
    ensures ParseMember(s, pos).Ok? ==>
              var q := FindQuote(s, pos + 1); q < |s| && ParseMember(s, pos).value.name == s[pos + 1..q]
  {
    hide SkipWs, FindQuote, ParseValue;
    SkipNone(s, pos);
  }

  // ------------------------------------------------------------ main results

  // Reading either layout of an object back returns the object exactly when
  // every raw string and name in it is closed.
  lemma ObjectRoundTrip(members: seq<Member>, minify: bool)
    requires FloatFreeMembers(members)
    ensures var text := Print(Obj(members), minify, "");
      ParseObject(text, 0) == Ok(members, |text|) <==> CleanMembers(members)
    ensures var r := ParseObject(Print(Obj(members), minify, ""), 0);
      r.Ok? && r.value == members ==> CleanMembers(members)
  {
    hide Print, ParseObject, CleanMembers, FloatFreeMembers;
    var text := Print(Obj(members), minify, "");
    Whole(text);
    ObjectBack(text, 0, members, minify, "");
  }

  lemma ArrayRoundTrip(items: seq<Value>, minify: bool)
    requires FloatFreeItems(items)
    ensures var text := Print(Arr(items), minify, "");
      ParseArray(text, 0) == Ok(items, |text|) <==> CleanItems(items)
  {
    hide Print, ParseArray, CleanItems, FloatFreeItems;
    var text := Print(Arr(items), minify, "");
    Whole(text);
    ArrayBack(text, 0, items, minify, "");
  }

  lemma Whole(text: string)
    ensures OccursAt(text, text, 0)
  {
    assert text[0..|text|] == text;
  }

  datatype Source = NoObject | Object(members: seq<Member>)

  // CWJSONObject::CopyFrom: a deep copy exactly of clean trees.
  method CopyFrom(from: Source) returns (ok: bool, copy: seq<Member>)
    ensures from.NoObject? ==> ok && copy == []
    ensures from.Object? && FloatFreeMembers(from.members) ==>
              (ok && copy == from.members <==> CleanMembers(from.members))
  {
    if from.NoObject? {
      return true, [];
    }
    hide Print, ParseObject, CleanMembers, FloatFreeMembers;
    var text := new StringBuffer("");
    StringifyObject(from.members, text, true, "");
    assert "" + Print(Obj(from.members), true, "") == Print(Obj(from.members), true, "");
    if FloatFreeMembers(from.members) { ObjectRoundTrip(from.members, true); }
    var pos;
    ok, copy, pos := ReadObject(text.value, 0);
  }

  // Escaping a string makes it safe to store unless it ends in a backslash:
  // the closing quote is then taken for an escaped one.
  lemma {:induction false} EscapeCloses(s: string)
    ensures Closed(JsonEscape.Escape(s)) <==> !(|s| > 0 && s[|s| - 1] == '\\')
    ensures forall i: nat :: i < |JsonEscape.Escape(s)| ==> !Bare(JsonEscape.Escape(s), i)
    ensures |s| > 0 ==> |JsonEscape.Escape(s)| > 0
  {
    if |s| > 0 {
      var e := JsonEscape.Escape(s);
      var head := JsonEscape.EscapeChar(s[0]);
      var rest := JsonEscape.Escape(s[1..]);
      EscapeCloses(s[1..]);
      assert e == head + rest;
      forall i: nat | i < |e| ensures !Bare(e, i) {
        if i >= |head| { assert !Bare(rest, i - |head|); }
      }
      if |rest| > 0 {
        assert e[|e| - 1] == rest[|rest| - 1];
      }
    }
  }

  // So a member set to the escaped form of a lone backslash is not copied.
  lemma LoneBackslashIsLost()
    ensures var m := [Member("a", Str(JsonEscape.Escape("\\")))];
      var r := ParseObject(Print(Obj(m), true, ""), 0);
      r.Fail? || r.value != m
  {
    var m := [Member("a", Str(JsonEscape.Escape("\\")))];
    EscapeCloses("\\");
    hide Print, ParseObject, JsonEscape.Escape, Closed;
    ObjectRoundTrip(m, true);
  }
}
