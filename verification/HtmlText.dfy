// The minified printer of the HTML tree.

module HtmlText {
  import opened Strings
  import opened HtmlTree

  predicate IsBlank(c: char) {
    c == ' ' || c == '\t' || c == '\r' || c == '\n'
  }

  // Trim of spaces, tabs and line ends: the two loops of the source.
  function TrimLeft(s: string): string {
    if |s| > 0 && IsBlank(s[0]) then TrimLeft(s[1..]) else s
  }

  function TrimRight(s: string): string {
    if |s| > 0 && IsBlank(s[|s| - 1]) then TrimRight(s[..|s| - 1]) else s
  }

  function Trim(s: string): string {
    TrimRight(TrimLeft(s))
  }

  // A trimmed text on one line.
  function Minified(s: string): string {
    ReplaceAll(ReplaceAll(ReplaceAll(Trim(s), "\r\n", " "), "\r", " "), "\n", " ")
  }

  // Elements whose texts are kept as they are.
  predicate KeepsText(name: string) {
    name in {"textarea", "pre", "code", "style"}
  }

  function PrintText(name: string, s: string): string {
    if KeepsText(name) then s else Minified(s)
  }

  // Before and after the first '=' of a name=value string.
  function NameOf(a: string): string {
    if |a| == 0 || a[0] == '=' then "" else [a[0]] + NameOf(a[1..])
  }

  function ValueOf(a: string): string {
    if |a| == 0 then "" else if a[0] == '=' then a[1..] else ValueOf(a[1..])
  }

  function PrintAttr(a: string): string {
    if '=' in a then " " + NameOf(a) + "=\"" + ReplaceAll(ValueOf(a), "\"", "&quot;") + "\""
    else " " + a
  }

  function PrintAttrs(attr: seq<string>): string {
    if |attr| == 0 then "" else PrintAttr(attr[0]) + PrintAttrs(attr[1..])
  }

  // The tag up to the node's contents, and after them.
  function PrintOpen(tag: Tag): string {
    "<" + tag.name + PrintAttrs(tag.attr) + if tag.selfClosing || tag.void then "" else ">"
  }

  function CloseText(tag: Tag): string {
    if tag.selfClosing then " />" else if tag.void then ">" else "</" + tag.name + ">"
  }

  // The blank after an element that asks for one and does not close itself.
  function SpaceText(tag: Tag): string {
    if tag.spaceAfter && !tag.selfClosing then " " else ""
  }

  function PrintClose(tag: Tag): string {
    CloseText(tag) + SpaceText(tag)
  }

  // GetHTML(true).
  function Print(t: Tree): string
    decreases t, 1
  {
    if t.tag.name == "" then EnsureLastChar(PrintInner(t.tag.name, t.text, t.childs), '\n')
    else PrintOpen(t.tag) + PrintInner(t.tag.name, t.text, t.childs) + PrintClose(t.tag)
  }

  function PrintInner(name: string, text: seq<string>, childs: seq<Tree>): string
    decreases childs, 0
  {
    if |text| == 0 then ""
    else if |childs| == 0 then PrintText(name, text[0])
    else PrintText(name, text[0]) + Print(childs[0]) + PrintInner(name, text[1..], childs[1..])
  }

  // ----------------------------------------------------- the loops themselves

  method TrimLoops(s: string) returns (res: string)
    ensures res == Trim(s)
  {
    res := s;
    while |res| > 0 && IsBlank(res[0])
      invariant TrimLeft(res) == TrimLeft(s)
      decreases |res|
    {
      res := res[1..];
    }
    while |res| > 0 && IsBlank(res[|res| - 1])
      invariant TrimRight(res) == Trim(s)
      decreases |res|
    {
      res := res[..|res| - 1];
    }
  }

  predicate OneTrimmedLine(t: string) {
    && (|t| > 0 ==> !IsBlank(t[0]) && !IsBlank(t[|t| - 1]))
    && forall i :: 0 <= i < |t| ==> t[i] != '\r' && t[i] != '\n'
  }

  method MinifyText(s: string) returns (t: string)
    ensures t == Minified(s) && OneTrimmedLine(t)
  {
    var trimmed := TrimLoops(s);
    var tmp := new StringBuffer(trimmed);
    ReplaceSubString(tmp, "\r\n", " ");
    ReplaceSubString(tmp, "\r", " ");
    ReplaceSubString(tmp, "\n", " ");
    t := tmp.value;
    OneLine(s);
  }

  // What is printed of any text is one line without blanks around it.
  lemma OneLine(s: string)
    ensures OneTrimmedLine(Minified(s))
  {
    hide ReplaceAll, Trim;
    var t0 := Trim(s);
    var t1 := ReplaceAll(t0, "\r\n", " ");
    var t2 := ReplaceAll(t1, "\r", " ");
    var t3 := ReplaceAll(t2, "\n", " ");
    TrimmedEnds(s);
    EndsKept(t0, "\r\n", " ");
    EndsKept(t1, "\r", " ");
    EndsKept(t2, "\n", " ");
    AllReplaced(t1, '\r', '\n');
    AllReplaced(t2, '\n', '\r');
  }

  predicate BlankFree(t: string) {
    |t| > 0 ==> !IsBlank(t[0]) && !IsBlank(t[|t| - 1])
  }

  lemma TrimmedEnds(s: string)
    ensures BlankFree(Trim(s))
  {
    LeftEnd(s);
    RightEnd(TrimLeft(s));
  }

  lemma {:induction false} LeftEnd(s: string)
    ensures |TrimLeft(s)| > 0 ==> !IsBlank(TrimLeft(s)[0])
    decreases |s|
  {
    if |s| > 0 && IsBlank(s[0]) { LeftEnd(s[1..]); }
  }

  lemma {:induction false} RightEnd(s: string)
    ensures var t := TrimRight(s); |t| > 0 ==> t[0] == s[0] && !IsBlank(t[|t| - 1])
    ensures |TrimRight(s)| <= |s|
    decreases |s|
  {
    if |s| > 0 && IsBlank(s[|s| - 1]) { RightEnd(s[..|s| - 1]); }
  }

  // Replacing blanks leaves ends that are none.
  lemma {:induction false} EndsKept(t: string, o: string, n: string)
    requires BlankFree(t) && |o| > 0 && IsBlank(o[0]) && IsBlank(o[|o| - 1])
    ensures BlankFree(ReplaceAll(t, o, n)) && (|t| > 0 <==> |ReplaceAll(t, o, n)| > 0)
    ensures |t| > 0 ==> ReplaceAll(t, o, n)[0] == t[0]
  {
    LastKept(t, o, n);
  }

  lemma {:induction false} LastKept(t: string, o: string, n: string)
    requires |o| > 0 && IsBlank(o[|o| - 1]) && (|t| > 0 ==> !IsBlank(t[|t| - 1]))
    ensures var r := ReplaceAll(t, o, n); |t| > 0 ==> |r| > 0 && r[|r| - 1] == t[|t| - 1]
    decreases |t|
  {
    if |t| >= |o| {
      if t[..|o|] == o {
        assert t[..|o|][|o| - 1] == t[|o| - 1] == o[|o| - 1];
        LastKept(t[|o|..], o, n);
      } else {
        LastKept(t[1..], o, n);
      }
    }
  }

  // No replaced character is left, and none of another kind comes in.
  lemma {:induction false} AllReplaced(t: string, c: char, d: char)
    requires c != ' ' && d != ' '
    ensures var r := ReplaceAll(t, [c], " "); c !in r && (d !in t ==> d !in r)
    decreases |t|
  {
    if |t| > 0 { AllReplaced(t[1..], c, d); }
  }

  // --------------------------------------------- what the printed text still says

  predicate AllBlank(t: string) {
    forall i :: 0 <= i < |t| ==> IsBlank(t[i])
  }

  ghost predicate Around(s: string, a: string, t: string, b: string) {
    s == a + t + b && AllBlank(a) && AllBlank(b)
  }

  // Trimming takes blanks off both ends and nothing else, until none is left there.
  lemma TrimIs(s: string)
    ensures BlankFree(Trim(s)) && exists a, b :: Around(s, a, Trim(s), b)
  {
    hide TrimRight, TrimLeft;
    TrimmedEnds(s);
    var a := LeftBlanks(s);
    var b := RightBlanks(TrimLeft(s));
    assert s == a + Trim(s) + b by { assert a + (Trim(s) + b) == a + Trim(s) + b; }
    assert Around(s, a, Trim(s), b);
  }

  lemma {:induction false} LeftBlanks(s: string) returns (a: string)
    ensures s == a + TrimLeft(s) && AllBlank(a)
    decreases |s|
  {
    a := "";
    if |s| > 0 && IsBlank(s[0]) {
      var more := LeftBlanks(s[1..]);
      a := [s[0]] + more;
      assert s == [s[0]] + s[1..];
    }
  }

  lemma {:induction false} RightBlanks(s: string) returns (b: string)
    ensures s == TrimRight(s) + b && AllBlank(b)
    decreases |s|
  {
    b := "";
    if |s| > 0 && IsBlank(s[|s| - 1]) {
      var more := RightBlanks(s[..|s| - 1]);
      b := more + [s[|s| - 1]];
      assert s == s[..|s| - 1] + [s[|s| - 1]];
    }
  }

  // Each line end, of one character or of two, becomes a blank.
  function Joined(s: string): string {
    if |s| == 0 then ""
    else if |s| > 1 && s[0] == '\r' && s[1] == '\n' then " " + Joined(s[2..])
    else (if s[0] == '\r' || s[0] == '\n' then " " else [s[0]]) + Joined(s[1..])
  }

  // The three replacements together.
  lemma MinifiedIs(s: string)
    ensures Minified(s) == Joined(Trim(s))
  {
    hide Trim, ReplaceAll, Joined;
    ThreePasses(Trim(s));
  }

  lemma {:induction false} ThreePasses(t: string)
    ensures ReplaceAll(ReplaceAll(ReplaceAll(t, "\r\n", " "), "\r", " "), "\n", " ") == Joined(t)
    decreases |t|
  {
    hide ReplaceAll;
    if |t| == 0 {
      NothingLeft("\r\n");
      NothingLeft("\r");
      NothingLeft("\n");
    } else {
      var pair := |t| > 1 && t[0] == '\r' && t[1] == '\n';
      var rest := if pair then t[2..] else t[1..];
      var c := if pair then ' ' else t[0];
      PairFirst(t);
      var u := ReplaceAll(rest, "\r\n", " ");
      CharReplaced(c, u, '\r', " ");
      CharReplaced(if c == '\r' then ' ' else c, ReplaceAll(u, "\r", " "), '\n', " ");
      ThreePasses(rest);
    }
  }

  lemma CharReplaced(c: char, rest: string, o: char, n: string)
    ensures ReplaceAll([c] + rest, [o], n) == (if c == o then n else [c]) + ReplaceAll(rest, [o], n)
  {
    assert ([c] + rest)[..1] == [c] && ([c] + rest)[1..] == rest;
  }

  lemma NothingLeft(o: string)
    ensures ReplaceAll("", o, " ") == ""
  {
  }

  lemma PairFirst(t: string)
    requires |t| > 0
    ensures ReplaceAll(t, "\r\n", " ") ==
            if |t| > 1 && t[0] == '\r' && t[1] == '\n' then [' '] + ReplaceAll(t[2..], "\r\n", " ")
            else [t[0]] + ReplaceAll(t[1..], "\r\n", " ")
  {
    if |t| == 1 {
      assert t == [t[0]] + "";
    } else {
      assert t[..2] == [t[0], t[1]];
    }
  }

  // The words of a text, of which the characters in `sofar` begin the next.
  function WordsFrom(sofar: string, s: string): seq<string>
    decreases |s|
  {
    if |s| == 0 then Ended(sofar)
    else if IsBlank(s[0]) then Ended(sofar) + WordsFrom("", s[1..])
    else WordsFrom(sofar + [s[0]], s[1..])
  }

  function Ended(word: string): seq<string> {
    if word == "" then [] else [word]
  }

  // No word is lost, joined with another, or cut.
  lemma MinifiedWords(s: string)
    ensures WordsFrom("", Minified(s)) == WordsFrom("", s)
  {
    hide Minified, Trim, Joined, WordsFrom;
    MinifiedIs(s);
    TrimIs(s);
    var a, b :| Around(s, a, Trim(s), b);
    JoinedWords("", Trim(s));
    assert a + Trim(s) + b == a + (Trim(s) + b);
    WordsAfter(a, Trim(s) + b);
    WordsBefore("", Trim(s), b);
  }

  lemma {:induction false} JoinedWords(sofar: string, s: string)
    ensures WordsFrom(sofar, Joined(s)) == WordsFrom(sofar, s)
    decreases |s|
  {
    if |s| > 0 {
      if |s| > 1 && s[0] == '\r' && s[1] == '\n' {
        JoinedWords("", s[2..]);
        assert Joined(s)[1..] == Joined(s[2..]);
        assert s[1..][1..] == s[2..];
        assert WordsFrom("", s[1..]) == [] + WordsFrom("", s[2..]) == WordsFrom("", s[2..]);
      } else {
        JoinedWords(if IsBlank(s[0]) then "" else sofar + [s[0]], s[1..]);
        assert Joined(s)[1..] == Joined(s[1..]);
      }
    }
  }

  lemma {:induction false} WordsAfter(a: string, t: string)
    requires AllBlank(a)
    ensures WordsFrom("", a + t) == WordsFrom("", t)
    decreases |a|
  {
    if |a| == 0 {
      assert a + t == t;
    } else {
      WordsAfter(a[1..], t);
      assert (a + t)[1..] == a[1..] + t;
      assert [] + WordsFrom("", t) == WordsFrom("", t);
    }
  }

  lemma {:induction false} WordsBefore(sofar: string, t: string, b: string)
    requires AllBlank(b)
    ensures WordsFrom(sofar, t + b) == WordsFrom(sofar, t)
    decreases |t|
  {
    if |t| == 0 {
      assert t + b == b;
      if |b| > 0 {
        assert b[1..] + "" == b[1..];
        WordsAfter(b[1..], "");
        assert Ended(sofar) + [] == Ended(sofar);
      }
    } else {
      assert (t + b)[1..] == t[1..] + b;
      WordsBefore(if IsBlank(t[0]) then "" else sofar + [t[0]], t[1..], b);
    }
  }

  // A line end in a text is kept in a `pre` and becomes a blank in a `p`.
  lemma TextKinds()
    ensures PrintText("pre", "a\nb") == "a\nb" && PrintText("p", "a\nb") == "a b"
  {
    hide Minified;
    assert |"p"| == 1 && |"textarea"| == 8 && |"pre"| == 3 && |"code"| == 4 && |"style"| == 5;
    MinifiedIs("a\nb");
    var s := "a\nb";
    assert TrimLeft(s) == s && TrimRight(s) == s;
    assert s[1..] == "\nb" && s[1..][1..] == "b" && "b"[1..] == "";
    assert Joined("b") == "b" && Joined("\nb") == " b" && Joined(s) == "a b";
  }

  // A quote in a value, which would end it, is printed as its entity.
  lemma QuoteInValue()
    ensures PrintAttr("t=a\"b") == " t=\"a&quot;b\""
  {
    hide ReplaceAll;
    var a := "t=a\"b";
    assert a[0] == 't' && a[1] == '=' && a[1..] == "=a\"b" && a[2..] == "a\"b" && a[1..][1..] == a[2..];
    assert NameOf(a[1..]) == "" && NameOf(a) == "t" && ValueOf(a) == "a\"b";
    assert "a\"b" == "a" + ("\"" + "b");
    CharReplaced('a', "\"" + "b", '\"', "&quot;");
    CharReplaced('\"', "b", '\"', "&quot;");
    CharReplaced('b', "", '\"', "&quot;");
    NothingReplacedIn('\"', "&quot;");
    assert "\"" + "b" == ['\"'] + "b" && "b" == ['b'] + "";
  }

  lemma NothingReplacedIn(o: char, n: string)
    ensures ReplaceAll("", [o], n) == ""
  {
  }

  lemma NoAttrs(sofar: string)
    ensures sofar + PrintAttrs([]) == sofar
  {
  }

  lemma AttrsFrom(sofar: string, attr: seq<string>, i: nat)
    requires i < |attr|
    ensures sofar + PrintAttrs(attr[i..]) == sofar + PrintAttr(attr[i]) + PrintAttrs(attr[i + 1..])
  {
    assert attr[i..][1..] == attr[i + 1..];
  }

  // The attribute loop of GetHTML.
  method AppendAttrs(text: string, attr: seq<string>) returns (r: string)
    ensures r == text + PrintAttrs(attr)
  {
    r := text;
    var i := 0;
    assert attr[0..] == attr;
    hide ReplaceAll, PrintAttrs;
    while i < |attr|
      invariant i <= |attr| && r + PrintAttrs(attr[i..]) == text + PrintAttrs(attr)
    {
      ghost var before := r;
      AttrsFrom(r, attr, i);
      if '=' in attr[i] {
        var value := new StringBuffer(ValueOf(attr[i]));
        ReplaceSubString(value, "\"", "&quot;");
        r := r + (" " + NameOf(attr[i]) + "=\"" + value.value + "\"");
      } else {
        r := r + (" " + attr[i]);
      }
      assert r == before + PrintAttr(attr[i]);
      i := i + 1;
    }
    assert attr[i..] == [];
    NoAttrs(r);
  }
}
