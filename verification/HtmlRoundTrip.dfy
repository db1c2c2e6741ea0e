// What reading the minified print of a tree back in XML mode gives, and when it
// is the tree.

module HtmlRoundTrip {
  import opened Strings
  import opened HtmlTree
  import opened HtmlText
  import opened HtmlParser

  // --------------------------------------------------------------- the domain

  predicate PlainChar(c: char) {
    !IsBlank(c) && !IsSign(c) && c != '\"' && c != '\0'
  }

  // A name that the tokenizer keeps in one piece.
  predicate PlainWord(w: string) {
    |w| > 0 && w[0] != '\'' && forall i :: 0 <= i < |w| ==> PlainChar(w[i])
  }

  predicate GoodValue(v: string) {
    forall i :: 0 <= i < |v| ==> v[i] != '\"' && v[i] != '\0'
  }

  predicate GoodAttr(a: string) {
    if '=' in a then PlainWord(NameOf(a)) && GoodValue(ValueOf(a)) else PlainWord(a)
  }

  // A run of text without quotes or tags, a quoted text, or a comment.
  datatype Piece = Run(t: string) | Quote(t: string) | Comment(t: string)

  function Spelled(p: Piece): string {
    match p
    case Run(t) => t
    case Quote(t) => "\"" + t + "\""
    case Comment(t) => "<!--" + t + "-->"
  }

  // A quote ends where no backslash is before it, and a comment at the first
  // closing mark, which may begin with the opening one's dashes.
  predicate GoodPiece(p: Piece) {
    match p
    case Run(t) => forall i :: 0 <= i < |t| ==> t[i] != '<' && t[i] != '\"'
    case Quote(t) => (forall i :: 0 <= i < |t| ==> t[i] != '\"') && (|t| > 0 ==> t[|t| - 1] != '\\')
    case Comment(t) => forall i :: 0 <= i < |t| && t[i] == '>' ==> !(("--" + t)[i] == '-' && ("--" + t)[i + 1] == '-')
  }

  function SpelledAll(ps: seq<Piece>): string {
    if |ps| == 0 then "" else Spelled(ps[0]) + SpelledAll(ps[1..])
  }

  // No quote begins behind a backslash.
  predicate GoodPieces(ps: seq<Piece>) {
    && (forall i :: 0 <= i < |ps| ==> GoodPiece(ps[i]))
    && forall i :: 0 < i < |ps| && ps[i].Quote? ==> |Spelled(ps[i - 1])| > 0 && Last(Spelled(ps[i - 1])) != '\\'
  }

  function Last(t: string): char
    requires |t| > 0
  {
    t[|t| - 1]
  }

  // Outside quotes and comments there is no markup.
  ghost predicate NoMarkup(t: string) {
    exists ps :: GoodPieces(ps) && SpelledAll(ps) == t
  }

  // Markup-free, and as the printer leaves it.
  ghost predicate GoodText(name: string, t: string) {
    NoMarkup(t) && (KeepsText(name) || OneTrimmedLine(t))
  }

  function AttrToken(a: string): seq<Token> {
    if '=' in a then [Word(NameOf(a)), Sign('='), Quoted(ValueOf(a))] else [Word(a)]
  }

  function AttrTokens(attr: seq<string>): seq<Token> {
    if |attr| == 0 then [] else AttrToken(attr[0]) + AttrTokens(attr[1..])
  }

  function Word(w: string): Token {
    Token(if |w| > 0 then w[0] else '\0', w, false, false)
  }

  function Quoted(v: string): Token {
    Token(if |v| > 0 then v[0] else '\"', v, true, false)
  }

  function EndTokens(selfClosing: bool): seq<Token> {
    if selfClosing then [Sign('/'), Sign('>')] else [Sign('>')]
  }

  // The tokens of a printed tag.
  function TagTokens(tag: Tag): seq<Token> {
    [Sign('<'), Word(tag.name)] + AttrTokens(tag.attr) + EndTokens(tag.selfClosing)
  }

  predicate GoodTag(tag: Tag) {
    && PlainWord(tag.name) && IsAlpha(tag.name[0])
    && (forall i :: 0 <= i < |tag.attr| ==> GoodAttr(tag.attr[i]))
    && (!tag.selfClosing ==> tag.void == IsVoidElement(tag.name))
  }

  ghost predicate GoodInner(name: string, text: seq<string>, childs: seq<Tree>)
    decreases childs, 0
  {
    && |text| == |childs| + 1
    && GoodText(name, text[0])
    && (|childs| > 0 ==> Good(childs[0]) && GoodInner(name, text[1..], childs[1..]))
  }

  // A named node; a tag that closes itself has nothing inside.
  ghost predicate Good(t: Tree)
    decreases t, 1
  {
    && GoodTag(t.tag)
    && (t.tag.selfClosing || t.tag.void ==> t.text == [""] && t.childs == [])
    && GoodInner(t.tag.name, t.text, t.childs)
  }

  // Every tag has room in the tokenizer's buffers.
  predicate Fits(t: Tree)
    decreases t, 1
  {
    |TagTokens(t.tag)| <= MAX_TOKENS && FitAll(t.childs)
  }

  predicate FitAll(childs: seq<Tree>)
    decreases childs, 0
  {
    |childs| == 0 || (Fits(childs[0]) && FitAll(childs[1..]))
  }

  // What comes back: a flag that is not in the text takes its default, and the
  // blank another one prints is found in the text after the node.
  function Reread(t: Tree): Tree
    decreases t, 1
  {
    Tree(RereadTag(t.tag), Spaced("", t.text, t.childs), RereadAll(t.childs))
  }

  // The texts around the children, each after the blank printed before it.
  function Spaced(lead: string, text: seq<string>, childs: seq<Tree>): (r: seq<string>)
    ensures |r| == |text|
    decreases |text|
  {
    if |text| == 0 then []
    else if |childs| == 0 then [lead + text[0]] + text[1..]
    else [lead + text[0]] + Spaced(SpaceText(childs[0].tag), text[1..], childs[1..])
  }

  function RereadAll(childs: seq<Tree>): (r: seq<Tree>)
    ensures |r| == |childs|
    decreases childs, 0
  {
    if |childs| == 0 then [] else [Reread(childs[0])] + RereadAll(childs[1..])
  }

  // ------------------------------------------------------------------- tokens

  predicate EndsWord(c: char) {
    IsBlank(c) || IsSign(c)
  }

  lemma {:induction false} PlainRun(s: string, pos: nat, start: nat, end: nat)
    requires start <= pos <= end <= |s|
    requires forall i :: pos <= i < end ==> PlainChar(s[i])
    ensures Tokenize(s, pos, start, false) == Tokenize(s, end, start, false)
    decreases end - pos
  {
    if pos < end {
      PlainRun(s, pos + 1, start, end);
    }
  }

  lemma {:induction false} QuotedRun(s: string, pos: nat, start: nat, end: nat)
    requires start <= pos <= end < |s| && s[end] == '\"'
    requires forall i :: pos <= i < end ==> s[i] != '\"' && s[i] != '\0'
    ensures Tokenize(s, pos, start, true) == Tokenize(s, end + 1, start, false)
    decreases end - pos
  {
    if pos < end {
      QuotedRun(s, pos + 1, start, end);
    }
  }

  // A word is set down when its end is reached.
  lemma Flush(s: string, start: nat, pos: nat)
    requires start < pos < |s| && EndsWord(s[pos])
    ensures Tokenize(s, pos, start, false) == Prepend([MakeToken(s, start, pos)], Tokenize(s, pos, pos, false))
  {
    assert s[pos] != '\"' && s[pos] != '\0';
    if IsBlank(s[pos]) {
      PrependTwice([MakeToken(s, start, pos)], [], Tokenize(s, SkipBlanks(s, pos), SkipBlanks(s, pos), false));
    } else if s[pos] != '>' {
      PrependTwice([MakeToken(s, start, pos)], [Sign(s[pos])], Tokenize(s, pos + 1, pos + 1, false));
    }
  }

  lemma PrependTwice(a: seq<Token>, b: seq<Token>, t: Tokens)
    ensures Prepend(a, Prepend(b, t)) == Prepend(a + b, t)
  {
    assert a + (b + t.list) == a + b + t.list;
  }

  lemma WordTokens(s: string, pos: nat, w: string)
    requires PlainWord(w) && OccursAt(s, w, pos)
    requires pos + |w| < |s| && EndsWord(s[pos + |w|])
    ensures Tokenize(s, pos, pos, false) == Prepend([Word(w)], Tokenize(s, pos + |w|, pos + |w|, false))
  {
    forall i | pos <= i < pos + |w| ensures PlainChar(s[i]) { CharOf(s, w, pos, i - pos); }
    CharOf(s, w, pos, 0);
    PlainRun(s, pos, pos, pos + |w|);
    Flush(s, pos, pos + |w|);
  }

  lemma QuotedTokens(s: string, pos: nat, v: string)
    requires GoodValue(v) && OccursAt(s, "\"" + v + "\"", pos)
    requires pos + |v| + 2 < |s| && EndsWord(s[pos + |v| + 2])
    ensures Tokenize(s, pos, pos, false) == Prepend([Quoted(v)], Tokenize(s, pos + |v| + 2, pos + |v| + 2, false))
  {
    var t := "\"" + v + "\"";
    var end := pos + |v| + 2;
    forall i | 0 <= i < |t| ensures s[pos + i] == t[i] { CharOf(s, t, pos, i); }
    forall i | pos + 1 <= i < end - 1 ensures s[i] != '\"' && s[i] != '\0' {
      assert s[i] == t[i - pos];
      assert t[i - pos] == v[i - pos - 1];
    }
    assert s[pos] == '\"' && s[end - 1] == '\"';
    QuotedRun(s, pos + 1, pos, end - 1);
    Flush(s, pos, end);
    assert s[pos + 1..end - 1] == v by {
      forall i | 0 <= i < |v| ensures s[pos + 1..end - 1][i] == v[i] { assert s[pos + 1 + i] == t[1 + i]; }
    }
    assert s[pos + 1] == t[1];
  }

  // A value in single quotes is cut out of them, where the scan meets no blank or
  // sign before they close.
  lemma SingleQuoted(s: string, pos: nat, v: string)
    requires (forall i :: 0 <= i < |v| ==> PlainChar(v[i])) && OccursAt(s, "'" + v + "'", pos)
    requires pos + |v| + 2 < |s| && EndsWord(s[pos + |v| + 2])
    ensures Tokenize(s, pos, pos, false) ==
            Prepend([Token(if |v| > 0 then v[0] else '\'', v, true, false)],
                    Tokenize(s, pos + |v| + 2, pos + |v| + 2, false))
  {
    hide Tokenize, OccursAt;
    var t := "'" + v + "'";
    var end := pos + |v| + 2;
    forall i | pos <= i < end ensures s[i] == t[i - pos] && PlainChar(s[i]) {
      CharOf(s, t, pos, i - pos);
      assert t[i - pos] == if i == pos || i == end - 1 then '\'' else v[i - pos - 1];
    }
    PlainRun(s, pos, pos, end);
    Flush(s, pos, end);
    assert s[pos + 1..end - 1] == v;
  }

  // A name, an equals sign and any token with a text make an attribute.
  lemma ReadPair(n: string, value: Token, rest: seq<Token>, prev: seq<Token>, tag: Tag)
    requires PlainWord(n) && !value.broken
    ensures ReadTag([Word(n), Sign('='), value] + rest, prev, tag, true) ==
            ReadTag(rest, [value], tag.(attr := tag.attr + [n + "=" + value.word]), true)
  {
    hide IsVoidElement;
    var list := [Word(n), Sign('='), value] + rest;
    assert PlainChar(n[0]);
    assert list[3..] == rest;
  }

  lemma SignTokens(s: string, pos: nat)
    requires pos < |s| && IsSign(s[pos])
    ensures Tokenize(s, pos, pos, false) ==
            if s[pos] == '>' then Tokens([Sign('>')], pos)
            else Prepend([Sign(s[pos])], Tokenize(s, pos + 1, pos + 1, false))
  {
  }

  lemma BlankTokens(s: string, pos: nat)
    requires pos + 1 < |s| && s[pos] == ' ' && !IsBlank(s[pos + 1])
    ensures Tokenize(s, pos, pos, false) == Tokenize(s, pos + 1, pos + 1, false)
  {
    assert SkipBlanks(s, pos) == SkipBlanks(s, pos + 1) == pos + 1;
    var t := Tokenize(s, pos + 1, pos + 1, false);
    assert Prepend([], t) == t;
  }

  // -------------------------------------------------------------------- a tag

  // A printed name=value string splits where it was joined.
  lemma {:induction false} NameValue(a: string)
    requires '=' in a
    ensures a == NameOf(a) + "=" + ValueOf(a)
  {
    if a[0] != '=' {
      assert '=' in a[1..];
      NameValue(a[1..]);
    }
  }

  lemma {:induction false} NothingReplaced(v: string, c: char, n: string)
    requires forall i :: 0 <= i < |v| ==> v[i] != c
    ensures ReplaceAll(v, [c], n) == v
  {
    if |v| > 0 {
      assert v[..1] != [c] by { assert v[..1][0] == v[0]; }
      NothingReplaced(v[1..], c, n);
    }
  }

  function EndText(selfClosing: bool): string {
    if selfClosing then " />" else ">"
  }

  lemma EndBack(s: string, pos: nat, selfClosing: bool)
    requires OccursAt(s, EndText(selfClosing), pos)
    ensures Tokenize(s, pos, pos, false) == Tokens(EndTokens(selfClosing), pos + |EndText(selfClosing)| - 1)
  {
    var t := EndText(selfClosing);
    forall i | 0 <= i < |t| ensures pos + i < |s| && s[pos + i] == t[i] { CharOf(s, t, pos, i); }
    if selfClosing {
      BlankTokens(s, pos);
      SignTokens(s, pos + 1);
      SignTokens(s, pos + 2);
    } else {
      SignTokens(s, pos);
    }
  }

  // One attribute, followed by the end of a word.
  lemma AttrBack(s: string, pos: nat, a: string, rest: string)
    requires GoodAttr(a) && OccursAt(s, PrintAttr(a) + rest, pos)
    requires |rest| > 0 && EndsWord(rest[0])
    ensures OccursAt(s, rest, pos + |PrintAttr(a)|)
    ensures Tokenize(s, pos, pos, false) ==
            Prepend(AttrToken(a), Tokenize(s, pos + |PrintAttr(a)|, pos + |PrintAttr(a)|, false))
  {
    hide Tokenize, OccursAt, ReplaceAll, PlainWord, GoodValue;
    Split(s, PrintAttr(a), rest, pos);
    CharOf(s, rest, pos + |PrintAttr(a)|, 0);
    if '=' in a {
      GoodValueKept(ValueOf(a));
      assert PrintAttr(a) == " " + (NameOf(a) + ("=" + ("\"" + ValueOf(a) + "\"")));
      PairBack(s, pos, NameOf(a), ValueOf(a));
    } else {
      Split(s, " ", a, pos);
      CharOf(s, " ", pos, 0);
      WordHead(s, pos + 1, a);
      BlankTokens(s, pos);
      WordTokens(s, pos + 1, a);
    }
  }

  lemma PairBack(s: string, pos: nat, n: string, v: string)
    requires PlainWord(n) && GoodValue(v) && OccursAt(s, " " + (n + ("=" + ("\"" + v + "\""))), pos)
    requires var e := pos + |n| + |v| + 4; e < |s| && EndsWord(s[e])
    ensures var e := pos + |n| + |v| + 4;
      Tokenize(s, pos, pos, false) == Prepend([Word(n), Sign('='), Quoted(v)], Tokenize(s, e, e, false))
  {
    hide Tokenize, OccursAt, PlainWord, GoodValue, Word, Quoted;
    var e := pos + |n| + |v| + 4;
    Split(s, " ", n + ("=" + ("\"" + v + "\"")), pos);
    Split(s, n, "=" + ("\"" + v + "\""), pos + 1);
    Split(s, "=", "\"" + v + "\"", pos + 1 + |n|);
    CharOf(s, " ", pos, 0);
    CharOf(s, "=", pos + 1 + |n|, 0);
    WordHead(s, pos + 1, n);
    BlankTokens(s, pos);
    WordTokens(s, pos + 1, n);
    SignTokens(s, pos + 1 + |n|);
    QuotedTokens(s, pos + 2 + |n|, v);
    var t := Tokenize(s, e, e, false);
    PrependTwice([Sign('=')], [Quoted(v)], t);
    PrependTwice([Word(n)], [Sign('=')] + [Quoted(v)], t);
    assert [Word(n)] + ([Sign('=')] + [Quoted(v)]) == [Word(n), Sign('='), Quoted(v)];
  }

  lemma GoodValueKept(v: string)
    requires GoodValue(v)
    ensures ReplaceAll(v, "\"", "&quot;") == v
  {
    NothingReplaced(v, '\"', "&quot;");
  }

  lemma WordHead(s: string, pos: nat, w: string)
    requires PlainWord(w) && OccursAt(s, w, pos)
    ensures |w| > 0 && pos < |s| && !IsBlank(s[pos])
  {
    CharOf(s, w, pos, 0);
  }

  lemma {:induction false} AttrsBack(s: string, pos: nat, attr: seq<string>, selfClosing: bool)
    requires forall i :: 0 <= i < |attr| ==> GoodAttr(attr[i])
    requires OccursAt(s, PrintAttrs(attr) + EndText(selfClosing), pos)
    ensures Tokenize(s, pos, pos, false) ==
            Tokens(AttrTokens(attr) + EndTokens(selfClosing), pos + |PrintAttrs(attr)| + |EndText(selfClosing)| - 1)
    decreases |attr|
  {
    hide Tokenize, OccursAt, GoodAttr, PrintAttr;
    if |attr| == 0 {
      assert PrintAttrs(attr) + EndText(selfClosing) == EndText(selfClosing);
      EndBack(s, pos, selfClosing);
      assert AttrTokens(attr) + EndTokens(selfClosing) == EndTokens(selfClosing);
    } else {
      var rest := PrintAttrs(attr[1..]) + EndText(selfClosing);
      assert PrintAttrs(attr) + EndText(selfClosing) == PrintAttr(attr[0]) + rest;
      RestHead(attr[1..], selfClosing);
      AttrBack(s, pos, attr[0], rest);
      AttrsBack(s, pos + |PrintAttr(attr[0])|, attr[1..], selfClosing);
      assert AttrToken(attr[0]) + (AttrTokens(attr[1..]) + EndTokens(selfClosing)) ==
          AttrTokens(attr) + EndTokens(selfClosing);
    }
  }

  lemma RestHead(attr: seq<string>, selfClosing: bool)
    ensures var rest := PrintAttrs(attr) + EndText(selfClosing); |rest| > 0 && EndsWord(rest[0])
  {
    if |attr| > 0 {
      assert PrintAttr(attr[0])[0] == ' ';
    }
  }

  // The text of a whole tag.
  function TagText(tag: Tag): string {
    "<" + tag.name + PrintAttrs(tag.attr) + EndText(tag.selfClosing)
  }

  // From the left, what a tag is made of and its tokens.
  lemma TagParts(tag: Tag)
    ensures TagText(tag) == "<" + (tag.name + (PrintAttrs(tag.attr) + EndText(tag.selfClosing)))
    ensures TagTokens(tag) == [Sign('<')] + ([Word(tag.name)] + (AttrTokens(tag.attr) + EndTokens(tag.selfClosing)))
  {
    hide PrintAttrs, EndText, AttrTokens, EndTokens, Sign, Word;
    Regroup("<", tag.name, PrintAttrs(tag.attr), EndText(tag.selfClosing));
    Regroup([Sign('<')], [Word(tag.name)], AttrTokens(tag.attr), EndTokens(tag.selfClosing));
    assert [Sign('<'), Word(tag.name)] == [Sign('<')] + [Word(tag.name)];
  }

  lemma Regroup<T>(a: seq<T>, b: seq<T>, c: seq<T>, d: seq<T>)
    ensures a + b + c + d == a + (b + (c + d))
  {
  }

  lemma TagBack(s: string, pos: nat, tag: Tag)
    requires GoodTag(tag) && OccursAt(s, TagText(tag), pos)
    ensures Tokenize(s, pos, pos, false) == Tokens(TagTokens(tag), pos + |TagText(tag)| - 1)
  {
    hide Tokenize, OccursAt, PlainWord, PrintAttrs, GoodAttr, AttrTokens, EndText, EndTokens, TagText, TagTokens;
    var tail := PrintAttrs(tag.attr) + EndText(tag.selfClosing);
    var e := pos + 1 + |tag.name|;
    TagParts(tag);
    Split(s, "<", tag.name + tail, pos);
    Split(s, tag.name, tail, pos + 1);
    CharOf(s, "<", pos, 0);
    RestHead(tag.attr, tag.selfClosing);
    CharOf(s, tail, e, 0);
    SignTokens(s, pos);
    WordHead(s, pos + 1, tag.name);
    WordTokens(s, pos + 1, tag.name);
    AttrsBack(s, e, tag.attr, tag.selfClosing);
  }

  // --------------------------------------------------------- reading its tokens

  predicate NotSlash(prev: seq<Token>) {
    |prev| > 0 ==> prev[0].first == '/' ==> prev[0].quoted
  }

  lemma ReadEnd(prev: seq<Token>, tag: Tag, selfClosing: bool)
    requires NotSlash(prev) && !tag.selfClosing && !tag.void
    ensures ReadTag(EndTokens(selfClosing), prev, tag, true) ==
            Read(tag.(selfClosing := selfClosing, void := !selfClosing && IsVoidElement(tag.name)))
  {
    hide IsVoidElement;
    if selfClosing { assert EndTokens(true)[1..] == [Sign('>')]; }
  }

  // The token an attribute leaves behind.
  function LastToken(a: string): Token {
    if '=' in a then Quoted(ValueOf(a)) else Word(a)
  }

  lemma ReadAttr(a: string, rest: seq<Token>, prev: seq<Token>, tag: Tag)
    requires GoodAttr(a) && |rest| > 0 && rest[0].first != '='
    ensures NotSlash([LastToken(a)])
    ensures ReadTag(AttrToken(a) + rest, prev, tag, true) ==
        ReadTag(rest, [LastToken(a)], tag.(attr := tag.attr + [a]), true)
  {
    hide IsVoidElement;
    var list := AttrToken(a) + rest;
    if '=' in a {
      NameValue(a);
      assert PlainChar(NameOf(a)[0]);
      assert list[3..] == rest;
    } else {
      assert PlainChar(a[0]);
      assert list[1..] == rest;
    }
  }

  lemma {:induction false} ReadAttrs(attr: seq<string>, prev: seq<Token>, tag: Tag, selfClosing: bool)
    requires forall i :: 0 <= i < |attr| ==> GoodAttr(attr[i])
    requires NotSlash(prev) && !tag.selfClosing && !tag.void
    ensures ReadTag(AttrTokens(attr) + EndTokens(selfClosing), prev, tag, true) ==
            Read(tag.(attr := tag.attr + attr, selfClosing := selfClosing,
                      void := !selfClosing && IsVoidElement(tag.name)))
    decreases |attr|
  {
    hide IsVoidElement, ReadTag, GoodAttr, AttrToken, NotSlash;
    var list := AttrTokens(attr) + EndTokens(selfClosing);
    if |attr| == 0 {
      ReadEnd(prev, tag, selfClosing);
      assert list == EndTokens(selfClosing);
      assert tag.attr + attr == tag.attr;
    } else {
      var rest := AttrTokens(attr[1..]) + EndTokens(selfClosing);
      var tag' := tag.(attr := tag.attr + [attr[0]]);
      RestFirst(attr[1..], selfClosing);
      ReadAttr(attr[0], rest, prev, tag);
      ReadAttrs(attr[1..], [LastToken(attr[0])], tag', selfClosing);
      assert list == AttrToken(attr[0]) + rest;
      assert tag'.attr + attr[1..] == tag.attr + attr;
    }
  }

  lemma RestFirst(attr: seq<string>, selfClosing: bool)
    requires forall i :: 0 <= i < |attr| ==> GoodAttr(attr[i])
    ensures var rest := AttrTokens(attr) + EndTokens(selfClosing); |rest| > 0 && rest[0].first != '='
  {
    if |attr| > 0 {
      var a := attr[0];
      if '=' in a { assert PlainChar(NameOf(a)[0]); } else { assert PlainChar(a[0]); }
    }
  }

  lemma TagRead(tag: Tag)
    requires GoodTag(tag)
    ensures ReadTag(TagTokens(tag), [], NO_TAG, false) ==
            Read(Tag(tag.name, tag.selfClosing, !tag.selfClosing && tag.void, false, false, tag.attr))
  {
    hide IsVoidElement, GoodAttr;
    var rest := AttrTokens(tag.attr) + EndTokens(tag.selfClosing);
    var list := TagTokens(tag);
    assert PlainChar(tag.name[0]);
    assert list[1..] == [Word(tag.name)] + rest;
    assert list[1..][1..] == rest;
    ReadAttrs(tag.attr, [Word(tag.name)], NO_TAG.(name := tag.name), tag.selfClosing);
    assert [] + tag.attr == tag.attr;
  }

  // ------------------------------------------------------------------ content

  lemma Plainly(s: string, pos: nat)
    requires pos < |s| && s[pos] != '\"'
    requires s[pos] == '<' ==> CharAt(s, pos + 1) != '!'
    ensures Next(s, pos, START) == START
  {
    if OccursAt(s, "<!--", pos) {
      CharOf(s, "<!--", pos, 0);
      CharOf(s, "<!--", pos, 1);
    }
  }

  lemma TextStep(s: string, pos: nat, sofar: string, text: seq<string>, childs: seq<Tree>)
    requires pos < |s| && s[pos] != '<' && s[pos] != '\"' && |text| == |childs|
    ensures ParseFrom(s, pos, START, sofar, text, childs) ==
            ParseFrom(s, pos + 1, START, sofar + [s[pos]], text, childs)
  {
    hide Next, ParseNode;
    Plainly(s, pos);
  }

  lemma {:induction false} RunBack(s: string, pos: nat, t: string, sofar: string, text: seq<string>, childs: seq<Tree>)
    requires OccursAt(s, t, pos) && GoodPiece(Run(t)) && |text| == |childs|
    ensures pos + |t| <= |s|
    ensures ParseFrom(s, pos, START, sofar, text, childs) == ParseFrom(s, pos + |t|, START, sofar + t, text, childs)
    decreases |t|
  {
    hide OccursAt, ParseFrom;
    Bound(s, t, pos);
    if |t| == 0 {
      assert sofar + t == sofar;
    } else {
      CharOf(s, t, pos, 0);
      TextStep(s, pos, sofar, text, childs);
      assert t == t[..1] + t[1..];
      Split(s, t[..1], t[1..], pos);
      RunBack(s, pos + 1, t[1..], sofar + [t[0]], text, childs);
      assert sofar + [t[0]] + t[1..] == sofar + t;
    }
  }

  const QUOTED := Scan(true, false)
  const COMMENTED := Scan(false, true)

  // One character taken, whatever it is, where the scan goes on in quotes or in a
  // comment, or where no tag begins.
  lemma TakenStep(s: string, pos: nat, st: Scan, st': Scan, sofar: string, text: seq<string>, childs: seq<Tree>)
    requires pos < |s| && Next(s, pos, st) == st' && |text| == |childs|
    requires st'.quotes || st'.comment || s[pos] != '<'
    ensures ParseFrom(s, pos, st, sofar, text, childs) == ParseFrom(s, pos + 1, st', sofar + [s[pos]], text, childs)
  {
    hide Next, ParseNode;
  }

  // A stretch that stays in quotes, or in a comment.
  lemma {:induction false} StretchBack(s: string, pos: nat, end: nat, st: Scan, sofar: string, text: seq<string>,
                                       childs: seq<Tree>)
    requires pos <= end <= |s| && (st == QUOTED || st == COMMENTED) && |text| == |childs|
    requires forall i :: pos <= i < end ==> Next(s, i, st) == st
    ensures ParseFrom(s, pos, st, sofar, text, childs) == ParseFrom(s, end, st, sofar + s[pos..end], text, childs)
    decreases end - pos
  {
    hide Next, ParseFrom;
    if pos == end {
      assert sofar + s[pos..end] == sofar;
    } else {
      TakenStep(s, pos, st, st, sofar, text, childs);
      StretchBack(s, pos + 1, end, st, sofar + [s[pos]], text, childs);
      assert sofar + [s[pos]] + s[pos + 1..end] == sofar + s[pos..end];
    }
  }

  // Into a stretch, over it and out again.
  lemma StretchWhole(s: string, pos: nat, u: string, st: Scan, sofar: string, text: seq<string>, childs: seq<Tree>)
    requires OccursAt(s, u, pos) && |u| > 1 && (st == QUOTED || st == COMMENTED) && |text| == |childs|
    requires var end := pos + |u| - 1;
      && Next(s, pos, START) == st && Next(s, end, st) == START && s[end] != '<'
      && forall i :: pos < i < end ==> Next(s, i, st) == st
    ensures pos + |u| <= |s|
    ensures ParseFrom(s, pos, START, sofar, text, childs) == ParseFrom(s, pos + |u|, START, sofar + u, text, childs)
  {
    hide Next, ParseFrom, OccursAt;
    var end := pos + |u| - 1;
    Slice(s, u, pos);
    TakenStep(s, pos, START, st, sofar, text, childs);
    StretchBack(s, pos + 1, end, st, sofar + [s[pos]], text, childs);
    TakenStep(s, end, st, START, sofar + [s[pos]] + s[pos + 1..end], text, childs);
    assert s[pos..end + 1] == [s[pos]] + s[pos + 1..end] + [s[end]];
    assert sofar + [s[pos]] + s[pos + 1..end] + [s[end]] == sofar + u;
  }

  lemma QuoteBack(s: string, pos: nat, t: string, sofar: string, text: seq<string>, childs: seq<Tree>)
    requires OccursAt(s, Spelled(Quote(t)), pos) && GoodPiece(Quote(t)) && (pos > 0 ==> s[pos - 1] != '\\')
    requires |text| == |childs|
    ensures var u := Spelled(Quote(t));
      && pos + |u| <= |s|
      && ParseFrom(s, pos, START, sofar, text, childs) == ParseFrom(s, pos + |u|, START, sofar + u, text, childs)
  {
    hide OccursAt, ParseFrom, Next;
    var u := Spelled(Quote(t));
    var end := pos + |u| - 1;
    Bound(s, u, pos);
    CharOf(s, u, pos, 0);
    CharOf(s, u, pos, |u| - 1);
    CharOf(s, u, pos, |u| - 2);
    QuoteOpens(s, pos);
    forall i | pos < i < end ensures Next(s, i, QUOTED) == QUOTED {
      CharOf(s, u, pos, i - pos);
      assert u[i - pos] == t[i - pos - 1];
      InQuote(s, i);
    }
    assert |t| > 0 ==> u[|u| - 2] == t[|t| - 1];
    QuoteCloses(s, end);
    StretchWhole(s, pos, u, QUOTED, sofar, text, childs);
  }

  lemma QuoteOpens(s: string, pos: nat)
    requires pos < |s| && s[pos] == '\"' && (pos > 0 ==> s[pos - 1] != '\\')
    ensures Next(s, pos, START) == QUOTED
  {
  }

  lemma InQuote(s: string, pos: nat)
    requires pos < |s| && s[pos] != '\"'
    ensures Next(s, pos, QUOTED) == QUOTED
  {
  }

  lemma QuoteCloses(s: string, pos: nat)
    requires 0 < pos < |s| && s[pos] == '\"' && s[pos - 1] != '\\'
    ensures Next(s, pos, QUOTED) == START
  {
    if OccursAt(s, "<!--", pos) { CharOf(s, "<!--", pos, 0); }
  }

  lemma CommentBack(s: string, pos: nat, t: string, sofar: string, text: seq<string>, childs: seq<Tree>)
    requires OccursAt(s, Spelled(Comment(t)), pos) && GoodPiece(Comment(t)) && |text| == |childs|
    ensures var u := Spelled(Comment(t));
      && pos + |u| <= |s|
      && ParseFrom(s, pos, START, sofar, text, childs) == ParseFrom(s, pos + |u|, START, sofar + u, text, childs)
  {
    hide OccursAt, ParseFrom, Next, GoodPiece;
    var u := Spelled(Comment(t));
    var end := pos + |u| - 1;
    Bound(s, u, pos);
    CommentOpens(s, pos, t);
    forall i | pos < i < end ensures Next(s, i, COMMENTED) == COMMENTED { InComment(s, pos, t, i); }
    CharOf(s, u, pos, |u| - 1);
    CharOf(s, u, pos, |u| - 2);
    CharOf(s, u, pos, |u| - 3);
    CommentCloses(s, end);
    StretchWhole(s, pos, u, COMMENTED, sofar, text, childs);
  }

  lemma CommentOpens(s: string, pos: nat, t: string)
    requires OccursAt(s, Spelled(Comment(t)), pos)
    ensures Next(s, pos, START) == COMMENTED
  {
    hide OccursAt;
    var u := Spelled(Comment(t));
    assert u == "<!--" + (t + "-->");
    Split(s, "<!--", t + "-->", pos);
    CharOf(s, "<!--", pos, 0);
  }

  lemma InComment(s: string, pos: nat, t: string, i: nat)
    requires OccursAt(s, Spelled(Comment(t)), pos) && GoodPiece(Comment(t))
    requires pos < i < pos + |Spelled(Comment(t))| - 1
    ensures i < |s| && Next(s, i, COMMENTED) == COMMENTED
  {
    hide OccursAt;
    var u := Spelled(Comment(t));
    var k := i - pos;
    CharOf(s, u, pos, k);
    if u[k] == '>' {
      var m := k - 4;
      assert u[1] == '!' && u[2] == u[3] == u[|t| + 4] == u[|t| + 5] == '-';
      assert 0 <= m < |t| && t[m] == u[k];
      CharOf(s, u, pos, k - 1);
      CharOf(s, u, pos, k - 2);
      var w := "--" + t;
      assert u[k - 1] == w[m + 1] && u[k - 2] == w[m];
    }
  }

  lemma CommentCloses(s: string, pos: nat)
    requires 1 < pos < |s| && s[pos] == '>' && s[pos - 1] == '-' && s[pos - 2] == '-'
    ensures Next(s, pos, COMMENTED) == START
  {
  }

  lemma PieceBack(s: string, pos: nat, p: Piece, sofar: string, text: seq<string>, childs: seq<Tree>)
    requires OccursAt(s, Spelled(p), pos) && GoodPiece(p) && |text| == |childs|
    requires p.Quote? && pos > 0 ==> pos <= |s| && s[pos - 1] != '\\'
    ensures pos + |Spelled(p)| <= |s|
    ensures ParseFrom(s, pos, START, sofar, text, childs) ==
            ParseFrom(s, pos + |Spelled(p)|, START, sofar + Spelled(p), text, childs)
  {
    hide OccursAt, ParseFrom;
    Bound(s, Spelled(p), pos);
    match p {
      case Run(t) => RunBack(s, pos, t, sofar, text, childs);
      case Quote(t) => QuoteBack(s, pos, t, sofar, text, childs);
      case Comment(t) => CommentBack(s, pos, t, sofar, text, childs);
    }
  }

  lemma {:induction false} PiecesBack(s: string, pos: nat, ps: seq<Piece>, sofar: string, text: seq<string>,
                                      childs: seq<Tree>)
    requires OccursAt(s, SpelledAll(ps), pos) && GoodPieces(ps) && |text| == |childs|
    requires |ps| > 0 && ps[0].Quote? && pos > 0 ==> pos <= |s| && s[pos - 1] != '\\'
    ensures var t := SpelledAll(ps);
      && pos + |t| <= |s|
      && ParseFrom(s, pos, START, sofar, text, childs) == ParseFrom(s, pos + |t|, START, sofar + t, text, childs)
    decreases |ps|
  {
    hide OccursAt, ParseFrom, GoodPiece, Spelled;
    Bound(s, SpelledAll(ps), pos);
    if |ps| == 0 {
      assert sofar + "" == sofar;
    } else {
      var u, rest := Spelled(ps[0]), SpelledAll(ps[1..]);
      Split(s, u, rest, pos);
      PieceBack(s, pos, ps[0], sofar, text, childs);
      if |ps| > 1 && ps[1].Quote? { CharOf(s, u, pos, |u| - 1); }
      PiecesBack(s, pos + |u|, ps[1..], sofar + u, text, childs);
      Assoc(sofar, u, rest);
    }
  }

  // A text is collected whole, its quotes and comments with it.
  lemma TextBack(s: string, pos: nat, t: string, sofar: string, text: seq<string>, childs: seq<Tree>)
    requires OccursAt(s, t, pos) && NoMarkup(t) && |text| == |childs|
    requires pos > 0 ==> pos <= |s| && s[pos - 1] != '\\'
    ensures pos + |t| <= |s|
    ensures ParseFrom(s, pos, START, sofar, text, childs) == ParseFrom(s, pos + |t|, START, sofar + t, text, childs)
  {
    hide OccursAt, ParseFrom, GoodPieces, SpelledAll;
    var ps :| GoodPieces(ps) && SpelledAll(ps) == t;
    PiecesBack(s, pos, ps, sofar, text, childs);
  }

  // Text without quotes or tags is one piece.
  lemma RunOnly(t: string)
    requires GoodPiece(Run(t))
    ensures NoMarkup(t)
  {
    var ps := [Run(t)];
    assert ps[1..] == [] && SpelledAll(ps) == t + "" == t;
    assert GoodPieces(ps);
  }

  lemma TextKept(name: string, t: string)
    requires GoodText(name, t)
    ensures PrintText(name, t) == t && NoMarkup(t)
  {
    if !KeepsText(name) {
      assert TrimRight(TrimLeft(t)) == t;
      Unbroken(t, "\r\n", " ", '\n');
      Unbroken(t, "\r", " ", '\r');
      Unbroken(t, "\n", " ", '\n');
    }
  }

  // Nothing is replaced where a character of the sought string is missing.
  lemma Unbroken(t: string, o: string, n: string, c: char)
    requires |o| > 0 && o[|o| - 1] == c && forall i :: 0 <= i < |t| ==> t[i] != c
    ensures ReplaceAll(t, o, n) == t
  {
    forall i: nat | i < |t| ensures !OccursAt(t + "", o, i) {
      assert t + "" == t;
      NoMatch(t, o, i, |o| - 1);
    }
    ReplaceSkips(t, "", o, n);
    ReplaceShort("", o, n);
    assert t + "" == t;
  }

  lemma OpenStep(s: string, pos: nat, sofar: string, text: seq<string>, childs: seq<Tree>)
    requires pos + 1 < |s| && s[pos] == '<' && IsAlpha(s[pos + 1]) && |text| == |childs|
    ensures ParseFrom(s, pos, START, sofar, text, childs) ==
            match ParseNode(s, pos)
            case NoNode(u) => Failed(u)
            case Node(t, last) => ParseFrom(s, last + 1, START, "", text + [sofar], childs + [t])
  {
    Plainly(s, pos);
    hide ParseNode, Next;
  }

  lemma {:induction false} FindEnd(s: string, pos: nat, t: string)
    requires OccursAt(s, t + ">", pos) && forall i :: 0 <= i < |t| ==> t[i] != '>' && t[i] != '\0'
    ensures FindChar(s, '>', pos) == pos + |t|
    decreases |t|
  {
    CharOf(s, t + ">", pos, 0);
    if |t| > 0 {
      assert t + ">" == t[..1] + (t[1..] + ">");
      Split(s, t[..1], t[1..] + ">", pos);
      FindEnd(s, pos + 1, t[1..]);
    }
  }

  lemma ClosingTag(s: string, pos: nat, name: string, sofar: string, text: seq<string>, childs: seq<Tree>)
    requires PlainWord(name) && OccursAt(s, "</" + name + ">", pos) && |text| == |childs|
    ensures ParseFrom(s, pos, START, sofar, text, childs) ==
        Parsed(Content(text + [sofar], childs), pos + |name| + 2, true)
  {
    var t := "</" + name;
    CharOf(s, t + ">", pos, 0);
    CharOf(s, t + ">", pos, 1);
    Plainly(s, pos);
    forall i | 0 <= i < |t| ensures t[i] != '>' && t[i] != '\0' {
      if i >= 2 { assert t[i] == name[i - 2] && PlainChar(name[i - 2]); }
    }
    FindEnd(s, pos, t);
    hide FindChar, Next;
  }

  lemma TagExactly(s: string, pos: nat, tag: Tag)
    requires GoodTag(tag) && OccursAt(s, TagText(tag), pos)
    ensures var r := Tokenize(s, pos, pos, false);
      && r.end == pos + |TagText(tag)| - 1
      && TagOf(r) == if |TagTokens(tag)| <= MAX_TOKENS then Read(RereadTag(tag)) else Undefined
  {
    TagBack(s, pos, tag);
    TagRead(tag);
    hide Tokenize, OccursAt, TagText, ReadTag, TagTokens, GoodTag;
  }

  function RereadTag(tag: Tag): Tag {
    Tag(tag.name, tag.selfClosing, !tag.selfClosing && tag.void, false, false, tag.attr)
  }

  // A printed element is read back whole.
  lemma {:induction false} NodeBack(s: string, pos: nat, t: Tree)
    requires Good(t) && OccursAt(s, TagText(t.tag) + Rest(t), pos)
    ensures pos + 1 < |s| && s[pos] == '<' && IsAlpha(s[pos + 1])
    ensures ParseNode(s, pos) ==
            if Fits(t) then Node(Reread(t), pos + |TagText(t.tag) + Rest(t)| - 1) else NoNode(true)
    decreases t, 1
  {
    hide Tokenize, TagOf, OccursAt, TagText, TagTokens, GoodTag, GoodInner, PrintInner, ParseFrom, RereadAll, PlainWord,
         Spaced;
    var tag := t.tag;
    Split(s, TagText(tag), Rest(t), pos);
    TagHead(s, pos, tag);
    TagExactly(s, pos, tag);
    var e := pos + |TagText(tag)|;
    if tag.selfClosing || tag.void {
      EmptyReread(t);
    } else {
      var inner := PrintInner(tag.name, t.text, t.childs);
      Split(s, inner, "</" + tag.name + ">", e);
      Bound(s, Rest(t), e);
      TagEnds(s, pos, tag);
      InnerBack(s, e, tag.name, t.text, t.childs, "", [], []);
      if FitAll(t.childs) {
        var n, sh := |t.childs|, Spaced("", t.text, t.childs);
        GoodLength(tag.name, t.text, t.childs);
        ClosingTag(s, e + |inner|, tag.name, sh[n], sh[..n], RereadAll(t.childs));
        assert [] + sh[..n] == sh[..n] && sh[..n] + [sh[n]] == sh;
        assert [] + RereadAll(t.childs) == RereadAll(t.childs);
      }
    }
  }

  // What follows the tag in the print of an element, but for its blank.
  function Rest(t: Tree): string {
    if t.tag.selfClosing || t.tag.void then ""
    else PrintInner(t.tag.name, t.text, t.childs) + ("</" + t.tag.name + ">")
  }

  lemma ElementText(t: Tree)
    requires Good(t)
    ensures Print(t) == TagText(t.tag) + Rest(t) + SpaceText(t.tag)
  {
    hide PrintInner, PrintAttrs, GoodInner, GoodAttr, IsVoidElement;
    if t.tag.selfClosing || t.tag.void {
      NothingInside(t.tag.name);
      AroundNothing(PrintOpen(t.tag), CloseText(t.tag), SpaceText(t.tag));
    } else {
      Around(PrintOpen(t.tag), PrintInner(t.tag.name, t.text, t.childs), CloseText(t.tag), SpaceText(t.tag));
    }
  }

  lemma NothingInside(name: string)
    ensures PrintInner(name, [""], []) == ""
  {
  }

  lemma AroundNothing(a: string, c: string, d: string)
    ensures a + "" + (c + d) == a + c + "" + d
  {
  }

  lemma Around(a: string, b: string, c: string, d: string)
    ensures a + b + (c + d) == a + (b + c) + d
  {
  }

  lemma TagHead(s: string, pos: nat, tag: Tag)
    requires GoodTag(tag) && OccursAt(s, TagText(tag), pos)
    ensures pos + 1 < |s| && s[pos] == '<' && IsAlpha(s[pos + 1])
    ensures PlainWord(tag.name) && |TagText(tag)| >= 2 && pos + |TagText(tag)| <= |s|
  {
    CharOf(s, TagText(tag), pos, 0);
    CharOf(s, TagText(tag), pos, 1);
  }

  lemma TagEnds(s: string, pos: nat, tag: Tag)
    requires OccursAt(s, TagText(tag), pos)
    ensures var e := pos + |TagText(tag)|; 0 < e <= |s| && s[e - 1] == '>'
  {
    hide OccursAt, PrintAttrs;
    Bound(s, TagText(tag), pos);
    assert Last(EndText(tag.selfClosing)) == '>';
    CharOf(s, TagText(tag), pos, |TagText(tag)| - 1);
  }

  lemma EmptyReread(t: Tree)
    requires Good(t) && (t.tag.selfClosing || t.tag.void)
    ensures Reread(t) == Tree(RereadTag(t.tag), [""], []) && FitAll(t.childs)
  {
    assert "" + "" == "" && [""] + [""][1..] == [""];
  }

  lemma GoodLength(name: string, text: seq<string>, childs: seq<Tree>)
    requires GoodInner(name, text, childs)
    ensures |text| == |childs| + 1
  {
  }

  // Printed contents are read back, up to where they end, after the blank that
  // stands before them.
  lemma {:induction false} InnerBack(s: string, pos: nat, name: string, text: seq<string>, childs: seq<Tree>,
                                     lead: string, done: seq<string>, nodes: seq<Tree>)
    requires GoodInner(name, text, childs) && OccursAt(s, PrintInner(name, text, childs), pos) && |done| == |nodes|
    requires pos > 0 ==> pos <= |s| && s[pos - 1] != '\\'
    ensures var n, sh := |childs|, Spaced(lead, text, childs);
      && |text| == n + 1 && pos + |PrintInner(name, text, childs)| <= |s|
      && ParseFrom(s, pos, START, lead, done, nodes) ==
         if FitAll(childs)
         then ParseFrom(s, pos + |PrintInner(name, text, childs)|, START,
                        sh[n], done + sh[..n], nodes + RereadAll(childs))
         else Failed(true)
    decreases childs, 0
  {
    hide OccursAt, ParseFrom, ParseNode, Print, PrintInner, GoodInner, GoodText, Good, Fits, Reread, Spaced, RereadAll,
         TagText, Rest, SpaceText, NoMarkup;
    GoodLength(name, text, childs);
    Bound(s, PrintInner(name, text, childs), pos);
    if |childs| == 0 {
      LastTextBack(s, pos, name, text, childs, lead, done, nodes);
    } else {
      var c := childs[0];
      InnerParts(s, pos, name, text, childs);
      NodeBack(s, pos + |text[0]|, c);
      NodeEnds(s, pos + |text[0]|, c);
      var f := pos + |text[0]| + |TagText(c.tag) + Rest(c)|;
      BlankEnds(s, f, c.tag);
      BlankUnmarked(c.tag);
      ChildBack(s, pos, text[0], f, Reread(c), Fits(c), SpaceText(c.tag), lead, done, nodes);
      if Fits(c) {
        InnerBack(s, pos + |text[0]| + |Print(c)|, name, text[1..], childs[1..],
                  SpaceText(c.tag), done + [lead + text[0]], nodes + [Reread(c)]);
        NextText(lead, text, childs, done, nodes);
      }
    }
  }

  // An element ends in its '>', and a blank may follow.
  lemma NodeEnds(s: string, pos: nat, t: Tree)
    requires OccursAt(s, TagText(t.tag) + Rest(t), pos)
    ensures var f := pos + |TagText(t.tag) + Rest(t)|; 0 < f <= |s| && s[f - 1] == '>'
  {
    hide OccursAt, PrintInner, PrintAttrs;
    var u := TagText(t.tag) + Rest(t);
    Bound(s, u, pos);
    assert Last(u) == '>' by {
      if t.tag.selfClosing || t.tag.void {
        assert u == TagText(t.tag) && Last(EndText(t.tag.selfClosing)) == '>';
      } else {
        assert Last("</" + t.tag.name + ">") == '>';
      }
    }
    CharOf(s, u, pos, |u| - 1);
  }

  lemma BlankEnds(s: string, f: nat, tag: Tag)
    requires OccursAt(s, SpaceText(tag), f) && 0 < f <= |s| && s[f - 1] == '>'
    ensures var g := f + |SpaceText(tag)|; g <= |s| && s[g - 1] != '\\'
  {
    hide OccursAt;
    Bound(s, SpaceText(tag), f);
    if |SpaceText(tag)| > 0 { CharOf(s, SpaceText(tag), f, 0); }
  }

  lemma LastTextBack(s: string, pos: nat, name: string, text: seq<string>, childs: seq<Tree>, lead: string,
                     done: seq<string>, nodes: seq<Tree>)
    requires GoodInner(name, text, childs) && |childs| == 0 && |done| == |nodes|
    requires OccursAt(s, PrintInner(name, text, childs), pos)
    requires pos > 0 ==> pos <= |s| && s[pos - 1] != '\\'
    ensures var sh, p := Spaced(lead, text, childs), PrintInner(name, text, childs);
      && pos + |p| <= |s|
      && ParseFrom(s, pos, START, lead, done, nodes) ==
         ParseFrom(s, pos + |p|, START, sh[0], done + sh[..0], nodes + RereadAll(childs))
  {
    hide OccursAt, ParseFrom, GoodText, PrintText, NoMarkup;
    TextKept(name, text[0]);
    TextBack(s, pos, text[0], lead, done, nodes);
    assert done + [] == done && nodes + [] == nodes;
    assert Spaced(lead, text, childs)[..0] == [];
  }

  // Where the pieces of printed contents are.
  lemma InnerParts(s: string, pos: nat, name: string, text: seq<string>, childs: seq<Tree>)
    requires GoodInner(name, text, childs) && |childs| > 0 && OccursAt(s, PrintInner(name, text, childs), pos)
    ensures var c, rest := childs[0], PrintInner(name, text[1..], childs[1..]);
      var e := pos + |text[0]|;
      && Good(c) && GoodInner(name, text[1..], childs[1..]) && NoMarkup(text[0])
      && OccursAt(s, text[0], pos) && OccursAt(s, TagText(c.tag) + Rest(c), e)
      && OccursAt(s, SpaceText(c.tag), e + |TagText(c.tag) + Rest(c)|) && OccursAt(s, rest, e + |Print(c)|)
      && |Print(c)| == |TagText(c.tag) + Rest(c)| + |SpaceText(c.tag)|
      && |PrintInner(name, text, childs)| == |text[0]| + |Print(c)| + |rest|
  {
    hide OccursAt, Print, GoodText, Good, PrintText, NoMarkup, TagText, Rest, SpaceText;
    TextKept(name, text[0]);
    var c, rest := childs[0], PrintInner(name, text[1..], childs[1..]);
    ElementText(c);
    assert PrintInner(name, text, childs) == text[0] + (Print(c) + rest);
    Split(s, text[0], Print(c) + rest, pos);
    Split(s, Print(c), rest, pos + |text[0]|);
    Split(s, TagText(c.tag) + Rest(c), SpaceText(c.tag), pos + |text[0]|);
  }

  // A text, the node after it up to f, and its blank.
  lemma ChildBack(s: string, pos: nat, t: string, f: nat, node: Tree, fits: bool, sp: string, lead: string,
                  done: seq<string>, nodes: seq<Tree>)
    requires |done| == |nodes| && (pos > 0 ==> pos <= |s| && s[pos - 1] != '\\')
    requires NoMarkup(t) && OccursAt(s, t, pos) && pos + |t| + 1 < |s|
    requires s[pos + |t|] == '<' && IsAlpha(s[pos + |t| + 1])
    requires 0 < f <= f + |sp| <= |s| && s[f - 1] == '>' && NoMarkup(sp) && OccursAt(s, sp, f)
    requires ParseNode(s, pos + |t|) == if fits then Node(node, f - 1) else NoNode(true)
    ensures ParseFrom(s, pos, START, lead, done, nodes) ==
            if fits then ParseFrom(s, f + |sp|, START, sp, done + [lead + t], nodes + [node]) else Failed(true)
  {
    hide OccursAt, ParseFrom, ParseNode, NoMarkup;
    TextBack(s, pos, t, lead, done, nodes);
    OpenStep(s, pos + |t|, lead + t, done, nodes);
    if fits {
      TextBack(s, f, sp, "", done + [lead + t], nodes + [node]);
      assert "" + sp == sp;
    }
  }

  lemma BlankUnmarked(tag: Tag)
    ensures NoMarkup(SpaceText(tag))
  {
    RunOnly(SpaceText(tag));
  }

  lemma NextText(lead: string, text: seq<string>, childs: seq<Tree>, done: seq<string>, nodes: seq<Tree>)
    requires |text| == |childs| + 1 && |childs| > 0
    ensures var n, sh := |childs|, Spaced(lead, text, childs);
      var next := Spaced(SpaceText(childs[0].tag), text[1..], childs[1..]);
      && next[n - 1] == sh[n] && done + [lead + text[0]] + next[..n - 1] == done + sh[..n]
      && nodes + [Reread(childs[0])] + RereadAll(childs[1..]) == nodes + RereadAll(childs)
  {
    hide Reread, SpaceText;
    var n, sh := |childs|, Spaced(lead, text, childs);
    var next := Spaced(SpaceText(childs[0].tag), text[1..], childs[1..]);
    assert sh == [lead + text[0]] + next;
    assert sh[..n] == [lead + text[0]] + next[..n - 1];
    Assoc(done, [lead + text[0]], next[..n - 1]);
    Assoc(nodes, [Reread(childs[0])], RereadAll(childs[1..]));
  }

  lemma Assoc<T>(a: seq<T>, b: seq<T>, c: seq<T>)
    ensures a + b + c == a + (b + c)
  {
  }

  // ------------------------------------------------------------- whole documents

  lemma {:induction false} InnerEnd(name: string, text: seq<string>, childs: seq<Tree>)
    requires GoodInner(name, text, childs) && !KeepsText(name)
    ensures var p := PrintInner(name, text, childs); |p| > 0 ==> p[|p| - 1] != '\n'
    decreases childs
  {
    hide Print, PrintText, Good, GoodText, KeepsText;
    TextEnd(name, text[0]);
    if |childs| > 0 {
      InnerEnd(name, text[1..], childs[1..]);
      ElementEnd(childs[0]);
    }
  }

  lemma TextEnd(name: string, t: string)
    requires GoodText(name, t) && !KeepsText(name)
    ensures var p := PrintText(name, t); |p| > 0 ==> p[|p| - 1] != '\n'
  {
    TextKept(name, t);
  }

  lemma ElementEnd(t: Tree)
    requires Good(t)
    ensures |Print(t)| > 0 && Print(t)[|Print(t)| - 1] != '\n'
  {
    hide Print, PrintInner, PrintAttrs, GoodInner, GoodAttr;
    ElementText(t);
  }

  function EndedText(text: seq<string>): seq<string>
    requires |text| > 0
  {
    text[..|text| - 1] + [text[|text| - 1] + "\n"]
  }

  // ParseXML(GetHTML(true)): the same tree, with a newline after its last text
  // and printed blanks in its texts, exactly when every tag has room in the
  // tokenizer's buffers.
  lemma DocumentRoundTrip(t: Tree)
    requires t.tag.name == "" && GoodInner("", t.text, t.childs)
    ensures ParseFrom(Print(t), 0, START, "", [], []) ==
            if FitAll(t.childs)
            then Parsed(Content(EndedText(Spaced("", t.text, t.childs)), RereadAll(t.childs)), |Print(t)|, false)
            else Failed(true)
  {
    hide ParseFrom, PrintInner, GoodInner, FitAll, RereadAll, Spaced;
    var inner := PrintInner("", t.text, t.childs);
    var s, n, sh := Print(t), |t.childs|, Spaced("", t.text, t.childs);
    InnerEnd("", t.text, t.childs);
    assert s == inner + "\n";
    assert OccursAt(s, inner, 0) && OccursAt(s, "\n", |inner|);
    InnerBack(s, 0, "", t.text, t.childs, "", [], []);
    if FitAll(t.childs) {
      RunBack(s, |inner|, "\n", sh[n], sh[..n], RereadAll(t.childs));
      assert [] + sh[..n] == sh[..n] && [] + RereadAll(t.childs) == RereadAll(t.childs);
      EndStep(s, START, sh[n] + "\n", sh[..n], RereadAll(t.childs));
    }
  }

  // No node is followed by a blank of its own.
  predicate Unspaced(childs: seq<Tree>)
    decreases childs
  {
    |childs| == 0
    || (SpaceText(childs[0].tag) == "" && Unspaced(childs[0].childs) && Unspaced(childs[1..]))
  }

  // The tree with its flags at their defaults and nothing else changed.
  function Plain(t: Tree): Tree
    decreases t, 1
  {
    Tree(RereadTag(t.tag), t.text, PlainAll(t.childs))
  }

  function PlainAll(childs: seq<Tree>): (r: seq<Tree>)
    ensures |r| == |childs|
    decreases childs, 0
  {
    if |childs| == 0 then [] else [Plain(childs[0])] + PlainAll(childs[1..])
  }

  // Nothing but flags differs exactly when no node is followed by a blank.
  lemma {:induction false} SpacesAreText(lead: string, text: seq<string>, childs: seq<Tree>, name: string)
    requires GoodInner(name, text, childs)
    ensures Spaced(lead, text, childs) == text && RereadAll(childs) == PlainAll(childs)
        <==> lead == "" && Unspaced(childs)
    decreases childs
  {
    hide GoodText, GoodTag;
    LeadIs(lead, text[0]);
    if |childs| == 0 {
      assert text == [text[0]] + text[1..];
    } else {
      var c, next := childs[0], Spaced(SpaceText(childs[0].tag), text[1..], childs[1..]);
      SpacesAreText("", c.text, c.childs, c.tag.name);
      SpacesAreText(SpaceText(c.tag), text[1..], childs[1..], name);
      ConsSame(lead + text[0], next, text);
      ConsBoth(Reread(c), RereadAll(childs[1..]), Plain(c), PlainAll(childs[1..]));
    }
  }

  lemma LeadIs(lead: string, t: string)
    ensures lead + t == t <==> lead == ""
  {
    if lead + t == t { assert |lead + t| == |t|; }
  }

  lemma ConsSame<T>(x: T, rest: seq<T>, s: seq<T>)
    requires |s| > 0
    ensures [x] + rest == s <==> x == s[0] && rest == s[1..]
  {
    assert s == [s[0]] + s[1..];
    ConsBoth(x, rest, s[0], s[1..]);
  }

  lemma ConsBoth<T>(x: T, xs: seq<T>, y: T, ys: seq<T>)
    ensures [x] + xs == [y] + ys <==> x == y && xs == ys
  {
    if [x] + xs == [y] + ys { assert ([x] + xs)[0] == ([y] + ys)[0] && ([x] + xs)[1..] == ([y] + ys)[1..]; }
  }

  // The tree itself comes back, with a newline after its last text, exactly
  // when every tag fits and no node is followed by a blank.
  lemma DocumentComesBack(t: Tree)
    requires t.tag.name == "" && GoodInner("", t.text, t.childs)
    ensures ParseFrom(Print(t), 0, START, "", [], [])
         == Parsed(Content(EndedText(t.text), PlainAll(t.childs)), |Print(t)|, false)
        <==> FitAll(t.childs) && Unspaced(t.childs)
  {
    hide ParseFrom, Print, GoodInner, FitAll, RereadAll, PlainAll, Spaced, Unspaced;
    DocumentRoundTrip(t);
    SpacesAreText("", t.text, t.childs, "");
    GoodLength("", t.text, t.childs);
    EndedOnce(Spaced("", t.text, t.childs), t.text);
  }

  lemma EndedOnce(a: seq<string>, b: seq<string>)
    requires |a| == |b| > 0
    ensures EndedText(a) == EndedText(b) <==> a == b
  {
    var n := |a| - 1;
    if EndedText(a) == EndedText(b) {
      assert EndedText(a)[..n] == a[..n] && EndedText(b)[..n] == b[..n];
      assert EndedText(a)[n] == a[n] + "\n" && EndedText(b)[n] == b[n] + "\n";
      assert (a[n] + "\n")[..|a[n]|] == a[n] && (b[n] + "\n")[..|b[n]|] == b[n];
      assert a == a[..n] + [a[n]] && b == b[..n] + [b[n]];
    }
  }

  // ---------------------------------------------------------- printing it again

  // The blanks after nodes whose surroundings are trimmed.
  function Lost(name: string, childs: seq<Tree>): nat
    decreases childs
  {
    if |childs| == 0 then 0
    else
      (if KeepsText(name) then 0 else |SpaceText(childs[0].tag)|)
      + Lost(childs[0].tag.name, childs[0].childs) + Lost(name, childs[1..])
  }

  // What a blank before a text adds to the print.
  function LeadText(name: string, lead: string): string {
    if KeepsText(name) then lead else ""
  }

  lemma LeadPrints(name: string, tag: Tag, t: string)
    ensures PrintText(name, SpaceText(tag) + t) == LeadText(name, SpaceText(tag)) + PrintText(name, t)
  {
    if SpaceText(tag) == "" {
      assert "" + t == t && "" + PrintText(name, t) == PrintText(name, t);
    } else if !KeepsText(name) {
      assert (" " + t)[1..] == t;
      assert TrimLeft(" " + t) == TrimLeft(t);
      assert "" + PrintText(name, t) == PrintText(name, t);
    }
  }

  // Printing what came back gives the same text again but for those blanks.
  lemma {:induction false} PrintsAgain(t: Tree)
    requires Good(t)
    ensures |Print(Reread(t))| + Lost(t.tag.name, t.childs) + |SpaceText(t.tag)| == |Print(t)|
    ensures Lost(t.tag.name, t.childs) == 0 ==> Print(Reread(t)) + SpaceText(t.tag) == Print(t)
    decreases t, 1
  {
    hide PrintInner, GoodInner, PrintAttrs, RereadAll, Spaced, KeepsText, GoodAttr, IsVoidElement;
    InnerAgain(t.tag.name, t.text, t.childs, NO_TAG);
    RereadOpens(t);
    var inner := PrintInner(t.tag.name, t.text, t.childs);
    assert LeadText(t.tag.name, SpaceText(NO_TAG)) + inner == inner;
  }

  lemma RereadOpens(t: Tree)
    requires Good(t)
    ensures PrintOpen(Reread(t).tag) == PrintOpen(t.tag) && CloseText(Reread(t).tag) == CloseText(t.tag)
    ensures SpaceText(Reread(t).tag) == "" && Reread(t).tag.name == t.tag.name && t.tag.name != ""
  {
  }

  // The same inside, where the blank of the node `before` stands first.
  lemma {:induction false} InnerAgain(name: string, text: seq<string>, childs: seq<Tree>, before: Tag)
    requires GoodInner(name, text, childs)
    ensures var p, lead := PrintInner(name, text, childs), LeadText(name, SpaceText(before));
      var again := PrintInner(name, Spaced(SpaceText(before), text, childs), RereadAll(childs));
      && |again| + Lost(name, childs) == |lead| + |p|
      && (Lost(name, childs) == 0 ==> again == lead + p)
    decreases childs, 0
  {
    hide Print, PrintText, Reread, Good, GoodText, LeadText, SpaceText, KeepsText;
    LeadPrints(name, before, text[0]);
    if |childs| > 0 {
      var c := childs[0];
      PrintsAgain(c);
      InnerAgain(name, text[1..], childs[1..], c.tag);
      var sh := Spaced(SpaceText(before), text, childs);
      assert sh[0] == SpaceText(before) + text[0] && sh[1..] == Spaced(SpaceText(c.tag), text[1..], childs[1..]);
      assert RereadAll(childs)[0] == Reread(c) && RereadAll(childs)[1..] == RereadAll(childs[1..]);
      AgainStep(name, before, c, text[0], PrintInner(name, text[1..], childs[1..]),
                PrintInner(name, sh[1..], RereadAll(childs[1..])), Lost(c.tag.name, c.childs), Lost(name, childs[1..]));
    }
  }

  lemma AgainStep(name: string, before: Tag, c: Tree, t: string, rest: string, restAgain: string,
                  lostIn: nat, lostAfter: nat)
    requires |Print(Reread(c))| + lostIn + |SpaceText(c.tag)| == |Print(c)|
    requires lostIn == 0 ==> Print(Reread(c)) + SpaceText(c.tag) == Print(c)
    requires |restAgain| + lostAfter == |LeadText(name, SpaceText(c.tag))| + |rest|
    requires lostAfter == 0 ==> restAgain == LeadText(name, SpaceText(c.tag)) + rest
    ensures var lead, p := LeadText(name, SpaceText(before)), PrintText(name, t);
      var again := lead + p + Print(Reread(c)) + restAgain;
      var lost := (if KeepsText(name) then 0 else |SpaceText(c.tag)|) + lostIn + lostAfter;
      && |again| + lost == |lead| + |p + Print(c) + rest|
      && (lost == 0 ==> again == lead + (p + Print(c) + rest))
  {
    hide Print, PrintText, Reread, KeepsText, SpaceText;
    var lead, p, sp := LeadText(name, SpaceText(before)), PrintText(name, t), SpaceText(c.tag);
    if lostIn + lostAfter == 0 {
      if KeepsText(name) {
        FiveParts(lead, p, Print(Reread(c)), sp, rest);
      } else if |sp| == 0 {
        assert sp == "";
        FiveParts(lead, p, Print(Reread(c)), "", rest);
        assert LeadText(name, sp) == "" && restAgain == "" + rest;
      }
    }
  }

  lemma FiveParts(a: string, b: string, c: string, d: string, e: string)
    ensures a + b + c + (d + e) == a + (b + (c + d) + e)
  {
  }

  lemma {:induction false} LastTextAgain(text: seq<string>, childs: seq<Tree>)
    requires |text| == |childs| + 1
    ensures PrintInner("", EndedText(text), childs) == PrintInner("", text, childs)
    decreases |childs|
  {
    hide Print, PrintText;
    if |childs| == 0 {
      TrimmedAgain(text[0]);
      assert EndedText(text)[0] == text[0] + "\n";
    } else {
      LastTextAgain(text[1..], childs[1..]);
      assert EndedText(text)[1..] == EndedText(text[1..]);
    }
  }

  // A newline after a text is trimmed away.
  lemma TrimmedAgain(t: string)
    ensures PrintText("", t + "\n") == PrintText("", t)
  {
    hide ReplaceAll, Trim;
    TrimNewline(t);
  }

  lemma {:induction false} TrimNewline(t: string)
    ensures Trim(t + "\n") == Trim(t)
    decreases |t|
  {
    var u := t + "\n";
    if |t| == 0 {
      assert u[1..] == "" && TrimLeft(u) == TrimLeft("");
    } else if IsBlank(t[0]) {
      assert u[1..] == t[1..] + "\n";
      TrimNewline(t[1..]);
    } else {
      assert TrimLeft(u) == u && TrimLeft(t) == t;
      assert u[|u| - 1] == '\n' && u[..|u| - 1] == t;
    }
  }

  // Printing the document that came back gives the same text again exactly when
  // no blank is lost.
  lemma DocumentPrintsAgain(t: Tree)
    requires t.tag.name == "" && GoodInner("", t.text, t.childs)
    ensures Print(Tree(NO_TAG, EndedText(Spaced("", t.text, t.childs)), RereadAll(t.childs))) == Print(t)
        <==> Lost("", t.childs) == 0
  {
    hide PrintInner, GoodInner, RereadAll, Spaced, Lost;
    GoodLength("", t.text, t.childs);
    var sh := Spaced("", t.text, t.childs);
    InnerAgain("", t.text, t.childs, NO_TAG);
    LastTextAgain(sh, RereadAll(t.childs));
    InnerEnd("", t.text, t.childs);
    var inner := PrintInner("", t.text, t.childs);
    assert SpaceText(NO_TAG) == "" && LeadText("", "") + inner == inner;
    assert |Print(t)| == |inner| + 1;
  }

  // What comes back can be printed and read again exactly then.
  lemma {:induction false} GoodAgain(name: string, text: seq<string>, childs: seq<Tree>, before: Tag)
    requires GoodInner(name, text, childs)
    ensures GoodInner(name, Spaced(SpaceText(before), text, childs), RereadAll(childs))
        <==> (SpaceText(before) == "" || KeepsText(name)) && Lost(name, childs) == 0
    decreases childs, 0
  {
    hide Reread, Good, GoodText, SpaceText, KeepsText;
    var sh := Spaced(SpaceText(before), text, childs);
    LeadGood(name, before, text[0]);
    if |childs| > 0 {
      var c := childs[0];
      GoodTreeAgain(c);
      GoodAgain(name, text[1..], childs[1..], c.tag);
      assert sh[0] == SpaceText(before) + text[0] && sh[1..] == Spaced(SpaceText(c.tag), text[1..], childs[1..]);
      assert RereadAll(childs)[0] == Reread(c) && RereadAll(childs)[1..] == RereadAll(childs[1..]);
      SpaceLength(c.tag);
    }
  }

  lemma SpaceLength(tag: Tag)
    ensures |SpaceText(tag)| == 0 <==> SpaceText(tag) == ""
  {
  }

  lemma LeadGood(name: string, tag: Tag, t: string)
    requires GoodText(name, t)
    ensures GoodText(name, SpaceText(tag) + t) <==> SpaceText(tag) == "" || KeepsText(name)
  {
    if SpaceText(tag) == "" {
      assert "" + t == t;
    } else {
      assert (" " + t)[0] == ' ';
      BlankBefore(t);
    }
  }

  lemma BlankBefore(t: string)
    requires NoMarkup(t)
    ensures NoMarkup(" " + t)
  {
    hide GoodPieces, Spelled;
    var ps :| GoodPieces(ps) && SpelledAll(ps) == t;
    var qs := [Run(" ")] + ps;
    BlankPiece(ps);
    assert qs[1..] == ps && SpelledAll(qs) == " " + t;
  }

  lemma BlankPiece(ps: seq<Piece>)
    requires GoodPieces(ps)
    ensures Spelled(Run(" ")) == " " && GoodPieces([Run(" ")] + ps)
  {
    hide GoodPiece;
    var qs := [Run(" ")] + ps;
    OneBlank();
    forall i | 0 < i < |qs| && qs[i].Quote? ensures |Spelled(qs[i - 1])| > 0 && Last(Spelled(qs[i - 1])) != '\\' {
      if i > 1 { assert qs[i] == ps[i - 1] && qs[i - 1] == ps[i - 2]; }
    }
  }

  lemma OneBlank()
    ensures GoodPiece(Run(" "))
  {
  }

  lemma {:induction false} GoodTreeAgain(t: Tree)
    requires Good(t)
    ensures Good(Reread(t)) <==> Lost(t.tag.name, t.childs) == 0
    decreases t, 1
  {
    hide GoodInner, Lost, Spaced, RereadAll, IsVoidElement, GoodAttr;
    GoodAgain(t.tag.name, t.text, t.childs, NO_TAG);
    assert SpaceText(NO_TAG) == "";
    if t.tag.selfClosing || t.tag.void { EmptyReread(t); }
  }

  // A node followed by a blank of its own, between two texts.
  lemma BlankIsRead()
    ensures var t := Tree(Tag("a", false, false, false, true, []), [""], []);
      && GoodInner("", ["x", "y"], [t]) && FitAll([t]) && !Unspaced([t]) && Lost("", [t]) > 0
      && Spaced("", ["x", "y"], [t]) == ["x", " y"]
  {
    hide IsVoidElement, GoodText;
    var t := Tree(Tag("a", false, false, false, true, []), [""], []);
    NotVoid();
    SmallTexts();
    assert GoodTag(t.tag);
    assert GoodInner("a", [""], []);
    assert Good(t);
    assert [t][0] == t && [t][1..] == [] && ["x", "y"][1..] == ["y"];
    assert GoodInner("", ["y"], []);
    assert "" + "x" == "x" && " " + "y" == " y";
    assert |TagTokens(t.tag)| <= 1024;
    assert Spaced(" ", ["y"], []) == [" y"];
    assert FitAll([]) && Fits(t);
    assert !KeepsText("") && SpaceText(t.tag) == " ";
    assert Lost("", [t]) >= 1;
  }

  lemma SmallTexts()
    ensures GoodText("a", "") && GoodText("", "") && GoodText("", "x") && GoodText("", "y")
  {
    hide NoMarkup;
    RunOnly("");
    RunOnly("x");
    RunOnly("y");
  }

  // A tag inside a comment and one inside quotes are text.
  lemma TagsInText()
    ensures var x := "<!--" + "<a>" + "-->" + ("\"" + "<b>" + "\"");
      var t := Tree(NO_TAG, [x], []);
      && GoodInner("", t.text, [])
      && ParseFrom(Print(t), 0, START, "", [], []) == Parsed(Content([x + "\n"], []), |Print(t)|, false)
  {
    hide Print, ParseFrom, GoodText;
    var x := "<!--" + "<a>" + "-->" + ("\"" + "<b>" + "\"");
    var t := Tree(NO_TAG, [x], []);
    MixedText();
    assert GoodInner("", t.text, []);
    DocumentRoundTrip(t);
    assert Spaced("", [x], []) == [x] by { assert "" + x == x && [x][1..] == []; }
    assert EndedText([x]) == [x + "\n"];
    assert FitAll([]) && RereadAll([]) == [];
  }

  lemma MixedText()
    ensures GoodText("", "<!--" + "<a>" + "-->" + ("\"" + "<b>" + "\""))
  {
    hide GoodPiece;
    var ps := [Comment("<a>"), Quote("<b>")];
    assert ps[1..] == [Quote("<b>")] && ps[1..][1..] == [];
    assert SpelledAll(ps[1..]) == Spelled(ps[1]) + "" == Spelled(ps[1]);
    MixedPieces();
    assert GoodPieces(ps) && SpelledAll(ps) == "<!--" + "<a>" + "-->" + ("\"" + "<b>" + "\"");
  }

  lemma MixedPieces()
    ensures GoodPiece(Comment("<a>")) && GoodPiece(Quote("<b>"))
    ensures Last(Spelled(Comment("<a>"))) == '>'
  {
    assert ("--" + "<a>")[2] == '<' && ("--" + "<a>")[3] == 'a';
  }

  // A tag with 1022 attributes is printed but not read back.
  lemma ManyAttributes()
    ensures var t := Tree(Tag("a", false, false, false, false, seq(1022, i => "x")), [""], []);
      GoodInner("", ["", ""], [t]) && !FitAll([t])
  {
    hide IsVoidElement, GoodText;
    var attr := seq(1022, i => "x");
    var tag := Tag("a", false, false, false, false, attr);
    PlainTokens(attr);
    assert |TagTokens(tag)| == 1025;
    NotVoid();
    SmallTexts();
    assert GoodTag(tag);
    var t := Tree(tag, [""], []);
    assert GoodInner("a", [""], []);
    assert Good(t);
    assert [t][0] == t && [t][1..] == [] && ["", ""][1..] == [""];
    assert GoodInner("", [""], []);
  }

  // Whatever the case of its name.
  lemma VoidNames()
    ensures IsVoidElement("BR") && IsVoidElement("img") && !IsVoidElement("a")
  {
    NotVoid();
    assert "BR"[1..] == "R" && "R"[1..] == "" && LowerCase("R") == "r" && LowerCase("BR") == "br";
    assert "img"[1..] == "mg" && "mg"[1..] == "g" && "g"[1..] == "" && LowerCase("g") == "g" && LowerCase("mg") == "mg";
    assert LowerCase("img") == "img";
  }

  lemma NotVoid()
    ensures !IsVoidElement("a")
  {
    assert LowerCase("a") == "a";
  }

  lemma {:induction false} PlainTokens(attr: seq<string>)
    requires forall i :: 0 <= i < |attr| ==> '=' !in attr[i]
    ensures |AttrTokens(attr)| == |attr|
  {
    if |attr| > 0 { PlainTokens(attr[1..]); }
  }
}
