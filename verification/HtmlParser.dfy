// What the XML mode of the parser accepts and builds, as functions of the
// input and a cursor.

module HtmlParser {
  import opened Strings
  import opened HtmlTree
  import opened HtmlText

  predicate IsAlpha(c: char) {
    'a' <= c <= 'z' || 'A' <= c <= 'Z'
  }

  // strcasecmp against the list of void elements.
  predicate IsVoidElement(name: string) {
    LowerCase(name) in {
      "?xml", "!doctype", "area", "base", "br", "col", "command", "embed", "hr", "img", "input",
      "keygen", "link", "meta", "param", "source", "track", "wbr"
    }
  }

  // ------------------------------------------------------------------- tokens

  // A token by what its start, length and flag designate: the character at its
  // start, its text, whether it was quoted, and whether its length is -1.
  datatype Token = Token(first: char, word: string, quoted: bool, broken: bool)

  datatype Tokens = Tokens(list: seq<Token>, end: int)

  const MAX_TOKENS := 1024

  predicate IsSign(c: char) {
    c == '<' || c == '>' || c == '=' || c == '/'
  }

  predicate IsQuote(c: char) {
    c == '\"' || c == '\''
  }

  function MakeToken(s: string, start: nat, pos: nat): Token
    requires start < pos <= |s|
  {
    if !IsQuote(s[start]) then Token(s[start], s[start..pos], false, false)
    else
      var ends := IsQuote(s[pos - 1]);
      var last := if ends then pos - 1 else pos;
      Token(CharAt(s, start + 1), if start + 1 <= last then s[start + 1..last] else "", ends, start + 1 > last)
  }

  function SkipBlanks(s: string, pos: nat): (p: nat)
    requires pos <= |s|
    ensures pos <= p <= |s| && (p < |s| ==> !IsBlank(s[p]))
    ensures pos < |s| && IsBlank(s[pos]) ==> pos < p
    decreases |s| - pos
  {
    if pos < |s| && IsBlank(s[pos]) then SkipBlanks(s, pos + 1) else pos
  }

  function WordBefore(s: string, start: nat, pos: nat): seq<Token>
    requires start <= pos <= |s|
  {
    if start < pos then [MakeToken(s, start, pos)] else []
  }

  function Prepend(list: seq<Token>, t: Tokens): Tokens {
    Tokens(list + t.list, t.end)
  }

  // The tokens of the tag being read at `pos`, whose current word began at
  // `start`, and where its '>' is, or -1.
  function Tokenize(s: string, pos: nat, start: nat, quoted: bool): (r: Tokens)
    requires start <= pos <= |s|
    ensures r.end >= 0 ==> pos <= r.end < |s|
    decreases |s| - pos
  {
    if CharAt(s, pos) == '\0' then Tokens([], -1)
    else
      var quoted' := if s[pos] == '\"' then !quoted else quoted;
      if quoted' || !(IsBlank(s[pos]) || IsSign(s[pos])) then Tokenize(s, pos + 1, start, quoted')
      else
        var word := WordBefore(s, start, pos);
        if IsBlank(s[pos]) then Prepend(word, Tokenize(s, SkipBlanks(s, pos), SkipBlanks(s, pos), false))
        else if s[pos] == '>' then Tokens(word + [Sign('>')], pos)
        else Prepend(word + [Sign(s[pos])], Tokenize(s, pos + 1, pos + 1, false))
  }

  function Sign(c: char): Token {
    Token(c, [c], false, false)
  }

  // --------------------------------------------------------------------- tags

  // Undefined: more tokens than the source's buffers hold, or a text of
  // length -1.
  datatype TagResult = Undefined | Read(tag: Tag)

  const NO_TAG := Tag("", false, false, false, false, [])

  predicate StartsSign(t: Token) {
    t.first == '<' || t.first == '>' || t.first == '/'
  }

  // The first word is the name, the others attributes; before '>' an unquoted
  // slash makes the tag self-closing, anything else leaves it to its name.
  function ReadTag(list: seq<Token>, prev: seq<Token>, tag: Tag, named: bool): TagResult
    decreases |list|
  {
    if |list| == 0 then Read(tag)
    else
      var t := list[0];
      if t.first == '>' then
        if |prev| > 0 && prev[0].first == '/' && !prev[0].quoted
        then ReadTag(list[1..], [t], tag.(selfClosing := true), named)
        else ReadTag(list[1..], [t], tag.(void := IsVoidElement(tag.name)), named)
      else if StartsSign(t) then ReadTag(list[1..], [t], tag, named)
      else if t.broken then Undefined
      else if !named then ReadTag(list[1..], [t], tag.(name := t.word), true)
      else if |list| > 1 && list[1].first == '=' then
        if |list| < 3 || list[2].broken then Undefined
        else ReadTag(list[3..], [list[2]], tag.(attr := tag.attr + [t.word + "=" + list[2].word]), named)
      else ReadTag(list[1..], [t], tag.(attr := tag.attr + [t.word]), named)
  }

  function TagOf(t: Tokens): TagResult {
    if |t.list| > MAX_TOKENS then Undefined else ReadTag(t.list, [], NO_TAG, false)
  }

  // ------------------------------------------------------------------ content

  datatype Scan = Scan(quotes: bool, comment: bool)

  const START := Scan(false, false)

  // Quotes and comments, as of the character at `pos`.
  function Next(s: string, pos: nat, st: Scan): Scan
    requires pos < |s|
  {
    var quotes := if !st.comment && s[pos] == '\"' && !(pos > 0 && s[pos - 1] == '\\') then !st.quotes else st.quotes;
    var open := st.comment || (!quotes && OccursAt(s, "<!--", pos));
    var closes := !quotes && s[pos] == '>' && pos > 1 && s[pos - 1] == '-' && s[pos - 2] == '-';
    Scan(quotes, open && !closes)
  }

  datatype Outcome = Failed(undefined: bool) | Parsed(content: Content<Tree>, pos: nat, closed: bool)

  datatype Node = NoNode(undefined: bool) | Node(tree: Tree, last: nat)

  // The contents from `pos` on, after `text` and `childs` and the text so far.
  function ParseFrom(s: string, pos: nat, st: Scan, sofar: string, text: seq<string>, childs: seq<Tree>): (r: Outcome)
    requires pos <= |s| && |text| == |childs|
    ensures r.Parsed? ==> pos <= r.pos <= |s| && r.content.Interleaved() && (r.closed ==> r.pos < |s|)
    decreases |s| - pos, 1
  {
    if pos == |s| then Parsed(Content(text + [sofar], childs), pos, false)
    else
      var st' := Next(s, pos, st);
      if st'.comment || st'.quotes then ParseFrom(s, pos + 1, st', sofar + [s[pos]], text, childs)
      else if s[pos] == '<' && IsAlpha(CharAt(s, pos + 1)) then
        match ParseNode(s, pos)
        case NoNode(u) => Failed(u)
        case Node(t, last) => ParseFrom(s, last + 1, st', "", text + [sofar], childs + [t])
      else if s[pos] == '<' && CharAt(s, pos + 1) == '/' then
        var end := FindChar(s, '>', pos);
        if end < 0 then Failed(false) else Parsed(Content(text + [sofar], childs), end, true)
      else ParseFrom(s, pos + 1, st', sofar + [s[pos]], text, childs)
  }

  // One element: its tag, then up to its closing tag unless it has none.
  function ParseNode(s: string, pos: nat): (r: Node)
    requires pos < |s|
    ensures r.Node? ==> pos <= r.last < |s| && |r.tree.text| == |r.tree.childs| + 1
    decreases |s| - pos, 0
  {
    var tokens := Tokenize(s, pos, pos, false);
    match TagOf(tokens)
    case Undefined => NoNode(true)
    case Read(tag) =>
      if tokens.end < 0 then NoNode(false)
      else if tag.selfClosing || tag.void then Node(Tree(tag, [""], []), tokens.end)
      else
        match ParseFrom(s, tokens.end + 1, START, "", [], [])
        case Failed(u) => NoNode(u)
        case Parsed(c, p, closed) => if closed then Node(Tree(tag, c.text, c.items), p) else NoNode(false)
  }

  // ------------------------------------------------------- one step of the scan

  // Inside quotes or a comment, or where no tag begins.
  predicate TakesChar(s: string, pos: nat, st: Scan)
    requires pos < |s|
  {
    Next(s, pos, st).comment || Next(s, pos, st).quotes ||
    !(s[pos] == '<' && (IsAlpha(CharAt(s, pos + 1)) || CharAt(s, pos + 1) == '/'))
  }

  lemma CharStep(s: string, pos: nat, st: Scan, sofar: string, text: seq<string>, childs: seq<Tree>)
    requires pos < |s| && |text| == |childs| && TakesChar(s, pos, st)
    ensures ParseFrom(s, pos, st, sofar, text, childs) ==
        ParseFrom(s, pos + 1, Next(s, pos, st), sofar + [s[pos]], text, childs)
  {
    hide Next, ParseNode, FindChar;
  }

  lemma NodeStep(s: string, pos: nat, st: Scan, sofar: string, text: seq<string>, childs: seq<Tree>)
    requires pos < |s| && |text| == |childs| && !TakesChar(s, pos, st) && IsAlpha(CharAt(s, pos + 1))
    ensures var n := ParseNode(s, pos);
      ParseFrom(s, pos, st, sofar, text, childs) ==
      if n.NoNode? then Failed(n.undefined)
      else ParseFrom(s, n.last + 1, Next(s, pos, st), "", text + [sofar], childs + [n.tree])
  {
    hide Next, ParseNode, FindChar;
  }

  lemma CloseStep(s: string, pos: nat, st: Scan, sofar: string, text: seq<string>, childs: seq<Tree>)
    requires pos < |s| && |text| == |childs| && !TakesChar(s, pos, st) && !IsAlpha(CharAt(s, pos + 1))
    ensures var end := FindChar(s, '>', pos);
      ParseFrom(s, pos, st, sofar, text, childs) ==
      if end < 0 then Failed(false) else Parsed(Content(text + [sofar], childs), end, true)
  {
    hide Next, ParseNode, FindChar;
  }

  lemma EndStep(s: string, st: Scan, sofar: string, text: seq<string>, childs: seq<Tree>)
    requires |text| == |childs|
    ensures ParseFrom(s, |s|, st, sofar, text, childs) == Parsed(Content(text + [sofar], childs), |s|, false)
  {
  }

  // The two flags of the scan.
  method ScanFlags(input: string, pos: nat, st: Scan) returns (quotes: bool, comment: bool)
    requires pos < |input|
    ensures Scan(quotes, comment) == Next(input, pos, st)
  {
    quotes, comment := st.quotes, st.comment;
    if !comment && input[pos] == '\"' && !(pos > 0 && input[pos - 1] == '\\') {
      quotes := !quotes;
    }
    if !quotes && !comment && OccursAt(input, "<!--", pos) {
      comment := true;
    }
    if !quotes && comment && input[pos] == '>' && pos > 1 && input[pos - 1] == '-' && input[pos - 2] == '-' {
      comment := false;
    }
  }
}
