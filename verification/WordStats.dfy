// Splitting texts into words and counting them.

module WordStats {
  import opened Strings
  import opened Sorting
  import opened Containers
  import opened SortedLists
  import Json
  import JsonRoundTrip
  import opened JsonText

  // -------------------------------------------------------------------- words

  // find_first_of.
  function FirstOf(s: string, chars: string): (i: int)
    ensures -1 <= i < |s|
    ensures i >= 0 ==> s[i] in chars
    ensures forall j :: 0 <= j < (if i >= 0 then i else |s|) ==> s[j] !in chars
  {
    if |s| == 0 then -1
    else if s[0] in chars then 0
    else
      var i := FirstOf(s[1..], chars);
      if i < 0 then -1 else i + 1
  }

  // The characters to replace become separators, until a separator is itself
  // the first of them.
  function SpaceOut(s: string, chars: string, sep: char): (r: string)
    ensures |r| == |s|
    decreases Count(s, chars, sep)
  {
    var i := FirstOf(s, chars);
    if i < 0 || s[i] == sep then s
    else CountDown(s, chars, sep, i); SpaceOut(s[i := sep], chars, sep)
  }

  function Count(s: string, chars: string, sep: char): nat {
    if |s| == 0 then 0 else (if s[0] in chars && s[0] != sep then 1 else 0) + Count(s[1..], chars, sep)
  }

  lemma {:induction false} CountDown(s: string, chars: string, sep: char, i: nat)
    requires i < |s| && s[i] in chars && s[i] != sep
    ensures Count(s[i := sep], chars, sep) == Count(s, chars, sep) - 1
  {
    if i == 0 {
      assert s[0 := sep][1..] == s[1..];
    } else {
      assert s[i := sep][1..] == s[1..][i - 1 := sep];
      CountDown(s[1..], chars, sep, i - 1);
    }
  }

  function Without(s: string, chars: string): string {
    if |s| == 0 then "" else (if s[0] in chars then [] else [s[0]]) + Without(s[1..], chars)
  }

  // StringToList: the pieces between separators.
  function Pieces(s: string, sep: char): seq<string> {
    if s == "" then [] else PiecesFrom(s, sep, 0)
  }

  function PiecesFrom(s: string, sep: char, pos: nat): seq<string>
    requires pos <= |s|
    decreases |s| - pos
  {
    var at := FindChar(s, sep, pos);
    if at < 0 then [s[pos..]] else [s[pos..at]] + PiecesFrom(s, sep, at + 1)
  }

  function NotEmpty(list: seq<string>): seq<string> {
    if |list| == 0 then [] else (if list[0] == "" then [] else [list[0]]) + NotEmpty(list[1..])
  }

  // StringToListExt with a space for separator.
  function Words(s: string, toSpace: string, toDelete: string): seq<string> {
    NotEmpty(Pieces(Without(SpaceOut(s, toSpace, ' '), toDelete), ' '))
  }

  method StringToListExt(s: string, list: CWStringList, toSpace: string, toDelete: string)
    modifies list
    ensures list.Strings == Words(s, toSpace, toDelete)
  {
    hide FindChar, FirstOf;
    var tmp := s;
    var i := FirstOf(tmp, toSpace);
    while i >= 0 && tmp[i] != ' '
      invariant -1 <= i < |tmp| && i == FirstOf(tmp, toSpace)
      invariant SpaceOut(tmp, toSpace, ' ') == SpaceOut(s, toSpace, ' ')
      decreases Count(tmp, toSpace, ' ')
    {
      FirstIs(tmp, toSpace);
      CountDown(tmp, toSpace, ' ', i);
      tmp := tmp[i := ' '];
      i := FirstOf(tmp, toSpace);
    }
    ghost var spaced := tmp;
    i := FirstOf(tmp, toDelete);
    while i >= 0
      invariant -1 <= i < |tmp| && i == FirstOf(tmp, toDelete)
      invariant Without(tmp, toDelete) == Without(spaced, toDelete)
      decreases |tmp|
    {
      FirstIs(tmp, toDelete);
      EraseOne(tmp, toDelete, i);
      tmp := tmp[..i] + tmp[i + 1..];
      i := FirstOf(tmp, toDelete);
    }
    NothingToErase(tmp, toDelete);
    StringToList(tmp, ' ', list);
    RemoveEmpty(list);
  }

  lemma {:induction false} EraseOne(s: string, chars: string, i: nat)
    requires i < |s| && s[i] in chars
    ensures Without(s[..i] + s[i + 1..], chars) == Without(s, chars)
  {
    if i == 0 {
      assert s[..0] + s[1..] == s[1..];
    } else {
      assert (s[..i] + s[i + 1..])[1..] == s[1..][..i - 1] + s[1..][i..];
      EraseOne(s[1..], chars, i - 1);
    }
  }

  lemma {:induction false} NothingToErase(s: string, chars: string)
    requires FirstOf(s, chars) < 0
    ensures Without(s, chars) == s
  {
    if |s| > 0 { NothingToErase(s[1..], chars); }
  }

  method StringToList(s: string, sep: char, list: CWStringList)
    modifies list
    ensures list.Strings == Pieces(s, sep)
  {
    hide FindChar;
    list.Strings := [];
    if s == "" { return; }
    var pos := 0;
    var at := FindChar(s, sep, pos);
    while at >= 0
      invariant pos <= |s| && at == FindChar(s, sep, pos)
      invariant list.Strings + PiecesFrom(s, sep, pos) == PiecesFrom(s, sep, 0)
      decreases |s| - pos
    {
      ghost var before := list.Strings;
      list.Strings := list.Strings + [s[pos..at]];
      assert before + ([s[pos..at]] + PiecesFrom(s, sep, at + 1)) == list.Strings + PiecesFrom(s, sep, at + 1);
      pos := at + 1;
      at := FindChar(s, sep, pos);
    }
    list.Strings := list.Strings + [s[pos..]];
  }

  // From the end, so that the positions still to come stay.
  method RemoveEmpty(list: CWStringList)
    modifies list
    ensures list.Strings == NotEmpty(old(list.Strings))
  {
    var i := |list.Strings|;
    while i > 0
      invariant 0 <= i <= |old(list.Strings)|
      invariant list.Strings == old(list.Strings)[..i] + NotEmpty(old(list.Strings)[i..])
    {
      i := i - 1;
      ghost var all := old(list.Strings);
      assert all[i..][1..] == all[i + 1..];
      if list.Strings[i] == "" {
        list.Strings := list.Strings[..i] + list.Strings[i + 1..];
      }
    }
    assert old(list.Strings)[0..] == old(list.Strings);
  }

  // Nothing is lost but separators: the words' characters are the text's.
  function Concat(list: seq<string>): string {
    if |list| == 0 then "" else list[0] + Concat(list[1..])
  }

  lemma {:induction false} ConcatNotEmpty(list: seq<string>)
    ensures Concat(NotEmpty(list)) == Concat(list)
  {
    if |list| > 0 {
      ConcatNotEmpty(list[1..]);
      var rest := NotEmpty(list[1..]);
      assert ([list[0]] + rest)[1..] == rest;
      assert [] + rest == rest && "" + Concat(list[1..]) == Concat(list[1..]);
    }
  }

  // What separators cut out of a text; after a terminator they do not.
  function Unseparated(s: string, sep: char): string {
    if |s| == 0 || s[0] == '\0' then s else (if s[0] == sep then [] else [s[0]]) + Unseparated(s[1..], sep)
  }

  lemma {:induction false} ConcatPieces(s: string, sep: char, pos: nat)
    requires pos <= |s|
    ensures Concat(PiecesFrom(s, sep, pos)) == Unseparated(s[pos..], sep)
    decreases |s| - pos
  {
    hide Unseparated, FindChar, Concat, PiecesFrom;
    PiecesStep(s, sep, pos);
    UnseparatedTo(s, sep, pos);
    var at := FindChar(s, sep, pos);
    if at >= 0 { ConcatPieces(s, sep, at + 1); }
  }

  lemma {:induction false} UnseparatedTo(s: string, sep: char, pos: nat)
    requires pos <= |s|
    ensures var at := FindChar(s, sep, pos);
      Unseparated(s[pos..], sep) == if at < 0 then s[pos..] else s[pos..at] + Unseparated(s[at + 1..], sep)
    decreases |s| - pos
  {
    hide Unseparated, FindChar;
    UnseparatedHere(s, sep, pos);
    if pos < |s| && s[pos] != '\0' && s[pos] != sep {
      UnseparatedTo(s, sep, pos + 1);
      var at := FindChar(s, sep, pos);
      if at < 0 {
        assert s[pos..] == [s[pos]] + s[pos + 1..];
      } else {
        OneThen(s, pos, at, Unseparated(s[at + 1..], sep));
      }
    }
  }

  lemma UnseparatedHere(s: string, sep: char, pos: nat)
    requires pos <= |s|
    ensures var at := FindChar(s, sep, pos);
      if pos == |s| || s[pos] == '\0' then at < 0 && Unseparated(s[pos..], sep) == s[pos..]
      else if s[pos] == sep then at == pos && Unseparated(s[pos..], sep) == s[pos..pos] + Unseparated(s[pos + 1..], sep)
      else (at == FindChar(s, sep, pos + 1) && (at >= 0 ==> at > pos)
            && Unseparated(s[pos..], sep) == [s[pos]] + Unseparated(s[pos + 1..], sep))
  {
    if pos < |s| { assert s[pos..][1..] == s[pos + 1..]; }
  }

  lemma OneThen(s: string, pos: nat, at: nat, rest: string)
    requires pos < at < |s|
    ensures [s[pos]] + (s[pos + 1..at] + rest) == s[pos..at] + rest
  {
    assert s[pos..at] == [s[pos]] + s[pos + 1..at];
  }

  lemma {:induction false} UnseparatedIs(s: string, sep: char)
    requires '\0' !in s
    ensures Unseparated(s, sep) == Without(s, [sep])
  {
    if |s| > 0 { UnseparatedIs(s[1..], sep); }
  }

  lemma PiecesStep(s: string, sep: char, pos: nat)
    requires pos <= |s|
    ensures var at := FindChar(s, sep, pos);
      Concat(PiecesFrom(s, sep, pos)) == if at < 0 then s[pos..] else s[pos..at] + Concat(PiecesFrom(s, sep, at + 1))
  {
    hide FindChar;
    var at := FindChar(s, sep, pos);
    if at < 0 {
      ConcatCons(s[pos..], []);
    } else {
      ConcatCons(s[pos..at], PiecesFrom(s, sep, at + 1));
    }
  }

  lemma ConcatCons(first: string, rest: seq<string>)
    ensures [first] + [] == [first] && Concat([first] + rest) == first + Concat(rest)
    ensures Concat([first]) == first
  {
    assert ([first] + rest)[1..] == rest;
    assert Concat([first]) == first + "" == first;
  }

  // The words, joined, are the text without its separators and deleted
  // characters, but for separators after a terminator.
  lemma WordsKeepCharacters(s: string, toSpace: string, toDelete: string)
    ensures var t := Without(SpaceOut(s, toSpace, ' '), toDelete);
      && Concat(Words(s, toSpace, toDelete)) == Unseparated(t, ' ')
      && ('\0' !in t ==> Unseparated(t, ' ') == Without(t, " "))
  {
    hide Unseparated, Without, Concat;
    var t := Without(SpaceOut(s, toSpace, ' '), toDelete);
    ConcatNotEmpty(Pieces(t, ' '));
    if t != "" {
      ConcatPieces(t, ' ', 0);
      assert t[0..] == t;
    } else {
      NothingConcat();
    }
    if '\0' !in t { UnseparatedIs(t, ' '); }
  }

  lemma NothingConcat()
    ensures Concat([]) == "" == Unseparated("", ' ')
  {
  }

  lemma {:induction false} NoEmptyWord(list: seq<string>)
    ensures "" !in NotEmpty(list)
  {
    if |list| > 0 { NoEmptyWord(list[1..]); }
  }

  // ---------------------------------------------------- where a text is cut

  // No word holds a blank, except behind a terminator, where none is looked for.
  lemma NoBlankInWord(s: string, toSpace: string, toDelete: string, k: nat, j: nat)
    requires k < |Words(s, toSpace, toDelete)| && j < |Words(s, toSpace, toDelete)[k]|
    requires Words(s, toSpace, toDelete)[k][j] == ' '
    ensures '\0' in Words(s, toSpace, toDelete)[k][..j]
  {
    hide PiecesFrom, NotEmpty, Without, SpaceOut;
    var t := Without(SpaceOut(s, toSpace, ' '), toDelete);
    if t == "" {
      NothingCut();
    } else {
      AllUncut(t, ' ', 0);
      KeptUncut(PiecesFrom(t, ' ', 0), ' ');
    }
  }

  predicate Uncut(w: string, sep: char) {
    forall j :: 0 <= j < |w| && w[j] == sep ==> '\0' in w[..j]
  }

  lemma NothingCut()
    ensures NotEmpty([]) == []
  {
  }

  lemma {:induction false} AllUncut(s: string, sep: char, pos: nat)
    requires pos <= |s| && sep != '\0'
    ensures forall k :: 0 <= k < |PiecesFrom(s, sep, pos)| ==> Uncut(PiecesFrom(s, sep, pos)[k], sep)
    decreases |s| - pos
  {
    hide FindChar;
    FindCharIs(s, sep, pos);
    var at := FindChar(s, sep, pos);
    if at >= 0 {
      AllUncut(s, sep, at + 1);
    } else {
      var w := s[pos..];
      forall j | 0 <= j < |w| && w[j] == sep ensures '\0' in w[..j] {
        var k :| pos <= k <= pos + j && s[k] == '\0';
        assert w[..j][k - pos] == '\0';
      }
    }
  }

  lemma {:induction false} KeptUncut(list: seq<string>, sep: char)
    requires forall k :: 0 <= k < |list| ==> Uncut(list[k], sep)
    ensures forall k :: 0 <= k < |NotEmpty(list)| ==> Uncut(NotEmpty(list)[k], sep)
  {
    hide Uncut;
    if |list| > 0 { KeptUncut(list[1..], sep); }
  }

  // Words with gaps before, between and after them.
  function Laid(words: seq<string>, gaps: seq<string>): string
    requires |gaps| == |words| + 1
  {
    if |words| == 0 then gaps[0] else gaps[0] + (words[0] + Laid(words[1..], gaps[1..]))
  }

  // Not empty, and free of separators, terminators and other characters.
  predicate PlainWord(w: string, others: string) {
    |w| > 0 && forall j :: 0 <= j < |w| ==> w[j] != ' ' && w[j] != '\0' && w[j] !in others
  }

  predicate PlainWords(words: seq<string>, others: string) {
    forall k :: 0 <= k < |words| ==> PlainWord(words[k], others)
  }

  // Gaps of blanks, none empty between two words.
  predicate Gaps(gaps: seq<string>, fill: string) {
    && (forall k :: 0 < k < |gaps| - 1 ==> |gaps[k]| > 0)
    && forall k, j :: 0 <= k < |gaps| && 0 <= j < |gaps[k]| ==> gaps[k][j] in fill
  }

  lemma FindsAt(s: string, pos: nat, w: string)
    requires Strings.OccursAt(s, w, pos) && forall j :: 0 <= j < |w| ==> w[j] != ' ' && w[j] != '\0'
    requires pos + |w| < |s| ==> s[pos + |w|] == ' '
    ensures if pos + |w| < |s| then FindChar(s, ' ', pos) == pos + |w| else FindChar(s, ' ', pos) < 0
  {
    hide FindChar;
    FindCharIs(s, ' ', pos);
    var i := FindChar(s, ' ', pos);
    var e := pos + |w|;
    forall j | pos <= j < e ensures s[j] != ' ' && s[j] != '\0' { CharOf(s, w, pos, j - pos); }
    assert forall k :: pos <= k <= e && k < |s| ==> s[k] != '\0';
  }

  // Cutting at blanks gives back the words.
  lemma {:induction false} LaidBack(s: string, pos: nat, words: seq<string>, gaps: seq<string>)
    requires |gaps| == |words| + 1 && PlainWords(words, "") && Gaps(gaps, " ")
    requires Strings.OccursAt(s, Laid(words, gaps), pos) && pos + |Laid(words, gaps)| == |s|
    ensures NotEmpty(PiecesFrom(s, ' ', pos)) == words
    decreases |words|, |gaps[0]|
  {
    hide FindChar, Strings.OccursAt, PlainWord, PiecesFrom, NotEmpty, Laid, Gaps;
    var g := gaps[0];
    LaidParts(words, gaps);
    if |g| > 0 {
      var less := gaps[0 := g[1..]];
      LessGap(words, gaps);
      Split(s, " ", Laid(words, less), pos);
      CharOf(s, " ", pos, 0);
      LaidBack(s, pos + 1, words, less);
      FindsNow(s, pos);
      PiecesCons(s, pos, pos);
    } else if |words| == 0 {
      PiecesOf(s, pos, "");
    } else {
      var w, rest := words[0], Laid(words[1..], gaps[1..]);
      GapsTail(words, gaps);
      Split(s, w, rest, pos);
      var e := pos + |w|;
      PlainIs(w);
      LaidParts(words[1..], gaps[1..]);
      if |gaps[1]| > 0 {
        var less := gaps[1..][0 := gaps[1][1..]];
        LessGap(words[1..], gaps[1..]);
        Split(s, " ", Laid(words[1..], less), e);
        CharOf(s, " ", e, 0);
        LaidBack(s, e + 1, words[1..], less);
        FindsAt(s, pos, w);
        Slice(s, w, pos);
        PiecesCons(s, pos, e);
      } else {
        FindsAt(s, pos, w);
        PiecesOf(s, pos, w);
      }
      assert words == [w] + words[1..];
    }
  }

  lemma LaidParts(words: seq<string>, gaps: seq<string>)
    requires |gaps| == |words| + 1
    ensures |words| == 0 ==> Laid(words, gaps) == gaps[0]
    ensures |words| > 0 ==> Laid(words, gaps) == gaps[0] + (words[0] + Laid(words[1..], gaps[1..]))
    ensures |words| > 0 && |gaps[0]| == 0 ==> Laid(words, gaps) == words[0] + Laid(words[1..], gaps[1..])
  {
  }

  lemma LessGap(words: seq<string>, gaps: seq<string>)
    requires |gaps| == |words| + 1 && Gaps(gaps, " ") && |gaps[0]| > 0
    ensures var less := gaps[0 := gaps[0][1..]]; Gaps(less, " ") && Laid(words, gaps) == " " + Laid(words, less)
  {
    hide Gaps, Laid;
    var g, less := gaps[0], gaps[0 := gaps[0][1..]];
    FewerBlanks(gaps);
    LaidParts(words, gaps);
    LaidParts(words, less);
    assert less[1..] == gaps[1..];
    if |words| > 0 { Assoc(" ", g[1..], words[0] + Laid(words[1..], gaps[1..])); }
  }

  lemma FewerBlanks(gaps: seq<string>)
    requires |gaps| > 0 && Gaps(gaps, " ") && |gaps[0]| > 0
    ensures Gaps(gaps[0 := gaps[0][1..]], " ") && gaps[0] == " " + gaps[0][1..]
  {
    var g, less := gaps[0], gaps[0 := gaps[0][1..]];
    assert g[0] in " ";
    forall k, j | 0 <= k < |less| && 0 <= j < |less[k]| ensures less[k][j] in " " {
      if k == 0 { assert less[0][j] == g[j + 1]; } else { assert less[k] == gaps[k]; }
    }
  }

  lemma Assoc(a: string, b: string, c: string)
    ensures a + b + c == a + (b + c)
  {
  }

  lemma LaidLong(words: seq<string>, gaps: seq<string>)
    requires |gaps| == |words| + 1 && PlainWords(words, "")
    ensures |words| > 0 ==> |Laid(words, gaps)| > 0
  {
    assert |words| > 0 ==> PlainWord(words[0], "");
  }

  lemma GapsTail(words: seq<string>, gaps: seq<string>)
    requires |gaps| == |words| + 1 && |words| > 0 && PlainWords(words, "") && Gaps(gaps, " ")
    ensures PlainWords(words[1..], "") && Gaps(gaps[1..], " ") && (|words| > 1 ==> |gaps[1]| > 0)
    ensures PlainWord(words[0], "")
  {
    hide PlainWord;
  }

  lemma PlainIs(w: string)
    requires PlainWord(w, "")
    ensures |w| > 0 && forall j :: 0 <= j < |w| ==> w[j] != ' ' && w[j] != '\0'
  {
  }

  lemma FindsNow(s: string, pos: nat)
    requires pos < |s| && s[pos] == ' '
    ensures FindChar(s, ' ', pos) == pos
  {
  }

  lemma PiecesCons(s: string, pos: nat, at: nat)
    requires pos <= |s| && FindChar(s, ' ', pos) == at
    ensures NotEmpty(PiecesFrom(s, ' ', pos)) ==
            (if at == pos then [] else [s[pos..at]]) + NotEmpty(PiecesFrom(s, ' ', at + 1))
  {
    hide FindChar;
    var rest := PiecesFrom(s, ' ', at + 1);
    assert ([s[pos..at]] + rest)[1..] == rest;
  }

  lemma PiecesOf(s: string, pos: nat, w: string)
    requires Strings.OccursAt(s, w, pos) && pos + |w| == |s| && forall j :: 0 <= j < |w| ==> w[j] != ' '
    ensures NotEmpty(PiecesFrom(s, ' ', pos)) == if w == "" then [] else [w]
  {
    hide FindChar;
    FindCharIs(s, ' ', pos);
    forall j | pos <= j < |s| ensures s[j] != ' ' { CharOf(s, w, pos, j - pos); }
    assert s[pos..] == w;
    assert [w][1..] == [];
  }

  // Words free of blanks and of the characters to replace or delete, with gaps
  // of blanks and of characters to replace, are given back in order.
  lemma WordsBack(words: seq<string>, gaps: seq<string>, toSpace: string, toDelete: string)
    requires |gaps| == |words| + 1 && PlainWords(words, toSpace + toDelete) && ' ' !in toDelete
    requires Gaps(gaps, if ' ' in toSpace then " " else " " + toSpace)
    ensures Words(Laid(words, gaps), toSpace, toDelete) == words
  {
    hide PiecesFrom, NotEmpty, Without, SpaceOut, FirstOf, Laid;
    var s := Laid(words, gaps);
    var blank := Blanked(gaps);
    SpacedLaid(words, gaps, toSpace, toDelete);
    var t := Laid(words, blank);
    assert SpaceOut(s, toSpace, ' ') == t && Without(t, toDelete) == t;
    WordsFree(words, toSpace + toDelete);
    BlankGaps(gaps, if ' ' in toSpace then " " else " " + toSpace);
    if t == "" {
      NothingCut();
      LaidLong(words, blank);
    } else {
      assert t[0..|t|] == t;
      LaidBack(t, 0, words, blank);
    }
  }

  // The same gaps with nothing but blanks in them.
  function Blanked(gaps: seq<string>): (r: seq<string>)
    ensures |r| == |gaps| && forall k :: 0 <= k < |r| ==> |r[k]| == |gaps[k]|
  {
    seq(|gaps|, k requires 0 <= k < |gaps| => seq(|gaps[k]|, j => ' '))
  }

  lemma BlankGaps(gaps: seq<string>, fill: string)
    requires Gaps(gaps, fill)
    ensures Gaps(Blanked(gaps), " ")
  {
  }

  lemma WordsFree(words: seq<string>, others: string)
    requires PlainWords(words, others)
    ensures PlainWords(words, "")
  {
  }

  // Replacing makes blanks of the gaps and nothing is left to delete.
  lemma SpacedLaid(words: seq<string>, gaps: seq<string>, toSpace: string, toDelete: string)
    requires |gaps| == |words| + 1 && PlainWords(words, toSpace + toDelete) && ' ' !in toDelete
    requires Gaps(gaps, if ' ' in toSpace then " " else " " + toSpace)
    ensures var t := Laid(words, Blanked(gaps));
      SpaceOut(Laid(words, gaps), toSpace, ' ') == t && Without(t, toDelete) == t
  {
    hide FirstOf, SpaceOut, Laid, PlainWord, Gaps, Without;
    var s, t := Laid(words, gaps), Laid(words, Blanked(gaps));
    LaidLetters(words, gaps, toSpace, toDelete);
    SpaceOutReplaces(s, toSpace, ' ');
    FirstIs(t, toDelete);
    NothingToErase(t, toDelete);
    var r := SpaceOut(s, toSpace, ' ');
    assert |r| == |t| && forall j :: 0 <= j < |t| ==> r[j] == t[j];
  }

  lemma {:induction false} LaidLetters(words: seq<string>, gaps: seq<string>, toSpace: string, toDelete: string)
    requires |gaps| == |words| + 1 && PlainWords(words, toSpace + toDelete) && ' ' !in toDelete
    requires Gaps(gaps, if ' ' in toSpace then " " else " " + toSpace)
    ensures var s, t := Laid(words, gaps), Laid(words, Blanked(gaps));
      && |s| == |t|
      && forall j :: 0 <= j < |s| ==>
           && t[j] !in toDelete && t[j] == (if s[j] in toSpace then ' ' else s[j])
           && (' ' in toSpace && s[j] in toSpace ==> s[j] == ' ')
    decreases |words|
  {
    var g, b := gaps[0], Blanked(gaps)[0];
    if |words| > 0 {
      var w := words[0];
      assert PlainWord(w, toSpace + toDelete);
      assert Blanked(gaps)[1..] == Blanked(gaps[1..]);
      LaidLetters(words[1..], gaps[1..], toSpace, toDelete);
    }
  }

  // Two words, one of them twice.
  lemma WordsOfText()
    ensures Words("a b a", "", "") == ["a", "b", "a"]
  {
    hide Words;
    var words, gaps := ["a", "b", "a"], ["", " ", " ", ""];
    assert words[1..] == ["b", "a"] && words[1..][1..] == ["a"] && words[1..][1..][1..] == [];
    assert gaps[1..] == [" ", " ", ""] && gaps[1..][1..] == [" ", ""] && gaps[1..][1..][1..] == [""];
    assert Laid(words, gaps) == "a b a";
    WordsBack(words, gaps, "", "");
  }

  predicate Spaced(r: string, s: string, chars: string, sep: char) {
    |r| == |s| && forall j :: 0 <= j < |s| ==> r[j] == if s[j] in chars then sep else s[j]
  }

  // Replacing stops at a separator that is itself to be replaced, which its
  // own replacement makes.  So everything is replaced exactly when the
  // separator is not among the characters, or nothing is left to replace
  // after the first of them.
  lemma SpaceOutReplaces(s: string, chars: string, sep: char)
    ensures Spaced(SpaceOut(s, chars, sep), s, chars, sep) <==>
            sep !in chars || forall i, j :: 0 <= i < j < |s| && s[i] in chars && s[j] in chars ==> s[j] == sep
  {
    if sep !in chars {
      SpaceOutAll(s, chars, sep);
    } else {
      hide FirstOf;
      FirstIs(s, chars);
      var i := FirstOf(s, chars);
      if i >= 0 && s[i] != sep {
        var t := s[i := sep];
        CountDown(s, chars, sep, i);
        FirstIs(t, chars);
        var f := FirstOf(t, chars);
        assert t[i] == sep;
        assert forall j :: 0 <= j < i ==> t[j] == s[j];
        assert f == i;
        assert SpaceOut(s, chars, sep) == SpaceOut(t, chars, sep) == t;
      }
    }
  }

  // Asked to replace blanks and commas, it replaces the first comma only.
  lemma SpaceOutStops()
    ensures !Spaced(SpaceOut("a,b,c", " ,", ' '), "a,b,c", " ,", ' ')
  {
    hide SpaceOut;
    SpaceOutReplaces("a,b,c", " ,", ' ');
    assert "a,b,c"[1] == ',' && "a,b,c"[3] == ',';
  }

  lemma FirstIs(s: string, chars: string)
    ensures var i := FirstOf(s, chars);
      && -1 <= i < |s|
      && (i >= 0 ==> s[i] in chars)
      && forall j :: 0 <= j < (if i >= 0 then i else |s|) ==> s[j] !in chars
  {
  }

  lemma {:induction false} SpaceOutAll(s: string, chars: string, sep: char)
    requires sep !in chars
    ensures Spaced(SpaceOut(s, chars, sep), s, chars, sep)
    decreases Count(s, chars, sep)
  {
    hide FirstOf;
    FirstIs(s, chars);
    var i := FirstOf(s, chars);
    if i >= 0 && s[i] != sep {
      CountDown(s, chars, sep, i);
      SpaceOutAll(s[i := sep], chars, sep);
    }
  }

  // -------------------------------------------------------------------- counts

  // The same word, whatever its case.
  predicate Same(s: string, t: string) {
    LowerCase(s) == LowerCase(t)
  }

  function Occurs(words: seq<string>, w: string): nat {
    if |words| == 0 then 0 else (if Same(words[0], w) then 1 else 0) + Occurs(words[1..], w)
  }

  function Sum(counts: seq<nat>): nat {
    if |counts| == 0 then 0 else counts[0] + Sum(counts[1..])
  }

  lemma {:induction false} OccursConcat(v: seq<string>, words: seq<string>, w: string)
    ensures Occurs(v + words, w) == Occurs(v, w) + Occurs(words, w)
  {
    hide Same;
    if |v| == 0 {
      assert v + words == words;
    } else {
      assert (v + words)[1..] == v[1..] + words;
      OccursConcat(v[1..], words, w);
    }
  }

  lemma OccursAppend(words: seq<string>, x: string, w: string)
    ensures Occurs(words + [x], w) == Occurs(words, w) + if Same(x, w) then 1 else 0
  {
    hide Same;
    OccursConcat(words, [x], w);
  }

  lemma {:induction false} SumUpdate(counts: seq<nat>, i: nat)
    requires i < |counts|
    ensures Sum(counts[i := counts[i] + 1]) == Sum(counts) + 1
  {
    if i == 0 {
      assert counts[0 := counts[0] + 1][1..] == counts[1..];
    } else {
      assert counts[i := counts[i] + 1][1..] == counts[1..][i - 1 := counts[i] + 1];
      SumUpdate(counts[1..], i - 1);
    }
  }

  lemma {:induction false} SumInsert(counts: seq<nat>, i: nat)
    requires i <= |counts|
    ensures Sum(InsertAt(counts, i, 1)) == Sum(counts) + 1
  {
    var after := InsertAt(counts, i, 1);
    if i == 0 {
      assert after[1..] == counts;
    } else {
      assert after[1..] == InsertAt(counts[1..], i - 1, 1);
      SumInsert(counts[1..], i - 1);
    }
  }

  predicate Has(list: seq<string>, w: string) {
    exists i :: 0 <= i < |list| && Same(list[i], w)
  }

  predicate Distinct(list: seq<string>) {
    forall i, j :: 0 <= i < j < |list| ==> !Same(list[i], list[j])
  }

  predicate Tallied(list: seq<string>, counts: seq<nat>, words: seq<string>) {
    |counts| == |list| && forall i :: 0 <= i < |list| ==> counts[i] == Occurs(words, list[i])
  }

  // The counts stand beside the words they count: each word listed once, and
  // every word listed.
  predicate Counted(list: seq<string>, counts: seq<nat>, words: seq<string>) {
    && Distinct(list)
    && Tallied(list, counts, words)
    && (forall i :: 0 <= i < |list| ==> list[i] in words)
    && (forall k :: 0 <= k < |words| ==> Has(list, words[k]))
    && Sum(counts) == |words|
  }

  // One word more.
  method CountWord(list: CWSortedList, counts: seq<nat>, word: string, ghost words: seq<string>)
    returns (after: seq<nat>)
    requires list.Valid() && list.Unique && !list.CaseSensitive && Counted(list.Strings, counts, words)
    modifies list
    ensures list.Valid() && Counted(list.Strings, after, words + [word])
  {
    hide Counted, Cmp, StrictlyInOrder, InOrder, InsertAt, LowerCase;
    ghost var before := list.Strings;
    var index, duplicate := list.Add(word);
    AddHas(before, word);
    CountedLength(before, counts, words);
    if duplicate {
      CmpSame(before[index], word);
      CountAgain(before, counts, words, index, word);
      after := counts[index := counts[index] + 1];
    } else {
      OrderDistinct(list.Strings);
      CountNew(before, counts, words, index, word);
      after := InsertAt(counts, index, 1);
    }
  }

  lemma CmpSame(s: string, t: string)
    ensures Cmp(s, t, false) == 0 <==> Same(s, t)
  {
    CmpFlip(s, t, false);
  }

  lemma AddHas(list: seq<string>, w: string)
    ensures (exists i :: 0 <= i < |list| && Cmp(list[i], w, false) == 0) <==> Has(list, w)
  {
    hide Cmp, LowerCase;
    forall i | 0 <= i < |list| ensures Cmp(list[i], w, false) == 0 <==> Same(list[i], w) { CmpSame(list[i], w); }
  }

  lemma OrderDistinct(list: seq<string>)
    requires StrictlyInOrder(list, false)
    ensures Distinct(list)
  {
    hide Cmp, LowerCase;
    forall i, j | 0 <= i < j < |list| ensures !Same(list[i], list[j]) { CmpSame(list[i], list[j]); }
  }

  lemma CountedLength(list: seq<string>, counts: seq<nat>, words: seq<string>)
    requires Counted(list, counts, words)
    ensures |counts| == |list|
  {
  }

  lemma CountAgain(list: seq<string>, counts: seq<nat>, words: seq<string>, index: nat, word: string)
    requires Counted(list, counts, words) && index < |list| && Same(list[index], word)
    ensures |counts| == |list| && Counted(list, counts[index := counts[index] + 1], words + [word])
  {
    hide LowerCase, Occurs, Sum, Has;
    SumUpdate(counts, index);
    TallyAgain(list, counts, words, index, word);
    HasIt(list, index, word);
  }

  lemma HasIt(list: seq<string>, index: nat, word: string)
    requires index < |list| && Same(list[index], word)
    ensures Has(list, word)
  {
  }

  lemma TallyAgain(list: seq<string>, counts: seq<nat>, words: seq<string>, index: nat, word: string)
    requires Distinct(list) && Tallied(list, counts, words) && index < |list| && Same(list[index], word)
    ensures Tallied(list, counts[index := counts[index] + 1], words + [word])
  {
    hide LowerCase, Occurs;
    forall i | 0 <= i < |list| ensures counts[index := counts[index] + 1][i] == Occurs(words + [word], list[i]) {
      OccursAppend(words, word, list[i]);
      assert i < index ==> !Same(list[i], list[index]);
      assert i > index ==> !Same(list[index], list[i]);
    }
  }

  lemma CountNew(list: seq<string>, counts: seq<nat>, words: seq<string>, index: nat, word: string)
    requires Counted(list, counts, words) && index <= |list| && !Has(list, word)
    requires Distinct(InsertAt(list, index, word))
    ensures |counts| == |list| && Counted(InsertAt(list, index, word), InsertAt(counts, index, 1), words + [word])
  {
    hide LowerCase, Occurs, Sum, Has, Distinct;
    SumInsert(counts, index);
    NotYet(list, words, word);
    TallyNew(list, counts, words, index, word);
    var more := InsertAt(list, index, word);
    HasIt(more, index, word);
    forall k | 0 <= k < |words| ensures Has(more, words[k]) { HasMore(list, index, word, words[k]); }
  }

  lemma HasMore(list: seq<string>, index: nat, word: string, w: string)
    requires index <= |list| && Has(list, w)
    ensures Has(InsertAt(list, index, word), w)
  {
    hide LowerCase;
    var i :| 0 <= i < |list| && Same(list[i], w);
    HasIt(InsertAt(list, index, word), if i < index then i else i + 1, w);
  }

  lemma TallyNew(list: seq<string>, counts: seq<nat>, words: seq<string>, index: nat, word: string)
    requires Tallied(list, counts, words) && index <= |list| && !Has(list, word) && Occurs(words, word) == 0
    ensures Tallied(InsertAt(list, index, word), InsertAt(counts, index, 1), words + [word])
  {
    hide LowerCase, Occurs;
    var more := InsertAt(list, index, word);
    forall i | 0 <= i < |more| ensures InsertAt(counts, index, 1)[i] == Occurs(words + [word], more[i]) {
      OccursAppend(words, word, more[i]);
      if i != index {
        var j := if i < index then i else i - 1;
        assert more[i] == list[j] && !Same(list[j], word);
      }
    }
  }

  // A word that no listed word equals has not occurred.
  lemma {:induction false} NotYet(list: seq<string>, words: seq<string>, word: string)
    requires !Has(list, word) && forall k :: 0 <= k < |words| ==> Has(list, words[k])
    ensures Occurs(words, word) == 0
  {
    hide LowerCase;
    if |words| > 0 {
      assert Has(list, words[0]);
      forall k | 0 <= k < |words[1..]| ensures Has(list, words[1..][k]) { assert words[1..][k] == words[k + 1]; }
      NotYet(list, words[1..], word);
    }
  }

  // --------------------------------------------------------------- the report

  // A count, with zeros before it up to seven characters.
  function Pad(s: string): string
    decreases 7 - |s|
  {
    if |s| < 7 then Pad("0" + s) else s
  }

  function Padded(n: nat): string {
    Pad(NatToStr(n))
  }

  // The last k digits.
  function Fixed(n: nat, k: nat): (s: string)
    ensures |s| == k
  {
    if k == 0 then "" else Fixed(n / 10, k - 1) + [Digit(n % 10)]
  }

  function Ten(k: nat): (p: nat)
    ensures p > 0
  {
    if k == 0 then 1 else 10 * Ten(k - 1)
  }

  // Padding keeps the order of the counts up to `max` exactly while they have
  // at most seven digits.
  lemma PaddingOrders(max: nat)
    ensures max < 10_000_000 <==> forall a: nat, b: nat :: a <= max && b <= max ==>
        (StrLess(Padded(a), Padded(b)) <==> a < b)
  {
    hide StrLess, Padded;
    if max < 10_000_000 {
      forall a: nat, b: nat | a <= max && b <= max ensures StrLess(Padded(a), Padded(b)) <==> a < b {
        PaddedOrder(a, b);
      }
    } else {
      TooLong();
    }
  }

  lemma PaddedOrder(a: nat, b: nat)
    requires a < 10_000_000 && b < 10_000_000
    ensures StrLess(Padded(a), Padded(b)) <==> a < b
  {
    hide StrLess, Pad, NatToStr, Fixed;
    PaddedFixed(a);
    PaddedFixed(b);
    Ten7();
    FixedOrder(a, b, 7);
  }

  lemma Ten7()
    ensures Ten(7) == 10_000_000
  {
    assert Ten(2) == 100;
    assert Ten(4) == 10_000;
    assert Ten(6) == 1_000_000;
  }

  lemma TooLong()
    ensures !StrLess(Padded(9_999_999), Padded(10_000_000))
  {
    Ten7();
    PaddedFixed(9_999_999);
    Nines();
    assert NatToStr(1) == "1" && NatToStr(10) == "1" + "0" && NatToStr(100) == "1" + "0" + "0";
    assert NatToStr(10_000)[0] == '1';
    assert NatToStr(10_000) == NatToStr(1000) + "0" && NatToStr(1000) == NatToStr(100) + "0";
    assert NatToStr(1_000_000) == NatToStr(100_000) + "0" && NatToStr(100_000) == NatToStr(10_000) + "0";
    assert NatToStr(10_000_000) == NatToStr(1_000_000) + "0";
    assert NatToStr(10_000_000)[0] == '1';
  }

  lemma Nines()
    ensures Fixed(9_999_999, 7)[0] == '9'
  {
    assert Fixed(9, 1) == "9";
    assert Fixed(999, 3)[0] == Fixed(99, 2)[0] == Fixed(9, 1)[0];
    assert Fixed(99_999, 5)[0] == Fixed(9_999, 4)[0] == Fixed(999, 3)[0];
    assert Fixed(9_999_999, 7)[0] == Fixed(999_999, 6)[0] == Fixed(99_999, 5)[0];
  }

  lemma PaddedFixed(n: nat)
    requires n < 10_000_000
    ensures Padded(n) == Fixed(n, 7)
  {
    Ten7();
    var s := NatToStr(n);
    Shorter(n, 7);
    PadZeros(s, 7 - |s|);
    FixedZeros(n, 7);
  }

  lemma {:induction false} Shorter(n: nat, k: nat)
    requires k > 0 && n < Ten(k)
    ensures |NatToStr(n)| <= k
  {
    if n >= 10 { Shorter(n / 10, k - 1); }
  }

  function Zeros(k: nat): (z: string)
    ensures |z| == k
  {
    seq(k, i => '0')
  }

  lemma {:induction false} PadZeros(s: string, k: nat)
    requires |s| + k == 7
    ensures Pad(s) == Zeros(k) + s
    decreases k
  {
    if k > 0 {
      PadZeros("0" + s, k - 1);
      assert Zeros(k - 1) + ("0" + s) == Zeros(k) + s;
    } else {
      assert Zeros(0) + s == s;
    }
  }

  lemma {:induction false} FixedZeros(n: nat, k: nat)
    requires k > 0 && n < Ten(k) && |NatToStr(n)| <= k
    ensures Fixed(n, k) == Zeros(k - |NatToStr(n)|) + NatToStr(n)
  {
    if n < 10 {
      NoDigits(k - 1);
    } else {
      Shorter(n / 10, k - 1);
      FixedZeros(n / 10, k - 1);
      var s := NatToStr(n / 10);
      assert Zeros(k - 1 - |s|) + s + [Digit(n % 10)] == Zeros(k - 1 - |s|) + (s + [Digit(n % 10)]);
    }
  }

  lemma {:induction false} NoDigits(k: nat)
    ensures Fixed(0, k) == Zeros(k)
  {
    if k > 0 {
      NoDigits(k - 1);
      assert Zeros(k) == Zeros(k - 1) + "0";
    }
  }

  lemma {:induction false} FixedOrder(a: nat, b: nat, k: nat)
    requires a < Ten(k) && b < Ten(k)
    ensures StrLess(Fixed(a, k), Fixed(b, k)) <==> a < b
    ensures Fixed(a, k) == Fixed(b, k) <==> a == b
  {
    if k > 0 {
      FixedOrder(a / 10, b / 10, k - 1);
      LessLast(Fixed(a / 10, k - 1), Fixed(b / 10, k - 1), Digit(a % 10), Digit(b % 10));
      DigitOrder(a % 10, b % 10);
    }
  }

  lemma DigitOrder(a: nat, b: nat)
    requires a < 10 && b < 10
    ensures Digit(a) < Digit(b) <==> a < b
    ensures Digit(a) == Digit(b) <==> a == b
  {
  }

  lemma {:induction false} LessLast(s: string, t: string, c: char, d: char)
    requires |s| == |t|
    ensures StrLess(s + [c], t + [d]) <==> StrLess(s, t) || (s == t && c < d)
    ensures s + [c] == t + [d] <==> s == t && c == d
  {
    if |s| == 0 {
      assert s + [c] == [c] && t + [d] == [d];
    } else {
      assert (s + [c])[1..] == s[1..] + [c] && (t + [d])[1..] == t[1..] + [d];
      LessLast(s[1..], t[1..], c, d);
      assert s == [s[0]] + s[1..] && t == [t[0]] + t[1..];
      StrTotal(s, t);
      assert (s + [c])[..|s|] == s && (t + [d])[..|t|] == t;
      assert (s + [c])[|s|] == c && (t + [d])[|t|] == d;
    }
  }

  // ----------------------------------------------------------------- WordStats

  // The words of several texts.
  function Tokens(texts: seq<string>, toSpace: string, toDelete: string): seq<string> {
    if |texts| == 0 then []
    else Tokens(texts[..|texts| - 1], toSpace, toDelete) + Words(texts[|texts| - 1], toSpace, toDelete)
  }

  // The rows: each word with its padded count.
  function Report(list: seq<string>, counts: seq<nat>): (rows: seq<seq<string>>)
    requires |list| == |counts|
    ensures |rows| == |list|
    ensures forall i :: 0 <= i < |rows| ==> rows[i] == [list[i], Padded(counts[i])]
  {
    seq(|list|, i requires 0 <= i < |list| => [list[i], Padded(counts[i])])
  }

  // Exactly one row for each word that occurs, whatever its case, holding how
  // often it does.
  ghost predicate Reports(rows: seq<seq<string>>, words: seq<string>) {
    && (forall r :: 0 <= r < |rows| ==>
         |rows[r]| == 2 && rows[r][0] in words && rows[r][1] == Padded(Occurs(words, rows[r][0])))
    && (forall k :: 0 <= k < |words| ==> Listed(rows, words[k]))
    && forall q, r :: 0 <= q < r < |rows| ==> Apart(rows[q], rows[r])
  }

  predicate Listed(rows: seq<seq<string>>, w: string) {
    exists r :: 0 <= r < |rows| && |rows[r]| > 0 && Same(rows[r][0], w)
  }

  predicate Apart(q: seq<string>, r: seq<string>) {
    |q| > 0 && |r| > 0 && !Same(q[0], r[0])
  }

  method AddWords(list: CWSortedList, counts: seq<nat>, tokens: CWStringList, ghost words: seq<string>)
    returns (after: seq<nat>)
    requires list.Valid() && list.Unique && !list.CaseSensitive && Counted(list.Strings, counts, words)
    modifies list
    ensures list.Valid() && Counted(list.Strings, after, words + tokens.Strings)
  {
    hide Counted, Cmp, StrictlyInOrder, InOrder;
    ghost var all := tokens.Strings;
    after := counts;
    assert words + all[..0] == words;
    var x := 0;
    while x < |tokens.Strings|
      invariant x <= |all| && tokens.Strings == all
      invariant list.Valid() && Counted(list.Strings, after, words + all[..x])
    {
      after := CountWord(list, after, tokens.Strings[x], words + all[..x]);
      assert words + all[..x] + [all[x]] == words + all[..x + 1];
      x := x + 1;
    }
    assert all[..|all|] == all;
  }

  method CountTokens(texts: CWSortedList, toSpace: string, toDelete: string)
    returns (words: CWSortedList, counts: seq<nat>)
    ensures fresh(words) && Counted(words.Strings, counts, Tokens(texts.Strings, toSpace, toDelete))
  {
    hide Counted, Cmp, StrictlyInOrder, InOrder, Words;
    words := new CWSortedList(false, true);
    counts := [];
    ghost var all := texts.Strings;
    NothingCounted();
    var rowCount := |texts.Strings|;
    var i := 0;
    while i < rowCount
      invariant i <= rowCount == |all| && texts.Strings == all && fresh(words)
      invariant words.Unique && !words.CaseSensitive && words.Valid()
      invariant Counted(words.Strings, counts, Tokens(all[..i], toSpace, toDelete))
    {
      var tmp := new CWStringList();
      StringToListExt(texts.Strings[i], tmp, toSpace, toDelete);
      counts := AddWords(words, counts, tmp, Tokens(all[..i], toSpace, toDelete));
      assert all[..i + 1][..i] == all[..i];
      i := i + 1;
    }
    assert all[..rowCount] == all;
  }

  lemma NothingCounted()
    ensures Counted([], [], [])
  {
  }

  // Most frequent first.
  predicate MostFirst(rows: seq<seq<string>>, words: seq<string>)
    requires forall r :: 0 <= r < |rows| ==> |rows[r]| == 2
  {
    forall q, r :: 0 <= q < r < |rows| ==> Occurs(words, rows[q][0]) >= Occurs(words, rows[r][0])
  }

  // The padded counts, as the sort leaves them.
  predicate Downwards(rows: seq<seq<string>>)
    requires forall r :: 0 <= r < |rows| ==> |rows[r]| == 2
  {
    forall q, r :: 0 <= q < r < |rows| ==> StrCmp(rows[q][1], rows[r][1], true) <= 0
  }

  // No two words whose padded counts stand in the wrong order.
  predicate PadsInOrder(words: seq<string>) {
    forall j, k :: 0 <= j < |words| && 0 <= k < |words| ==>
        PairInOrder(Occurs(words, words[j]), Occurs(words, words[k]))
  }

  predicate PairInOrder(a: nat, b: nat) {
    a < b ==> !StrLess(Padded(b), Padded(a))
  }

  // Counts of at most seven digits do.
  lemma ShortCounts(words: seq<string>)
    requires forall k :: 0 <= k < |words| ==> Occurs(words, words[k]) < 10_000_000
    ensures PadsInOrder(words)
  {
    hide StrLess, Padded, Occurs;
    forall j, k | 0 <= j < |words| && 0 <= k < |words|
      ensures PairInOrder(Occurs(words, words[j]), Occurs(words, words[k])) {
      PaddedOrder(Occurs(words, words[k]), Occurs(words, words[j]));
    }
  }

  // WordStats, over a column: false without such a column.
  method WordStats(table: CWStringTable, col: int, stats: CWStringTable, unique: bool, toSpace: string,
                   toDelete: string)
    returns (ok: bool, sum: nat)
    requires table.Valid()
    modifies stats
    ensures ok <==> 0 <= col < |old(table.Columns)|
    ensures !ok ==> stats.Columns == old(stats.Columns) && stats.Rows == old(stats.Rows)
    ensures ok ==>
      var words := Tokens(Merged([], old(table.Columns[col].Strings), false, unique), toSpace, toDelete);
      && stats.Valid() && Reports(stats.Rows, words) && sum == |words|
      && (MostFirst(stats.Rows, words) <==> PadsInOrder(words))
      && ((forall k :: 0 <= k < |words| ==> Occurs(words, words[k]) < 10_000_000) ==> MostFirst(stats.Rows, words))
  {
    if col < 0 || col >= |table.Columns| { return false, 0; }
    hide Counted, Cmp, StrictlyInOrder, InOrder, Reports, MostFirst, PadsInOrder, Merged, Tokens, Occurs;
    ghost var column := table.Columns[col].Strings;
    var texts := new CWSortedList(false, unique);
    texts.Merge(table.Columns[col]);
    ghost var words := Tokens(Merged([], column, false, unique), toSpace, toDelete);
    ghost var tokens := Tokens(texts.Strings, toSpace, toDelete);
    TokensPermuted(texts.Strings, Merged([], column, false, unique), toSpace, toDelete);
    var list, counts := CountTokens(texts, toSpace, toDelete);
    sum := Fill(stats, list, counts, texts.Strings, toSpace, toDelete);
    ghost var rows := stats.Rows;
    stats.Sort(1, true);
    Shuffled(list.Strings, counts, stats.Rows, rows, tokens, words);
    forall q, r | 0 <= q < r < |stats.Rows| ensures StrCmp(stats.Rows[q][1], stats.Rows[r][1], true) <= 0 {
      assert StrCmp(stats.Columns[1].Strings[q], stats.Columns[1].Strings[r], true) <= 0;
    }
    CountsDescend(stats.Rows, words);
    if forall k :: 0 <= k < |words| ==> Occurs(words, words[k]) < 10_000_000 { ShortCounts(words); }
    ok := true;
  }

  // The count as it stands in its column.
  method CountText(n: nat) returns (tmp: string)
    ensures tmp == Padded(n)
  {
    tmp := IntToStr(n);
    while |tmp| < 7
      invariant Pad(tmp) == Padded(n)
      decreases 7 - |tmp|
    {
      tmp := "0" + tmp;
    }
  }

  // The two columns, filled.
  method Fill(stats: CWStringTable, list: CWSortedList, counts: seq<nat>, ghost texts: seq<string>,
              ghost toSpace: string,
              ghost toDelete: string)
    returns (sum: nat)
    requires Counted(list.Strings, counts, Tokens(texts, toSpace, toDelete))
    modifies stats
    ensures stats.Valid() && |stats.Columns| == 2 && fresh(stats.Columns)
    ensures |list.Strings| == |counts| && stats.Rows == Report(list.Strings, counts)
    ensures sum == |Tokens(texts, toSpace, toDelete)|
  {
    hide Counted, Tokens, Padded;
    NoEmptyToken(texts, toSpace, toDelete);
    CountedLists(list.Strings, counts, Tokens(texts, toSpace, toDelete));
    stats.Clear();
    var wordCol := stats.AddCol("");
    var countCol := stats.AddCol("");
    assert stats.Columns[0] == wordCol && stats.Columns[1] == countCol && |stats.Rows| == 0;
    sum := FillColumns(list, counts, wordCol, countCol);
    stats.Rows := Report(list.Strings, counts);
  }

  lemma CountedLists(list: seq<string>, counts: seq<nat>, words: seq<string>)
    requires Counted(list, counts, words)
    ensures |counts| == |list| && Sum(counts) == |words|
    ensures "" !in words ==> "" !in list
  {
  }

  method FillColumns(list: CWSortedList, counts: seq<nat>, wordCol: CWStringList, countCol: CWStringList)
    returns (sum: nat)
    requires |counts| == |list.Strings| && "" !in list.Strings && wordCol != countCol
    requires wordCol.Strings == [] && countCol.Strings == []
    modifies wordCol, countCol
    ensures wordCol.Strings == list.Strings && sum == Sum(counts)
    ensures |countCol.Strings| == |counts| && forall j :: 0 <= j < |counts| ==> countCol.Strings[j] == Padded(counts[j])
  {
    hide Padded;
    ghost var all := list.Strings;
    sum := 0;
    var wordCount := |list.Strings|;
    var i := 0;
    while i < wordCount
      invariant i <= wordCount == |all| && list.Strings == all
      invariant wordCol.Strings == all[..i]
      invariant |countCol.Strings| == i && forall j :: 0 <= j < i ==> countCol.Strings[j] == Padded(counts[j])
      invariant sum == Sum(counts[..i])
    {
      SumAppend(counts, i);
      assert all[i] in all;
      if list.Strings[i] != "" {
        wordCol.Strings := wordCol.Strings + [list.Strings[i]];
        var tmp := CountText(counts[i]);
        countCol.Strings := countCol.Strings + [tmp];
        sum := sum + counts[i];
      }
      i := i + 1;
    }
    assert counts[..wordCount] == counts;
  }

  lemma {:induction false} SumAppend(counts: seq<nat>, i: nat)
    requires i < |counts|
    ensures Sum(counts[..i + 1]) == Sum(counts[..i]) + counts[i]
  {
    if i > 0 {
      assert counts[..i + 1][1..] == counts[1..][..i] && counts[..i][1..] == counts[1..][..i - 1];
      SumAppend(counts[1..], i - 1);
    }
  }

  lemma {:induction false} NoEmptyToken(texts: seq<string>, toSpace: string, toDelete: string)
    ensures "" !in Tokens(texts, toSpace, toDelete)
  {
    if |texts| > 0 {
      NoEmptyToken(texts[..|texts| - 1], toSpace, toDelete);
      NoEmptyWord(Pieces(Without(SpaceOut(texts[|texts| - 1], toSpace, ' '), toDelete), ' '));
    }
  }

  lemma RemovedAt<T>(t: seq<T>, k: nat)
    requires k < |t|
    ensures t == t[..k] + ([t[k]] + t[k + 1..])
    ensures multiset(t[..k] + t[k + 1..]) == multiset(t) - multiset{t[k]}
  {
    assert t == t[..k] + ([t[k]] + t[k + 1..]);
    assert multiset(t) == multiset(t[..k]) + (multiset{t[k]} + multiset(t[k + 1..]));
  }

  // The order of the texts does not matter to the words in them.
  lemma {:induction false} TokensPermuted(s: seq<string>, t: seq<string>, toSpace: string, toDelete: string)
    requires multiset(s) == multiset(t)
    ensures multiset(Tokens(s, toSpace, toDelete)) == multiset(Tokens(t, toSpace, toDelete))
    decreases |s|
  {
    hide Words, Tokens;
    if |s| == 0 {
      assert |t| == |multiset(t)| == |multiset(s)| == 0;
    } else {
      assert s[0] in multiset(t);
      var k :| 0 <= k < |t| && t[k] == s[0];
      RemovedAt(s, 0);
      RemovedAt(t, k);
      assert s[..0] + s[1..] == s[1..];
      TokensPermuted(s[1..], t[..k] + t[k + 1..], toSpace, toDelete);
      TokensAt(s, 0, toSpace, toDelete);
      TokensAt(t, k, toSpace, toDelete);
    }
  }

  lemma TokensAt(t: seq<string>, k: nat, toSpace: string, toDelete: string)
    requires k < |t|
    ensures multiset(Tokens(t, toSpace, toDelete))
         == multiset(Tokens(t[..k] + t[k + 1..], toSpace, toDelete)) + multiset(Words(t[k], toSpace, toDelete))
  {
    hide Words;
    RemovedAt(t, k);
    TokensConcat(t[..k], t[k + 1..], toSpace, toDelete);
    TokensConcat(t[..k], [t[k]] + t[k + 1..], toSpace, toDelete);
    TokensConcat([t[k]], t[k + 1..], toSpace, toDelete);
    assert [t[k]][..0] == [] && Tokens([t[k]], toSpace, toDelete) == Words(t[k], toSpace, toDelete);
  }

  lemma {:induction false} TokensConcat(s: seq<string>, t: seq<string>, toSpace: string, toDelete: string)
    ensures Tokens(s + t, toSpace, toDelete) == Tokens(s, toSpace, toDelete) + Tokens(t, toSpace, toDelete)
    decreases |t|
  {
    hide Words;
    if |t| == 0 {
      assert s + t == s;
    } else {
      var init := t[..|t| - 1];
      assert (s + t)[..|s + t| - 1] == s + init;
      TokensConcat(s, init, toSpace, toDelete);
    }
  }

  lemma {:induction false} OccursPermuted(s: seq<string>, t: seq<string>, w: string)
    requires multiset(s) == multiset(t)
    ensures Occurs(s, w) == Occurs(t, w)
    decreases |s|
  {
    hide Same, Occurs;
    if |s| == 0 {
      assert |t| == |multiset(t)| == |multiset(s)| == 0;
    } else {
      assert s[0] in multiset(t);
      var k :| 0 <= k < |t| && t[k] == s[0];
      RemovedAt(s, 0);
      RemovedAt(t, k);
      assert s[..0] + s[1..] == s[1..];
      OccursPermuted(s[1..], t[..k] + t[k + 1..], w);
      OccursAt(s, 0, w);
      OccursAt(t, k, w);
    }
  }

  lemma OccursAt(t: seq<string>, k: nat, w: string)
    requires k < |t|
    ensures Occurs(t, w) == Occurs(t[..k] + t[k + 1..], w) + if Same(t[k], w) then 1 else 0
  {
    hide Same;
    RemovedAt(t, k);
    OccursConcat(t[..k], t[k + 1..], w);
    OccursConcat(t[..k], [t[k]] + t[k + 1..], w);
    assert ([t[k]] + t[k + 1..])[1..] == t[k + 1..];
  }

  // Rows that report one order of the words report every order of them, and
  // may stand in any order themselves.
  lemma Shuffled(list: seq<string>, counts: seq<nat>, rows: seq<seq<string>>, before: seq<seq<string>>,
                 tokens: seq<string>, words: seq<string>)
    requires Counted(list, counts, tokens) && multiset(tokens) == multiset(words)
    requires |list| == |counts| && before == Report(list, counts) && multiset(rows) == multiset(before)
    ensures Reports(rows, words) && |tokens| == |words|
  {
    hide Counted, Report, LowerCase, Occurs, Padded, Sum, Listed, Apart;
    assert |tokens| == |multiset(tokens)| == |multiset(words)|;
    forall r | 0 <= r < |rows|
      ensures |rows[r]| == 2 && rows[r][0] in words && rows[r][1] == Padded(Occurs(words, rows[r][0]))
    {
      RowIs(list, counts, rows, before, tokens, words, r);
    }
    forall k | 0 <= k < |words| ensures Listed(rows, words[k]) {
      assert words[k] in multiset(tokens);
      CountedHas(list, counts, tokens, words[k]);
      ListedIn(list, counts, rows, before, words[k]);
    }
    ReportApart(list, counts, tokens);
    StillApart(rows, before);
  }

  lemma CountedHas(list: seq<string>, counts: seq<nat>, tokens: seq<string>, w: string)
    requires Counted(list, counts, tokens) && w in tokens
    ensures Has(list, w)
  {
    hide Has, Occurs, Sum, Distinct;
    var j :| 0 <= j < |tokens| && tokens[j] == w;
  }

  lemma ReportApart(list: seq<string>, counts: seq<nat>, tokens: seq<string>)
    requires Counted(list, counts, tokens) && |list| == |counts|
    ensures forall q, r :: 0 <= q < r < |list| ==> Apart(Report(list, counts)[q], Report(list, counts)[r])
  {
    hide LowerCase, Occurs, Sum, Has, Padded;
  }

  lemma RowIs(list: seq<string>, counts: seq<nat>, rows: seq<seq<string>>, before: seq<seq<string>>,
              tokens: seq<string>, words: seq<string>, r: nat)
    requires Counted(list, counts, tokens) && multiset(tokens) == multiset(words)
    requires |list| == |counts| && before == Report(list, counts) && multiset(rows) == multiset(before)
    requires r < |rows|
    ensures |rows[r]| == 2 && rows[r][0] in words && rows[r][1] == Padded(Occurs(words, rows[r][0]))
  {
    hide LowerCase, Occurs, Padded, Sum;
    assert rows[r] in multiset(before);
    var i :| 0 <= i < |before| && before[i] == rows[r];
    OccursPermuted(tokens, words, list[i]);
    assert list[i] in multiset(words);
  }

  lemma ListedIn(list: seq<string>, counts: seq<nat>, rows: seq<seq<string>>, before: seq<seq<string>>, w: string)
    requires Has(list, w)
    requires |list| == |counts| && before == Report(list, counts) && multiset(rows) == multiset(before)
    ensures Listed(rows, w)
  {
    hide LowerCase, Padded;
    var i :| 0 <= i < |list| && Same(list[i], w);
    assert before[i] in multiset(rows);
    var r :| 0 <= r < |rows| && rows[r] == before[i];
  }

  lemma StillApart(rows: seq<seq<string>>, before: seq<seq<string>>)
    requires forall q, r :: 0 <= q < r < |before| ==> Apart(before[q], before[r])
    requires multiset(rows) == multiset(before)
    ensures forall q, r :: 0 <= q < r < |rows| ==> Apart(rows[q], rows[r])
  {
    hide LowerCase;
    forall q, r | 0 <= q < r < |rows| ensures Apart(rows[q], rows[r]) {
      if rows[q] == rows[r] {
        assert rows == rows[..q] + [rows[q]] + rows[q + 1..r] + [rows[r]] + rows[r + 1..];
        Twice(before, rows[q]);
      } else {
        assert rows[q] in multiset(before) && rows[r] in multiset(before);
        var i :| 0 <= i < |before| && before[i] == rows[q];
        var j :| 0 <= j < |before| && before[j] == rows[r];
        assert Apart(before[if i < j then i else j], before[if i < j then j else i]);
      }
    }
  }

  lemma {:induction false} Twice<T>(s: seq<T>, x: T)
    requires multiset(s)[x] >= 2
    ensures exists i, j :: 0 <= i < j < |s| && s[i] == s[j] == x
  {
    assert s == [s[0]] + s[1..];
    if s[0] == x {
      assert x in multiset(s[1..]);
      var j :| 0 <= j < |s[1..]| && s[1..][j] == x;
      assert s[j + 1] == x;
    } else {
      Twice(s[1..], x);
      var i, j :| 0 <= i < j < |s[1..]| && s[1..][i] == s[1..][j] == x;
      assert s[i + 1] == s[j + 1] == x;
    }
  }

  // Sorted downwards by the padded counts, the rows have the most frequent
  // words first exactly when no two padded counts stand in the wrong order.
  lemma CountsDescend(rows: seq<seq<string>>, words: seq<string>)
    requires Reports(rows, words)
    requires Downwards(rows)
    ensures MostFirst(rows, words) <==> PadsInOrder(words)
  {
    hide Same, Occurs, Padded, StrLess;
    if PadsInOrder(words) {
      forall q, r | 0 <= q < r < |rows| ensures Occurs(words, rows[q][0]) >= Occurs(words, rows[r][0]) {
        RowsInOrder(rows, words, q, r);
      }
    }
    if MostFirst(rows, words) {
      forall j, k | 0 <= j < |words| && 0 <= k < |words|
        ensures PairInOrder(Occurs(words, words[j]), Occurs(words, words[k]))
      {
        WordsInOrder(rows, words, j, k);
      }
    }
  }

  lemma RowsInOrder(rows: seq<seq<string>>, words: seq<string>, q: nat, r: nat)
    requires Reports(rows, words) && PadsInOrder(words) && q < r < |rows|
    requires StrCmp(rows[q][1], rows[r][1], true) <= 0
    ensures Occurs(words, rows[q][0]) >= Occurs(words, rows[r][0])
  {
    hide Same, Occurs, Padded, StrLess;
    var j :| 0 <= j < |words| && words[j] == rows[q][0];
    var k :| 0 <= k < |words| && words[k] == rows[r][0];
    var a, b := Occurs(words, words[j]), Occurs(words, words[k]);
    assert PairInOrder(a, b);
    PaddedOnce(a, b);
  }

  lemma WordsInOrder(rows: seq<seq<string>>, words: seq<string>, j: nat, k: nat)
    requires Reports(rows, words) && MostFirst(rows, words) && j < |words| && k < |words|
    requires Downwards(rows)
    ensures PairInOrder(Occurs(words, words[j]), Occurs(words, words[k]))
  {
    hide Reports, MostFirst, Downwards, Occurs, Padded, StrLess, PairInOrder;
    var x := RowOf(rows, words, j);
    var y := RowOf(rows, words, k);
    if Occurs(words, words[j]) < Occurs(words, words[k]) {
      MoreIsBefore(rows, words, x, y);
    }
    PairOf(Occurs(words, words[j]), Occurs(words, words[k]));
  }

  lemma MoreIsBefore(rows: seq<seq<string>>, words: seq<string>, x: nat, y: nat)
    requires Reports(rows, words) && MostFirst(rows, words) && Downwards(rows) && x < |rows| && y < |rows|
    requires Occurs(words, rows[x][0]) < Occurs(words, rows[y][0])
    ensures StrCmp(rows[y][1], rows[x][1], true) <= 0
  {
    hide Occurs, Padded, StrLess, Listed, Apart;
  }

  lemma PairOf(a: nat, b: nat)
    requires a < b ==> StrCmp(Padded(b), Padded(a), true) <= 0
    ensures PairInOrder(a, b)
  {
    hide Padded;
    StrTotal(Padded(a), Padded(b));
  }

  lemma RowOf(rows: seq<seq<string>>, words: seq<string>, j: nat) returns (r: nat)
    requires Reports(rows, words) && j < |words|
    ensures r < |rows| && Occurs(words, rows[r][0]) == Occurs(words, words[j])
    ensures rows[r][1] == Padded(Occurs(words, words[j]))
  {
    hide Occurs, Padded, LowerCase;
    assert Listed(rows, words[j]);
    r :| 0 <= r < |rows| && |rows[r]| > 0 && Same(rows[r][0], words[j]);
    OccursSame(words, rows[r][0], words[j]);
  }

  lemma {:induction false} OccursSame(words: seq<string>, v: string, w: string)
    requires Same(v, w)
    ensures Occurs(words, v) == Occurs(words, w)
  {
    hide LowerCase;
    if |words| > 0 { OccursSame(words[1..], v, w); }
  }

  // With 9999999 times one word and 10000000 times another the rows come out
  // the wrong way round.
  lemma ManyWords()
    ensures !PadsInOrder(seq(9_999_999, i => "a") + seq(10_000_000, i => "b"))
  {
    hide StrLess, Padded, Occurs, LowerCase;
    var v, w := seq(9_999_999, i => "a"), seq(10_000_000, i => "b");
    var words := v + w;
    OtherWord();
    Repeated(9_999_999, "a", "a");
    Repeated(10_000_000, "b", "a");
    Repeated(9_999_999, "a", "b");
    Repeated(10_000_000, "b", "b");
    OccursConcat(v, w, "a");
    OccursConcat(v, w, "b");
    assert words[0] == "a" && words[9_999_999] == "b";
    TooLong();
    PaddedOnce(9_999_999, 10_000_000);
    StrTotal(Padded(9_999_999), Padded(10_000_000));
    assert !PairInOrder(Occurs(words, words[0]), Occurs(words, words[9_999_999]));
  }

  lemma OtherWord()
    ensures Same("a", "a") && Same("b", "b") && !Same("a", "b") && !Same("b", "a")
  {
    assert LowerCase("a") == "a" && LowerCase("b") == "b";
  }

  lemma {:induction false} Repeated(n: nat, v: string, w: string)
    ensures Occurs(seq(n, i => v), w) == if Same(v, w) then n else 0
  {
    hide Same;
    if n > 0 {
      assert seq(n, i => v)[1..] == seq(n - 1, i => v);
      Repeated(n - 1, v, w);
    }
  }

  // Different counts have different padded texts.
  lemma PaddedOnce(a: nat, b: nat)
    ensures Padded(a) == Padded(b) ==> a == b
  {
    hide Pad, NatToStr, Json.Digits;
    ReadPadded(a);
    ReadPadded(b);
  }

  lemma ReadPadded(n: nat)
    ensures Json.Digits(Padded(n), 0) == n
  {
    hide Json.Digits;
    JsonRoundTrip.DigitsOf(n, "");
    assert NatToStr(n) + "" == NatToStr(n);
    NoDigitsLeft(n);
    PadReads(NatToStr(n));
  }

  lemma NoDigitsLeft(n: nat)
    ensures Json.Digits("", n) == n
  {
  }

  lemma {:induction false} PadReads(s: string)
    ensures Json.Digits(Pad(s), 0) == Json.Digits(s, 0)
    decreases 7 - |s|
  {
    if |s| < 7 {
      PadReads("0" + s);
      assert ("0" + s)[1..] == s;
    }
  }

  // Without the unique flag every text of the column is counted.
  lemma AllTextsCount(column: seq<string>, toSpace: string, toDelete: string)
    ensures Tokens(Merged([], column, false, false), toSpace, toDelete) == Tokens(column, toSpace, toDelete)
  {
    MergedIs([], column, false, false, "");
    assert [] + column == column;
  }
}
