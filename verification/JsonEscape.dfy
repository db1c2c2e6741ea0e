// EscapeJSON and UnescapeJSON: two chains of whole-string replacements that
// undo each other on every string.

module JsonEscape {
  import opened Strings

  const BACKSPACE: char := '\U{0008}'
  const FORM_FEED: char := '\U{000C}'

  // The characters the chain escapes, in the order it does so, and the letter
  // that stands for each after a backslash.
  const RAW: string := ['\\', '\"', '/', BACKSPACE, FORM_FEED, '\n', '\r', '\t']
  const LETTER: string := ['\\', '\"', '/', 'b', 'f', 'n', 'r', 't']

  // The rank of a character in that order; 8 for one that needs no escape.
  function Rank(c: char): (r: nat)
    ensures r <= 8
    ensures r < 8 ==> RAW[r] == c
    ensures r == 8 ==> c !in RAW
  {
    if c == '\\' then 0 else if c == '\"' then 1 else if c == '/' then 2 else if c == BACKSPACE then 3
    else if c == FORM_FEED then 4 else if c == '\n' then 5 else if c == '\r' then 6 else if c == '\t' then 7 else 8
  }

  // JSON escaping, character by character and independent of any order.
  function Escape(s: string): string {
    if |s| == 0 then "" else EscapeChar(s[0]) + Escape(s[1..])
  }

  function EscapeChar(c: char): string {
    var r := Rank(c);
    if r == 8 then [c] else ['\\', LETTER[r]]
  }

  // The eight escapes, and everything else as it is.
  lemma EscapesAre(c: char)
    ensures Escape([c]) ==
            if c == '\"' then ['\\', '\"']
            else if c == '\\' then ['\\', '\\']
            else if c == '/' then ['\\', '/']
            else if c == '\U{0008}' then ['\\', 'b']
            else if c == '\U{000C}' then ['\\', 'f']
            else if c == '\n' then ['\\', 'n']
            else if c == '\r' then ['\\', 'r']
            else if c == '\t' then ['\\', 't']
            else [c]
  {
    assert [c][1..] == "" && Escape("") == "";
    assert EscapeChar(c) + "" == EscapeChar(c);
  }

  lemma {:induction false} EscapeConcat(a: string, b: string)
    ensures Escape(a + b) == Escape(a) + Escape(b)
  {
    hide EscapeChar;
    if |a| == 0 {
      assert a + b == b;
    } else {
      assert (a + b)[1..] == a[1..] + b;
      EscapeConcat(a[1..], b);
    }
  }

  // The string after the first k replacements of EscapeJSON.
  function EscapeStage(s: string, k: nat): string {
    if |s| == 0 then ""
    else (if Rank(s[0]) < k then EscapeChar(s[0]) else [s[0]]) + EscapeStage(s[1..], k)
  }

  // One replacement of the chain is one stage.
  lemma {:induction false} EscapeStep(s: string, k: nat)
    requires k < 8
    ensures ReplaceAll(EscapeStage(s, k), [RAW[k]], ['\\', LETTER[k]]) == EscapeStage(s, k + 1)
  {
    hide ReplaceAll;
    if |s| == 0 {
      ReplaceShort("", [RAW[k]], ['\\', LETTER[k]]);
    } else {
      var rest := EscapeStage(s[1..], k);
      EscapeStep(s[1..], k);
      if Rank(s[0]) == k {
        ReplaceMatch(rest, [RAW[k]], ['\\', LETTER[k]]);
      } else {
        StagePiece(s[0], k);
        PieceSkips(if Rank(s[0]) < k then EscapeChar(s[0]) else [s[0]], rest, RAW[k], ['\\', LETTER[k]]);
      }
    }
  }

  // Nothing to replace in what a character is at this stage.
  lemma StagePiece(c: char, k: nat)
    requires k < 8 && Rank(c) != k
    ensures var t := if Rank(c) < k then EscapeChar(c) else [c];
      forall i :: 0 <= i < |t| ==> t[i] != RAW[k]
  {
  }

  lemma PieceSkips(t: string, rest: string, c: char, n: string)
    requires forall i :: 0 <= i < |t| ==> t[i] != c
    ensures ReplaceAll(t + rest, [c], n) == t + ReplaceAll(rest, [c], n)
  {
    hide ReplaceAll;
    forall i: nat | i < |t| ensures !OccursAt(t + rest, [c], i) { NoMatch(t + rest, [c], i, 0); }
    ReplaceSkips(t, rest, [c], n);
  }

  lemma {:induction false} EscapeEnds(s: string)
    ensures EscapeStage(s, 0) == s && EscapeStage(s, 8) == Escape(s)
  {
    if |s| > 0 {
      EscapeEnds(s[1..]);
    }
  }

  // Lines 7-14.
  method EscapeJSON(p: StringBuffer)
    modifies p
    ensures p.value == Escape(old(p.value))
  {
    ghost var s := p.value;
    EscapeEnds(s);
    EscapeStep(s, 0); EscapeStep(s, 1); EscapeStep(s, 2); EscapeStep(s, 3);
    EscapeStep(s, 4); EscapeStep(s, 5); EscapeStep(s, 6); EscapeStep(s, 7);
    hide ReplaceAll, EscapeStage, Escape;
    ReplaceSubString(p, "\\", "\\\\");
    ReplaceSubString(p, "\"", "\\\"");
    ReplaceSubString(p, "/", "\\/");
    ReplaceSubString(p, [BACKSPACE], "\\b");
    ReplaceSubString(p, [FORM_FEED], "\\f");
    ReplaceSubString(p, "\n", "\\n");
    ReplaceSubString(p, "\r", "\\r");
    ReplaceSubString(p, "\t", "\\t");
  }

  // ---------------------------------------------------------------- unescape

  // The nine replacements of UnescapeJSON, as a function of the input.
  function Unescape(s: string): string {
    var s0 := ReplaceAll(s, "\\\\", "~\\~");
    var s1 := ReplaceAll(s0, "\\\"", "\"");
    var s2 := ReplaceAll(s1, "\\/", "/");
    var s3 := ReplaceAll(s2, "\\b", [BACKSPACE]);
    var s4 := ReplaceAll(s3, "\\f", [FORM_FEED]);
    var s5 := ReplaceAll(s4, "\\n", "\n");
    var s6 := ReplaceAll(s5, "\\r", "\r");
    var s7 := ReplaceAll(s6, "\\t", "\t");
    ReplaceAll(s7, "~\\~", "\\")
  }

  // Lines 26-34.
  method UnescapeJSON(p: StringBuffer)
    modifies p
    ensures p.value == Unescape(old(p.value))
  {
    hide ReplaceAll;
    ReplaceSubString(p, "\\\\", "~\\~");
    ReplaceSubString(p, "\\\"", "\"");
    ReplaceSubString(p, "\\/", "/");
    ReplaceSubString(p, "\\b", [BACKSPACE]);
    ReplaceSubString(p, "\\f", [FORM_FEED]);
    ReplaceSubString(p, "\\n", "\n");
    ReplaceSubString(p, "\\r", "\r");
    ReplaceSubString(p, "\\t", "\t");
    ReplaceSubString(p, "~\\~", "\\");
  }

  // The escaped form of s after k replacements of the unescaping chain:
  // a backslash stands as ~\~ and the escapes of rank below k are undone.
  function UnescapeStage(s: string, k: nat): string {
    if |s| == 0 then "" else UnescapeToken(s[0], k) + UnescapeStage(s[1..], k)
  }

  function UnescapeToken(c: char, k: nat): string {
    if Rank(c) == 0 then (if k == 0 then "\\\\" else "~\\~")
    else if Rank(c) < k then [c]
    else EscapeChar(c)
  }

  // No token but a backslash's own starts so that it could complete ~\~.
  lemma StageHead(s: string, k: nat)
    requires k == 8 && |UnescapeStage(s, k)| > 0
    ensures UnescapeStage(s, k)[0] != '\\'
  {
  }

  lemma {:induction false} UnescapeFirst(s: string)
    ensures ReplaceAll(UnescapeStage(s, 0), "\\\\", "~\\~") == UnescapeStage(s, 1)
  {
    if |s| > 0 {
      var rest := UnescapeStage(s[1..], 0);
      UnescapeFirst(s[1..]);
      var t := UnescapeToken(s[0], 0);
      if Rank(s[0]) == 0 {
        ReplaceMatch(rest, "\\\\", "~\\~");
      } else {
        forall i: nat | i < |t| ensures !OccursAt(t + rest, "\\\\", i) {
          NoMatch(t + rest, "\\\\", i, if (t + rest)[i] == '\\' then 1 else 0);
        }
        ReplaceSkips(t, rest, "\\\\", "~\\~");
      }
    }
  }

  lemma {:induction false} UnescapeStep(s: string, k: nat)
    requires 1 <= k < 8
    ensures ReplaceAll(UnescapeStage(s, k), ['\\', LETTER[k]], [RAW[k]]) == UnescapeStage(s, k + 1)
  {
    if |s| > 0 {
      var o := ['\\', LETTER[k]];
      var rest := UnescapeStage(s[1..], k);
      UnescapeStep(s[1..], k);
      var t := UnescapeToken(s[0], k);
      if Rank(s[0]) == k {
        ReplaceMatch(rest, o, [RAW[k]]);
      } else {
        forall i: nat | i < |t| ensures !OccursAt(t + rest, o, i) {
          NoMatch(t + rest, o, i, if (t + rest)[i] == '\\' then 1 else 0);
        }
        ReplaceSkips(t, rest, o, [RAW[k]]);
      }
    }
  }

  lemma {:induction false} UnescapeLast(s: string)
    ensures ReplaceAll(UnescapeStage(s, 8), "~\\~", "\\") == s
  {
    if |s| > 0 {
      var rest := UnescapeStage(s[1..], 8);
      UnescapeLast(s[1..]);
      if Rank(s[0]) == 0 {
        ReplaceMatch(rest, "~\\~", "\\");
      } else {
        var t := [s[0]];
        if |rest| > 0 { StageHead(s[1..], 8); }
        forall i: nat | i < |t| ensures !OccursAt(t + rest, "~\\~", i) {
          NoMatch(t + rest, "~\\~", i, 1);
        }
        ReplaceSkips(t, rest, "~\\~", "\\");
      }
    }
  }

  lemma {:induction false} StageZero(s: string)
    ensures UnescapeStage(s, 0) == Escape(s)
  {
    if |s| > 0 {
      StageZero(s[1..]);
    }
  }

  // Unescaping undoes escaping on every string: runs of backslashes, ~\~ in
  // the input and all.
  lemma UnescapeEscape(s: string)
    ensures Unescape(Escape(s)) == s
  {
    StageZero(s);
    UnescapeFirst(s);
    UnescapeStep(s, 1); UnescapeStep(s, 2); UnescapeStep(s, 3); UnescapeStep(s, 4);
    UnescapeStep(s, 5); UnescapeStep(s, 6); UnescapeStep(s, 7);
    UnescapeLast(s);
    hide ReplaceAll, UnescapeStage, Escape;
  }
}
