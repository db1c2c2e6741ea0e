// What the reader accepts as a literal, a string and a number, character by
// character, and what its two layouts look like.

module JsonReads {
  import opened Strings
  import opened Json
  import opened JsonText

  // From e on blanks and then, at f, a comma or a closing bracket.
  predicate SpacedEnd(s: string, e: nat, f: nat) {
    && e <= f < |s| && s[f] in ",]}"
    && forall i :: e <= i < f ==> s[i] in " \t\r\n"
  }

  lemma FinishExactly(s: string, e: nat, v: Value, f: nat)
    requires e <= |s|
    ensures Finish(s, e, v) == Ok(v, f) <==> SpacedEnd(s, e, f)
    ensures Finish(s, e, v).Ok? ==> Finish(s, e, v).value == v
  {
    assert forall c :: IsWs(c) <==> c in " \t\r\n";
    assert forall c :: EndsValue(c) <==> c in ",]}";
    var p := SkipWs(s, e);
    assert SpacedEnd(s, e, f) ==> !IsWs(s[f]);
  }

  // A literal is read exactly where its word stands and nothing but blanks is
  // before the comma or closing bracket.
  lemma LiteralExactly(s: string, pos: nat, word: string, v: Value, f: nat)
    requires pos < |s| && IsAlnum(s[pos]) && |word| > 0 && forall i :: 0 <= i < |word| ==> IsAlnum(word[i])
    ensures ParseWord(s, pos, word, v) == Ok(v, f) <==> OccursAt(s, word, pos) && SpacedEnd(s, pos + |word|, f)
    ensures ParseWord(s, pos, word, v).Ok? ==> ParseWord(s, pos, word, v).value == v
  {
    var p := SkipAlnum(s, pos);
    var e := pos + |word|;
    if p < |s| && s[pos..p] == word {
      FinishExactly(s, p, v, f);
      assert |s[pos..p]| == |word|;
    }
    if OccursAt(s, word, pos) && SpacedEnd(s, e, f) {
      RunEnds(s, pos, word, f);
    }
  }

  lemma RunEnds(s: string, pos: nat, word: string, f: nat)
    requires OccursAt(s, word, pos) && SpacedEnd(s, pos + |word|, f)
    requires forall i :: 0 <= i < |word| ==> IsAlnum(word[i])
    ensures SkipAlnum(s, pos) == pos + |word|
  {
    var p, e := SkipAlnum(s, pos), pos + |word|;
    forall i | pos <= i < e ensures IsAlnum(s[i]) { CharOf(s, word, pos, i - pos); }
    assert !IsAlnum(s[e]) by { assert s[e] in ",]}" || s[e] in " \t\r\n"; }
  }

  // The first quote after the opening one that no backslash precedes.
  predicate QuoteAt(s: string, pos: nat, q: nat) {
    && pos < q < |s| && s[q] == '\"' && s[q - 1] != '\\'
    && forall i :: pos < i < q ==> s[i] != '\"' || s[i - 1] == '\\'
  }

  // A string is what stands before that quote, as it is.
  lemma StringExactly(s: string, pos: nat, x: string, f: nat)
    requires pos < |s|
    ensures ParseString(s, pos) == Ok(Str(x), f) <==>
            exists q: nat :: QuoteAt(s, pos, q) && x == s[pos + 1..q] && SpacedEnd(s, q + 1, f)
    ensures ParseString(s, pos).Ok? ==> ParseString(s, pos).value.Str?
  {
    hide SpacedEnd, Finish;
    var p := FindQuote(s, pos + 1);
    forall q: nat | QuoteAt(s, pos, q) ensures q == p { QuoteFound(s, pos, q); }
    if p < |s| {
      QuoteIs(s, pos);
      FinishExactly(s, p + 1, Str(s[pos + 1..p]), f);
    }
  }

  lemma QuoteFound(s: string, pos: nat, q: nat)
    requires QuoteAt(s, pos, q)
    ensures FindQuote(s, pos + 1) == q
  {
    assert Closes(s, q);
    assert forall i: nat :: pos < i < q ==> !Closes(s, i);
  }

  lemma QuoteIs(s: string, pos: nat)
    requires pos < |s| && FindQuote(s, pos + 1) < |s|
    ensures QuoteAt(s, pos, FindQuote(s, pos + 1))
  {
    forall i | pos < i < FindQuote(s, pos + 1) ensures s[i] != '\"' || s[i - 1] == '\\' {
      var k: nat := i;
      assert !Closes(s, k);
    }
  }

  // The first blank, comma or closing bracket after the start of a number.
  predicate NumberEnd(s: string, pos: nat, e: nat) {
    && pos < e < |s| && s[e] in " \t\r\n,]}"
    && forall i :: pos < i < e ==> s[i] !in " \t\r\n,]}"
  }

  // Digits and signs are an integer; with a point, a plus or an exponent it is a
  // float as it is spelled, and with anything else nothing.
  predicate Means(t: string, v: Value) {
    if forall i :: 0 <= i < |t| ==> t[i] in "-0123456789" then v == Int(Atoi(t))
    else (forall i :: 0 <= i < |t| ==> t[i] in "+-.0123456789eE") && v == Float(t)
  }

  lemma NumberExactly(s: string, pos: nat, v: Value, f: nat)
    requires pos < |s|
    ensures ParseNumber(s, pos) == Ok(v, f) <==>
            exists e: nat :: NumberEnd(s, pos, e) && Means(s[pos..e], v) && SpacedEnd(s, e, f)
  {
    hide SpacedEnd, Finish, Means, NumberValue;
    var p := NumberLast(s, pos);
    forall e: nat | NumberEnd(s, pos, e) ensures e == p + 1 { NumberFound(s, pos, e); }
    if p + 1 < |s| { NumberIs(s, pos); }
    if p < |s| {
      var t := s[pos..p + 1];
      MeansIs(t, v);
      FinishExactly(s, p + 1, v, f);
      if p + 1 == |s| { NoEnd(s, v, f); }
      if NumberValue(t).Ok? { FinishExactly(s, p + 1, NumberValue(t).value, f); }
    }
  }

  lemma NoEnd(s: string, v: Value, f: nat)
    ensures forall w :: Finish(s, |s|, w).Fail?
    ensures !SpacedEnd(s, |s|, f)
  {
  }

  lemma MeansIs(t: string, v: Value)
    ensures Means(t, v) <==> NumberValue(t).Ok? && NumberValue(t).value == v
  {
    hide Atoi;
  }

  lemma NumberFound(s: string, pos: nat, e: nat)
    requires NumberEnd(s, pos, e)
    ensures NumberLast(s, pos) == e - 1
  {
    assert forall c :: EndsNumber(c) <==> c in " \t\r\n,]}";
    assert EndsNumber(s[e]);
    assert forall i :: pos < i < e ==> !EndsNumber(s[i]);
  }

  lemma NumberIs(s: string, pos: nat)
    requires pos < |s| && NumberLast(s, pos) + 1 < |s|
    ensures NumberEnd(s, pos, NumberLast(s, pos) + 1)
  {
    assert forall c :: EndsNumber(c) <==> c in " \t\r\n,]}";
  }

  // Which reader the first character that can begin a value calls, after anything
  // else has been passed over.
  lemma ValueStarts(s: string, pos: nat, p: nat)
    requires pos <= p < |s| && StartsValue(s[p]) && forall i :: pos <= i < p ==> !StartsValue(s[i])
    ensures s[p] == 'n' ==> ParseValue(s, pos) == ParseWord(s, p, "null", Null)
    ensures s[p] == 't' ==> ParseValue(s, pos) == ParseWord(s, p, "true", Bool(true))
    ensures s[p] == 'f' ==> ParseValue(s, pos) == ParseWord(s, p, "false", Bool(false))
    ensures s[p] in "-.0123456789eE" ==> ParseValue(s, pos) == ParseNumber(s, p)
    ensures s[p] == '\"' ==> ParseValue(s, pos) == ParseString(s, p)
  {
    hide ParseWord, ParseNumber, ParseString, ParseArray, ParseObject, Finish;
    FoundAt(s, pos, p);
  }

  lemma FoundAt(s: string, pos: nat, p: nat)
    requires pos <= p < |s| && StartsValue(s[p]) && forall i :: pos <= i < p ==> !StartsValue(s[i])
    ensures FindValue(s, pos) == p
  {
    hide StartsValue;
  }

  // An array with one item inside another, and an object with one member, in both
  // layouts.
  lemma Layouts()
    ensures Print(Arr([Null]), true, "\t") == "[null]"
    ensures Print(Arr([Null]), false, "\t") == "[\n\t\tnull\n\t]"
    ensures Print(Obj([Member("a", Null)]), true, "") == "{\"a\":null}"
    ensures Print(Obj([Member("a", Null)]), false, "") == "{\n\t\"a\": null\n}"
  {
    hide PrintItems, PrintMembers;
    ItemLayout(true);
    ItemLayout(false);
    MemberLayout(true);
    MemberLayout(false);
  }

  lemma ItemLayout(minify: bool)
    ensures PrintItems([Null], minify, "\t") == if minify then "null" else "\t\tnull\n"
  {
    assert [Null][1..] == [] && PrintItems([], minify, "\t") == "";
  }

  lemma MemberLayout(minify: bool)
    ensures PrintMembers([Member("a", Null)], minify, "") == if minify then "\"a\":null" else "\t\"a\": null\n"
  {
    hide PrintMember;
    var m := Member("a", Null);
    assert [m][1..] == [] && PrintMembers([], minify, "") == "";
    OneMember(minify);
    assert "" + "\t" == "\t";
  }

  lemma OneMember(minify: bool)
    ensures PrintMember(Member("a", Null), minify, "\t") == if minify then "\"a\":null" else "\t\"a\": null"
  {
  }
}
