// Applying a patch to a text: the source is split into lines, each hunk is
// matched and spliced in place, and the lines are joined.  The theorem is that
// a patch describing an edit from one text to another turns the one into the
// other, and exactly when it does not.

module Apply {
  import opened Strings

  // ------------------------------------------------------------------- lines

  // One past the first newline, or the end: memchr bounded by the source.
  function LineEnd(s: string): (e: nat)
    requires |s| > 0
    ensures 0 < e <= |s|
    ensures forall i :: 0 <= i < e - 1 ==> s[i] != '\n'
    ensures e < |s| ==> s[e - 1] == '\n'
  {
    if s[0] == '\n' || |s| == 1 then 1 else 1 + LineEnd(s[1..])
  }

  function SplitLines(s: string): seq<string> {
    if |s| == 0 then [] else [s[..LineEnd(s)]] + SplitLines(s[LineEnd(s)..])
  }

  function Join(lines: seq<string>): string {
    if |lines| == 0 then "" else lines[0] + Join(lines[1..])
  }

  // A line has characters, and a newline nowhere but at its end.
  predicate IsLine(t: string) {
    |t| > 0 && forall i :: 0 <= i < |t| - 1 ==> t[i] != '\n'
  }

  predicate Ended(t: string) {
    |t| > 0 && t[|t| - 1] == '\n'
  }

  // Lines of a text: only the last may lack its newline.
  predicate AreLines(lines: seq<string>) {
    |lines| == 0 || (IsLine(lines[0]) && (|lines| > 1 ==> Ended(lines[0])) && AreLines(lines[1..]))
  }

  lemma {:induction false} JoinSplit(s: string)
    ensures Join(SplitLines(s)) == s && AreLines(SplitLines(s))
  {
    hide Join, AreLines, LineEnd, IsLine, Ended;
    if |s| == 0 {
      NoLines();
    } else {
      var e := LineEnd(s);
      JoinSplit(s[e..]);
      AddLine(s[..e], SplitLines(s[e..]));
      FirstLine(s);
      assert s[..e] + s[e..] == s;
      if |SplitLines(s[e..])| > 0 { assert e < |s|; }
    }
  }

  lemma NoLines()
    ensures Join([]) == "" && AreLines([]) && SplitLines("") == []
  {
  }

  lemma FirstLine(s: string)
    requires |s| > 0
    ensures IsLine(s[..LineEnd(s)]) && (LineEnd(s) < |s| ==> Ended(s[..LineEnd(s)]))
  {
    hide LineEnd;
  }

  lemma AddLine(t: string, rest: seq<string>)
    ensures Join([t] + rest) == t + Join(rest)
    ensures AreLines(rest) && IsLine(t) && (|rest| > 0 ==> Ended(t)) ==> AreLines([t] + rest)
  {
    assert ([t] + rest)[1..] == rest;
  }

  lemma SplitRest(s: string, start: nat)
    requires start < |s|
    ensures var end := start + LineEnd(s[start..]);
      SplitLines(s[start..]) == [s[start..end]] + SplitLines(s[end..])
  {
    var end := start + LineEnd(s[start..]);
    assert s[start..][end - start..] == s[end..];
    assert s[start..][..end - start] == s[start..end];
  }

  lemma Regroup(a: seq<string>, b: seq<string>, c: seq<string>)
    ensures a + (b + c) == a + b + c
  {
  }

  // Splitting is the only way to cut a text into lines.
  lemma {:induction false} SplitJoin(lines: seq<string>)
    requires AreLines(lines)
    ensures SplitLines(Join(lines)) == lines
  {
    if |lines| > 0 {
      var s, t := Join(lines), lines[0];
      SplitJoin(lines[1..]);
      assert s[..|t|] == t && s[|t|..] == Join(lines[1..]);
      if |lines| == 1 { assert s == t; }
      assert forall i :: 0 <= i < |t| ==> s[i] == t[i];
      assert LineEnd(s) == |t|;
    }
  }

  lemma {:induction false} JoinAppend(a: seq<string>, b: seq<string>)
    ensures Join(a + b) == Join(a) + Join(b)
  {
    if |a| == 0 {
      assert a + b == b;
    } else {
      JoinAppend(a[1..], b);
      assert (a + b)[1..] == a[1..] + b;
      Associative(a[0], Join(a[1..]), Join(b));
    }
  }

  lemma Associative(x: string, y: string, z: string)
    ensures x + (y + z) == x + y + z
  {
  }

  // ----------------------------------------------------------------- patches

  const SIZE_MOD: int := 0x1_0000_0000_0000_0000

  type Int32 = x: int | -0x8000_0000 <= x < 0x8000_0000

  datatype Origin = Context | Deletion | Addition | OtherOrigin

  datatype Line = Line(origin: Origin, content: string)

  datatype Hunk = Hunk(oldStart: Int32, newStart: Int32, lineStart: nat, lineCount: nat)

  datatype Patch = Patch(hunks: seq<Hunk>, lines: seq<Line>)

  function Old(lines: seq<Line>): seq<string> {
    if |lines| == 0 then []
    else (if lines[0].origin in {Context, Deletion} then [lines[0].content] else []) + Old(lines[1..])
  }

  function New(lines: seq<Line>): seq<string> {
    if |lines| == 0 then []
    else (if lines[0].origin in {Context, Addition} then [lines[0].content] else []) + New(lines[1..])
  }

  // Whether the patch holds every line of the hunk.
  predicate HasLines(p: Patch, h: Hunk) {
    h.lineStart + h.lineCount <= |p.lines| || h.lineCount == 0
  }

  function LinesOf(p: Patch, h: Hunk): seq<Line>
    requires HasLines(p, h)
  {
    if h.lineCount == 0 then [] else p.lines[h.lineStart..h.lineStart + h.lineCount]
  }

  // The line number the hunk is tried at, as a size_t no larger than `max`.
  function Target(newStart: Int32, max: nat): (n: nat)
    ensures n <= max
  {
    var n: int := if newStart != 0 then (newStart - 1) % SIZE_MOD else 0;
    if n > max then max else n
  }

  predicate MatchesAt(image: seq<string>, pre: seq<string>, n: nat) {
    n + |pre| <= |image| && image[n..n + |pre|] == pre
  }

  datatype Outcome<+T> = Failed | Applied(value: T)

  // What one hunk makes of the image.
  function HunkOutcome(image: seq<string>, p: Patch, h: Hunk): Outcome<seq<string>> {
    if !HasLines(p, h) then Failed
    else
      var pre, post := Old(LinesOf(p, h)), New(LinesOf(p, h));
      var n := Target(h.newStart, |image|);
      if MatchesAt(image, pre, n) then Applied(image[..n] + post + image[n + |pre|..]) else Failed
  }

  // The hunks from the k-th on, in order; a failure ends it.
  function PatchOutcome(image: seq<string>, p: Patch, k: nat): Outcome<seq<string>>
    requires k <= |p.hunks|
    decreases |p.hunks| - k
  {
    if k == |p.hunks| then Applied(image)
    else match HunkOutcome(image, p, p.hunks[k])
      case Failed => Failed
      case Applied(image') => PatchOutcome(image', p, k + 1)
  }

  // The text the patch makes of a source.
  function ApplyTo(source: string, patch: Patch): Outcome<string> {
    match PatchOutcome(SplitLines(source), patch, 0)
    case Failed => Failed
    case Applied(lines) => Applied(Join(lines))
  }

  // ---------------------------------------------------- what a hunk is applied to

  // The header's line, counted from 0 and cut to the image's length; a negative
  // one wraps around to more than any image has.
  lemma TargetIs(newStart: Int32, max: nat)
    requires max < SIZE_MOD - 0x8000_0001
    ensures Target(newStart, max) ==
            if newStart == 0 then 0 else if newStart < 0 || newStart - 1 > max then max else newStart - 1
  {
    if newStart < 0 {
      assert newStart - 1 + SIZE_MOD == (newStart - 1) % SIZE_MOD;
    }
  }

  // The image with the hunk's old lines at its place, and with its new lines
  // there instead.
  ghost predicate Edits(image: seq<string>, p: Patch, h: Hunk, result: seq<string>) {
    HasLines(p, h) && exists x, y :: EditsAt(image, p, h, result, x, y)
  }

  ghost predicate EditsAt(image: seq<string>, p: Patch, h: Hunk, result: seq<string>, x: seq<string>, y: seq<string>)
    requires HasLines(p, h)
  {
    && |x| == Target(h.newStart, |image|)
    && image == x + Old(LinesOf(p, h)) + y
    && result == x + New(LinesOf(p, h)) + y
  }

  // A hunk is applied exactly where its old lines stand at its place, and what
  // comes out has its new lines there; otherwise it fails.
  lemma HunkExactly(image: seq<string>, p: Patch, h: Hunk)
    ensures forall result :: HunkOutcome(image, p, h) == Applied(result) <==> Edits(image, p, h, result)
    ensures HunkOutcome(image, p, h).Failed? <==> forall result :: !Edits(image, p, h, result)
  {
    var r := HunkOutcome(image, p, h);
    forall result ensures r == Applied(result) <==> Edits(image, p, h, result) {
      HunkEdits(image, p, h, result);
    }
    if r.Applied? { assert Edits(image, p, h, r.value); }
  }

  lemma HunkEdits(image: seq<string>, p: Patch, h: Hunk, result: seq<string>)
    ensures HunkOutcome(image, p, h) == Applied(result) <==> Edits(image, p, h, result)
  {
    hide Old, New;
    if HasLines(p, h) {
      var pre, post, n := Old(LinesOf(p, h)), New(LinesOf(p, h)), Target(h.newStart, |image|);
      if MatchesAt(image, pre, n) {
        var x, y := image[..n], image[n + |pre|..];
        assert image == x + image[n..n + |pre|] + y;
        assert EditsAt(image, p, h, x + post + y, x, y);
      }
      if Edits(image, p, h, result) {
        var x, y :| EditsAt(image, p, h, result, x, y);
        CutThrice(x, pre, y);
        assert image[n..n + |pre|] == pre && image[..n] == x && image[n + |pre|..] == y;
      }
    }
  }

  lemma CutThrice<T>(x: seq<T>, m: seq<T>, y: seq<T>)
    ensures var s := x + m + y;
      s[..|x|] == x && s[|x|..|x| + |m|] == m && s[|x| + |m|..] == y
  {
  }

  // The images a patch goes through, up to its k-th hunk.
  ghost predicate Through(images: seq<seq<string>>, p: Patch, k: nat) {
    && |images| == k + 1 && k <= |p.hunks|
    && forall j :: 0 <= j < k ==> Edits(images[j], p, p.hunks[j], images[j + 1])
  }

  lemma {:induction false} OutcomeThrough(images: seq<seq<string>>, p: Patch, k: nat)
    requires Through(images, p, k)
    ensures PatchOutcome(images[0], p, 0) == PatchOutcome(images[k], p, k)
    decreases k
  {
    if k > 0 {
      OutcomeThrough(images[..k], p, k - 1);
      HunkEdits(images[k - 1], p, p.hunks[k - 1], images[k]);
      hide HunkOutcome, Edits;
    }
  }

  // Going on from the images so far as far as the hunks apply.
  lemma {:induction false} RunThrough(images: seq<seq<string>>, p: Patch, k: nat)
    returns (all: seq<seq<string>>, n: nat)
    requires Through(images, p, k)
    ensures Through(all, p, n) && all[0] == images[0]
    ensures n < |p.hunks| ==> forall result :: !Edits(all[n], p, p.hunks[n], result)
    decreases |p.hunks| - k
  {
    hide Edits;
    all, n := images, k;
    if k < |p.hunks| {
      HunkExactly(images[k], p, p.hunks[k]);
      var r := HunkOutcome(images[k], p, p.hunks[k]);
      if r.Applied? {
        var more := images + [r.value];
        assert forall j :: 0 <= j < k + 1 ==> more[j] == images[j];
        all, n := RunThrough(more, p, k + 1);
      }
    }
  }

  // A patch gives a text exactly when every hunk in turn finds its old lines,
  // and that text is what the last one leaves.
  lemma PatchExactly(source: string, p: Patch, t: string)
    ensures ApplyTo(source, p) == Applied(t) <==>
            exists images ::
              Through(images, p, |p.hunks|) && images[0] == SplitLines(source) && Join(images[|p.hunks|]) == t
  {
    hide Edits, HunkOutcome, Join, SplitLines;
    var images, n := RunThrough([SplitLines(source)], p, 0);
    OutcomeThrough(images, p, n);
    if n < |p.hunks| { HunkExactly(images[n], p, p.hunks[n]); }
    forall other | Through(other, p, |p.hunks|) && other[0] == SplitLines(source)
      ensures ApplyTo(source, p) == Applied(Join(other[|p.hunks|]))
    {
      OutcomeThrough(other, p, |p.hunks|);
    }
    if ApplyTo(source, p) == Applied(t) { assert Through(images, p, |p.hunks|) && Join(images[|p.hunks|]) == t; }
  }

  // It fails exactly when some hunk does not find them after those before it.
  lemma PatchFails(source: string, p: Patch)
    ensures ApplyTo(source, p).Failed? <==>
            exists images, k: nat :: Through(images, p, k) && images[0] == SplitLines(source) && Stuck(images[k], p, k)
  {
    hide Edits, HunkOutcome, Join, SplitLines;
    var images, n := RunThrough([SplitLines(source)], p, 0);
    OutcomeThrough(images, p, n);
    if n < |p.hunks| {
      HunkExactly(images[n], p, p.hunks[n]);
      assert Stuck(images[n], p, n);
    }
    forall other, k: nat | Through(other, p, k) && other[0] == SplitLines(source) && Stuck(other[k], p, k)
      ensures ApplyTo(source, p).Failed?
    {
      OutcomeThrough(other, p, k);
      HunkExactly(other[k], p, p.hunks[k]);
    }
  }

  ghost predicate Stuck(image: seq<string>, p: Patch, k: nat) {
    k < |p.hunks| && forall result :: !Edits(image, p, p.hunks[k], result)
  }

  // A hunk whose old line is not the text's, although it has a new one.
  lemma OtherLineFails()
    ensures var p := Patch([Hunk(1, 1, 0, 2)], [Line(Deletion, "a"), Line(Addition, "b")]);
      ApplyTo("x\n", p).Failed?
  {
    var p := Patch([Hunk(1, 1, 0, 2)], [Line(Deletion, "a"), Line(Addition, "b")]);
    assert p.lines[0..2] == p.lines && p.lines[1..] == [Line(Addition, "b")];
    assert Old(p.lines[1..]) == [];
    assert Old(LinesOf(p, p.hunks[0])) == ["a"];
    assert "x\n"[1..] == "\n" && LineEnd("\n") == 1 && LineEnd("x\n") == 2;
    assert "x\n"[..2] == "x\n" && "x\n"[2..] == "";
    assert SplitLines("x\n") == ["x\n"];
    assert "x\n" != "a" by { assert |"x\n"| == 2 && |"a"| == 1; }
    assert !MatchesAt(["x\n"], ["a"], 0) by { assert ["x\n"][0..1][0] == "x\n"; }
  }

  // ------------------------------------------------------- the source's loops

  class PatchImage {
    // The vector of lines; "" stands for the null slots a splice opens.
    var lines: seq<string>

    constructor ()
      ensures lines == []
    {
      lines := [];
    }

    // patch_image_init_fromstr.
    constructor FromStr(source: string)
      ensures lines == SplitLines(source)
    {
      hide SplitLines, LineEnd;
      lines := [];
      new;
      NoLines();
      var start := 0;
      assert source[start..] == source;
      while start < |source|
        invariant start <= |source|
        invariant lines + SplitLines(source[start..]) == SplitLines(source)
      {
        var end := start + LineEnd(source[start..]);
        SplitRest(source, start);
        Regroup(lines, [source[start..end]], SplitLines(source[end..]));
        lines := lines + [source[start..end]];
        start := end;
      }
      assert source[start..] == "";
    }

    method Append(line: string)
      modifies this
      ensures lines == old(lines) + [line]
    {
      lines := lines + [line];
    }

    // git_vector_insert_null.
    method InsertNull(idx: nat, count: nat)
      requires idx <= |lines| && count > 0
      modifies this
      ensures |lines| == |old(lines)| + count
      ensures lines[..idx] == old(lines)[..idx] && lines[idx + count..] == old(lines)[idx..]
    {
      lines := lines[..idx] + seq(count, _ => "") + lines[idx..];
    }

    // git_vector_remove_range.
    method RemoveRange(idx: nat, count: nat)
      requires idx + count <= |lines| && count > 0
      modifies this
      ensures lines == old(lines)[..idx] + old(lines)[idx + count..]
    {
      lines := lines[..idx] + lines[idx + count..];
    }
  }

  method MatchHunk(image: PatchImage, preimage: PatchImage, linenum: nat) returns (match_: bool)
    ensures match_ == MatchesAt(image.lines, preimage.lines, linenum)
  {
    if |preimage.lines| + linenum > |image.lines| {
      return false;
    }
    match_ := true;
    var i := 0;
    while i < |preimage.lines|
      invariant i <= |preimage.lines|
      invariant forall k :: 0 <= k < i ==> preimage.lines[k] == image.lines[linenum + k]
    {
      if preimage.lines[i] != image.lines[linenum + i] {
        assert image.lines[linenum..linenum + |preimage.lines|][i] != preimage.lines[i];
        match_ := false;
        return;
      }
      i := i + 1;
    }
  }

  method FindHunkLinenum(image: PatchImage, preimage: PatchImage, linenum: nat) returns (found: bool, at: nat)
    ensures at == (if linenum > |image.lines| then |image.lines| else linenum)
    ensures found == MatchesAt(image.lines, preimage.lines, at)
  {
    at := linenum;
    if at > |image.lines| {
      at := |image.lines|;
    }
    found := MatchHunk(image, preimage, at);
  }

  // The vector is grown or shrunk at the hunk's start, then overwritten.
  method UpdateHunk(image: PatchImage, linenum: nat, preimage: PatchImage, postimage: PatchImage)
    requires image != preimage && image != postimage
    requires linenum + |preimage.lines| <= |image.lines|
    modifies image
    ensures image.lines == old(image.lines)[..linenum] + postimage.lines +
        old(image.lines)[linenum + |preimage.lines|..]
  {
    hide Overwritten;
    var postlen, prelen := |postimage.lines|, |preimage.lines|;
    ghost var before := image.lines;
    if postlen > prelen {
      image.InsertNull(linenum, postlen - prelen);
    } else if prelen > postlen {
      image.RemoveRange(linenum, prelen - postlen);
    }
    ghost var base := image.lines;
    Resized(before, base, linenum, prelen, postlen);
    var i := 0;
    while i < |postimage.lines|
      invariant i <= postlen && image.lines == Overwritten(base, linenum, postimage.lines[..i])
    {
      OverwriteNext(base, linenum, postimage.lines, i);
      image.lines := image.lines[linenum + i := postimage.lines[i]];
      i := i + 1;
    }
    assert postimage.lines[..postlen] == postimage.lines;
    OverwroteAll(before, base, linenum, prelen, postimage.lines);
  }

  // `base` with `part` written over it from n on.
  function Overwritten(base: seq<string>, n: nat, part: seq<string>): (r: seq<string>)
    requires n + |part| <= |base|
    ensures |r| == |base|
  {
    base[..n] + part + base[n + |part|..]
  }

  lemma OverwriteNext(base: seq<string>, n: nat, post: seq<string>, i: nat)
    requires i < |post| && n + |post| <= |base|
    ensures Overwritten(base, n, post[..i])[n + i := post[i]] == Overwritten(base, n, post[..i + 1])
  {
  }

  lemma OverwroteAll(before: seq<string>, base: seq<string>, n: nat, removed: nat, post: seq<string>)
    requires n + removed <= |before| && n + |post| <= |base|
    requires base[..n] == before[..n] && base[n + |post|..] == before[n + removed..]
    ensures Overwritten(base, n, post) == before[..n] + post + before[n + removed..]
  {
  }

  // Growing or shrinking the vector moved the tail and nothing else; with
  // nothing to write yet the vector is as it is.
  lemma Resized(before: seq<string>, base: seq<string>, n: nat, prelen: nat, postlen: nat)
    requires n + prelen <= |before|
    requires postlen > prelen ==> |base| == |before| + (postlen - prelen)
    requires postlen > prelen ==> base[..n] == before[..n] && base[n + (postlen - prelen)..] == before[n..]
    requires prelen > postlen ==> base == before[..n] + before[n + (prelen - postlen)..]
    requires prelen == postlen ==> base == before
    ensures n + postlen <= |base| && base[..n] == before[..n] && base[n + postlen..] == before[n + prelen..]
    ensures Overwritten(base, n, []) == base
  {
    if postlen > prelen {
      assert base[n + postlen..] == base[n + (postlen - prelen)..][prelen..];
      assert before[n + prelen..] == before[n..][prelen..];
    }
  }

  lemma {:induction false} SidesAppend(lines: seq<Line>, line: Line)
    ensures Old(lines + [line]) == Old(lines) + (if line.origin in {Context, Deletion} then [line.content] else [])
    ensures New(lines + [line]) == New(lines) + (if line.origin in {Context, Addition} then [line.content] else [])
  {
    if |lines| > 0 {
      SidesAppend(lines[1..], line);
      assert (lines + [line])[1..] == lines[1..] + [line];
    }
  }

  lemma NoSides()
    ensures Old([]) == [] && New([]) == []
  {
  }

  method ApplyHunk(image: PatchImage, patch: Patch, hunk: Hunk) returns (ok: bool)
    modifies image
    ensures ok == HunkOutcome(old(image.lines), patch, hunk).Applied?
    ensures ok ==> image.lines == HunkOutcome(old(image.lines), patch, hunk).value
    ensures !ok ==> image.lines == old(image.lines)
  {
    hide Old, New;
    NoSides();
    var preimage := new PatchImage();
    var postimage := new PatchImage();
    var i := 0;
    while i < hunk.lineCount
      invariant i <= hunk.lineCount && (i > 0 ==> hunk.lineStart + i <= |patch.lines|)
      invariant fresh(preimage) && fresh(postimage) && preimage != postimage
      invariant image.lines == old(image.lines)
      invariant i > 0 ==> preimage.lines == Old(patch.lines[hunk.lineStart..hunk.lineStart + i])
      invariant i > 0 ==> postimage.lines == New(patch.lines[hunk.lineStart..hunk.lineStart + i])
      invariant i == 0 ==> preimage.lines == [] && postimage.lines == []
    {
      var linenum := hunk.lineStart + i;
      if linenum >= |patch.lines| {
        return false;
      }
      var line := patch.lines[linenum];
      SidesAppend(patch.lines[hunk.lineStart..linenum], line);
      assert patch.lines[hunk.lineStart..linenum + 1] == patch.lines[hunk.lineStart..linenum] + [line];
      if line.origin == Context || line.origin == Deletion {
        preimage.Append(line.content);
      }
      if line.origin == Context || line.origin == Addition {
        postimage.Append(line.content);
      }
      i := i + 1;
    }
    var lineNum: nat := if hunk.newStart != 0 then (hunk.newStart - 1) % SIZE_MOD else 0;
    ok, lineNum := FindHunkLinenum(image, preimage, lineNum);
    if !ok {
      return;
    }
    UpdateHunk(image, lineNum, preimage, postimage);
  }

  // On failure nothing is written.
  method ApplyHunks(out: StringBuffer, source: string, patch: Patch) returns (ok: bool)
    modifies out
    ensures ok == ApplyTo(source, patch).Applied?
    ensures ok ==> out.value == old(out.value) + ApplyTo(source, patch).value
    ensures !ok ==> out.value == old(out.value)
  {
    hide HunkOutcome, SplitLines;
    var image := new PatchImage.FromStr(source);
    var k := 0;
    while k < |patch.hunks|
      invariant k <= |patch.hunks| && fresh(image)
      invariant PatchOutcome(image.lines, patch, k) == PatchOutcome(SplitLines(source), patch, 0)
      invariant out.value == old(out.value)
    {
      ok := ApplyHunk(image, patch, patch.hunks[k]);
      if !ok {
        return;
      }
      k := k + 1;
    }
    ok := true;
    ghost var done := image.lines;
    var i := 0;
    while i < |image.lines|
      invariant image.lines == done && i <= |image.lines| && out.value == old(out.value) + Join(image.lines[..i])
    {
      out.value := out.value + image.lines[i];
      JoinAppend(image.lines[..i], [image.lines[i]]);
      assert image.lines[..i + 1] == image.lines[..i] + [image.lines[i]];
      i := i + 1;
    }
    assert image.lines[..i] == image.lines;
  }

  // ------------------------------------------------------------ applying a diff

  // Where the hunk header says the new side begins: a header with no new lines
  // names the line before it.
  function Offset(start: Int32, side: seq<string>): int {
    if |side| > 0 then start - 1 else start
  }

  // The hunks from the k-th on describe the edit from a[i..] to b[j..]: the
  // texts agree between hunks, and each hunk's sides are the texts' lines.
  predicate Describes(p: Patch, k: nat, a: seq<string>, b: seq<string>, i: nat, j: nat)
    requires k <= |p.hunks|
    decreases |p.hunks| - k
  {
    && i <= |a| && j <= |b|
    && if k == |p.hunks| then a[i..] == b[j..]
       else HunkDescribes(p, p.hunks[k], a, b, i, j)
            && Describes(p, k + 1, a, b, OldEnd(p, p.hunks[k], i, j), NewEnd(p, p.hunks[k]))
  }

  function OldEnd(p: Patch, h: Hunk, i: nat, j: nat): int
    requires HasLines(p, h)
  {
    OldAt(p, h, i, j) + |Old(LinesOf(p, h))|
  }

  function NewEnd(p: Patch, h: Hunk): int
    requires HasLines(p, h)
  {
    NewAt(p, h) + |New(LinesOf(p, h))|
  }

  function NewAt(p: Patch, h: Hunk): int
    requires HasLines(p, h)
  {
    Offset(h.newStart, New(LinesOf(p, h)))
  }

  function OldAt(p: Patch, h: Hunk, i: nat, j: nat): int
    requires HasLines(p, h)
  {
    i + (NewAt(p, h) - j)
  }

  predicate HunkDescribes(p: Patch, h: Hunk, a: seq<string>, b: seq<string>, i: nat, j: nat) {
    && HasLines(p, h)
    && var pre, post := Old(LinesOf(p, h)), New(LinesOf(p, h));
    var i', j' := OldAt(p, h, i, j), NewAt(p, h);
    && j <= j' && i' + |pre| <= |a| && j' + |post| <= |b|
    && a[i..i'] == b[j..j']
    && a[i'..i' + |pre|] == pre
    && b[j'..j' + |post|] == post
  }

  // The hunk adds or keeps a line, or begins the new text, or deletes only
  // copies of the line before it.
  predicate Lands(p: Patch, h: Hunk, b: seq<string>) {
    HasLines(p, h) ==>
      || |New(LinesOf(p, h))| > 0
      || h.newStart == 0
      || (0 <= h.newStart - 1 < |b| && AllEqual(Old(LinesOf(p, h)), b[h.newStart - 1]))
  }

  predicate AllEqual(lines: seq<string>, line: string) {
    forall i :: 0 <= i < |lines| ==> lines[i] == line
  }

  predicate AllLand(p: Patch, k: nat, b: seq<string>)
    requires k <= |p.hunks|
    decreases |p.hunks| - k
  {
    k == |p.hunks| || (Lands(p, p.hunks[k], b) && AllLand(p, k + 1, b))
  }

  // One line too early, deleted lines still match exactly when they are all
  // copies of the line before, and deleting there has the same effect.
  lemma EarlyMatch(image: seq<string>, pre: seq<string>, n: nat)
    requires n + 1 + |pre| <= |image| && image[n + 1..n + 1 + |pre|] == pre
    ensures MatchesAt(image, pre, n) <==> AllEqual(pre, image[n])
    ensures AllEqual(pre, image[n]) ==> image[..n] + image[n + |pre|..] == image[..n + 1] + image[n + 1 + |pre|..]
  {
    forall i | 0 <= i < |pre| ensures image[n + 1 + i] == pre[i] {
      assert image[n + 1..n + 1 + |pre|][i] == pre[i];
    }
    if MatchesAt(image, pre, n) {
      AllAlike(image, pre, n, |pre|);
    }
    if AllEqual(pre, image[n]) {
      forall i | 0 <= i < |pre| ensures image[n + i] == pre[i] {
        if i > 0 { assert image[n + 1 + (i - 1)] == pre[i - 1]; }
      }
      assert image[n..n + |pre|] == pre;
      assert image[n + |pre|..] == [image[n]] + image[n + 1 + |pre|..] by {
        if |pre| > 0 { assert image[n + 1 + (|pre| - 1)] == pre[|pre| - 1]; }
      }
      assert image[..n + 1] == image[..n] + [image[n]];
    }
  }

  lemma {:induction false} AllAlike(image: seq<string>, pre: seq<string>, n: nat, m: nat)
    requires m <= |pre| && n + 1 + |pre| <= |image|
    requires forall i :: 0 <= i < |pre| ==> image[n + 1 + i] == pre[i]
    requires MatchesAt(image, pre, n)
    ensures forall i :: 0 <= i < m ==> pre[i] == image[n]
  {
    if m > 0 {
      AllAlike(image, pre, n, m - 1);
      assert image[n..n + |pre|][m - 1] == pre[m - 1];
      if m > 1 { assert image[n + 1 + (m - 2)] == pre[m - 2]; }
    }
  }

  // Where the hunk is tried it matches exactly when it lands, and then has the
  // effect of a splice at its own place.
  lemma TriedAt(image: seq<string>, pre: seq<string>, post: seq<string>, start: Int32, at: nat)
    requires Offset(start, post) == at && MatchesAt(image, pre, at)
    ensures |post| == 0 && start != 0 ==> 0 <= start - 1 < |image|
    ensures var n := Target(start, |image|);
      && (MatchesAt(image, pre, n) <==> |post| > 0 || start == 0 || AllEqual(pre, image[start - 1]))
      && (MatchesAt(image, pre, n) ==>
            image[..n] + post + image[n + |pre|..] == image[..at] + post + image[at + |pre|..])
  {
    hide AllEqual;
    if |post| == 0 && at > 0 {
      EarlyMatch(image, pre, at - 1);
      hide MatchesAt;
      assert post == [];
      assert image[..at - 1] + post == image[..at - 1] && image[..at] + post == image[..at];
      assert Target(start, |image|) == at - 1;
    }
  }

  // With everything before the hunk already new, trying the hunk turns its
  // old side into its new side exactly when it lands.
  lemma TriedBetween(a: seq<string>, b: seq<string>, i: nat, j: nat, i': nat, j': nat,
                     pre: seq<string>, post: seq<string>, start: Int32)
    requires i <= i' && i' + |pre| <= |a| && a[i'..i' + |pre|] == pre
    requires j <= j' && j' + |post| <= |b| && b[j'..j' + |post|] == post
    requires a[i..i'] == b[j..j'] && Offset(start, post) == j'
    ensures var image := b[..j] + a[i..];
      var n := Target(start, |image|);
      && (MatchesAt(image, pre, n) <==>
            |post| > 0 || start == 0 || (0 <= start - 1 < |b| && AllEqual(pre, b[start - 1])))
      && (MatchesAt(image, pre, n) ==>
            image[..n] + post + image[n + |pre|..] == b[..j' + |post|] + a[i' + |pre|..])
  {
    var image := b[..j'] + a[i'..];
    Advance(a, b, i, j, i', j');
    Placed(a, b, i', j', pre, post);
    TriedAt(image, pre, post, start, j');
    hide AllEqual, MatchesAt, Target;
    assert |post| == 0 && start != 0 ==> image[start - 1] == b[start - 1];
  }

  lemma OneHunk(p: Patch, h: Hunk, a: seq<string>, b: seq<string>, i: nat, j: nat)
    requires i <= |a| && j <= |b| && HunkDescribes(p, h, a, b, i, j)
    ensures var i', j' := OldEnd(p, h, i, j), NewEnd(p, h);
      HunkOutcome(b[..j] + a[i..], p, h) == if Lands(p, h, b) then Applied(b[..j'] + a[i'..]) else Failed
  {
    hide Old, New, LinesOf, AllEqual, MatchesAt, Target;
    TriedBetween(a, b, i, j, OldAt(p, h, i, j), NewAt(p, h), Old(LinesOf(p, h)), New(LinesOf(p, h)), h.newStart);
  }

  lemma Advance(a: seq<string>, b: seq<string>, i: nat, j: nat, i': nat, j': nat)
    requires i <= i' <= |a| && j <= j' <= |b| && a[i..i'] == b[j..j']
    ensures b[..j] + a[i..] == b[..j'] + a[i'..]
  {
    assert a[i..] == a[i..i'] + a[i'..];
    assert b[..j'] == b[..j] + b[j..j'];
  }

  lemma Placed(a: seq<string>, b: seq<string>, i: nat, j: nat, pre: seq<string>, post: seq<string>)
    requires i + |pre| <= |a| && j + |post| <= |b| && a[i..i + |pre|] == pre && b[j..j + |post|] == post
    ensures var image := b[..j] + a[i..];
      && MatchesAt(image, pre, j)
      && image[..j] + post + image[j + |pre|..] == b[..j + |post|] + a[i + |pre|..]
  {
    var image := b[..j] + a[i..];
    assert image[j..j + |pre|] == a[i..i + |pre|];
    assert image[j + |pre|..] == a[i + |pre|..];
    assert b[..j + |post|] == b[..j] + b[j..j + |post|];
  }

  // The invariant of the run: the image is the new text up to here and the
  // old text from here on.
  lemma {:induction false} RunExactly(p: Patch, k: nat, a: seq<string>, b: seq<string>, i: nat, j: nat)
    requires k <= |p.hunks| && Describes(p, k, a, b, i, j)
    ensures PatchOutcome(b[..j] + a[i..], p, k) == if AllLand(p, k, b) then Applied(b) else Failed
    decreases |p.hunks| - k
  {
    if k == |p.hunks| {
      assert b[..j] + b[j..] == b;
    } else {
      var h := p.hunks[k];
      OneHunk(p, h, a, b, i, j);
      hide HunkOutcome, Lands, HunkDescribes, HasLines, OldEnd, NewEnd;
      if Lands(p, h, b) {
        RunExactly(p, k + 1, a, b, OldEnd(p, h, i, j), NewEnd(p, h));
      }
    }
  }

  // A patch that describes the edit from one text to another applied to the
  // first gives the second's bytes, or, exactly when some hunk does not land,
  // an error.
  lemma AppliesExactly(p: Patch, a: string, b: string)
    requires Describes(p, 0, SplitLines(a), SplitLines(b), 0, 0)
    ensures ApplyTo(a, p) == if AllLand(p, 0, SplitLines(b)) then Applied(b) else Failed
  {
    hide Describes, SplitLines, PatchOutcome, AllLand;
    var x, y := SplitLines(a), SplitLines(b);
    RunExactly(p, 0, x, y, 0, 0);
    assert y[..0] + x[0..] == x;
    JoinSplit(b);
  }

  // ----------------------------------------------------------------- reversal

  function Flip(o: Origin): Origin {
    match o
    case Deletion => Addition
    case Addition => Deletion
    case _ => o
  }

  function FlipLines(lines: seq<Line>): (r: seq<Line>)
    ensures |r| == |lines|
    ensures forall i :: 0 <= i < |r| ==> r[i] == Line(Flip(lines[i].origin), lines[i].content)
  {
    seq(|lines|, i requires 0 <= i < |lines| => Line(Flip(lines[i].origin), lines[i].content))
  }

  function FlipHunk(h: Hunk): Hunk {
    h.(oldStart := h.newStart, newStart := h.oldStart)
  }

  function Reversed(p: Patch): Patch {
    Patch(seq(|p.hunks|, i requires 0 <= i < |p.hunks| => FlipHunk(p.hunks[i])), FlipLines(p.lines))
  }

  lemma {:induction false} FlipSides(lines: seq<Line>)
    ensures Old(FlipLines(lines)) == New(lines) && New(FlipLines(lines)) == Old(lines)
  {
    if |lines| > 0 {
      FlipSides(lines[1..]);
      assert FlipLines(lines)[1..] == FlipLines(lines[1..]);
    }
  }

  lemma FlipHunkSides(p: Patch, h: Hunk)
    requires HasLines(p, h)
    ensures HasLines(Reversed(p), FlipHunk(h))
    ensures Old(LinesOf(Reversed(p), FlipHunk(h))) == New(LinesOf(p, h))
    ensures New(LinesOf(Reversed(p), FlipHunk(h))) == Old(LinesOf(p, h))
  {
    FlipSides(LinesOf(p, h));
    assert LinesOf(Reversed(p), FlipHunk(h)) == FlipLines(LinesOf(p, h));
  }

  // The headers name the old side's place as well.
  predicate OldHeaders(p: Patch, k: nat, a: seq<string>, b: seq<string>, i: nat, j: nat)
    requires k <= |p.hunks| && Describes(p, k, a, b, i, j)
    decreases |p.hunks| - k
  {
    k == |p.hunks| ||
    (var h := p.hunks[k];
     && Offset(h.oldStart, Old(LinesOf(p, h))) == OldAt(p, h, i, j)
     && OldHeaders(p, k + 1, a, b, OldEnd(p, h, i, j), NewEnd(p, h)))
  }

  lemma FlipDescribes(p: Patch, h: Hunk, a: seq<string>, b: seq<string>, i: nat, j: nat)
    requires i <= |a| && j <= |b| && HunkDescribes(p, h, a, b, i, j)
    requires Offset(h.oldStart, Old(LinesOf(p, h))) == OldAt(p, h, i, j)
    ensures HunkDescribes(Reversed(p), FlipHunk(h), b, a, j, i)
    ensures NewEnd(Reversed(p), FlipHunk(h)) == OldEnd(p, h, i, j)
    ensures OldEnd(Reversed(p), FlipHunk(h), j, i) == NewEnd(p, h)
  {
    FlipHunkSides(p, h);
    hide Old, New, LinesOf;
  }

  lemma {:induction false} ReversedDescribes(p: Patch, k: nat, a: seq<string>, b: seq<string>, i: nat, j: nat)
    requires k <= |p.hunks| && Describes(p, k, a, b, i, j) && OldHeaders(p, k, a, b, i, j)
    ensures Describes(Reversed(p), k, b, a, j, i)
    decreases |p.hunks| - k
  {
    if k < |p.hunks| {
      var h := p.hunks[k];
      FlipDescribes(p, h, a, b, i, j);
      hide Old, New, LinesOf, HasLines, HunkDescribes, OldAt, NewAt, OldEnd, NewEnd, FlipHunk, Offset;
      assert Reversed(p).hunks[k] == FlipHunk(h);
      ReversedDescribes(p, k + 1, a, b, OldEnd(p, h, i, j), NewEnd(p, h));
    }
  }

  // The reversed patch restores the first text, under the same kind of condition.
  lemma ReversedRestores(p: Patch, a: string, b: string)
    requires Describes(p, 0, SplitLines(a), SplitLines(b), 0, 0)
    requires OldHeaders(p, 0, SplitLines(a), SplitLines(b), 0, 0)
    ensures ApplyTo(b, Reversed(p)) == if AllLand(Reversed(p), 0, SplitLines(a)) then Applied(a) else Failed
  {
    ReversedDescribes(p, 0, SplitLines(a), SplitLines(b), 0, 0);
    AppliesExactly(Reversed(p), b, a);
  }

  // Deleting the second of two different lines, with no context around it, is
  // a correct diff that does not apply.
  lemma BareDeletionFails()
    ensures var p := Patch([Hunk(2, 1, 0, 1)], [Line(Deletion, "b\n")]);
      && Describes(p, 0, SplitLines("a\nb\n"), SplitLines("a\n"), 0, 0)
      && ApplyTo("a\nb\n", p) == Failed
  {
    var p := Patch([Hunk(2, 1, 0, 1)], [Line(Deletion, "b\n")]);
    var h := p.hunks[0];
    SplitJoin(["a\n", "b\n"]);
    SplitJoin(["a\n"]);
    assert Join(["a\n", "b\n"]) == "a\nb\n" by { assert Join(["b\n"]) == "b\n"; }
    assert Join(["a\n"]) == "a\n";
    var x, y := ["a\n", "b\n"], ["a\n"];
    assert LinesOf(p, h) == [Line(Deletion, "b\n")];
    assert Old(LinesOf(p, h)) == ["b\n"] && New(LinesOf(p, h)) == [];
    assert Describes(p, 1, x, y, 2, 1);
    assert Describes(p, 0, x, y, 0, 0);
    assert !Lands(p, h, y) by { assert "a\n"[0] != "b\n"[0]; }
    AppliesExactly(p, "a\nb\n", "a\n");
  }
}
