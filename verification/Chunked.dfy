// Decoding a chunked HTTP body in place (section 7.1 of RFC 9112).

module Chunked {
  import opened Strings

  const CRLF: string := "\r\n"

  const SIZE_MOD: int := 0x1_0000_0000_0000_0000
  const LONG_MAX: int := 0x7FFF_FFFF_FFFF_FFFF

  // ----------------------------------------------------------- the size field

  predicate IsHexDigit(c: char) {
    '0' <= c <= '9' || 'a' <= c <= 'f' || 'A' <= c <= 'F'
  }

  function HexDigit(c: char): nat
    requires IsHexDigit(c)
  {
    if c <= '9' then c as int - '0' as int
    else if c <= 'F' then c as int - 'A' as int + 10
    else c as int - 'a' as int + 10
  }

  // The leading hexadecimal digits, after those already read.
  function HexFrom(acc: nat, t: string): nat
    decreases |t|
  {
    if |t| == 0 || !IsHexDigit(t[0]) then acc else HexFrom(16 * acc + HexDigit(t[0]), t[1..])
  }

  predicate IsSpace(c: char) {
    c == ' ' || '\t' <= c <= '\r'
  }

  function SkipSpaces(t: string): string
    decreases |t|
  {
    if |t| > 0 && IsSpace(t[0]) then SkipSpaces(t[1..]) else t
  }

  // A 0x before a digit is skipped.
  function SkipPrefix(t: string): string {
    if |t| > 2 && t[0] == '0' && (t[1] == 'x' || t[1] == 'X') && IsHexDigit(t[2]) then t[2..] else t
  }

  // strtol(t, NULL, 16), which stays within a long.
  function Strtol(t: string): int {
    var u := SkipSpaces(t);
    var negative := |u| > 0 && u[0] == '-';
    var v: int := HexFrom(0, SkipPrefix(if |u| > 0 && (u[0] == '-' || u[0] == '+') then u[1..] else u));
    if negative then (if v > LONG_MAX + 1 then -LONG_MAX - 1 else -v)
    else if v > LONG_MAX then LONG_MAX else v
  }

  // The cast to int.
  function ToInt(v: int): int {
    var low := v % 0x1_0000_0000;
    if low < 0x8000_0000 then low else low - 0x1_0000_0000
  }

  // ------------------------------------------------------------- the decoder

  predicate IsLineEnd(c: char) {
    c == '\r' || c == '\n'
  }

  // Every line end that stands at `pos` taken out.
  function StripAt(s: string, pos: nat): (r: string)
    ensures |r| <= |s|
    decreases |s|
  {
    if pos < |s| && IsLineEnd(s[pos]) then StripAt(s[..pos] + s[pos + 1..], pos) else s
  }

  function NextStart(start: nat, size: string): nat {
    (start + ToInt(Strtol(size))) % SIZE_MOD
  }

  // From the size line that starts at `start` on.
  function Decode(s: string, start: nat): string
    decreases |s|
  {
    var end := Find(s, CRLF, start);
    if end < 0 then s
    else
      var next := NextStart(start, s[start..end]);
      Decode(StripAt(s[..start] + s[end + 2..], next), next)
  }

  // DecodeChunkedContent: every round takes out at least a line end.
  method DecodeChunkedContent(p: StringBuffer)
    modifies p
    ensures p.value == Decode(old(p.value), 0)
  {
    hide Find, Strtol, ToInt;
    var hexstart := 0;
    var hexend := Find(p.value, CRLF, hexstart);
    while hexend >= 0
      invariant hexstart >= 0 && hexend == Find(p.value, CRLF, hexstart)
      invariant Decode(p.value, hexstart) == Decode(old(p.value), 0)
      decreases |p.value|
    {
      var hexstr := p.value[hexstart..hexend];
      p.value := p.value[..hexstart] + p.value[hexend + 2..];
      hexstart := (hexstart + ToInt(Strtol(hexstr))) % SIZE_MOD;
      ghost var before := p.value;
      while hexstart < |p.value| && IsLineEnd(p.value[hexstart])
        invariant |p.value| <= |before| && StripAt(p.value, hexstart) == StripAt(before, hexstart)
        decreases |p.value|
      {
        p.value := p.value[..hexstart] + p.value[hexstart + 1..];
      }
      hexend := Find(p.value, CRLF, hexstart);
    }
  }

  // ---------------------------------------------------------------- encoding

  // A chunk as a sender writes it: its size in digits, an extension, its bytes.
  datatype Chunk = Chunk(digits: string, ext: string, data: string)

  // The digit for a value, in either case.
  predicate IsDigitOf(c: char, v: nat) {
    v < 16 && (c == "0123456789abcdef"[v] || c == "0123456789ABCDEF"[v])
  }

  // The number in hexadecimal, with zeros before it or not.
  predicate Spells(digits: string, n: nat) {
    var k := |digits| - 1;
    k >= 0 && IsDigitOf(digits[k], n % 16) && if k == 0 then n < 16 else Spells(digits[..k], n / 16)
  }

  predicate GoodSize(c: Chunk) {
    && Spells(c.digits, |c.data|) && |c.data| < 0x8000_0000
    && (|c.ext| > 0 ==> c.ext[0] == ';' || c.ext[0] == ' ' || c.ext[0] == '\t')
    && forall i :: 0 <= i < |c.ext| ==> !IsLineEnd(c.ext[i])
  }

  // Chunks that are not empty, then an empty one.
  predicate GoodBody(chunks: seq<Chunk>, last: Chunk) {
    && GoodSize(last) && last.data == ""
    && forall i :: 0 <= i < |chunks| ==> GoodSize(chunks[i]) && |chunks[i].data| > 0
  }

  // Trailer fields, a line each.
  predicate GoodTrailers(trailers: seq<string>) {
    forall i :: 0 <= i < |trailers| ==> GoodLine(trailers[i])
  }

  predicate GoodLine(t: string) {
    |t| > 0 && forall i :: 0 <= i < |t| ==> !IsLineEnd(t[i])
  }

  function SizeLine(c: Chunk): string {
    c.digits + c.ext
  }

  function Encode(chunks: seq<Chunk>, last: Chunk, trailers: seq<string>): string {
    if |chunks| == 0 then SizeLine(last) + CRLF + Trailers(trailers)
    else SizeLine(chunks[0]) + CRLF + chunks[0].data + CRLF + Encode(chunks[1..], last, trailers)
  }

  function Trailers(trailers: seq<string>): string {
    if |trailers| == 0 then CRLF else trailers[0] + CRLF + Trailers(trailers[1..])
  }

  function Content(chunks: seq<Chunk>): string {
    if |chunks| == 0 then "" else chunks[0].data + Content(chunks[1..])
  }

  lemma {:induction false} HexStops(acc: nat, digits: string, ext: string)
    requires forall i :: 0 <= i < |digits| ==> IsHexDigit(digits[i])
    requires |ext| > 0 ==> !IsHexDigit(ext[0])
    ensures HexFrom(acc, digits + ext) == HexFrom(acc, digits)
    decreases |digits|
  {
    if |digits| == 0 {
      assert digits + ext == ext;
    } else {
      assert (digits + ext)[1..] == digits[1..] + ext;
      HexStops(16 * acc + HexDigit(digits[0]), digits[1..], ext);
    }
  }

  // The 22 digits and no other characters have a value.
  lemma DigitIs(c: char)
    ensures IsHexDigit(c) <==> exists v: nat :: IsDigitOf(c, v)
    ensures IsHexDigit(c) ==> IsDigitOf(c, HexDigit(c))
    ensures forall v: nat :: IsDigitOf(c, v) ==> IsHexDigit(c) && HexDigit(c) == v
  {
    DigitTable();
    if IsHexDigit(c) { assert IsDigitOf(c, HexDigit(c)); }
  }

  lemma DigitTable()
    ensures forall v: nat :: v < 16 ==>
              && IsHexDigit("0123456789abcdef"[v]) && HexDigit("0123456789abcdef"[v]) == v
              && IsHexDigit("0123456789ABCDEF"[v]) && HexDigit("0123456789ABCDEF"[v]) == v
    ensures forall c :: IsHexDigit(c) ==>
              c == "0123456789abcdef"[HexDigit(c)] || c == "0123456789ABCDEF"[HexDigit(c)]
  {
  }

  lemma {:induction false} HexLast(acc: nat, t: string, c: char)
    requires IsHexDigit(c) && forall i :: 0 <= i < |t| ==> IsHexDigit(t[i])
    ensures HexFrom(acc, t + [c]) == 16 * HexFrom(acc, t) + HexDigit(c)
    decreases |t|
  {
    hide IsHexDigit, HexDigit;
    if |t| == 0 {
      assert t + [c] == [c] && [c][1..] == "";
    } else {
      assert (t + [c])[1..] == t[1..] + [c];
      HexLast(16 * acc + HexDigit(t[0]), t[1..], c);
    }
  }

  // Digits are read as the number they spell, and as no other.
  lemma {:induction false} SpellsRead(t: string, n: nat)
    ensures Spells(t, n) <==>
            |t| > 0 && (forall i :: 0 <= i < |t| ==> IsHexDigit(t[i])) && HexFrom(0, t) == n
    decreases |t|
  {
    hide IsHexDigit, HexDigit, IsDigitOf;
    if |t| > 0 {
      var k := |t| - 1;
      var front, c := t[..k], t[k];
      assert t == front + [c];
      DigitIs(c);
      if IsHexDigit(c) && forall i :: 0 <= i < k ==> IsHexDigit(front[i]) {
        HexLast(0, front, c);
        ByDigit(HexFrom(0, front), HexDigit(c), n);
        DigitBelow(c);
      }
      if k > 0 { SpellsRead(front, n / 16); }
    }
  }

  lemma DigitBelow(c: char)
    requires IsHexDigit(c)
    ensures HexDigit(c) < 16
  {
  }

  lemma ByDigit(q: nat, v: nat, n: nat)
    ensures v < 16 ==> (16 * q + v == n <==> q == n / 16 && v == n % 16)
  {
  }

  // What strtol reads: blanks, a sign, a 0x before a digit, and the number the
  // digits spell, kept within a long; what follows them does not matter.
  lemma StrtolReads(blanks: string, sign: string, prefix: string, digits: string, n: nat, rest: string)
    requires (forall i :: 0 <= i < |blanks| ==> IsSpace(blanks[i])) && sign in {"", "+", "-"}
    requires prefix in {"", "0x", "0X"} && Spells(digits, n) && (|rest| > 0 ==> !IsHexDigit(rest[0]))
    requires prefix == "" && digits == "0" && |rest| > 1 && rest[0] in "xX" ==> !IsHexDigit(rest[1])
    ensures var v: int := n;
      Strtol(blanks + (sign + (prefix + (digits + rest)))) ==
      if sign == "-" then (if v > LONG_MAX + 1 then -LONG_MAX - 1 else -v)
      else if v > LONG_MAX then LONG_MAX else v
  {
    hide HexFrom, Spells;
    var w := prefix + (digits + rest);
    SpellsRead(digits, n);
    HexStops(0, digits, rest);
    PrefixSkipped(prefix, digits, rest);
    assert !IsSpace((sign + w)[0]);
    SpacesSkipped(blanks, sign + w);
    if sign == "" { assert sign + w == w; } else { assert (sign + w)[1..] == w; }
  }

  // Without a digit it reads 0.
  lemma StrtolNone(blanks: string, sign: string, rest: string)
    requires (forall i :: 0 <= i < |blanks| ==> IsSpace(blanks[i])) && sign in {"", "+", "-"}
    requires |rest| > 0 ==> !IsHexDigit(rest[0]) && (sign == "" ==> !IsSpace(rest[0]) && rest[0] !in "+-")
    ensures Strtol(blanks + (sign + rest)) == 0
  {
    SpacesSkipped(blanks, sign + rest);
    assert SkipPrefix(rest) == rest;
    if sign == "" { assert sign + rest == rest; } else { assert (sign + rest)[1..] == rest; }
  }

  lemma {:induction false} SpacesSkipped(blanks: string, t: string)
    requires (forall i :: 0 <= i < |blanks| ==> IsSpace(blanks[i])) && (|t| > 0 ==> !IsSpace(t[0]))
    ensures SkipSpaces(blanks + t) == t
    decreases |blanks|
  {
    if |blanks| == 0 {
      assert blanks + t == t;
    } else {
      assert (blanks + t)[1..] == blanks[1..] + t;
      SpacesSkipped(blanks[1..], t);
    }
  }

  lemma PrefixSkipped(prefix: string, digits: string, rest: string)
    requires prefix in {"", "0x", "0X"} && |digits| > 0 && forall i :: 0 <= i < |digits| ==> IsHexDigit(digits[i])
    requires |rest| > 0 ==> !IsHexDigit(rest[0])
    requires prefix == "" && digits == "0" && |rest| > 1 && rest[0] in "xX" ==> !IsHexDigit(rest[1])
    ensures SkipPrefix(prefix + (digits + rest)) == digits + rest
  {
    var u := digits + rest;
    if prefix == "" {
      assert prefix + u == u;
      assert |digits| > 1 ==> u[1] == digits[1];
      assert |digits| == 1 ==> digits == [u[0]] && u[1..] == rest;
    } else {
      assert (prefix + u)[2..] == u;
    }
  }

  // The size line is read as the size of the data.
  lemma SizeRead(c: Chunk)
    requires GoodSize(c)
    ensures ToInt(Strtol(SizeLine(c))) == |c.data|
    ensures |SizeLine(c)| > 0 && forall i :: 0 <= i < |SizeLine(c)| ==> !IsLineEnd(SizeLine(c)[i])
  {
    hide Strtol, Spells;
    var t := SizeLine(c);
    SpellsRead(c.digits, |c.data|);
    StrtolReads("", "", "", c.digits, |c.data|, c.ext);
    assert "" + ("" + ("" + t)) == t;
    forall i | 0 <= i < |c.digits| ensures !IsLineEnd(c.digits[i]) { NoLineEnd(c.digits[i]); }
  }

  lemma NoLineEnd(c: char)
    requires IsHexDigit(c)
    ensures !IsLineEnd(c)
  {
  }

  // The first line end after a line without any.
  lemma LineEndFound(done: string, line: string, rest: string)
    requires forall i :: 0 <= i < |line| ==> !IsLineEnd(line[i])
    ensures Find(done + line + CRLF + rest, CRLF, |done|) == |done| + |line|
  {
    var s := done + line + CRLF + rest;
    var at := |done| + |line|;
    assert s[at..at + 2] == CRLF;
    forall j: nat | |done| <= j < at ensures !OccursAt(s, CRLF, j) {
      assert s[j] == line[j - |done|];
      NoMatch(s, CRLF, j, 0);
    }
    FindIs(s, CRLF, |done|, at);
  }

  lemma {:induction false} FindIs(s: string, sub: string, start: nat, at: nat)
    requires |sub| > 0 && start <= at && OccursAt(s, sub, at)
    requires forall j: nat :: start <= j < at ==> !OccursAt(s, sub, j)
    ensures Find(s, sub, start) == at
    decreases at - start
  {
    if start < at { FindIs(s, sub, start + 1, at); }
  }

  lemma FindNone(s: string)
    ensures Find(s, CRLF, |s|) == -1
  {
  }

  lemma Paren(a: string, b: string, c: string)
    ensures a + (b + c) == a + b + c
  {
  }

  lemma Parens(a: string, b: string, c: string, d: string)
    ensures a + (b + c) + d == a + b + (c + d)
  {
  }

  lemma StripStep(done: string, c: char, rest: string)
    ensures StripAt(done + [c] + rest, |done|) == if IsLineEnd(c) then StripAt(done + rest, |done|)
        else done + [c] + rest
  {
    var s := done + [c] + rest;
    assert s[|done|] == c;
    assert s[..|done|] + s[|done| + 1..] == done + rest;
  }

  // Line ends are taken out up to something else.
  lemma StripTwo(done: string, rest: string)
    requires |rest| > 0 ==> !IsLineEnd(rest[0])
    ensures StripAt(done + CRLF + rest, |done|) == done + rest
  {
    hide StripAt;
    assert CRLF == ['\r'] + ['\n'];
    Parens(done, ['\r'], ['\n'], rest);
    StripStep(done, '\r', ['\n'] + rest);
    Paren(done, ['\n'], rest);
    StripStep(done, '\n', rest);
    StripNone(done, rest);
  }

  lemma StripNone(done: string, rest: string)
    requires |rest| > 0 ==> !IsLineEnd(rest[0])
    ensures StripAt(done + rest, |done|) == done + rest
  {
    assert |rest| > 0 ==> (done + rest)[|done|] == rest[0];
  }

  // The pieces around a line end.
  lemma Cut(done: string, line: string, after: string)
    ensures var s := done + line + CRLF + after;
      var end := |done| + |line|;
      end + 2 <= |s| && s[|done|..end] == line && s[..|done|] + s[end + 2..] == done + after
  {
    var s := done + line + CRLF + after;
    assert s[..|done|] == done && s[|done| + |line| + 2..] == after;
  }

  lemma LineCut(done: string, c: Chunk, after: string)
    requires GoodSize(c)
    ensures var s := done + SizeLine(c) + CRLF + after;
      var end := |done| + |SizeLine(c)|;
      && end + 2 <= |s| && Find(s, CRLF, |done|) == end
      && s[|done|..end] == SizeLine(c) && s[..|done|] + s[end + 2..] == done + after
  {
    hide Find, IsLineEnd, SizeLine, GoodSize;
    SizeRead(c);
    LineEndFound(done, SizeLine(c), after);
    Cut(done, SizeLine(c), after);
  }

  lemma Grouped(done: string, line: string, data: string, rest: string)
    ensures done + (line + CRLF + data + CRLF + rest) == done + line + CRLF + (data + CRLF + rest)
    ensures done + (data + CRLF + rest) == done + data + CRLF + rest
  {
  }

  lemma DecodeStep(s: string, start: nat, end: nat, size: string, left: string, next: nat)
    requires Find(s, CRLF, start) == end && end + 2 <= |s| && start <= end
    requires s[start..end] == size && s[..start] + s[end + 2..] == left && NextStart(start, size) == next
    ensures Decode(s, start) == Decode(StripAt(left, next), next)
  {
    hide Find, NextStart, StripAt;
  }

  lemma NextIs(start: nat, c: Chunk)
    requires GoodSize(c) && start + |c.data| < SIZE_MOD
    ensures NextStart(start, SizeLine(c)) == start + |c.data|
  {
    hide Strtol, ToInt, SizeLine, GoodSize;
    SizeRead(c);
  }

  // One round: a size line, its data and the line end after it.
  lemma OneChunk(s: string, done: string, c: Chunk, after: string, rest: string)
    requires GoodSize(c) && |done| + |c.data| < SIZE_MOD
    requires |rest| > 0 ==> !IsLineEnd(rest[0])
    requires s == done + SizeLine(c) + CRLF + after && done + after == done + c.data + CRLF + rest
    ensures Decode(s, |done|) == Decode(done + c.data + rest, |done| + |c.data|)
  {
    hide IsLineEnd, SizeLine, StripAt, Decode, GoodSize;
    ChunkLine(done, c, after);
    StripTwo(done + c.data, rest);
  }

  // The size line alone.
  lemma ChunkLine(done: string, c: Chunk, after: string)
    requires GoodSize(c) && |done| + |c.data| < SIZE_MOD
    ensures var next := |done| + |c.data|;
      Decode(done + SizeLine(c) + CRLF + after, |done|) == Decode(StripAt(done + after, next), next)
  {
    hide Find, NextStart, SizeLine, StripAt, Decode, GoodSize;
    NextIs(|done|, c);
    LineCut(done, c, after);
    var s := done + SizeLine(c) + CRLF + after;
    DecodeStep(s, |done|, |done| + |SizeLine(c)|, SizeLine(c), done + after, |done| + |c.data|);
  }

  lemma EncodeHead(chunks: seq<Chunk>, last: Chunk, trailers: seq<string>)
    requires GoodBody(chunks, last)
    ensures var e := Encode(chunks, last, trailers); |e| > 0 && !IsLineEnd(e[0])
  {
    var c := if |chunks| == 0 then last else chunks[0];
    SpellsRead(c.digits, |c.data|);
    assert Encode(chunks, last, trailers)[0] == c.digits[0];
  }

  lemma DecodeEnd(s: string)
    ensures Decode(s, |s|) == s
  {
    FindNone(s);
  }

  // Up to the last chunk: what is left is what its end makes of the trailers.
  lemma {:induction false} DecodeRest(done: string, chunks: seq<Chunk>, last: Chunk, trailers: seq<string>)
    requires GoodBody(chunks, last) && GoodTrailers(trailers) && |done| + |Content(chunks)| < SIZE_MOD
    ensures var all := done + Content(chunks);
      Decode(done + Encode(chunks, last, trailers), |done|) == Decode(all + Left(trailers), |all|)
    decreases |chunks|
  {
    hide Decode, GoodSize, SizeLine, Left, Trailers;
    if |chunks| == 0 {
      LastChunk(done, last, trailers);
      assert done + Content(chunks) == done;
    } else {
      var c := chunks[0];
      EncodeHead(chunks[1..], last, trailers);
      var rest := Encode(chunks[1..], last, trailers);
      Grouped(done, SizeLine(c), c.data, rest);
      OneChunk(done + Encode(chunks, last, trailers), done, c, c.data + CRLF + rest, rest);
      DecodeRest(done + c.data, chunks[1..], last, trailers);
      assert done + c.data + Content(chunks[1..]) == done + Content(chunks);
    }
  }

  // ---------------------------------------------------------------- trailers

  // What is left of the trailers once line ends before them are taken out.
  function Left(trailers: seq<string>): string {
    if |trailers| == 0 then "" else Trailers(trailers)
  }

  // The size a line is taken for.
  function Size(line: string): int {
    ToInt(Strtol(line))
  }

  predicate AllZero(trailers: seq<string>) {
    forall i :: 0 <= i < |trailers| ==> Size(trailers[i]) == 0
  }

  // No end of a line is taken for a negative size.
  predicate NoneBack(trailers: seq<string>) {
    forall i, k :: 0 <= i < |trailers| && 0 <= k <= |trailers[i]| ==> Size(trailers[i][k..]) >= 0
  }

  lemma StripTrailers(done: string, trailers: seq<string>)
    requires GoodTrailers(trailers)
    ensures StripAt(done + Trailers(trailers), |done|) == done + Left(trailers)
  {
    if |trailers| == 0 {
      StripTwo(done, "");
      assert done + CRLF + "" == done + CRLF;
    } else {
      assert Trailers(trailers)[0] == trailers[0][0];
      StripNone(done, Trailers(trailers));
    }
  }

  lemma LastChunk(done: string, last: Chunk, trailers: seq<string>)
    requires GoodSize(last) && last.data == "" && |done| < SIZE_MOD && GoodTrailers(trailers)
    ensures Decode(done + (SizeLine(last) + CRLF + Trailers(trailers)), |done|) == Decode(done + Left(trailers), |done|)
  {
    hide GoodSize, SizeLine, NextStart, StripAt, Decode, Trailers, Left, GoodTrailers;
    SizeRead(last);
    NextIs(|done|, last);
    OneLine(done, SizeLine(last), Trailers(trailers));
    StripTrailers(done, trailers);
  }

  // A line is taken out and the place moved by its size.
  lemma OneLine(done: string, line: string, after: string)
    requires forall i :: 0 <= i < |line| ==> !IsLineEnd(line[i])
    ensures var next := NextStart(|done|, line);
      Decode(done + (line + CRLF + after), |done|) == Decode(StripAt(done + after, next), next)
  {
    hide Find, NextStart, StripAt, Decode, IsLineEnd;
    Together(done, line, after);
    LineEndFound(done, line, after);
    Cut(done, line, after);
    DecodeStep(done + line + CRLF + after, |done|, |done| + |line|, line, done + after, NextStart(|done|, line));
  }

  lemma Together(done: string, line: string, after: string)
    ensures done + (line + CRLF + after) == done + line + CRLF + after
  {
  }

  lemma OneTrailer(done: string, trailers: seq<string>)
    requires GoodTrailers(trailers) && |trailers| > 0
    ensures var next, after := NextStart(|done|, trailers[0]), Trailers(trailers[1..]);
      Decode(done + Left(trailers), |done|) == Decode(StripAt(done + after, next), next)
  {
    hide Decode, NextStart, StripAt;
    OneLine(done, trailers[0], Trailers(trailers[1..]));
  }

  lemma NextBySize(start: nat, line: string)
    ensures NextStart(start, line) == (start + Size(line)) % SIZE_MOD
    ensures start < SIZE_MOD && Size(line) == 0 ==> NextStart(start, line) == start
  {
    hide Strtol, ToInt;
  }

  // Where a jump ahead lands there are no lines left, or the end of one and
  // those after it.
  lemma {:induction false} Landing(done: string, trailers: seq<string>, v: nat) returns (rest: seq<string>)
    requires GoodTrailers(trailers) && NoneBack(trailers) && v <= |Trailers(trailers)|
    ensures |rest| <= |trailers| && GoodTrailers(rest) && NoneBack(rest) && |Left(rest)| <= |Trailers(trailers)| - v
    ensures StripAt(done + Trailers(trailers)[v..], |done|) == done + Left(rest)
    decreases |trailers|, v == 0
  {
    hide Size, StripAt;
    var all := Trailers(trailers);
    if |trailers| == 0 {
      rest := [];
      EndsOnly(done, v);
    } else {
      var t, more := trailers[0], trailers[1..];
      if v < |t| {
        rest := [t[v..]] + more;
        assert t == t[..v] + t[v..];
        assert rest[1..] == more && all[v..] == t[v..] + CRLF + Trailers(more) == Trailers(rest);
        StripNone(done, all[v..]);
        BackSuffix(trailers, v);
      } else {
        var w := if v < |t| + 2 then 0 else v - |t| - 2;
        assert all[v..] == if v == |t| then CRLF + Trailers(more)
                           else if v == |t| + 1 then "\n" + Trailers(more) else Trailers(more)[w..];
        SkipEnds(done, all[v..], Trailers(more)[w..]);
        rest := Landing(done, more, w);
      }
    }
  }

  lemma EndsOnly(done: string, v: nat)
    requires v <= 2
    ensures StripAt(done + CRLF[v..], |done|) == done
  {
    SkipEnds(done, CRLF[v..], "");
    StripNone(done, "");
    assert done + "" == done;
  }

  lemma SkipEnds(done: string, text: string, rest: string)
    requires text == CRLF + rest || text == "\n" + rest || text == rest
    ensures StripAt(done + text, |done|) == StripAt(done + rest, |done|)
  {
    hide StripAt;
    if text == "\n" + rest {
      Paren(done, "\n", rest);
      StripStep(done, '\n', rest);
    } else if text == CRLF + rest {
      assert text == ['\r'] + (['\n'] + rest);
      Paren(done, ['\r'], ['\n'] + rest);
      StripStep(done, '\r', ['\n'] + rest);
      Paren(done, ['\n'], rest);
      StripStep(done, '\n', rest);
    }
  }

  lemma BackSuffix(trailers: seq<string>, v: nat)
    requires GoodTrailers(trailers) && NoneBack(trailers) && |trailers| > 0 && v < |trailers[0]|
    ensures var rest := [trailers[0][v..]] + trailers[1..]; GoodTrailers(rest) && NoneBack(rest)
  {
    hide Size;
    var rest := [trailers[0][v..]] + trailers[1..];
    forall i, k | 0 <= i < |rest| && 0 <= k <= |rest[i]| ensures Size(rest[i][k..]) >= 0 {
      if i == 0 {
        assert rest[0][k..] == trailers[0][v + k..];
      }
    }
  }

  // Going only ahead, decoding keeps what is before its place.
  lemma {:induction false} KeepsBefore(done: string, trailers: seq<string>)
    requires GoodTrailers(trailers) && NoneBack(trailers) && |done| + |Left(trailers)| + 0x8000_0000 < SIZE_MOD
    ensures |Decode(done + Left(trailers), |done|)| >= |done|
    decreases |trailers|, 0
  {
    hide Decode, Size, StripAt, NextStart;
    if |trailers| == 0 {
      DecodeEnd(done);
      assert done + "" == done;
    } else {
      OneTrailer(done, trailers);
      NextBySize(|done|, trailers[0]);
      FirstAhead(trailers);
      JumpAhead(done, trailers[1..], Size(trailers[0]));
    }
  }

  lemma FirstAhead(trailers: seq<string>)
    requires NoneBack(trailers) && |trailers| > 0
    ensures 0 <= Size(trailers[0]) < 0x8000_0000 && NoneBack(trailers[1..])
    ensures GoodTrailers(trailers) ==> |Left(trailers[1..])| <= |Trailers(trailers[1..])| < |Left(trailers)|
  {
    hide Strtol;
    assert trailers[0][0..] == trailers[0];
  }

  lemma {:induction false} JumpAhead(done: string, trailers: seq<string>, v: nat)
    requires GoodTrailers(trailers) && NoneBack(trailers) && v < 0x8000_0000
    requires |done| + |Trailers(trailers)| + 0x8000_0000 < SIZE_MOD
    ensures var next := (|done| + v) % SIZE_MOD;
      var r := Decode(StripAt(done + Trailers(trailers), next), next);
      |r| >= |done| && (v > 0 ==> |r| > |done|)
    decreases |trailers|, 1
  {
    hide Decode, Size, StripAt, NoneBack, GoodTrailers;
    var after := Trailers(trailers);
    if v <= |after| {
      var done' := done + after[..v];
      assert done + after == done' + after[v..];
      var rest := Landing(done', trailers, v);
      KeepsBefore(done', rest);
    } else {
      StripBeyond(done + after, |done| + v);
      DecodeBeyond(done + after, |done| + v);
      AfterSome(trailers);
    }
  }

  lemma AfterSome(trailers: seq<string>)
    ensures |Trailers(trailers)| >= 2
  {
  }

  // Where no end of a line is taken for a negative size, the trailers vanish
  // exactly when each is taken for 0.
  lemma {:induction false} TrailersVanish(done: string, trailers: seq<string>)
    requires GoodTrailers(trailers) && NoneBack(trailers) && |done| + |Left(trailers)| + 0x8000_0000 < SIZE_MOD
    ensures Decode(done + Left(trailers), |done|) == done <==> AllZero(trailers)
    decreases |trailers|
  {
    hide Decode, Size, StripAt, NextStart, Left, NoneBack, GoodTrailers;
    if |trailers| == 0 {
      NothingLeft(done);
    } else {
      OneTrailer(done, trailers);
      NextBySize(|done|, trailers[0]);
      FirstAhead(trailers);
      FewerTrailers(trailers);
      if Size(trailers[0]) == 0 {
        StripTrailers(done, trailers[1..]);
        TrailersVanish(done, trailers[1..]);
        assert AllZero(trailers) <==> AllZero(trailers[1..]) by { ZeroCons(trailers); }
      } else {
        JumpAhead(done, trailers[1..], Size(trailers[0]));
      }
    }
  }

  lemma NothingLeft(done: string)
    ensures Decode(done + Left([]), |done|) == done
  {
    DecodeEnd(done);
    assert done + "" == done;
  }

  lemma FewerTrailers(trailers: seq<string>)
    requires GoodTrailers(trailers) && |trailers| > 0
    ensures GoodTrailers(trailers[1..]) && |Left(trailers[1..])| <= |Trailers(trailers[1..])| < |Left(trailers)|
  {
  }

  lemma ZeroCons(trailers: seq<string>)
    requires |trailers| > 0
    ensures AllZero(trailers) <==> Size(trailers[0]) == 0 && AllZero(trailers[1..])
  {
    hide Size;
    if Size(trailers[0]) == 0 && AllZero(trailers[1..]) {
      forall i | 0 <= i < |trailers| ensures Size(trailers[i]) == 0 {
        if i > 0 { assert trailers[i] == trailers[1..][i - 1]; }
      }
    }
    if AllZero(trailers) {
      forall i | 0 <= i < |trailers[1..]|
        ensures Size(trailers[1..][i]) == 0 { assert trailers[1..][i] == trailers[i + 1]; }
    }
  }

  lemma StripBeyond(s: string, pos: nat)
    requires pos >= |s|
    ensures StripAt(s, pos) == s
  {
  }

  lemma DecodeBeyond(s: string, start: nat)
    requires start >= |s|
    ensures Decode(s, start) == s
  {
  }

  // ------------------------------------------------------- whole bodies

  // Decoding what a sender encodes, trailers or none, gives the bytes of the
  // chunks, whatever they are, exactly when every trailer line is taken for
  // the size 0.  Where a line before the last one is not, no end of a line may
  // be taken for a negative size, for a jump back could make up for it.
  lemma DecodeEncode(chunks: seq<Chunk>, last: Chunk, trailers: seq<string>)
    requires GoodBody(chunks, last) && GoodTrailers(trailers)
    requires |Content(chunks)| + |Trailers(trailers)| + 0x8000_0000 < SIZE_MOD
    requires NoneBack(trailers) || AllZero(trailers[..if |trailers| > 0 then |trailers| - 1 else 0])
    ensures Decode(Encode(chunks, last, trailers), 0) == Content(chunks) <==> AllZero(trailers)
  {
    hide Decode, Encode, GoodBody, GoodTrailers, Trailers, NoneBack, AllZero;
    assert "" + Encode(chunks, last, trailers) == Encode(chunks, last, trailers);
    assert "" + Content(chunks) == Content(chunks);
    DecodeRest("", chunks, last, trailers);
    LeftShorter(trailers);
    if NoneBack(trailers) {
      TrailersVanish(Content(chunks), trailers);
    } else {
      LastVanishes(Content(chunks), trailers);
    }
  }

  lemma LeftShorter(trailers: seq<string>)
    ensures |Left(trailers)| <= |Trailers(trailers)|
  {
  }

  // Lines taken for 0 vanish, and then the last one exactly when it is too.
  lemma {:induction false} LastVanishes(done: string, trailers: seq<string>)
    requires GoodTrailers(trailers) && |done| + |Left(trailers)| + 0x8000_0000 < SIZE_MOD
    requires AllZero(trailers[..if |trailers| > 0 then |trailers| - 1 else 0])
    ensures Decode(done + Left(trailers), |done|) == done <==> AllZero(trailers)
    decreases |trailers|
  {
    hide Decode, Size, StripAt, NextStart, Left, GoodTrailers;
    if |trailers| == 0 {
      NothingLeft(done);
    } else {
      OneTrailer(done, trailers);
      NextBySize(|done|, trailers[0]);
      FewerTrailers(trailers);
      ZeroCons(trailers);
      if |trailers| == 1 {
        LastLine(done, trailers);
      } else {
        var init := trailers[..|trailers| - 1];
        ZeroCons(init);
        assert init[1..] == trailers[1..][..|trailers| - 2];
        StripTrailers(done, trailers[1..]);
        LastVanishes(done, trailers[1..]);
      }
    }
  }

  lemma LastLine(done: string, trailers: seq<string>)
    requires GoodTrailers(trailers) && |trailers| == 1 && |done| + |Left(trailers)| + 0x8000_0000 < SIZE_MOD
    ensures Decode(done + Left(trailers), |done|) == done <==> Size(trailers[0]) == 0
  {
    hide Decode, Size, StripAt, NextStart, GoodTrailers, Trailers, Left;
    FewerTrailers(trailers);
    OneTrailer(done, trailers);
    NextBySize(|done|, trailers[0]);
    SizeRange(trailers[0]);
    assert trailers[1..] == [];
    OnlyCrlf();
    if Size(trailers[0]) == 0 {
      StripTrailers(done, []);
      NothingLeft(done);
    } else {
      Wrapped(|done|, Size(trailers[0]));
      MovedLeaves(done, NextStart(|done|, trailers[0]));
    }
  }

  lemma OnlyCrlf()
    ensures Trailers([]) == CRLF
  {
  }

  // From anywhere else the last line end is not taken out alone.
  lemma MovedLeaves(done: string, next: nat)
    requires next != |done|
    ensures |Decode(StripAt(done + CRLF, next), next)| != |done|
  {
    hide Decode, StripAt;
    if next >= |done| + 2 {
      StripBeyond(done + CRLF, next);
      DecodeBeyond(done + CRLF, next);
    } else if next > |done| {
      IntoCrlf(done, 1);
    } else {
      IntoData(done, next);
    }
  }

  lemma Wrapped(n: nat, v: int)
    requires v != 0 && -0x8000_0000 <= v < 0x8000_0000 && n + 0x8000_0000 < SIZE_MOD
    ensures var next := (n + v) % SIZE_MOD; next >= 0 && next != n
  {
  }

  lemma IntoCrlf(done: string, v: nat)
    requires 0 < v <= 2
    ensures |Decode(StripAt(done + CRLF, |done| + v), |done| + v)| == |done| + v
  {
    hide Decode, StripAt;
    var done' := done + CRLF[..v];
    assert done + CRLF == done' + CRLF[v..];
    EndsOnly(done', v);
    DecodeEnd(done');
  }

  lemma IntoData(done: string, at: nat)
    requires at < |done|
    ensures |Decode(StripAt(done + CRLF, at), at)| < |done|
  {
    hide Decode, StripAt;
    JumpBack(done[..at], done[at..]);
    assert done[..at] + (done[at..] + CRLF) == done + CRLF;
  }

  lemma SizeRange(line: string)
    ensures -0x8000_0000 <= Size(line) < 0x8000_0000
  {
    hide Strtol;
  }

  // Back in the data the last line end takes more with it than itself.
  lemma JumpBack(before: string, data: string)
    requires |data| > 0
    ensures |Decode(StripAt(before + (data + CRLF), |before|), |before|)| < |before| + |data|
  {
    hide Decode, StripAt, NextStart, Find;
    var k := Stripped(before, data + CRLF);
    var rest := (data + CRLF)[k..];
    if rest == "" {
      assert before + rest == before;
      DecodeEnd(before);
    } else {
      var s := before + rest;
      BeforeCrlf(data, k);
      assert rest == data[k..] + CRLF;
      var last := |before| + |data| - k;
      assert s[last..last + 2] == CRLF;
      var e := Find(s, CRLF, |before|);
      FoundAt(s, |before|, last);
      assert s[|before|] == rest[0];
      ShorterStep(s, |before|);
    }
  }

  lemma FoundAt(s: string, start: nat, at: nat)
    requires start <= at && OccursAt(s, CRLF, at)
    ensures var e := Find(s, CRLF, start); start <= e <= at && e < |s| && IsLineEnd(s[e])
  {
    CharOf(s, CRLF, Find(s, CRLF, start), 0);
  }

  lemma BeforeCrlf(data: string, k: nat)
    requires k < |data + CRLF| && !IsLineEnd((data + CRLF)[k])
    ensures k < |data|
  {
  }

  lemma {:induction false} Stripped(before: string, text: string) returns (k: nat)
    ensures k <= |text| && StripAt(before + text, |before|) == before + text[k..]
    ensures k < |text| ==> !IsLineEnd(text[k])
    decreases |text|
  {
    hide StripAt;
    if |text| > 0 && IsLineEnd(text[0]) {
      assert text == [text[0]] + text[1..];
      Paren(before, [text[0]], text[1..]);
      StripStep(before, text[0], text[1..]);
      k := Stripped(before, text[1..]);
      assert text[1..][k..] == text[k + 1..];
      k := k + 1;
    } else {
      k := 0;
      StripNone(before, text);
      assert text[0..] == text;
    }
  }

  lemma {:induction false} Shortens(s: string, start: nat)
    ensures |Decode(s, start)| <= |s|
    decreases |s|
  {
    hide Find, NextStart, StripAt;
    FindFits(s, start);
    var end := Find(s, CRLF, start);
    if end >= 0 {
      var left, next := s[..start] + s[end + 2..], NextStart(start, s[start..end]);
      StripFits(left, next);
      Shortens(StripAt(left, next), next);
    }
  }

  lemma FindFits(s: string, start: nat)
    ensures var e := Find(s, CRLF, start); e >= 0 ==> start <= e && e + 2 <= |s|
  {
  }

  lemma StripFits(s: string, pos: nat)
    ensures |StripAt(s, pos)| <= |s|
  {
  }

  lemma ShorterStep(s: string, start: nat)
    ensures var e := Find(s, CRLF, start); e >= 0 ==> start <= e && |Decode(s, start)| <= |s| - (e - start) - 2
  {
    hide Find, NextStart, StripAt;
    FindFits(s, start);
    var end := Find(s, CRLF, start);
    if end >= 0 {
      var left, next := s[..start] + s[end + 2..], NextStart(start, s[start..end]);
      StripFits(left, next);
      Shortens(StripAt(left, next), next);
    }
  }

  // Without trailers nothing is in the way.
  lemma DecodeNoTrailers(chunks: seq<Chunk>, last: Chunk)
    requires GoodBody(chunks, last) && |Content(chunks)| < SIZE_MOD
    ensures Decode(Encode(chunks, last, []), 0) == Content(chunks)
  {
    hide Decode, Encode, GoodBody;
    assert "" + Encode(chunks, last, []) == Encode(chunks, last, []);
    assert "" + Content(chunks) == Content(chunks);
    DecodeRest("", chunks, last, []);
    NothingLeft(Content(chunks));
  }

  const ZERO := Chunk("0", "", "")

  lemma ZeroIsGood()
    ensures GoodBody([], ZERO) && Content([]) == ""
    ensures forall trailers :: Encode([], ZERO, trailers) == "0" + CRLF + Trailers(trailers)
  {
    assert Spells("0", 0);
    assert "0" + "" == "0";
  }

  lemma OneField(t: string)
    ensures Trailers([t]) == t + CRLF + CRLF
  {
  }

  // A field whose name starts with hexadecimal digits is taken for a size, and
  // something stays behind.
  lemma TrailerLeft()
    ensures Decode("0" + CRLF + ("Date: x" + CRLF + CRLF), 0) != ""
  {
    hide Decode, Encode, Trailers, GoodBody;
    ZeroIsGood();
    OneField("Date: x");
    DateSize();
    assert AllZero([]);
    assert ["Date: x"][..0] == [];
    assert ["Date: x"][0] == "Date: x";
    DecodeEncode([], ZERO, ["Date: x"]);
  }

  // Any other field is taken for an empty chunk and erased.
  lemma TrailerErased()
    ensures Decode("0" + CRLF + ("X: y" + CRLF + CRLF), 0) == ""
  {
    hide Decode, Encode, Trailers, GoodBody;
    ZeroIsGood();
    OneField("X: y");
    var t := "X: y";
    assert SkipSpaces(t) == t && SkipPrefix(t) == t && HexFrom(0, t) == 0;
    assert ["X: y"][..0] == [];
    DecodeEncode([], ZERO, ["X: y"]);
  }

  lemma DateSize()
    ensures Size("Date: x") == 218
  {
    var t := "Date: x";
    assert t[1..] == "ate: x" && t[2..] == "te: x";
    assert SkipSpaces(t) == t && SkipPrefix(t) == t;
    assert HexFrom(0, t) == HexFrom(13, "ate: x") == HexFrom(218, "te: x") == 218;
  }

  // A jump ahead into a line whose end is taken for a negative size can be made
  // up for, so several lines may vanish although one is not taken for 0.
  lemma JumpMadeUp()
    ensures Size("2") == 2
    ensures Decode("0" + CRLF + ("2" + CRLF + ("ab-2" + CRLF + CRLF)), 0) == ""
  {
    hide Decode, StripAt, NextStart, GoodSize;
    ZeroIsGood();
    var trailers := ["2", "ab-2"];
    assert trailers[1..] == ["ab-2"];
    OneField("ab-2");
    var text := "2" + CRLF + ("ab-2" + CRLF + CRLF);
    assert Trailers(trailers) == text;
    var all := "0" + CRLF + text;
    assert "" + ("0" + CRLF + text) == all && "" + text == text;
    assert SizeLine(ZERO) == "0";
    LastChunk("", ZERO, trailers);
    SmallSizes();
    OneLine("", "2", "ab-2" + CRLF + CRLF);
    NextBySize(0, "2");
    StripNone("ab", "-2" + CRLF + CRLF);
    assert "" + ("ab-2" + CRLF + CRLF) == "ab" + ("-2" + CRLF + CRLF);
    MadeUp();
  }

  lemma MadeUp()
    ensures Decode("ab" + ("-2" + CRLF + CRLF), 2) == ""
  {
    hide Decode, StripAt, NextStart;
    SmallSizes();
    OneLine("ab", "-2", CRLF);
    NextBySize(2, "-2");
    StripNone("", "ab" + CRLF);
    assert "" + ("ab" + CRLF) == "ab" + CRLF == "" + ("ab" + CRLF + "");
    OneLine("", "ab", "");
    NextBySize(0, "ab");
    StripBeyond("", 171);
    DecodeBeyond("", 171);
  }

  lemma SmallSizes()
    ensures Size("2") == 2 && Size("-2") == -2 && Size("ab") == 171
  {
    assert HexFrom(0, "2") == HexFrom(2, "") == 2 && "-2"[1..] == "2" && "ab"[1..] == "b";
    assert SkipPrefix("2") == "2" && SkipPrefix("ab") == "ab";
    assert SkipSpaces("2") == "2" && SkipSpaces("-2") == "-2" && SkipSpaces("ab") == "ab";
    assert HexFrom(0, "ab") == HexFrom(10, "b") == HexFrom(171, "") == 171;
  }
}
