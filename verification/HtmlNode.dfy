// The node class of the HTML parser: the edits that insert, remove and
// flatten nodes in place, the parser's loops and the printer's.

module HtmlNode {
  import opened Strings
  import opened HtmlTree
  import opened HtmlText
  import opened HtmlParser

  class CWNode {
    var Tag: Tag
    var Text: seq<string>
    var Childs: seq<CWNode>

    // The value of the tree below, and the nodes it may reach.
    ghost var Model: Tree
    ghost var Repr: set<CWNode>

    ghost predicate Valid()
      reads this, Repr
      decreases Repr, 0
    {
      && this in Repr
      && |Text| == |Childs| + 1
      && Model.tag == Tag && Model.text == Text
      && Linked(Childs, Model.childs, Repr - {this})
    }

    constructor (tag: Tag)
      ensures Valid() && Model == Tree(tag, [""], []) && Repr == {this} && Childs == []
    {
      Tag := tag;
      Text := [""];
      Childs := [];
      Model := Tree(tag, [""], []);
      Repr := {this};
    }

    function Contents(): Content<CWNode>
      reads this
    {
      Content(Text, Childs)
    }

    // ------------------------------------------------------------- the edits

    // AppendTextBeforeChild.
    method AppendTextBeforeChild(text: string, index: nat)
      requires index < |Text|
      modifies this`Text
      ensures Text == old(Text)[index := old(Text)[index] + text]
    {
      Text := Text[index := Text[index] + text];
    }

    // AddChild: the node goes last, after the text before it.
    method AddChild(node: CWNode, textBefore: string, textAfter: string)
      requires Contents().Interleaved()
      modifies this`Text, this`Childs
      ensures Contents() == Glue(old(Contents()), Content([textBefore, textAfter], [node]))
    {
      var n := |Childs|;
      Text := Text[n := Text[n] + textBefore];
      Childs := Childs + [node];
      Text := Text + [textAfter];
    }

    // InsertChild: the node and its texts go before the text at `index`.
    method InsertChild(node: CWNode, index: nat, textBefore: string, textAfter: string)
      requires Contents().Interleaved() && index <= |Childs|
      modifies this`Text, this`Childs
      ensures Contents() ==
              Glue(Glue(Content(old(Text)[..index] + [""], old(Childs)[..index]),
                  Content([textBefore, textAfter], [node])),
                   From(old(Contents()), index))
    {
      var textHere := Text[index];
      Text := Text[index := textBefore];
      Childs := Childs[..index] + [node] + Childs[index..];
      Text := Text[..index + 1] + [textAfter + textHere] + Text[index + 1..];
      assert "" + textBefore == textBefore;
    }

    // InsertChildSpec: the node and its texts go after the text at `index`.
    method InsertChildSpec(node: CWNode, index: nat, textBefore: string, textAfter: string)
      requires Contents().Interleaved() && index <= |Childs|
      modifies this`Text, this`Childs
      ensures Contents() == InsertedSpec(old(Contents()), index, Content([textBefore, textAfter], [node]))
    {
      Text := Text[index := Text[index] + textBefore];
      Childs := Childs[..index] + [node] + Childs[index..];
      Text := Text[..index + 1] + [textAfter] + Text[index + 1..];
      assert textAfter + "" == textAfter;
    }

    // InsertChildsOfNode: all of another node's contents after the text at `index`.
    method InsertChildsOfNode(node: CWNode, index: nat)
      requires node != this && node.Contents().Interleaved()
      requires Contents().Interleaved() && index <= |Childs|
      modifies this`Text, this`Childs
      ensures Contents() == InsertedSpec(old(Contents()), index, node.Contents())
    {
      var n := |node.Childs|;
      ghost var before := Contents();
      hide Inserted, InsertedSpec, Glue, Upto;
      InsertNone(before, index, node.Contents());
      assert Contents() == Inserted(before, index, node.Contents(), 0);
      var i := 0;
      while i < n
        invariant i <= n && Contents().Interleaved()
        invariant Contents() == Inserted(before, index, node.Contents(), i)
      {
        InsertRound(before, index, node.Contents(), i);
        InsertChildSpec(node.Childs[i], index + i, "", "");
        AppendTextBeforeChild(node.Text[i], index + i);
        i := i + 1;
      }
      InsertLast(before, index, node.Contents());
      AppendTextBeforeChild(node.Text[n], index + n);
    }

    // DeleteChild and DetachChild by index: the texts around the child meet.
    method DetachChild(index: nat) returns (child: CWNode)
      requires Contents().Interleaved() && index < |Childs|
      modifies this`Text, this`Childs
      ensures child == old(Childs)[index]
      ensures Contents() == Glue(Upto(old(Contents()), index), From(old(Contents()), index + 1))
    {
      child := Childs[index];
      Childs := Childs[..index] + Childs[index + 1..];
      Text := Text[index := Text[index] + Text[index + 1]];
      Text := Text[..index + 1] + Text[index + 2..];
    }

    // CWNodeList::IndexOf.
    method IndexOfChild(node: CWNode) returns (index: int)
      ensures index >= 0 ==> IsFirst(Childs, index, node)
      ensures index < 0 ==> node !in Childs
    {
      index := 0;
      while index < |Childs|
        invariant 0 <= index <= |Childs|
        invariant forall j :: 0 <= j < index ==> Childs[j] != node
      {
        if Childs[index] == node { return; }
        index := index + 1;
      }
      index := -1;
    }

    // DetachChild by node: its first occurrence.
    method DetachNode(node: CWNode) returns (found: bool)
      requires Contents().Interleaved()
      modifies this`Text, this`Childs
      ensures found == (node in old(Childs))
      ensures !found ==> Contents() == old(Contents())
      ensures forall k: nat :: IsFirst(old(Childs), k, node) ==>
                found && Contents() == Glue(Upto(old(Contents()), k), From(old(Contents()), k + 1))
    {
      var k := IndexOfChild(node);
      if k < 0 { return false; }
      var item := DetachChild(k);
      found := true;
    }

    // The two steps by which Flatten removes an unnamed child.
    method Dissolve(index: nat)
      requires Contents().Interleaved() && index < |Childs|
      requires Childs[index] != this && Childs[index].Contents().Interleaved()
      requires Childs[index] !in Childs[..index] && Childs[index] !in Childs[index].Childs
      modifies this`Text, this`Childs
      ensures Contents() == Glue(Glue(Upto(old(Contents()), index), old(Childs)[index].Contents()),
          From(old(Contents()), index + 1))
    {
      hide Glue, Upto, From, InsertedSpec;
      var child := Childs[index];
      ghost var here := Contents();
      InsertChildsOfNode(child, index);
      InsertedItems(here, index, child.Contents());
      DetachInserted(here, index, child.Contents());
      FirstPlace(here.items, index, child.Childs, child);
      var found := DetachNode(child);
    }

    // The recursive call of Flatten: one child changes, apart from the others.
    method FlattenChild(index: nat, ghost models: seq<Tree>, ghost r: set<CWNode>) returns (ghost after: seq<Tree>)
      requires Linked(Childs, models, r) && index < |Childs| && this !in r
      modifies r
      ensures Linked(Childs, after, r) && |models| == |Childs|
      ensures Childs[index].Valid() && Childs[index].Model.tag == models[index].tag
      ensures |Childs[index].Model.childs| == |Childs[index].Childs|
      ensures after == models[index := Childs[index].Model]
      ensures Events(after[index]) == Events(models[index])
      ensures Flat(after[index].childs)
      decreases r, 1
    {
      hide Events, Inner, Flat;
      Childs[index].Flatten();
      forall j | 0 <= j < |Childs| && j != index
        ensures Childs[j].Repr == old(Childs[j].Repr) && Childs[j].Valid() && Childs[j].Model == models[j]
      {
        assert old(Childs[if j < index then j else index].Repr !! Childs[if j < index then index else j].Repr);
        assert Childs[j] in old(Childs[j].Repr);
      }
      after := models[index := Childs[index].Model];
      SameEvents(models[index], after[index]);
    }

    // Flatten: every unnamed node below gives way to its contents.
    method Flatten()
      requires Valid()
      modifies Repr
      ensures Valid() && Repr == old(Repr) && Tag == old(Tag)
      ensures Inner(Model.text, Model.childs) == old(Inner(Model.text, Model.childs))
      ensures Flat(Model.childs)
      decreases Repr, 0
    {
      hide Inner, Events, Flat, InsertedSpec, Glue, Upto, From, Linked;
      ghost var r := Repr - {this};
      ghost var models := Model.childs;
      LinkedLength(Childs, models, r);
      assert Flat(models[|models|..]) by { FlatNone(models[|models|..]); }
      var i := |Childs|;
      while i > 0
        invariant 0 <= i <= |Childs| && |Text| == |Childs| + 1
        invariant Tag == old(Tag) && Repr == old(Repr)
        invariant |models| == |Childs| && Linked(Childs, models, r)
        invariant Document(Content(Text, models)) == old(Inner(Model.text, Model.childs))
        invariant Flat(models[i..])
      {
        i := i - 1;
        var child := Childs[i];
        ghost var before := models;
        models := FlattenChild(i, models, r);
        Replaced(Content(Text, before), i, child.Model);
        assert models[i + 1..] == before[i + 1..];
        if child.Tag.name == "" {
          ghost var here, c := Contents(), Content(Text, models);
          LinkedSplice(Childs, models, r, i);
          Dissolve(i);
          AfterDissolve(here, c, i, child.Contents());
          models := models[..i] + child.Model.childs + models[i + 1..];
          FlatAppend(child.Model.childs, before[i + 1..]);
          assert models[i..] == child.Model.childs + before[i + 1..];
        } else {
          FlatCons(child.Model, before[i + 1..]);
          assert models[i..] == [child.Model] + before[i + 1..];
        }
      }
      assert models[0..] == models;
      Model := Tree(Tag, Text, models);
    }

    // ---------------------------------------------------- printing and parsing

    // GetHTML(true).
    method GetHTML() returns (text: string)
      requires Valid()
      ensures text == Print(Model)
      decreases Repr
    {
      hide PrintInner, PrintText, PrintAttrs, PrintClose;
      text := "";
      if Tag.name != "" {
        text := AppendAttrs("<" + Tag.name, Tag.attr);
        if !Tag.selfClosing && !Tag.void {
          text := text + ">";
        }
      }
      ghost var open := text;
      ghost var name, models := Tag.name, Model.childs;
      assert Text[0..] == Text && models[0..] == models;
      var i := 0;
      while i < |Childs|
        invariant i <= |Childs|
        invariant text + PrintInner(name, Text[i..], models[i..]) == open + PrintInner(name, Text, models)
      {
        InnerStep(name, Text, models, i);
        var part := TextOf(i);
        var html := Childs[i].GetHTML();
        AppendTwo(text, part, html, PrintInner(name, Text[i + 1..], models[i + 1..]));
        text := text + part;
        text := text + html;
        i := i + 1;
      }
      InnerStep(name, Text, models, i);
      var part := TextOf(i);
      text := text + part;
      if Tag.name != "" {
        text := AppendEnd(text);
      } else {
        text := EnsureLastChar(text, '\n');
      }
    }

    // The end of a named node, with the blank it asks for.
    method AppendEnd(text: string) returns (r: string)
      ensures r == text + PrintClose(Tag)
    {
      if Tag.selfClosing {
        r := text + " />";
      } else {
        if Tag.void {
          r := text + ">";
        } else {
          r := text + ("</" + Tag.name + ">");
        }
        if Tag.spaceAfter {
          r := r + " ";
        }
      }
    }

    method TextOf(i: nat) returns (t: string)
      requires i < |Text|
      ensures t == PrintText(Tag.name, Text[i])
    {
      if KeepsText(Tag.name) {
        t := Text[i];
      } else {
        t := MinifyText(Text[i]);
      }
    }

    // ParseTag; when the source's behaviour is defined.
    method ParseTag(input: string, start: nat) returns (defined: bool, tagEnd: int)
      requires start <= |input| && Tag == NO_TAG
      modifies this`Tag
      ensures var t := Tokenize(input, start, start, false);
        && defined == TagOf(t).Read?
        && (defined ==> Tag == TagOf(t).tag && tagEnd == t.end)
    {
      var tokens;
      defined, tokens, tagEnd := ReadTokens(input, start);
      if !defined { return; }
      TagStart(tokens);
      hide IsVoidElement, Tokenize, ReadFrom;
      var named := false;
      var i := 0;
      while i < |tokens|
        invariant i <= |tokens|
        invariant ReadFrom(tokens, i, Tag, named) == ReadTag(tokens, [], NO_TAG, false)
      {
        var t := tokens[i];
        TagStep(tokens, i, Tag, named);
        var step := 1;
        if !StartsSign(t) {
          if t.broken { return false, tagEnd; }
          if !named {
            Tag := Tag.(name := t.word);
            named := true;
          } else if i + 1 < |tokens| && tokens[i + 1].first == '=' {
            if i + 2 >= |tokens| || tokens[i + 2].broken { return false, tagEnd; }
            Tag := Tag.(attr := Tag.attr + [t.word + "=" + tokens[i + 2].word]);
            step := 3;
          } else {
            Tag := Tag.(attr := Tag.attr + [t.word]);
          }
        }
        if t.first == '>' {
          if i > 0 && tokens[i - 1].first == '/' && !tokens[i - 1].quoted {
            Tag := Tag.(selfClosing := true);
          } else {
            Tag := Tag.(void := IsVoidElement(Tag.name));
          }
        }
        i := i + step;
      }
      TagStep(tokens, i, Tag, named);
    }

    // The element at `start` becomes the last child; the loop goes on after it.
    method ParseChild(input: string, start: nat, text: string)
      returns (ok: bool, undefined: bool, pos: nat, node: CWNode)
      requires start < |input| && Contents().Interleaved() && Text[|Childs|] == ""
      modifies this`Text, this`Childs
      ensures Childs == old(Childs) + [node] && Text == old(Text)[..|old(Childs)|] + [text, ""]
      ensures ok ==> node.Valid() && fresh(node.Repr)
      ensures var r := ParseNode(input, start);
        && ok == r.Node?
        && (ok ==> node.Model == r.tree && pos == r.last)
        && undefined == (r.NoNode? && r.undefined)
      decreases |input| - start, 0
    {
      hide Tokenize, TagOf, ParseFrom;
      node := new CWNode(NO_TAG);
      AddChild(node, text, "");
      assert "" + text == text;
      ok, undefined, pos := false, false, start;
      var defined, tagEnd := node.ParseTag(input, start);
      if !defined {
        undefined := true;
        return;
      }
      if tagEnd < 0 { return; }
      pos := tagEnd;
      node.Model := Tree(node.Tag, node.Text, []);
      ok := true;
      if !node.Tag.selfClosing && !node.Tag.void {
        ok, undefined, pos := node.Parse(input, pos + 1, false);
      }
    }

    // Parse, of a node that is still empty.
    method Parse(input: string, start: nat, isRoot: bool) returns (ok: bool, undefined: bool, pos: nat)
      requires start <= |input| && Text == [""] && Childs == []
      modifies this`Text, this`Childs, this`Model, this`Repr
      ensures ok ==> Valid() && fresh(Repr - {this})
      ensures var r := ParseFrom(input, start, START, "", [], []);
        && ok == (r.Parsed? && (isRoot || r.closed))
        && (ok ==> Model == Tree(Tag, r.content.text, r.content.items) && pos == r.pos)
        && undefined == (r.Failed? && r.undefined)
      decreases |input| - start, 1
    {
      hide Tokenize, TagOf, OccursAt, FindChar, Next, ParseFrom, IsAlpha, Linked;
      LinkedNone();
      pos := start;
      undefined := false;
      var text := "";
      var closed, quotes, comment := false, false, false;
      ghost var models: seq<Tree>, r: set<CWNode> := [], {};
      while pos < |input|
        invariant start <= pos <= |input| && !closed && !undefined
        invariant |Text| == |Childs| + 1 == |models| + 1 && Text[|Childs|] == ""
        invariant fresh(r) && this !in r && Linked(Childs, models, r)
        invariant ParseFrom(input, pos, Scan(quotes, comment), text, Text[..|Childs|], models) ==
                  ParseFrom(input, start, START, "", [], [])
        decreases |input| - pos
      {
        ghost var st, here, sofar := Scan(quotes, comment), Text[..|Childs|], text;
        quotes, comment := ScanFlags(input, pos, Scan(quotes, comment));
        if comment || quotes || !(input[pos] == '<'
            && (IsAlpha(CharAt(input, pos + 1)) || CharAt(input, pos + 1) == '/')) {
          CharStep(input, pos, st, text, here, models);
          text := text + [input[pos]];
        } else if IsAlpha(CharAt(input, pos + 1)) {
          NodeStep(input, pos, st, text, here, models);
          var node;
          ok, undefined, pos, node := ParseChild(input, pos, text);
          if !ok { return; }
          text := "";
          LinkedAppend(Childs[..|here|], models, r, node);
          models := models + [node.Model];
          r := r + node.Repr;
          assert Text[..|Childs|] == here + [sofar];
        } else {
          CloseStep(input, pos, st, text, here, models);
          var tagEnd := FindChar(input, '>', pos);
          if tagEnd < 0 { return false, false, pos; }
          pos := tagEnd;
          closed := true;
          break;
        }
        pos := pos + 1;
      }
      if !closed { EndStep(input, Scan(quotes, comment), text, Text[..|Childs|], models); }
      assert "" + text == text && Text[..|Childs|] + [text] == Text[|Childs| := text];
      AppendTextBeforeChild(text, |Childs|);
      Model := Tree(Tag, Text, models);
      Repr := r + {this};
      ok := isRoot || closed;
    }

    // ParseXML: a cleared node reads a whole document.
    method ParseXML(input: string) returns (ok: bool, undefined: bool)
      modifies this
      ensures ok ==> Valid()
      ensures var r := ParseFrom(input, 0, START, "", [], []);
        && ok == r.Parsed?
        && (ok ==> Model == Tree(NO_TAG, r.content.text, r.content.items))
        && (!ok ==> undefined == r.undefined)
    {
      Tag, Text, Childs := NO_TAG, [""], [];
      var pos;
      ok, undefined, pos := Parse(input, 0, true);
    }
  }

  // Content placed after the text at `index`, which then ends before it.
  function InsertedSpec<T>(before: Content<T>, index: nat, c: Content<T>): Content<T>
    requires before.Interleaved() && c.Interleaved() && index <= |before.items|
  {
    Glue(Glue(Upto(before, index), c), Content([""] + before.text[index + 1..], before.items[index..]))
  }

  // Before the i-th round of the insertion loop: the first i nodes, each with
  // the text before it.
  ghost function Inserted<T>(before: Content<T>, index: nat, c: Content<T>, i: nat): (r: Content<T>)
    requires before.Interleaved() && c.Interleaved() && index <= |before.items| && i <= |c.items|
    ensures r.Interleaved() && |r.items| == |before.items| + i
  {
    InsertedSpec(before, index, Content(c.text[..i] + [""], c.items[..i]))
  }

  // The texts alone: `part` placed after the x-th.
  function Placed(text: seq<string>, x: nat, part: seq<string>): (r: seq<string>)
    requires x < |text| && |part| > 0
    ensures |r| == |text| + |part| - 1
  {
    text[..x] + [text[x] + part[0]] + part[1..] + text[x + 1..]
  }

  lemma PlacedAt(text: seq<string>, x: nat, part: seq<string>, k: nat)
    requires x < |text| && |part| > 0 && k < |text| + |part| - 1
    ensures Placed(text, x, part)[k] ==
            if k < x then text[k]
            else if k == x then text[x] + part[0]
            else if k < x + |part| then part[k - x]
            else text[k - |part| + 1]
  {
  }

  lemma InsertedText<T>(before: Content<T>, index: nat, c: Content<T>)
    requires before.Interleaved() && c.Interleaved() && index <= |before.items|
    ensures InsertedSpec(before, index, c) ==
            Content(Placed(before.text, index, c.text), before.items[..index] + c.items + before.items[index..])
  {
    var left := Glue(Upto(before, index), c);
    var n := |left.items|;
    assert left.text == before.text[..index] + [before.text[index] + c.text[0]] + c.text[1..];
    assert left.text[n] + "" == left.text[n];
    assert left.text[..n] + [left.text[n]] == left.text;
  }

  lemma InsertedIs<T>(before: Content<T>, index: nat, c: Content<T>, i: nat)
    requires before.Interleaved() && c.Interleaved() && index <= |before.items| && i <= |c.items|
    ensures Inserted(before, index, c, i) ==
            Content(Placed(before.text, index, c.text[..i] + [""]),
                    before.items[..index] + c.items[..i] + before.items[index..])
  {
    InsertedText(before, index, Content(c.text[..i] + [""], c.items[..i]));
  }

  // Placing an empty pair and then filling in its first text is placing one
  // text more.
  lemma PlacedRound(text: seq<string>, x: nat, q: seq<string>, t: string)
    requires x < |text|
    ensures var u := Placed(text, x, q + [""]);
      var v := Placed(u, x + |q|, ["", ""]);
      v[x + |q| := v[x + |q|] + t] == Placed(text, x, q + [t] + [""])
  {
    hide Placed;
    var i := |q|;
    var u := Placed(text, x, q + [""]);
    var v := Placed(u, x + i, ["", ""]);
    var w := Placed(text, x, q + [t] + [""]);
    forall k | 0 <= k < |w| ensures v[x + i := v[x + i] + t][k] == w[k] {
      PlacedAt(text, x, q + [t] + [""], k);
      PlacedAt(u, x + i, ["", ""], k);
      PlacedAt(text, x, q + [""], if k <= x + i then k else k - 1);
    }
  }

  lemma InsertNone<T>(before: Content<T>, index: nat, c: Content<T>)
    requires before.Interleaved() && c.Interleaved() && index <= |before.items|
    ensures Inserted(before, index, c, 0) == before
  {
    InsertedText(before, index, Content(c.text[..0] + [""], c.items[..0]));
    assert before.items[..index] + [] + before.items[index..] == before.items;
    assert before.text[index] + "" == before.text[index];
    assert c.text[..0] + [""] == [""];
  }

  // One round: an empty place for the node, then the text before it.
  lemma InsertRound<T>(before: Content<T>, index: nat, c: Content<T>, i: nat)
    requires before.Interleaved() && c.Interleaved() && index <= |before.items| && i < |c.items|
    ensures var d := InsertedSpec(Inserted(before, index, c, i), index + i, Content(["", ""], [c.items[i]]));
      index + i < |d.text| &&
      Content(d.text[index + i := d.text[index + i] + c.text[i]], d.items) == Inserted(before, index, c, i + 1)
  {
    hide Inserted, InsertedSpec, Placed;
    InsertedIs(before, index, c, i);
    InsertedIs(before, index, c, i + 1);
    InsertedText(Inserted(before, index, c, i), index + i, Content(["", ""], [c.items[i]]));
    PlacedRound(before.text, index, c.text[..i], c.text[i]);
    ItemsRound(before.items, index, c.items, i);
    assert c.text[..i + 1] == c.text[..i] + [c.text[i]];
  }

  lemma ItemsRound<T>(items: seq<T>, index: nat, more: seq<T>, i: nat)
    requires index <= |items| && i < |more|
    ensures var b := items[..index] + more[..i] + items[index..];
      b[..index + i] + [more[i]] + b[index + i..] == items[..index] + more[..i + 1] + items[index..]
  {
    var b := items[..index] + more[..i] + items[index..];
    assert b[..index + i] == items[..index] + more[..i];
    assert b[index + i..] == items[index..];
    assert more[..i + 1] == more[..i] + [more[i]];
  }

  // After the loop: the last text.
  lemma InsertLast<T>(before: Content<T>, index: nat, c: Content<T>)
    requires before.Interleaved() && c.Interleaved() && index <= |before.items|
    ensures var b := Inserted(before, index, c, |c.items|);
      Content(b.text[index + |c.items| := b.text[index + |c.items|] + c.text[|c.items|]], b.items)
      == InsertedSpec(before, index, c)
  {
    var n := |c.items|;
    var q := c.text[..n];
    InsertedText(before, index, Content(q + [""], c.items[..n]));
    InsertedText(before, index, c);
    assert c.items[..n] == c.items && c.text == q + [c.text[n]];
    hide InsertedSpec, Placed;
    var u, w := Placed(before.text, index, q + [""]), Placed(before.text, index, c.text);
    forall k | 0 <= k < |w| ensures u[index + n := u[index + n] + c.text[n]][k] == w[k] {
      PlacedAt(before.text, index, q + [""], k);
      PlacedAt(before.text, index, c.text, k);
    }
  }

  // The nodes are the roots of separate trees inside r, with these values.
  ghost predicate Linked(nodes: seq<CWNode>, models: seq<Tree>, r: set<CWNode>)
    reads r
    decreases r, 1
  {
    && |nodes| == |models|
    && (forall i :: 0 <= i < |nodes| ==>
          && nodes[i] in r && nodes[i].Repr <= r && nodes[i].Valid() && nodes[i].Model == models[i])
    && (forall i, j :: 0 <= i < j < |nodes| ==> nodes[i].Repr !! nodes[j].Repr)
  }

  predicate IsFirst(nodes: seq<CWNode>, k: int, node: CWNode) {
    && 0 <= k < |nodes| && nodes[k] == node
    && forall j :: 0 <= j < k ==> nodes[j] != node
  }

  // Where a node stands once its own children are put before it.
  lemma FirstPlace(nodes: seq<CWNode>, index: nat, childs: seq<CWNode>, node: CWNode)
    requires index < |nodes| && nodes[index] == node && node !in nodes[..index] && node !in childs
    ensures IsFirst(nodes[..index] + childs + nodes[index..], index + |childs|, node)
  {
    forall j | 0 <= j < index ensures nodes[j] != node {
      assert nodes[j] in nodes[..index];
    }
  }

  lemma LinkedLength(nodes: seq<CWNode>, models: seq<Tree>, r: set<CWNode>)
    requires Linked(nodes, models, r)
    ensures |nodes| == |models|
  {
  }

  lemma LinkedNone()
    ensures Linked([], [], {})
  {
  }

  // One more tree beside the others.
  lemma LinkedAppend(nodes: seq<CWNode>, models: seq<Tree>, r: set<CWNode>, node: CWNode)
    requires Linked(nodes, models, r) && node.Valid() && node.Repr !! r
    ensures Linked(nodes + [node], models + [node.Model], r + node.Repr)
  {
    forall i | 0 <= i < |nodes| ensures nodes[i].Repr !! node.Repr { }
  }

  lemma FlatNone(ts: seq<Tree>)
    requires |ts| == 0
    ensures Flat(ts)
  {
  }

  // A node is met by its tag and its contents.
  lemma SameEvents(t: Tree, t': Tree)
    requires t.tag == t'.tag && Inner(t.text, t.childs) == Inner(t'.text, t'.childs)
    ensures Events(t) == Events(t')
  {
  }

  lemma FlatCons(t: Tree, rest: seq<Tree>)
    requires t.tag.name != "" && |t.text| == |t.childs| + 1 && Flat(t.childs) && Flat(rest)
    ensures Flat([t] + rest)
  {
    assert ([t] + rest)[1..] == rest;
  }

  lemma InsertedItems<T>(before: Content<T>, index: nat, c: Content<T>)
    requires before.Interleaved() && c.Interleaved() && index <= |before.items|
    ensures InsertedSpec(before, index, c).Interleaved()
    ensures InsertedSpec(before, index, c).items == before.items[..index] + c.items + before.items[index..]
  {
  }

  // Taking the node out again once its contents stand before it.
  lemma DetachInserted<T>(before: Content<T>, index: nat, c: Content<T>)
    requires before.Interleaved() && c.Interleaved() && index < |before.items|
    ensures var d := InsertedSpec(before, index, c);
      var k := index + |c.items|;
      && d.Interleaved() && k < |d.items|
      && Glue(Upto(d, k), From(d, k + 1)) == Glue(Glue(Upto(before, index), c), From(before, index + 1))
  {
    var d := InsertedSpec(before, index, c);
    var k := index + |c.items|;
    var left := Glue(Upto(before, index), c);
    InsertedItems(before, index, c);
    assert |left.text| == k + 1 && left.text[k] + "" == left.text[k];
    assert d.text == left.text + before.text[index + 1..];
    assert Upto(d, k) == left;
    assert From(d, k + 1) == From(before, index + 1);
  }

  // What an unnamed node's contents make of the node above it.
  lemma AfterDissolve<S>(here: Content<S>, c: Content<Tree>, i: nat, x: Content<S>)
    requires here.Interleaved() && c.Interleaved() && x.Interleaved() && here.text == c.text && i < |c.items|
    requires c.items[i].tag.name == "" && c.items[i].text == x.text && |c.items[i].childs| == |x.items|
    ensures var d := Glue(Glue(Upto(here, i), x), From(here, i + 1));
      && d.Interleaved() && d.items == here.items[..i] + x.items + here.items[i + 1..]
      && Document(Content(d.text, c.items[..i] + c.items[i].childs + c.items[i + 1..])) == Document(c)
  {
    hide Document;
    Unwrap(c, i);
    SameText(here, c, i, x, Content(c.items[i].text, c.items[i].childs));
  }

  // The texts of a glued content do not depend on the items.
  lemma SameText<S, T>(a: Content<S>, b: Content<T>, i: nat, x: Content<S>, y: Content<T>)
    requires a.Interleaved() && b.Interleaved() && x.Interleaved() && y.Interleaved()
    requires a.text == b.text && x.text == y.text && i < |a.items|
    ensures Glue(Glue(Upto(a, i), x), From(a, i + 1)).text == Glue(Glue(Upto(b, i), y), From(b, i + 1)).text
    ensures Glue(Glue(Upto(b, i), y), From(b, i + 1)).items == b.items[..i] + y.items + b.items[i + 1..]
    ensures Glue(Glue(Upto(a, i), x), From(a, i + 1)).items == a.items[..i] + x.items + a.items[i + 1..]
  {
  }

  // The contents of an unnamed node take its place among the separate trees.
  lemma LinkedSplice(nodes: seq<CWNode>, models: seq<Tree>, r: set<CWNode>, i: nat)
    requires Linked(nodes, models, r) && i < |nodes|
    ensures nodes[i] !in nodes[..i] && nodes[i] !in nodes[i].Childs && nodes[i].Contents().Interleaved()
    ensures nodes[i].Model == Tree(nodes[i].Tag, nodes[i].Text, nodes[i].Model.childs)
    ensures Linked(nodes[..i] + nodes[i].Childs + nodes[i + 1..],
        models[..i] + nodes[i].Model.childs + models[i + 1..], r)
  {
    var child := nodes[i];
    assert child.Valid() && Linked(child.Childs, child.Model.childs, child.Repr - {child});
    var out, ms := nodes[..i] + child.Childs + nodes[i + 1..], models[..i] + child.Model.childs + models[i + 1..];
    forall k | 0 <= k < |child.Childs| ensures child.Childs[k] != child {
      assert child.Childs[k] in child.Repr - {child};
    }
    forall k | 0 <= k < i ensures nodes[k] != child {
      assert nodes[k].Valid() && nodes[k] in nodes[k].Repr;
    }
    forall k | 0 <= k < |out| ensures out[k] in r && out[k].Repr <= r && out[k].Valid() && out[k].Model == ms[k] {
      SplicedAt(nodes, models, r, i, k);
    }
    forall j, k | 0 <= j < k < |out| ensures out[j].Repr !! out[k].Repr {
      SplicedApart(nodes, models, r, i, j, k);
    }
  }

  // The tree a spliced node comes from, of n nodes put in place of the i-th.
  function Slot(i: nat, n: nat, k: nat): nat {
    if k < i then k else if k < i + n then i else k - n + 1
  }

  lemma SplicedAt(nodes: seq<CWNode>, models: seq<Tree>, r: set<CWNode>, i: nat, k: nat)
    requires Linked(nodes, models, r) && i < |nodes| && k < |nodes| + |nodes[i].Childs| - 1
    ensures var out := nodes[..i] + nodes[i].Childs + nodes[i + 1..];
      var ms := models[..i] + nodes[i].Model.childs + models[i + 1..];
      && |ms| == |out| && out[k] in r && out[k].Repr <= r && out[k].Valid() && out[k].Model == ms[k]
      && out[k].Repr <= nodes[Slot(i, |nodes[i].Childs|, k)].Repr
  {
    var child, n := nodes[i], |nodes[i].Childs|;
    assert child.Valid() && Linked(child.Childs, child.Model.childs, child.Repr - {child});
    if k < i {
      assert nodes[k].Valid();
    } else if k < i + n {
      assert child.Childs[k - i].Valid();
    } else {
      assert nodes[k - n + 1].Valid();
    }
  }

  lemma SplicedApart(nodes: seq<CWNode>, models: seq<Tree>, r: set<CWNode>, i: nat, j: nat, k: nat)
    requires Linked(nodes, models, r) && i < |nodes| && j < k < |nodes| + |nodes[i].Childs| - 1
    ensures var out := nodes[..i] + nodes[i].Childs + nodes[i + 1..]; out[j].Repr !! out[k].Repr
  {
    var child, n := nodes[i], |nodes[i].Childs|;
    SplicedAt(nodes, models, r, i, j);
    SplicedAt(nodes, models, r, i, k);
    if i <= j && k < i + n {
      assert child.Valid() && Linked(child.Childs, child.Model.childs, child.Repr - {child});
      assert child.Childs[j - i].Repr !! child.Childs[k - i].Repr;
    } else {
      assert nodes[Slot(i, n, j)].Repr !! nodes[Slot(i, n, k)].Repr;
    }
  }

  // Reading from the i-th token on.
  function ReadFrom(tokens: seq<Token>, i: nat, tag: Tag, named: bool): TagResult
    requires i <= |tokens|
  {
    ReadTag(tokens[i..], if i == 0 then [] else [tokens[i - 1]], tag, named)
  }

  lemma TagStart(tokens: seq<Token>)
    ensures ReadFrom(tokens, 0, NO_TAG, false) == ReadTag(tokens, [], NO_TAG, false)
  {
    assert tokens[0..] == tokens;
  }

  lemma TagStep(tokens: seq<Token>, i: nat, tag: Tag, named: bool)
    requires i <= |tokens|
    ensures ReadFrom(tokens, i, tag, named) ==
            if i == |tokens| then Read(tag)
            else if tokens[i].first == '>' then
              ReadFrom(tokens, i + 1,
                       if i > 0 && tokens[i - 1].first == '/' && !tokens[i - 1].quoted then tag.(selfClosing := true)
                       else tag.(void := IsVoidElement(tag.name)), named)
            else if StartsSign(tokens[i]) then ReadFrom(tokens, i + 1, tag, named)
            else if tokens[i].broken then Undefined
            else if !named then ReadFrom(tokens, i + 1, tag.(name := tokens[i].word), true)
            else if i + 1 < |tokens| && tokens[i + 1].first == '=' then
              if i + 2 >= |tokens| || tokens[i + 2].broken then Undefined
              else ReadFrom(tokens, i + 3, tag.(attr := tag.attr + [tokens[i].word + "=" + tokens[i + 2].word]), named)
            else ReadFrom(tokens, i + 1, tag.(attr := tag.attr + [tokens[i].word]), named)
  {
    hide IsVoidElement;
    assert i < |tokens| ==> tokens[i..][1..] == tokens[i + 1..];
    assert i + 2 < |tokens| ==> tokens[i..][3..] == tokens[i + 3..];
  }

  lemma InnerStep(name: string, text: seq<string>, models: seq<Tree>, i: nat)
    requires |text| == |models| + 1 && i <= |models|
    ensures PrintInner(name, text[i..], models[i..]) ==
            if i == |models| then PrintText(name, text[i])
            else PrintText(name, text[i]) + Print(models[i]) + PrintInner(name, text[i + 1..], models[i + 1..])
  {
    assert i < |models| ==> text[i..][1..] == text[i + 1..] && models[i..][1..] == models[i + 1..];
  }

  lemma AppendTwo(text: string, part: string, html: string, rest: string)
    ensures text + part + html + rest == text + (part + html + rest)
  {
  }

  // The token loop of ParseTag.
  method ReadTokens(input: string, start: nat) returns (defined: bool, tokens: seq<Token>, tagEnd: int)
    requires start <= |input|
    ensures var t := Tokenize(input, start, start, false);
      && defined == (|t.list| <= MAX_TOKENS)
      && (defined ==> tokens == t.list && tagEnd == t.end)
  {
    tokens := [];
    tagEnd := -1;
    var pos, wordStart, quoted, done := start, start, false, false;
    ghost var all := Tokenize(input, start, start, false);
    assert Prepend([], all) == all;
    hide Tokenize, MakeToken, SkipBlanks, IsBlank, IsSign, WordBefore;
    while CharAt(input, pos) != '\0' && !done
      invariant start <= wordStart <= pos <= |input|
      invariant !done ==> tagEnd == -1 && all == Prepend(tokens, Tokenize(input, pos, wordStart, quoted))
      invariant done ==> all == Tokens(tokens, tagEnd)
      invariant |tokens| <= MAX_TOKENS
      decreases |input| - pos, !done
    {
      InsideStep(input, pos, wordStart, quoted);
      if input[pos] == '\"' {
        quoted := !quoted;
      }
      if !quoted && (IsBlank(input[pos]) || IsSign(input[pos])) {
        ghost var before, word := tokens, WordBefore(input, wordStart, pos);
        DelimStep(input, pos, wordStart, before);
        if wordStart < pos {
          if |tokens| == MAX_TOKENS { return false, tokens, tagEnd; }
          tokens := tokens + [MakeToken(input, wordStart, pos)];
        }
        assert tokens == before + word;
        if IsSign(input[pos]) {
          if |tokens| == MAX_TOKENS { return false, tokens, tagEnd; }
          tokens := tokens + [Sign(input[pos])];
          if input[pos] == '>' {
            done := true;
            tagEnd := pos;
          }
          pos := pos + 1;
        } else {
          pos := SkipBlanksLoop(input, pos);
        }
        wordStart := pos;
      } else {
        pos := pos + 1;
      }
    }
    defined := true;
  }

  lemma InsideStep(s: string, pos: nat, start: nat, quoted: bool)
    requires start <= pos <= |s| && CharAt(s, pos) != '\0'
    ensures pos < |s|
    ensures var quoted' := if s[pos] == '\"' then !quoted else quoted;
      && (quoted' || !(IsBlank(s[pos]) || IsSign(s[pos])) ==>
            Tokenize(s, pos, start, quoted) == Tokenize(s, pos + 1, start, quoted'))
      && (!quoted' && (IsBlank(s[pos]) || IsSign(s[pos])) ==> !quoted && s[pos] != '\"')
  {
  }

  // The word before a delimiter, then the delimiter.
  lemma DelimStep(s: string, pos: nat, start: nat, before: seq<Token>)
    requires start <= pos < |s| && CharAt(s, pos) != '\0' && (IsBlank(s[pos]) || IsSign(s[pos]))
    ensures WordBefore(s, start, pos) == if start < pos then [MakeToken(s, start, pos)] else []
    ensures var tokens := before + WordBefore(s, start, pos);
      Prepend(before, Tokenize(s, pos, start, false)) ==
      if !IsSign(s[pos]) then Prepend(tokens, Tokenize(s, SkipBlanks(s, pos), SkipBlanks(s, pos), false))
      else if s[pos] == '>' then Tokens(tokens + [Sign('>')], pos)
      else Prepend(tokens + [Sign(s[pos])], Tokenize(s, pos + 1, pos + 1, false))
    ensures IsSign('>') && !IsSign(s[pos]) ==> SkipBlanks(s, pos) > pos
  {
    var word := WordBefore(s, start, pos);
    assert before + word + [Sign(s[pos])] == before + (word + [Sign(s[pos])]);
    hide MakeToken, WordBefore;
    if !IsSign(s[pos]) {
      Regrouped(before, word, Tokenize(s, SkipBlanks(s, pos), SkipBlanks(s, pos), false).list);
    } else if s[pos] != '>' {
      Regrouped(before, word + [Sign(s[pos])], Tokenize(s, pos + 1, pos + 1, false).list);
    }
  }

  lemma Regrouped(a: seq<Token>, b: seq<Token>, c: seq<Token>)
    ensures a + (b + c) == a + b + c
  {
  }

  method SkipBlanksLoop(input: string, start: nat) returns (pos: nat)
    requires start <= |input|
    ensures pos == SkipBlanks(input, start)
  {
    pos := start;
    while pos < |input| && IsBlank(input[pos])
      invariant pos <= |input| && SkipBlanks(input, pos) == SkipBlanks(input, start)
    {
      pos := pos + 1;
    }
  }
}
