// Trees of the HTML parser as values, their content as texts interleaved with
// nodes, and the order in which a reader of the document meets them.

module HtmlTree {
  // Everything a node says about its own tag.  The root has no name.
  datatype Tag = Tag(
    name: string, selfClosing: bool, void: bool, newLineAfter: bool, spaceAfter: bool, attr: seq<string>)

  datatype Tree = Tree(tag: Tag, text: seq<string>, childs: seq<Tree>)

  // n + 1 texts around n items.
  datatype Content<T> = Content(text: seq<string>, items: seq<T>) {
    predicate Interleaved() {
      |text| == |items| + 1
    }
  }

  // Two contents one after the other: the texts that meet become one.
  function Glue<T>(a: Content<T>, b: Content<T>): (c: Content<T>)
    requires a.Interleaved() && b.Interleaved()
    ensures c.Interleaved() && c.items == a.items + b.items
  {
    var n := |a.items|;
    Content(a.text[..n] + [a.text[n] + b.text[0]] + b.text[1..], a.items + b.items)
  }

  function Upto<T>(c: Content<T>, i: nat): (r: Content<T>)
    requires c.Interleaved() && i <= |c.items|
    ensures r.Interleaved()
  {
    Content(c.text[..i + 1], c.items[..i])
  }

  function From<T>(c: Content<T>, i: nat): (r: Content<T>)
    requires c.Interleaved() && i <= |c.items|
    ensures r.Interleaved()
  {
    Content(c.text[i..], c.items[i..])
  }

  // -------------------------------------------------------------- the document

  datatype Event = Char(c: char) | Open(tag: Tag) | Close

  function Chars(s: string): (r: seq<Event>)
    ensures |r| == |s|
    ensures forall i :: 0 <= i < |r| ==> r[i] == Char(s[i])
  {
    seq(|s|, i requires 0 <= i < |s| => Char(s[i]))
  }

  // A named node opens and closes; an unnamed one stands for its contents.
  function Events(t: Tree): seq<Event>
    decreases t, 1
  {
    if t.tag.name == "" then Inner(t.text, t.childs)
    else [Open(t.tag)] + Inner(t.text, t.childs) + [Close]
  }

  function Inner(text: seq<string>, childs: seq<Tree>): seq<Event>
    decreases childs, 0
  {
    if |text| == 0 then []
    else if |childs| == 0 then Chars(text[0])
    else Chars(text[0]) + Events(childs[0]) + Inner(text[1..], childs[1..])
  }

  function Document(c: Content<Tree>): seq<Event> {
    Inner(c.text, c.items)
  }

  // No unnamed node, and n + 1 texts around n children, all the way down.
  predicate Flat(childs: seq<Tree>)
    decreases childs
  {
    |childs| == 0 ||
    (&& childs[0].tag.name != ""
     && |childs[0].text| == |childs[0].childs| + 1
     && Flat(childs[0].childs)
     && Flat(childs[1..]))
  }

  lemma CharsAppend(s: string, t: string)
    ensures Chars(s + t) == Chars(s) + Chars(t)
  {
  }

  // Gluing contents concatenates what they say.
  lemma {:induction false} DocumentGlue(a: Content<Tree>, b: Content<Tree>)
    requires a.Interleaved() && b.Interleaved()
    ensures Document(Glue(a, b)) == Document(a) + Document(b)
    decreases |a.items|
  {
    var c := Glue(a, b);
    if |a.items| == 0 {
      CharsAppend(a.text[0], b.text[0]);
      assert c.text[1..] == b.text[1..] && c.items == b.items;
      assert c.text[0] == a.text[0] + b.text[0];
      if |b.items| > 0 {
        var more := Events(b.items[0]) + Inner(b.text[1..], b.items[1..]);
        assert Document(b) == Chars(b.text[0]) + more;
        assert Document(c) == Chars(a.text[0]) + Chars(b.text[0]) + more;
      } else {
        assert Document(b) == Chars(b.text[0]);
      }
    } else {
      var a' := Content(a.text[1..], a.items[1..]);
      DocumentGlue(a', b);
      var c' := Glue(a', b);
      assert c.text[0] == a.text[0] && c.items[0] == a.items[0];
      assert c.text[1..] == c'.text && c.items[1..] == c'.items;
      assert Document(c) == Chars(a.text[0]) + Events(a.items[0]) + Document(c');
    }
  }

  lemma {:induction false} FlatAppend(a: seq<Tree>, b: seq<Tree>)
    requires Flat(a) && Flat(b)
    ensures Flat(a + b)
  {
    if |a| == 0 {
      assert a + b == b;
    } else {
      FlatAppend(a[1..], b);
      assert (a + b)[1..] == a[1..] + b;
    }
  }

  // Cutting a content at its i-th item.
  lemma CutAt<T>(c: Content<T>, i: nat)
    requires c.Interleaved() && i < |c.items|
    ensures c == Glue(Glue(Upto(c, i), Content(["", ""], [c.items[i]])), From(c, i + 1))
  {
    var d := Glue(Upto(c, i), Content(["", ""], [c.items[i]]));
    assert c.text[i] + "" == c.text[i] && "" + c.text[i + 1] == c.text[i + 1];
    assert d.text == c.text[..i + 1] + [""];
    assert d.text[i + 1] == "";
    assert Glue(d, From(c, i + 1)).text == c.text;
    assert Glue(d, From(c, i + 1)).items == c.items;
  }

  // What one item contributes.
  lemma DocumentItem(t: Tree)
    ensures Document(Content(["", ""], [t])) == Events(t)
  {
    var text := ["", ""];
    assert Inner(text[1..], [t][1..]) == Chars("");
    assert Chars("") + Events(t) + Chars("") == Events(t);
  }

  // Replacing an unnamed node by its contents changes nothing a reader meets.
  lemma Unwrap(c: Content<Tree>, i: nat)
    requires c.Interleaved() && i < |c.items|
    requires c.items[i].tag.name == "" && |c.items[i].text| == |c.items[i].childs| + 1
    ensures Document(Glue(Glue(Upto(c, i), Content(c.items[i].text, c.items[i].childs)), From(c, i + 1))) == Document(c)
  {
    var t := c.items[i];
    var inside := Content(t.text, t.childs);
    CutAt(c, i);
    DocumentItem(t);
    assert Document(inside) == Events(t);
    hide Document, Events;
    DocumentGlue(Upto(c, i), Content(["", ""], [t]));
    DocumentGlue(Glue(Upto(c, i), Content(["", ""], [t])), From(c, i + 1));
    DocumentGlue(Upto(c, i), inside);
    DocumentGlue(Glue(Upto(c, i), inside), From(c, i + 1));
  }

  // The same when one item is replaced by another that says the same.
  lemma Replaced(c: Content<Tree>, i: nat, t: Tree)
    requires c.Interleaved() && i < |c.items| && Events(t) == Events(c.items[i])
    ensures Document(Content(c.text, c.items[i := t])) == Document(c)
  {
    var d := Content(c.text, c.items[i := t]);
    CutAt(c, i);
    CutAt(d, i);
    DocumentItem(t);
    DocumentItem(c.items[i]);
    assert Upto(d, i) == Upto(c, i) && From(d, i + 1) == From(c, i + 1);
    hide Document, Events;
    DocumentGlue(Upto(c, i), Content(["", ""], [t]));
    DocumentGlue(Glue(Upto(c, i), Content(["", ""], [t])), From(c, i + 1));
    DocumentGlue(Upto(c, i), Content(["", ""], [c.items[i]]));
    DocumentGlue(Glue(Upto(c, i), Content(["", ""], [c.items[i]])), From(c, i + 1));
  }
}
