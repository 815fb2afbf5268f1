/** Tag text synthesis: the three format strings of the module and the
    closing and opening tag strings built from an ancestor chain. */
module Tags {
  import opened Basics

  /** An element's attributes as lxml's `attrib` yields them: (name, value)
      pairs in document order. */
  type Attributes = seq<(string, string)>

  /** One enclosing element: its tag and its attributes. */
  datatype Ancestor = Ancestor(tag: string, attrs: Attributes)

  /** A milestone's strict ancestors, nearest first (the order of lxml's
      `iterancestors`), so the document root comes last. */
  type Chain = seq<Ancestor>

  /** `CLOSING_TAG % tag` */
  function ClosingTag(tag: string): string
  {
    "</" + tag + ">"
  }

  /** `OPENING_TAG % (tag, attributes)` */
  function OpeningTag(tag: string, attributes: string): string
  {
    "<" + tag + attributes + ">"
  }

  /** `ATTRIBUTE % (key, value)`: the value goes in as it is, with no XML
      escaping. */
  function Attribute(key: string, value: string): string
  {
    " " + key + "=\"" + value + "\""
  }

  /** The marker every reopened element carries. */
  const Continued: string := Attribute("continued", "true")

  /** lxml's `element.get(key)`: the value of the first attribute so named. */
  function Lookup(attrs: Attributes, key: string): (r: Option<string>)
    ensures r.Some? ==> exists i :: 0 <= i < |attrs| && attrs[i] == (key, r.value)
    ensures r.None? <==> forall i :: 0 <= i < |attrs| ==> attrs[i].0 != key
  {
    if attrs == [] then None
    else if attrs[0].0 == key then Some(attrs[0].1)
    else
      var r := Lookup(attrs[1..], key);
      assert forall i :: 1 <= i < |attrs| ==> attrs[i] == attrs[1..][i - 1];
      r
  }

  /** The ` k="v"` text of all attributes, in order. */
  function AttributesText(attrs: Attributes): string
  {
    if attrs == [] then ""
    else AttributesText(attrs[..|attrs| - 1]) + Attribute(attrs[|attrs| - 1].0, attrs[|attrs| - 1].1)
  }

  /** The opening tag with which a segment reopens one ancestor: its own
      attributes followed by ` continued="true"`. */
  function Reopened(a: Ancestor): string
  {
    OpeningTag(a.tag, AttributesText(a.attrs) + Continued)
  }

  /** A reopened tag opens the ancestor's element and carries the marker last. */
  lemma ReopenedShape(a: Ancestor)
    ensures var r := Reopened(a);
      |r| > |a.tag| + |Continued| && r[..|a.tag| + 1] == "<" + a.tag &&
      r[|r| - |Continued| - 1..] == Continued + ">"
  {
    var r := Reopened(a);
    assert r == ("<" + a.tag) + AttributesText(a.attrs) + (Continued + ">");
    Affixes("<" + a.tag, AttributesText(a.attrs), Continued + ">");
  }

  /** The two ends of a three-piece concatenation are its first and last pieces. */
  lemma Affixes(p: string, m: string, q: string)
    ensures (p + m + q)[..|p|] == p && (p + m + q)[|p| + |m|..] == q
  {
    assert (p + m + q)[..|p|] == p;
    assert (p + m + q)[|p| + |m|..] == q;
  }

  /** `create_closing_tags`: one `</t>` per ancestor, nearest ancestor first. */
  function ClosingTags(c: Chain): (r: string)
    ensures r == "" <==> c == []
  {
    if c == [] then "" else ClosingTags(c[..|c| - 1]) + ClosingTag(c[|c| - 1].tag)
  }

  /** `create_opening_tags`: one reopened tag per ancestor, outermost ancestor
      first (the reverse of the stored chain). */
  function OpeningTags(c: Chain): (r: string)
    ensures r == "" <==> c == []
  {
    if c == [] then "" else OpeningTags(c[1..]) + Reopened(c[0])
  }

  /** Reference definition: `body` wrapped in one element per ancestor, the
      nearest ancestor innermost. */
  function Nest(c: Chain, body: string): string
    decreases |c|
  {
    if c == [] then body else Nest(c[1..], Reopened(c[0]) + body + ClosingTag(c[0].tag))
  }

  /** The closing tags start with the nearest ancestor's. */
  lemma {:induction false} ClosingTagsFront(c: Chain)
    requires c != []
    ensures ClosingTags(c) == ClosingTag(c[0].tag) + ClosingTags(c[1..])
    decreases |c|
  {
    if |c| > 1 {
      ClosingTagsFront(c[..|c| - 1]);
      assert c[..|c| - 1][1..] == c[1..][..|c| - 2];
      assert c[..|c| - 1][0] == c[0];
    } else {
      assert c[1..] == [];
      assert c[..|c| - 1] == [];
    }
  }

  /** Closing tags of a longer chain: those of the inner part, then the outer. */
  lemma {:induction false} ClosingTagsAppend(a: Chain, b: Chain)
    ensures ClosingTags(a + b) == ClosingTags(a) + ClosingTags(b)
    decreases |b|
  {
    if b == [] {
      assert a + b == a;
    } else {
      assert (a + b)[..|a + b| - 1] == a + b[..|b| - 1];
      ClosingTagsAppend(a, b[..|b| - 1]);
    }
  }

  /** Opening tags of a longer chain: the outer part's first, then the inner. */
  lemma {:induction false} OpeningTagsAppend(a: Chain, b: Chain)
    ensures OpeningTags(a + b) == OpeningTags(b) + OpeningTags(a)
    decreases |a|
  {
    if a == [] {
      assert a + b == b;
    } else {
      assert (a + b)[1..] == a[1..] + b;
      OpeningTagsAppend(a[1..], b);
    }
  }

  /** A segment's reopening tags and the closing tags of the same chain nest
      properly around whatever stands between them. */
  lemma {:induction false} TagsNest(c: Chain, body: string)
    ensures OpeningTags(c) + body + ClosingTags(c) == Nest(c, body)
    decreases |c|
  {
    if c != [] {
      var rest := c[1..];
      var inner, outer := OpeningTags(rest), ClosingTags(rest);
      var open, close := Reopened(c[0]), ClosingTag(c[0].tag);
      assert OpeningTags(c) == inner + open;
      ClosingTagsFront(c);
      TagsNest(rest, open + body + close);
      assert Nest(c, body) == Nest(rest, open + body + close);
      Regroup(inner, open, body, close, outer);
    }
  }

  /** Moving the middle of a five-piece concatenation into one group. */
  lemma Regroup(a: string, b: string, c: string, d: string, e: string)
    ensures (a + b) + c + (d + e) == a + (b + c + d) + e
  {
  }
}
