/** `split_raw`: cutting the raw text of the document at each literal
    occurrence of the milestone tag and giving each piece to the name of the
    milestone before it. */
module RawSplit {
  import opened Basics
  import opened Strings
  import opened OrderedMaps
  import opened Tags
  import opened Parts

  /** `'<%s' % self.milestone`: what the raw pass searches for. */
  function Opener(milestone: string): string
  {
    "<" + milestone
  }

  /** One assignment `self.parts[key]['text'] = slice` made by the raw pass;
      `tag` is the milestone tag text that followed the slice in the raw text,
      "" after the final slice. */
  datatype Write = Write(key: Key, slice: string, tag: string)

  /** The assignments of a whole pass in order, and the counter afterwards. */
  datatype Pass = Pass(writes: seq<Write>, count: nat)

  /** Earlier assignments in front of the rest of a pass; a failure stays. */
  function Extend(ws: seq<Write>, r: Result<Pass>): Result<Pass>
  {
    match r
    case Err(e) => Err(e)
    case Ok(p) => Ok(Pass(ws + p.writes, p.count))
  }

  /** The raw pass from the remaining `text` on, with `current` the name whose
      text comes next and `count` the counter. Each step, in the order of the
      loop body: find the next `<tag` (none: the rest is the final slice); find
      the first `>` after it (none: ValueError); parse that tag's text with
      `parse`, lxml's `fromstring` (it fails on a fragment that is not
      well-formed, and runs in both naming modes); name it; store the slice
      before it under `current` (KeyError if `current` was never recorded). */
  function RawPass(milestone: string, attributeName: Option<string>, parse: string -> Option<Attributes>,
                   keys: seq<Key>, text: string, current: Key, count: nat): Result<Pass>
    decreases |text|
  {
    match Find(text, Opener(milestone))
    case None =>
      if current in keys then Ok(Pass([Write(current, text, "")], count)) else Err(MissingPart(current))
    case Some(index) =>
      match Find(text[index..], ">")
      case None => Err(UnterminatedTag)
      case Some(end) =>
        var total := index + end;
        var element := text[index..total + 1];
        match parse(element)
        case None => Err(MalformedTag(element))
        case Some(attrs) =>
          var (next, count') := NameOf(attributeName, count, attrs);
          if current !in keys then Err(MissingPart(current))
          else Extend([Write(current, text[..index], element)],
                      RawPass(milestone, attributeName, parse, keys, text[total + 1..], next, count'))
  }

  /** One step of the pass where a `<tag` follows: the slice before it goes to
      `current`, and the pass goes on after the tag under the tag's name. */
  lemma RawPassTagStep(milestone: string, attributeName: Option<string>, parse: string -> Option<Attributes>,
                       keys: seq<Key>, text: string, current: Key, count: nat, index: nat, end: nat)
    requires Find(text, Opener(milestone)) == Some(index)
    requires Find(text[index..], ">") == Some(end)
    requires parse(text[index..index + end + 1]).Some? && current in keys
    ensures index + end + 1 <= |text|
    ensures var element := text[index..index + end + 1];
      var named := NameOf(attributeName, count, parse(element).value);
      RawPass(milestone, attributeName, parse, keys, text, current, count) ==
        Extend([Write(current, text[..index], element)],
               RawPass(milestone, attributeName, parse, keys, text[index + end + 1..], named.0, named.1))
  {
    assert OccursAt(text[index..], ">", end);
  }

  /** The step of the pass that finds no more `<tag`: all that is left is the
      final slice, for `current`. */
  lemma RawPassLastStep(milestone: string, attributeName: Option<string>, parse: string -> Option<Attributes>,
                        keys: seq<Key>, text: string, current: Key, count: nat)
    requires Find(text, Opener(milestone)).None? && current in keys
    ensures RawPass(milestone, attributeName, parse, keys, text, current, count) ==
      Ok(Pass([Write(current, text[..|text|], "")], count))
  {
    assert text[..|text|] == text;
  }

  /** The pass fails with ValueError when a `<tag` has no `>` after it. */
  lemma RawPassUnterminatedStep(milestone: string, attributeName: Option<string>, parse: string -> Option<Attributes>,
                                keys: seq<Key>, text: string, current: Key, count: nat, index: nat)
    requires Find(text, Opener(milestone)) == Some(index)
    requires Find(text[index..], ">").None?
    ensures RawPass(milestone, attributeName, parse, keys, text, current, count) == Err(UnterminatedTag)
  {
  }

  /** The pass fails when the next tag's text does not parse. */
  lemma RawPassMalformedStep(milestone: string, attributeName: Option<string>, parse: string -> Option<Attributes>,
                             keys: seq<Key>, text: string, current: Key, count: nat, index: nat, end: nat)
    requires Find(text, Opener(milestone)) == Some(index)
    requires Find(text[index..], ">") == Some(end)
    requires parse(text[index..index + end + 1]).None?
    ensures index + end + 1 <= |text|
    ensures RawPass(milestone, attributeName, parse, keys, text, current, count) ==
      Err(MalformedTag(text[index..index + end + 1]))
  {
  }

  /** The pass fails with KeyError when the name whose slice comes next was
      never recorded, once the next tag (if any) has been read. */
  lemma RawPassMissingStep(milestone: string, attributeName: Option<string>, parse: string -> Option<Attributes>,
                           keys: seq<Key>, text: string, current: Key, count: nat)
    requires current !in keys
    requires Find(text, Opener(milestone)).Some? ==>
      var index := Find(text, Opener(milestone)).value;
      && Find(text[index..], ">").Some?
      && var end := Find(text[index..], ">").value;
      index + end + 1 <= |text| && parse(text[index..index + end + 1]).Some?
    ensures RawPass(milestone, attributeName, parse, keys, text, current, count) == Err(MissingPart(current))
  {
  }

  /** The assignments applied in order to the parts. */
  function ApplyWrites(parts: PartMap, ws: seq<Write>): PartMap
  {
    if ws == [] then parts
    else SetText(ApplyWrites(parts, ws[..|ws| - 1]), ws[|ws| - 1].key, ws[|ws| - 1].slice)
  }

  /** The slice last assigned to `k`, if any. */
  function LastWrite(ws: seq<Write>, k: Key): Option<string>
  {
    if ws == [] then None
    else if ws[|ws| - 1].key == k then Some(ws[|ws| - 1].slice)
    else LastWrite(ws[..|ws| - 1], k)
  }

  /** `split_raw` on the recorded parts: the counter is reset, the first name
      is taken (StopIteration when nothing was recorded), then the pass runs
      and its assignments are made. The result is the new parts and counter. */
  function SplitRawSpec(milestone: string, attributeName: Option<string>, parse: string -> Option<Attributes>,
                        parts: PartMap, text: string): Result<(PartMap, nat)>
  {
    match FirstName(parts)
    case Err(e) => Err(e)
    case Ok(first) =>
      match RawPass(milestone, attributeName, parse, Keys(parts), text, first, 0)
      case Err(e) => Err(e)
      case Ok(p) => Ok((ApplyWrites(parts, p.writes), p.count))
  }

  /** The rest of `split_raw` from the remaining `text` on, with `current`
      the name whose text comes next: the new parts and counter, or the error. */
  function Resume(milestone: string, attributeName: Option<string>, parse: string -> Option<Attributes>,
                  parts: PartMap, text: string, current: Key, count: nat): Result<(PartMap, nat)>
  {
    match RawPass(milestone, attributeName, parse, Keys(parts), text, current, count)
    case Err(e) => Err(e)
    case Ok(p) => Ok((ApplyWrites(parts, p.writes), p.count))
  }

  /** `split_raw` on a non-empty dictionary resumes from its first name. */
  lemma SplitRawResumes(milestone: string, attributeName: Option<string>, parse: string -> Option<Attributes>,
                        parts: PartMap, text: string)
    requires parts != []
    ensures SplitRawSpec(milestone, attributeName, parse, parts, text) ==
      Resume(milestone, attributeName, parse, parts, text, parts[0].0, 0)
  {
  }

  /** Assignments applied one after another: the first, then the rest. */
  lemma {:induction false} ApplyWritesFront(parts: PartMap, w: Write, ws: seq<Write>)
    ensures ApplyWrites(parts, [w] + ws) == ApplyWrites(SetText(parts, w.key, w.slice), ws)
    decreases |ws|
  {
    if ws != [] {
      var last := ws[|ws| - 1];
      assert ([w] + ws)[..|ws|] == [w] + ws[..|ws| - 1];
      ApplyWritesFront(parts, w, ws[..|ws| - 1]);
    } else {
      assert [w] + ws == [w];
      assert [w][..0] == [];
    }
  }

  /** A `<tag` step of the loop: the slice before it is stored under `current`
      and the loop resumes after the tag under the tag's name. */
  lemma ResumeTag(milestone: string, attributeName: Option<string>, parse: string -> Option<Attributes>,
                  parts: PartMap, text: string, current: Key, count: nat, index: nat, end: nat)
    requires Find(text, Opener(milestone)) == Some(index)
    requires Find(text[index..], ">") == Some(end)
    requires parse(text[index..index + end + 1]).Some? && current in Keys(parts)
    ensures index + end + 1 <= |text|
    ensures var named := NameOf(attributeName, count, parse(text[index..index + end + 1]).value);
      && Resume(milestone, attributeName, parse, parts, text, current, count) ==
         Resume(milestone, attributeName, parse, SetText(parts, current, text[..index]), text[index + end + 1..], named.0, named.1)
      && TagCut(milestone, attributeName, parse, text, index, current, parts, count,
                text[index + end + 1..], named.0, SetText(parts, current, text[..index]), named.1)
  {
    var element := text[index..index + end + 1];
    var named := NameOf(attributeName, count, parse(element).value);
    var w := Write(current, text[..index], element);
    RawPassTagStep(milestone, attributeName, parse, Keys(parts), text, current, count, index, end);
    SetTextKeys(parts, current, text[..index]);
    var later := RawPass(milestone, attributeName, parse, Keys(parts), text[index + end + 1..], named.0, named.1);
    if later.Ok? {
      ApplyWritesFront(parts, w, later.value.writes);
    }
  }

  /** The final step of the loop: the rest of the text is stored under `current`. */
  lemma ResumeLast(milestone: string, attributeName: Option<string>, parse: string -> Option<Attributes>,
                   parts: PartMap, text: string, current: Key, count: nat)
    requires Find(text, Opener(milestone)).None? && current in Keys(parts)
    ensures Resume(milestone, attributeName, parse, parts, text, current, count) ==
      Ok((SetText(parts, current, text[..|text|]), count))
  {
    RawPassLastStep(milestone, attributeName, parse, Keys(parts), text, current, count);
    var ws := [Write(current, text[..|text|], "")];
    assert ws[..0] == [];
    assert ApplyWrites(parts, ws) == SetText(parts, current, text[..|text|]);
  }

  /** The loop stops with the pass's error: ValueError for a `<tag` with no
      `>`, the parser's failure, or KeyError for a name never recorded. */
  lemma ResumeFails(milestone: string, attributeName: Option<string>, parse: string -> Option<Attributes>,
                    parts: PartMap, text: string, current: Key, count: nat, e: Error)
    requires RawPass(milestone, attributeName, parse, Keys(parts), text, current, count) == Err(e)
    ensures Resume(milestone, attributeName, parse, parts, text, current, count) == Err(e)
  {
  }

  /** The `<tag` found at `index` in `rest` runs to the first `>` after it,
      its text parses, and naming it moves the counter from `count` to
      `count'`: what has happened once `split_raw`'s loop body has called
      `get_milestone_name`. */
  ghost predicate TagCounted(attributeName: Option<string>, parse: string -> Option<Attributes>,
                             rest: string, index: nat, count: nat, count': nat)
  {
    && index <= |rest|
    && Find(rest[index..], ">").Some?
    && var total := index + Find(rest[index..], ">").value;
      && total < |rest|
      && parse(rest[index..total + 1]).Some?
      && count' == NameOf(attributeName, count, parse(rest[index..total + 1]).value).1
  }

  /** The state one `<tag` turn of `split_raw` leaves, for a tag found at
      `index` in `rest`: the counter moved as naming the tag moves it, the
      slice before the tag stored as the text of `current`, the next name the
      tag's, and the text after the tag's first `>` still to do. */
  ghost predicate TagCut(milestone: string, attributeName: Option<string>, parse: string -> Option<Attributes>,
                         rest: string, index: nat, current: Key, parts: PartMap, count: nat,
                         later: string, next: Key, parts': PartMap, count': nat)
  {
    && TagCounted(attributeName, parse, rest, index, count, count')
    && var total := index + Find(rest[index..], ">").value;
      && later == rest[total + 1..]
      && next == NameOf(attributeName, count, parse(rest[index..total + 1]).value).0
      && parts' == SetText(parts, current, rest[..index])
  }

  /** Setting a part's text leaves the keys where they are. */
  lemma SetTextKeys(parts: PartMap, k: Key, t: string)
    ensures Keys(SetText(parts, k, t)) == Keys(parts)
  {
  }

  // ---------------------------------------------------------------------------
  // A declarative description of a pass's cut of the text.

  /** The first occurrence of `open` in `r` starts at `i`. */
  ghost predicate FirstMatchAt(r: string, open: string, i: nat)
  {
    OccursAt(r, open, i) && forall k :: 0 <= k < i ==> !OccursAt(r, open, k)
  }

  /** `open` does not occur in `r`. */
  ghost predicate NoMatch(r: string, open: string)
  {
    forall k :: 0 <= k <= |r| ==> !OccursAt(r, open, k)
  }

  /** `t` runs up to and including its first `>`. */
  ghost predicate TagSpan(t: string)
  {
    |t| >= 1 && t[|t| - 1] == '>' && forall k :: 0 <= k < |t| - 1 ==> t[k] != '>'
  }

  /** `ws` cuts `r` as the raw pass does: each slice runs up to the first
      occurrence of `open`, each tag from there up to the first `>`, and the
      final slice, which no tag follows, is all that is left and holds no
      occurrence of `open`. */
  ghost predicate Segmented(r: string, open: string, ws: seq<Write>)
    decreases |ws|
  {
    if |ws| == 0 then false
    else if |ws| == 1 then ws[0].tag == "" && ws[0].slice == r && NoMatch(r, open)
    else
      var w := ws[0];
      var cut := |w.slice| + |w.tag|;
      && TagSpan(w.tag)
      && cut <= |r|
      && r[..cut] == w.slice + w.tag
      && FirstMatchAt(r, open, |w.slice|)
      && Segmented(r[cut..], open, ws[1..])
  }

  /** Each slice followed by its tag text, all in order. */
  function Joined(ws: seq<Write>): string
  {
    if ws == [] then "" else ws[0].slice + ws[0].tag + Joined(ws[1..])
  }

  /** A single-character pattern occurs where that character stands. */
  lemma OccursAtChar(s: string, c: char, k: nat)
    ensures OccursAt(s, [c], k) <==> k < |s| && s[k] == c
  {
    if k < |s| {
      assert s[k..k + 1] == [s[k]];
    }
  }

  /** One cut in front of a cut remainder: a slice up to the first `open`,
      then the tag text up to the first `>` after it. */
  lemma SegmentedStep(r: string, open: string, w: Write, ws: seq<Write>, index: nat, end: nat)
    requires FirstMatchAt(r, open, index)
    requires Find(r[index..], ">") == Some(end)
    requires w.slice == r[..index] && w.tag == r[index..index + end + 1]
    requires Segmented(r[index + end + 1..], open, ws)
    ensures Segmented(r, open, [w] + ws)
  {
    var rest := r[index..];
    OccursAtChar(rest, '>', end);
    forall k | 0 <= k < end ensures w.tag[k] != '>' {
      OccursAtChar(rest, '>', k);
      assert w.tag[k] == rest[k];
    }
    assert r[..index + end + 1] == w.slice + w.tag;
    assert ([w] + ws)[1..] == ws;
  }

  /** The raw pass cuts the text as `Segmented` describes. */
  lemma {:induction false} RawPassSegmented(milestone: string, attributeName: Option<string>,
      parse: string -> Option<Attributes>, keys: seq<Key>, text: string, current: Key, count: nat)
    requires RawPass(milestone, attributeName, parse, keys, text, current, count).Ok?
    ensures Segmented(text, Opener(milestone), RawPass(milestone, attributeName, parse, keys, text, current, count).value.writes)
    decreases |text|
  {
    var open := Opener(milestone);
    var p := RawPass(milestone, attributeName, parse, keys, text, current, count);
    match Find(text, open)
    case None =>
      assert current in keys;
      RawPassLastStep(milestone, attributeName, parse, keys, text, current, count);
      PrefixAll(text);
    case Some(index) =>
      var end := Find(text[index..], ">").value;
      var element := text[index..index + end + 1];
      assert parse(element).Some? && current in keys;
      RawPassTagStep(milestone, attributeName, parse, keys, text, current, count, index, end);
      var named := NameOf(attributeName, count, parse(element).value);
      var rest := RawPass(milestone, attributeName, parse, keys, text[index + end + 1..], named.0, named.1);
      assert rest.Ok? && p.value.writes == [Write(current, text[..index], element)] + rest.value.writes;
      RawPassSegmented(milestone, attributeName, parse, keys, text[index + end + 1..], named.0, named.1);
      SegmentedStep(text, open, Write(current, text[..index], element), rest.value.writes, index, end);
  }

  /** A cut puts the text back together: the slices and tag texts, in order,
      are the whole text. */
  lemma {:induction false} SegmentedJoined(r: string, open: string, ws: seq<Write>)
    requires Segmented(r, open, ws)
    ensures Joined(ws) == r
    decreases |ws|
  {
    if |ws| > 1 {
      var cut := |ws[0].slice| + |ws[0].tag|;
      SegmentedJoined(r[cut..], open, ws[1..]);
      assert r == r[..cut] + r[cut..];
    } else {
      assert ws[1..] == [];
    }
  }

  /** Every occurrence of `open` in a cut text is followed, later on, by a `>`. */
  lemma {:induction false} SegmentedTerminated(r: string, open: string, ws: seq<Write>, i: nat)
    requires Segmented(r, open, ws) && OccursAt(r, open, i)
    ensures '>' in r[i..]
    decreases |ws|
  {
    if |ws| > 1 {
      var w := ws[0];
      var cut := |w.slice| + |w.tag|;
      var rest := r[cut..];
      assert Segmented(rest, open, ws[1..]);
      if i < |w.slice| {
        assert false;
      } else if i < cut {
        assert r[..cut][cut - 1] == w.tag[|w.tag| - 1];
        assert r[i..][cut - 1 - i] == r[cut - 1];
      } else {
        assert rest[i - cut..i - cut + |open|] == r[i..i + |open|];
        SegmentedTerminated(rest, open, ws[1..], i - cut);
        assert rest[i - cut..] == r[i..];
      }
    }
  }

  /** The raw pass round-trips: its slices and tag texts, in order, are the raw
      text, and every slice runs up to the next `<tag` or the end. */
  lemma RawPassRoundTrip(milestone: string, attributeName: Option<string>,
      parse: string -> Option<Attributes>, keys: seq<Key>, text: string, current: Key, count: nat)
    requires RawPass(milestone, attributeName, parse, keys, text, current, count).Ok?
    ensures Joined(RawPass(milestone, attributeName, parse, keys, text, current, count).value.writes) == text
  {
    RawPassSegmented(milestone, attributeName, parse, keys, text, current, count);
    SegmentedJoined(text, Opener(milestone), RawPass(milestone, attributeName, parse, keys, text, current, count).value.writes);
  }

  /** An occurrence of `<tag` with no `>` anywhere after it makes the pass fail. */
  lemma UnterminatedTagFails(milestone: string, attributeName: Option<string>,
      parse: string -> Option<Attributes>, keys: seq<Key>, text: string, current: Key, count: nat, i: nat)
    requires OccursAt(text, Opener(milestone), i)
    requires '>' !in text[i..]
    ensures RawPass(milestone, attributeName, parse, keys, text, current, count).Err?
  {
    var r := RawPass(milestone, attributeName, parse, keys, text, current, count);
    if r.Ok? {
      RawPassSegmented(milestone, attributeName, parse, keys, text, current, count);
      SegmentedTerminated(text, Opener(milestone), r.value.writes, i);
    }
  }

  /** How the assignments of a pass are named, starting from counter value
      `count`: there is at least one, every name was recorded, the counter ends
      at `final`, and each slice after the first goes to the name the tag
      before it yields. */
  ghost predicate NamedWrites(attributeName: Option<string>, parse: string -> Option<Attributes>,
                              keys: seq<Key>, ws: seq<Write>, count: nat, final: nat)
  {
    && |ws| >= 1
    && (forall j :: 0 <= j < |ws| ==> ws[j].key in keys)
    && final == CountAfter(attributeName, count, |ws| - 1)
    && forall j :: 0 <= j < |ws| - 1 ==>
         parse(ws[j].tag).Some? &&
         ws[j + 1].key == NameOf(attributeName, CountAfter(attributeName, count, j), parse(ws[j].tag).value).0
  }

  /** A recorded name's assignment, with a tag that parses, in front of
      assignments named from what that tag yields. */
  lemma NamedWritesStep(attributeName: Option<string>, parse: string -> Option<Attributes>,
                        keys: seq<Key>, w: Write, rest: seq<Write>, count: nat, final: nat)
    requires w.key in keys && parse(w.tag).Some?
    requires var (next, count') := NameOf(attributeName, count, parse(w.tag).value);
      NamedWrites(attributeName, parse, keys, rest, count', final) && rest[0].key == next
    ensures NamedWrites(attributeName, parse, keys, [w] + rest, count, final)
  {
    var ws := [w] + rest;
    var count' := NameOf(attributeName, count, parse(w.tag).value).1;
    assert count' == CountAfter(attributeName, count, 1);
    forall j | 1 <= j < |ws| - 1
      ensures ws[j + 1].key == NameOf(attributeName, CountAfter(attributeName, count, j), parse(ws[j].tag).value).0
    {
      assert ws[j] == rest[j - 1] && ws[j + 1] == rest[j];
      assert CountAfter(attributeName, count', j - 1) == CountAfter(attributeName, count, j);
    }
  }

  /** In a successful pass the first slice goes to `current`, each later slice
      to the name the tag before it yields (the counter advancing in counting
      mode), every name was recorded, and every tag parsed. */
  lemma {:induction false} RawPassNames(milestone: string, attributeName: Option<string>,
      parse: string -> Option<Attributes>, keys: seq<Key>, text: string, current: Key, count: nat)
    requires RawPass(milestone, attributeName, parse, keys, text, current, count).Ok?
    ensures var p := RawPass(milestone, attributeName, parse, keys, text, current, count).value;
      NamedWrites(attributeName, parse, keys, p.writes, count, p.count) && p.writes[0].key == current
    decreases |text|
  {
    match Find(text, Opener(milestone))
    case None =>
    case Some(index) =>
      var end := Find(text[index..], ">").value;
      var total := index + end;
      var element := text[index..total + 1];
      var (next, count') := NameOf(attributeName, count, parse(element).value);
      var later := RawPass(milestone, attributeName, parse, keys, text[total + 1..], next, count').value;
      RawPassNames(milestone, attributeName, parse, keys, text[total + 1..], next, count');
      assert RawPass(milestone, attributeName, parse, keys, text, current, count).value
        == Pass([Write(current, text[..index], element)] + later.writes, later.count);
      NamedWritesStep(attributeName, parse, keys, Write(current, text[..index], element), later.writes, count, later.count);
  }

  /** Counting from zero, the slice after the j-th tag goes to the name "j",
      and the counter ends at the number of tags. */
  lemma CountedPassNames(milestone: string, attributeName: Option<string>,
      parse: string -> Option<Attributes>, keys: seq<Key>, text: string, current: Key)
    requires Counting(attributeName)
    requires RawPass(milestone, attributeName, parse, keys, text, current, 0).Ok?
    ensures var p := RawPass(milestone, attributeName, parse, keys, text, current, 0).value;
      && |p.writes| >= 1 && p.writes[0].key == current
      && (forall j :: 0 <= j < |p.writes| ==> p.writes[j].key in keys)
      && p.count == |p.writes| - 1
      && forall j :: 1 <= j < |p.writes| ==> p.writes[j].key == Some(Decimal(j))
  {
    RawPassNames(milestone, attributeName, parse, keys, text, current, 0);
    var ws := RawPass(milestone, attributeName, parse, keys, text, current, 0).value.writes;
    forall j | 1 <= j < |ws| ensures ws[j].key == Some(Decimal(j)) {
      assert ws[(j - 1) + 1].key == NameOf(attributeName, j - 1, parse(ws[j - 1].tag).value).0;
    }
  }

  /** With a naming attribute, the slice after each tag goes to the value of
      that attribute in the tag's parsed text, and the counter stays. */
  lemma NamedPassNames(milestone: string, attributeName: Option<string>,
      parse: string -> Option<Attributes>, keys: seq<Key>, text: string, current: Key, count: nat)
    requires !Counting(attributeName)
    requires RawPass(milestone, attributeName, parse, keys, text, current, count).Ok?
    ensures var p := RawPass(milestone, attributeName, parse, keys, text, current, count).value;
      p.count == count &&
      forall j :: 0 <= j < |p.writes| - 1 ==>
        parse(p.writes[j].tag).Some? &&
        p.writes[j + 1].key == Lookup(parse(p.writes[j].tag).value, attributeName.value)
  {
    RawPassNames(milestone, attributeName, parse, keys, text, current, count);
  }

  /** `parts[k]['text'] = t` changes the text of the entry for `k` and nothing else. */
  lemma SetTextAt(parts: PartMap, k: Key, t: string)
    requires Distinct(Keys(parts))
    ensures |SetText(parts, k, t)| == |parts|
    ensures forall i :: 0 <= i < |parts| ==>
      SetText(parts, k, t)[i] == if parts[i].0 == k then (k, parts[i].1.(text := Some(t))) else parts[i]
  {
    if k in Keys(parts) {
      var idx := IndexOf(Keys(parts), k);
      assert SetText(parts, k, t) == parts[idx := (k, parts[idx].1.(text := Some(t)))];
      forall i | 0 <= i < |parts| && parts[i].0 == k ensures i == idx {
        IndexOfDistinct(Keys(parts), i);
      }
    } else {
      assert forall i :: 0 <= i < |parts| ==> parts[i].0 == Keys(parts)[i];
    }
  }

  /** After the assignments, each entry keeps its place, name, parents and tags,
      and holds the slice last assigned to its name (its old text if none). */
  lemma {:induction false} ApplyWritesAt(parts: PartMap, ws: seq<Write>)
    requires Distinct(Keys(parts))
    ensures |ApplyWrites(parts, ws)| == |parts|
    ensures forall i :: 0 <= i < |parts| ==>
      ApplyWrites(parts, ws)[i] ==
        (parts[i].0, parts[i].1.(text := if LastWrite(ws, parts[i].0).Some? then LastWrite(ws, parts[i].0) else parts[i].1.text))
  {
    if ws != [] {
      var before := ApplyWrites(parts, ws[..|ws| - 1]);
      ApplyWritesAt(parts, ws[..|ws| - 1]);
      assert Keys(before) == Keys(parts);
      SetTextAt(before, ws[|ws| - 1].key, ws[|ws| - 1].slice);
    }
  }

  /** The last assignment to a name is the one that stays. */
  lemma {:induction false} LastWriteAt(ws: seq<Write>, k: Key, j: nat)
    requires j < |ws| && ws[j].key == k
    requires forall j' :: j < j' < |ws| ==> ws[j'].key != k
    ensures LastWrite(ws, k) == Some(ws[j].slice)
  {
    if j < |ws| - 1 {
      LastWriteAt(ws[..|ws| - 1], k, j);
    }
  }

  /** A name that no assignment mentions keeps what it had. */
  lemma {:induction false} LastWriteNone(ws: seq<Write>, k: Key)
    requires forall j :: 0 <= j < |ws| ==> ws[j].key != k
    ensures LastWrite(ws, k) == None
  {
    if ws != [] {
      LastWriteNone(ws[..|ws| - 1], k);
    }
  }
}
