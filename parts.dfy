/** The record kept per milestone name, the two naming modes, the recording
    of milestone occurrences, and the reassembly of parts into text. */
module Parts {
  import opened Basics
  import opened Strings
  import opened OrderedMaps
  import opened Tags

  /** The dictionary stored under one milestone name. 'parents' is set when the
      milestone is recorded; 'text', 'closing' and 'opening' are absent until a
      later phase writes them. */
  datatype Part = Part(parents: Chain, text: Option<string>, closing: Option<string>, opening: Option<string>)

  /** `self.parts`: milestone names in document order with their records. */
  type PartMap = Entries<Key, Part>

  /** What the tree walk yields for one milestone element: its ancestor chain
      (nearest first) and its own attributes. */
  datatype Occurrence = Occurrence(parents: Chain, attrs: Attributes)

  /** `not self.attribute_name`: no naming attribute (or an empty one) is
      configured, so names are sequential numbers. */
  predicate Counting(attributeName: Option<string>)
  {
    attributeName.None? || attributeName.value == ""
  }

  /** `get_milestone_name` on a counter value: the name, and the counter's value
      afterwards. Counting, the counter goes up by one and the name is its new
      value's numeral; otherwise the name is the attribute's value and the
      counter stays. */
  function NameOf(attributeName: Option<string>, count: nat, attrs: Attributes): (r: (Key, nat))
    ensures Counting(attributeName) ==> r.1 == count + 1 && r.0 == Some(Decimal(r.1))
    ensures !Counting(attributeName) ==> r.1 == count && r.0 == Lookup(attrs, attributeName.value)
  {
    if Counting(attributeName) then (Some(Decimal(count + 1)), count + 1)
    else (Lookup(attrs, attributeName.value), count)
  }

  /** A counting name reads back as the counter value it was made from, so
      distinct counter values never give the same name. */
  lemma CountingNameValue(attributeName: Option<string>, count: nat, attrs: Attributes)
    requires Counting(attributeName)
    ensures var r := NameOf(attributeName, count, attrs);
      r.0.Some? && AllDigits(r.0.value) && DecimalValue(r.0.value) == r.1
  {
    DecimalRoundTrip(count + 1);
  }

  /** The counter after naming `n` milestones. */
  function CountAfter(attributeName: Option<string>, count: nat, n: nat): nat
  {
    if Counting(attributeName) then count + n else count
  }

  /** The names the recorder gives the occurrences, in order, starting from
      counter value `count`. */
  function Names(attributeName: Option<string>, count: nat, occs: seq<Occurrence>): (names: seq<Key>)
    ensures |names| == |occs|
  {
    seq(|occs|, i requires 0 <= i < |occs| => NameOf(attributeName, CountAfter(attributeName, count, i), occs[i].attrs).0)
  }

  /** Counting, the i-th occurrence is named after counter value count + i + 1;
      otherwise it is named by its own attribute. */
  lemma NamesAt(attributeName: Option<string>, count: nat, occs: seq<Occurrence>, i: nat)
    requires i < |occs|
    ensures Counting(attributeName) ==> Names(attributeName, count, occs)[i] == Some(Decimal(count + i + 1))
    ensures !Counting(attributeName) ==> Names(attributeName, count, occs)[i] == Lookup(occs[i].attrs, attributeName.value)
  {
  }

  /** Naming a prefix gives the prefix of the names. */
  lemma NamesPrefix(attributeName: Option<string>, count: nat, occs: seq<Occurrence>, i: nat)
    requires i <= |occs|
    ensures Names(attributeName, count, occs[..i]) == Names(attributeName, count, occs)[..i]
  {
  }

  /** Counting, no two occurrences get the same name. */
  lemma CountedNamesDistinct(attributeName: Option<string>, count: nat, occs: seq<Occurrence>)
    requires Counting(attributeName)
    ensures Distinct(Names(attributeName, count, occs))
  {
    var names := Names(attributeName, count, occs);
    forall i, j | 0 <= i < j < |occs| ensures names[i] != names[j] {
      NamesAt(attributeName, count, occs, i);
      NamesAt(attributeName, count, occs, j);
      DecimalInjective(count + i + 1, count + j + 1);
    }
  }

  /** The record `process_milestone` stores: the parents and nothing else. */
  function Fresh(o: Occurrence): Part
  {
    Part(o.parents, None, None, None)
  }

  /** `self.parts[name] = {'parents': ...}` for each occurrence and its name. */
  function RecordParts(parts: PartMap, names: seq<Key>, occs: seq<Occurrence>): PartMap
    requires |names| == |occs|
  {
    if occs == [] then parts
    else Put(RecordParts(parts, names[..|names| - 1], occs[..|occs| - 1]), names[|names| - 1], Fresh(occs[|occs| - 1]))
  }

  /** `process_milestone` applied to each occurrence in turn. */
  function Record(attributeName: Option<string>, parts: PartMap, count: nat, occs: seq<Occurrence>): PartMap
  {
    RecordParts(parts, Names(attributeName, count, occs), occs)
  }

  /** Recording one more occurrence is one more dictionary assignment, under
      the name the counter reached so far yields. */
  lemma RecordSnoc(attributeName: Option<string>, occs: seq<Occurrence>, o: Occurrence)
    ensures Record(attributeName, [], 0, occs + [o]) ==
      Put(Record(attributeName, [], 0, occs), NameOf(attributeName, CountAfter(attributeName, 0, |occs|), o.attrs).0, Fresh(o))
  {
    SnocParts(occs, o);
    NamesSnoc(attributeName, occs, o);
    RecordPartsLast([], Names(attributeName, 0, occs + [o]), occs + [o]);
  }

  /** Naming one more occurrence adds its name after the others. */
  lemma NamesSnoc(attributeName: Option<string>, occs: seq<Occurrence>, o: Occurrence)
    ensures var names := Names(attributeName, 0, occs + [o]);
      names[..|occs|] == Names(attributeName, 0, occs) &&
      names[|occs|] == NameOf(attributeName, CountAfter(attributeName, 0, |occs|), o.attrs).0
  {
    SnocParts(occs, o);
    NamesPrefix(attributeName, 0, occs + [o], |occs|);
  }

  /** The last assignment of a recording, by definition. */
  lemma RecordPartsLast(parts: PartMap, names: seq<Key>, occs: seq<Occurrence>)
    requires |names| == |occs| > 0
    ensures RecordParts(parts, names, occs) ==
      Put(RecordParts(parts, names[..|names| - 1], occs[..|occs| - 1]), names[|names| - 1], Fresh(occs[|occs| - 1]))
  {
  }

  /** A repeated name adds no key: the keys are the names in order of first
      occurrence, so they stay distinct. */
  lemma {:induction false} RecordKeys(parts: PartMap, names: seq<Key>, occs: seq<Occurrence>)
    requires |names| == |occs| && Distinct(Keys(parts))
    ensures Keys(RecordParts(parts, names, occs)) == FirstOccurrences(Keys(parts) + names)
    ensures Distinct(Keys(RecordParts(parts, names, occs)))
  {
    if occs == [] {
      assert Keys(parts) + names == Keys(parts);
      FirstOccurrencesOfDistinct(Keys(parts));
    } else {
      var n := |names|;
      var prev := Keys(parts) + names[..n - 1];
      RecordKeys(parts, names[..n - 1], occs[..n - 1]);
      assert Keys(parts) + names == prev + [names[n - 1]];
      RecordKeysStep(RecordParts(parts, names[..n - 1], occs[..n - 1]), prev, names[n - 1], Fresh(occs[n - 1]));
    }
  }

  /** One more assignment keeps the keys the first occurrences of the names. */
  lemma RecordKeysStep(before: PartMap, prev: seq<Key>, x: Key, v: Part)
    requires Keys(before) == FirstOccurrences(prev)
    ensures Keys(Put(before, x, v)) == FirstOccurrences(prev + [x])
  {
    assert (prev + [x])[..|prev|] == prev;
  }

  /** After recording, a name holds the parents of the last occurrence that
      carried it: a repeated name overwrites the earlier entry. */
  lemma {:induction false} RecordLastWins(parts: PartMap, names: seq<Key>, occs: seq<Occurrence>, i: nat)
    requires |names| == |occs| && i < |occs|
    requires forall j :: i < j < |occs| ==> names[j] != names[i]
    ensures Get(RecordParts(parts, names, occs), names[i]) == Some(Fresh(occs[i]))
  {
    var n := |names|;
    if i < n - 1 {
      var before := RecordParts(parts, names[..n - 1], occs[..n - 1]);
      assert forall j :: i < j < n - 1 ==> names[..n - 1][j] == names[j];
      RecordLastWins(parts, names[..n - 1], occs[..n - 1], i);
      assert names[..n - 1][i] == names[i] && occs[..n - 1][i] == occs[i];
      assert names[i] in Keys(before);
      PutOther(before, names[n - 1], Fresh(occs[n - 1]), names[i]);
    }
  }

  /** With no naming attribute and a cleared state, the keys are exactly the
      names given, in document order. */
  lemma CountedKeys(attributeName: Option<string>, occs: seq<Occurrence>)
    requires Counting(attributeName)
    ensures Keys(Record(attributeName, [], 0, occs)) == Names(attributeName, 0, occs)
  {
    var names := Names(attributeName, 0, occs);
    var empty: PartMap := [];
    CountedNamesDistinct(attributeName, 0, occs);
    RecordKeys(empty, names, occs);
    assert Keys(empty) + names == names;
    FirstOccurrencesOfDistinct(names);
  }

  /** With no naming attribute and a cleared state, every occurrence gives its
      own part: the keys are "1", "2", ... in document order, each holding its
      own occurrence's parents. */
  lemma CountedRecord(attributeName: Option<string>, occs: seq<Occurrence>)
    requires Counting(attributeName)
    ensures var r := Record(attributeName, [], 0, occs);
      |r| == |occs| &&
      (forall i :: 0 <= i < |occs| ==> r[i].0 == Some(Decimal(i + 1))) &&
      (forall i :: 0 <= i < |occs| ==> r[i].1 == Fresh(occs[i]))
  {
    var r := Record(attributeName, [], 0, occs);
    CountedKeys(attributeName, occs);
    assert |r| == |Keys(r)|;
    forall i | 0 <= i < |occs|
      ensures r[i].0 == Some(Decimal(i + 1)) && r[i].1 == Fresh(occs[i])
    {
      CountedRecordAt(attributeName, occs, i);
    }
  }

  /** One entry of a counted recording. */
  lemma CountedRecordAt(attributeName: Option<string>, occs: seq<Occurrence>, i: nat)
    requires Counting(attributeName) && i < |occs|
    ensures var r := Record(attributeName, [], 0, occs);
      i < |r| && r[i].0 == Some(Decimal(i + 1)) && r[i].1 == Fresh(occs[i])
  {
    var names := Names(attributeName, 0, occs);
    var r := Record(attributeName, [], 0, occs);
    CountedKeys(attributeName, occs);
    CountedNamesDistinct(attributeName, 0, occs);
    assert r[i].0 == Keys(r)[i] == names[i];
    NamesAt(attributeName, 0, occs, i);
    GetAt(r, i);
    RecordLastWins([], names, occs, i);
  }

  /** `get_first_milestone_name`: the first key; StopIteration when empty. */
  function FirstName(parts: PartMap): (r: Result<Key>)
    ensures r.Err? <==> parts == []
    ensures r.Ok? ==> r.value == parts[0].0
    ensures r.Err? ==> r.error == NoParts
  {
    if parts == [] then Err(NoParts) else Ok(parts[0].0)
  }

  /** `get_next_milestone_name`: the key after `name` in map order, `None` for
      Python's -1 when `name` is last; ValueError when `name` is not a key. */
  function NextName(parts: PartMap, name: Key): (r: Result<Option<Key>>)
    ensures r.Err? <==> name !in Keys(parts)
    ensures r.Err? ==> r.error == UnknownName(name)
  {
    var keys := Keys(parts);
    if name !in keys then Err(UnknownName(name))
    else
      var target := IndexOf(keys, name) + 1;
      if target < |keys| then Ok(Some(keys[target])) else Ok(None)
  }

  /** With distinct keys, the name after the i-th is the (i+1)-th, and only the
      last has none. */
  lemma NextNameAt(parts: PartMap, i: nat)
    requires Distinct(Keys(parts)) && i < |parts|
    ensures NextName(parts, parts[i].0) ==
      if i + 1 < |parts| then Ok(Some(parts[i + 1].0)) else Ok(None)
  {
    IndexOfDistinct(Keys(parts), i);
  }

  /** The middle text `combine_part` uses: a newline is added to non-empty text,
      except that text that is exactly one newline stays as it is. */
  function Middle(text: string): (r: string)
    ensures r == "" <==> text == ""
    ensures text != "" ==> r[|r| - 1] == '\n'
    ensures r == text || r == text + "\n"
    ensures r == text <==> (text == "" || text == "\n")
  {
    if text == "" then "" else if text == "\n" then "\n" else text + "\n"
  }

  /** `combine_part(name)`: the part's opening tags, its middle text and the next
      part's closing tags (none for the last part). Each missing name, and each
      missing dictionary entry, fails as the Python lookups do, in their order. */
  function Combine(parts: PartMap, name: Key): (r: Result<string>)
    ensures name !in Keys(parts) ==> r == Err(UnknownName(name))
  {
    match NextName(parts, name)
    case Err(e) => Err(e)
    case Ok(next) =>
      var closing: Result<string> :=
        if next.None? then Ok("")
        else
          var c := Get(parts, next.value).value.closing;
          if c.None? then Err(MissingField("closing", next.value)) else Ok(c.value);
      if closing.Err? then Err(closing.error)
      else
        var data := Get(parts, name).value;
        if data.text.None? then Err(MissingField("text", name))
        else if data.opening.None? then Err(MissingField("opening", name))
        else Ok(data.opening.value + Middle(data.text.value) + closing.value)
  }

  /** `create_all_closing_tags`: every part gets the closing tags of its own chain. */
  function WithClosings(parts: PartMap): PartMap
  {
    seq(|parts|, i requires 0 <= i < |parts| =>
      (parts[i].0, parts[i].1.(closing := Some(ClosingTags(parts[i].1.parents)))))
  }

  /** `create_all_opening_tags`: every part gets the opening tags of its own chain. */
  function WithOpenings(parts: PartMap): PartMap
  {
    seq(|parts|, i requires 0 <= i < |parts| =>
      (parts[i].0, parts[i].1.(opening := Some(OpeningTags(parts[i].1.parents)))))
  }

  /** Once both tag phases have run, a part that has text combines into its own
      reopening tags, its middle text and the closing tags of the NEXT part's
      chain, so that the elements still open at the next milestone are closed. */
  lemma CombineSynthesized(parts: PartMap, i: nat)
    requires Distinct(Keys(parts)) && i < |parts| && parts[i].1.text.Some?
    ensures Combine(WithOpenings(WithClosings(parts)), parts[i].0) ==
      Ok(OpeningTags(parts[i].1.parents) + Middle(parts[i].1.text.value) +
         (if i + 1 < |parts| then ClosingTags(parts[i + 1].1.parents) else ""))
  {
    var q := WithOpenings(WithClosings(parts));
    assert Keys(q) == Keys(parts);
    NextNameAt(q, i);
    IndexOfDistinct(Keys(q), i);
    if i + 1 < |parts| {
      IndexOfDistinct(Keys(q), i + 1);
    }
  }

  /** When the next milestone sits in the same chain, a combined part is the
      middle text nested properly inside that chain. */
  lemma CombineNested(parts: PartMap, i: nat)
    requires Distinct(Keys(parts)) && i + 1 < |parts| && parts[i].1.text.Some?
    requires parts[i + 1].1.parents == parts[i].1.parents
    ensures Combine(WithOpenings(WithClosings(parts)), parts[i].0) ==
      Ok(Nest(parts[i].1.parents, Middle(parts[i].1.text.value)))
  {
    CombineSynthesized(parts, i);
    TagsNest(parts[i].1.parents, Middle(parts[i].1.text.value));
  }

  /** `parts[name]['text'] = text`, for a name that is present. */
  function SetText(parts: PartMap, name: Key, text: string): PartMap
  {
    match Get(parts, name)
    case None => parts
    case Some(p) => Put(parts, name, p.(text := Some(text)))
  }

  /** The attribute that identifies each part in `transform`. */
  function IdAttribute(attributeName: Option<string>): string
  {
    if Counting(attributeName) then "id" else attributeName.value
  }

  /** One part of the transformed document. */
  function Wrapped(milestone: string, attribute: string, name: Key, body: string): string
  {
    OpeningTag(milestone, Attribute(attribute, KeyText(name))) + "\n" + body + ClosingTag(milestone) + "\n"
  }

  /** Appending a wrapped part piece by piece, as `transform` does. */
  lemma AppendWrapped(output: string, milestone: string, attribute: string, name: Key, body: string)
    ensures output + Wrapped(milestone, attribute, name, body) ==
      output + (OpeningTag(milestone, Attribute(attribute, KeyText(name))) + "\n") + body + (ClosingTag(milestone) + "\n")
  {
    var o, c := OpeningTag(milestone, Attribute(attribute, KeyText(name))), ClosingTag(milestone);
    assert o + "\n" + body + c + "\n" == (o + "\n") + body + (c + "\n");
  }

  /** What `combine_part` gives for each part, in map order. */
  function Combined(parts: PartMap): (bodies: seq<Result<string>>)
    ensures |bodies| == |parts|
  {
    seq(|parts|, i requires 0 <= i < |parts| => Combine(parts, parts[i].0))
  }

  /** The i-th name and combined text are those of the i-th part. */
  lemma CombinedAt(parts: PartMap, i: nat)
    requires i < |parts|
    ensures Keys(parts)[i] == parts[i].0 && Combined(parts)[i] == Combine(parts, parts[i].0)
  {
  }

  /** `transform`'s loop over the first `n` names, each with the outcome of its
      `combine_part`: the first failure ends it. */
  function Assemble(milestone: string, attribute: string, names: seq<Key>, bodies: seq<Result<string>>, n: nat): Result<string>
    requires n <= |names| == |bodies|
  {
    if n == 0 then Ok("")
    else
      match Assemble(milestone, attribute, names, bodies, n - 1)
      case Err(e) => Err(e)
      case Ok(out) =>
        match bodies[n - 1]
        case Err(e) => Err(e)
        case Ok(body) => Ok(out + Wrapped(milestone, attribute, names[n - 1], body))
  }

  /** `transform`: every part, in map order, wrapped in a milestone element
      whose identifying attribute holds the part's name. */
  function Render(milestone: string, attributeName: Option<string>, parts: PartMap): Result<string>
  {
    Assemble(milestone, IdAttribute(attributeName), Keys(parts), Combined(parts), |parts|)
  }

  /** The assembly succeeds exactly when every part combines, and then it is the
      parts' wrapped texts one after the other. */
  lemma {:induction false} AssembleParts(milestone: string, attribute: string, names: seq<Key>, bodies: seq<Result<string>>, n: nat)
    requires n <= |names| == |bodies|
    ensures Assemble(milestone, attribute, names, bodies, n).Ok? <==>
      forall i :: 0 <= i < n ==> bodies[i].Ok?
    ensures Assemble(milestone, attribute, names, bodies, n).Ok? ==>
      Assemble(milestone, attribute, names, bodies, n).value ==
      Concat(seq(n, i requires 0 <= i < n && bodies[i].Ok? => Wrapped(milestone, attribute, names[i], bodies[i].value)))
  {
    if n > 0 {
      AssembleParts(milestone, attribute, names, bodies, n - 1);
      if Assemble(milestone, attribute, names, bodies, n).Ok? {
        var all := seq(n, i requires 0 <= i < n && bodies[i].Ok? => Wrapped(milestone, attribute, names[i], bodies[i].value));
        var fewer := seq(n - 1, i requires 0 <= i < n - 1 && bodies[i].Ok? => Wrapped(milestone, attribute, names[i], bodies[i].value));
        assert all[..n - 1] == fewer;
      }
    }
  }

  /** The first failing `combine_part` is the transform's failure. */
  lemma {:induction false} AssembleFails(milestone: string, attribute: string, names: seq<Key>, bodies: seq<Result<string>>, n: nat, k: nat)
    requires n <= |names| == |bodies| && k < n
    requires bodies[k].Err? && forall i :: 0 <= i < k ==> bodies[i].Ok?
    ensures Assemble(milestone, attribute, names, bodies, n) == Err(bodies[k].error)
  {
    if n - 1 > k {
      AssembleFails(milestone, attribute, names, bodies, n - 1, k);
    } else {
      AssembleParts(milestone, attribute, names, bodies, k);
    }
  }

  /** `write_files`' loop over the first `n` names: each name, which must be a
      string to be joined into a path, with its combined text; the first
      failure ends it. */
  function Gather(names: seq<Key>, bodies: seq<Result<string>>, n: nat): Result<seq<(string, string)>>
    requires n <= |names| == |bodies|
  {
    if n == 0 then Ok([])
    else
      match Gather(names, bodies, n - 1)
      case Err(e) => Err(e)
      case Ok(files) =>
        if names[n - 1].None? then Err(UnnamedPart)
        else
          match bodies[n - 1]
          case Err(e) => Err(e)
          case Ok(body) => Ok(files + [(names[n - 1].value, body)])
  }

  /** What `write_files` writes: one file per part, named after it, holding the
      part's combined text. */
  function Files(parts: PartMap): Result<seq<(string, string)>>
  {
    Gather(Keys(parts), Combined(parts), |parts|)
  }

  /** Gathering succeeds exactly when every name is a string and every part
      combines, and then gives one file per name, in order. */
  lemma {:induction false} GatherParts(names: seq<Key>, bodies: seq<Result<string>>, n: nat)
    requires n <= |names| == |bodies|
    ensures Gather(names, bodies, n).Ok? <==> forall i :: 0 <= i < n ==> names[i].Some? && bodies[i].Ok?
    ensures Gather(names, bodies, n).Ok? ==>
      var files := Gather(names, bodies, n).value;
      |files| == n && forall i :: 0 <= i < n ==> files[i] == (names[i].value, bodies[i].value)
  {
    if n > 0 {
      GatherParts(names, bodies, n - 1);
    }
  }

  /** One more part gathered after a successful prefix. */
  lemma GatherStep(names: seq<Key>, bodies: seq<Result<string>>, i: nat, files: seq<(string, string)>)
    requires i < |names| == |bodies| && Gather(names, bodies, i) == Ok(files)
    ensures Gather(names, bodies, i + 1) ==
      if names[i].None? then Err(UnnamedPart)
      else if bodies[i].Err? then Err(bodies[i].error)
      else Ok(files + [(names[i].value, bodies[i].value)])
  {
  }

  /** One more part wrapped after a successful prefix. */
  lemma AssembleStep(milestone: string, attribute: string, names: seq<Key>, bodies: seq<Result<string>>, i: nat,
                     output: string)
    requires i < |names| == |bodies| && Assemble(milestone, attribute, names, bodies, i) == Ok(output)
    ensures Assemble(milestone, attribute, names, bodies, i + 1) ==
      if bodies[i].Err? then Err(bodies[i].error)
      else Ok(output + Wrapped(milestone, attribute, names[i], bodies[i].value))
  {
  }

  /** Once a prefix of the loop has failed, the whole loop fails the same way. */
  lemma {:induction false} GatherFailureStays(names: seq<Key>, bodies: seq<Result<string>>, k: nat, n: nat)
    requires k <= n <= |names| == |bodies|
    requires Gather(names, bodies, k).Err?
    ensures Gather(names, bodies, n) == Gather(names, bodies, k)
  {
    if n > k {
      GatherFailureStays(names, bodies, k, n - 1);
    }
  }

  /** Once a prefix of the transform has failed, the whole transform fails the same way. */
  lemma {:induction false} AssembleFailureStays(milestone: string, attribute: string, names: seq<Key>,
                                                bodies: seq<Result<string>>, k: nat, n: nat)
    requires k <= n <= |names| == |bodies|
    requires Assemble(milestone, attribute, names, bodies, k).Err?
    ensures Assemble(milestone, attribute, names, bodies, n) == Assemble(milestone, attribute, names, bodies, k)
  {
    if n > k {
      AssembleFailureStays(milestone, attribute, names, bodies, k, n - 1);
    }
  }
}
