/** The `Milestone` splitter object: its configuration, its name counter and
    its ordered dictionary of parts, with the methods that fill, complete and
    combine the parts of one input file after another. */
module Milestones {
  import opened Basics
  import opened Strings
  import opened OrderedMaps
  import opened Tags
  import opened Parts
  import opened RawSplit
  import opened Pipeline

  /** How one turn of the raw pass ends: with an error, with the final slice
      stored, or with the text after the tag still to do, under the tag's name. */
  datatype Step = Failed(error: Error) | Finished | Cut(rest: string, next: Key)

  class Milestone {
    /** The milestone tag's name, e.g. `pb`. */
    const milestone: string
    /** The attribute naming the parts; `None` or "" names them by counting. */
    const attributeName: Option<string>
    /** Produce one transformed document instead of one file per part. */
    const transformWithoutSplit: bool
    /** The counter behind counted names. */
    var count: nat
    /** The parts of the current file, by name, in insertion order. */
    var parts: PartMap

    /** Every name stands once in the dictionary. */
    ghost predicate Valid()
      reads this
    {
      Distinct(Keys(parts))
    }

    constructor (milestone: string, attributeName: Option<string>, transformWithoutSplit: bool)
      ensures this.milestone == milestone && this.attributeName == attributeName
      ensures this.transformWithoutSplit == transformWithoutSplit
      ensures count == 0 && parts == []
      ensures Valid()
    {
      this.milestone := milestone;
      this.attributeName := attributeName;
      this.transformWithoutSplit := transformWithoutSplit;
      count := 0;
      parts := [];
    }

    /** `clear_parts`: an empty dictionary and the counter back at zero. */
    method ClearParts()
      modifies this
      ensures parts == [] && count == 0
      ensures Valid()
    {
      parts := [];
      count := 0;
    }

    /** `get_milestone_name`: with no naming attribute the counter advances
        and its decimal text is the name; otherwise the attribute's value. */
    method GetMilestoneName(attrs: Attributes) returns (name: Key)
      modifies this
      ensures parts == old(parts)
      ensures (name, count) == NameOf(attributeName, old(count), attrs)
    {
      if Counting(attributeName) {
        count := count + 1;
        return Some(Decimal(count));
      }
      name := Lookup(attrs, attributeName.value);
    }

    /** `process_milestone`: a fresh record holding the parents, stored under
        the milestone's name (replacing an earlier record of that name). */
    method ProcessMilestone(occ: Occurrence)
      requires Valid()
      modifies this
      ensures Valid()
      ensures var (name, c) := NameOf(attributeName, old(count), occ.attrs);
        count == c && parts == Put(old(parts), name, Fresh(occ))
    {
      var name := GetMilestoneName(occ.attrs);
      PutDistinct(parts, name, Fresh(occ));
      parts := Put(parts, name, Fresh(occ));
    }

    /** `split_raw` over the file's raw `text`, with lxml's `fromstring` as
        `parse`. On success the parts and the counter are those of the raw
        pass; on failure the error is the pass's. Either way no key changes. */
    method SplitRaw(text: string, parse: string -> Option<Attributes>) returns (r: Result<()>)
      modifies this
      ensures Keys(parts) == Keys(old(parts))
      ensures var s := SplitRawSpec(milestone, attributeName, parse, old(parts), text);
        && (s.Ok? ==> r == Ok(()) && parts == s.value.0 && count == s.value.1)
        && (s.Err? ==> r == Err(s.error))
    {
      count := 0;
      var first := FirstName(parts);
      if first.Err? {
        return Err(first.error);
      }
      var milestoneNext := first.value;
      ghost var keys := Keys(parts);
      ghost var spec := SplitRawSpec(milestone, attributeName, parse, parts, text);
      SplitRawResumes(milestone, attributeName, parse, parts, text);
      var rest := text;
      var done := false;
      while !done
        invariant Keys(parts) == keys
        invariant !done ==> spec == Resume(milestone, attributeName, parse, parts, rest, milestoneNext, count)
        invariant done ==> spec == Ok((parts, count))
        decreases |rest| + (if done then 0 else 1)
      {
        var step := SplitStep(rest, milestoneNext, parse);
        match step
        case Failed(e) =>
          return Err(e);
        case Finished =>
          done := true;
        case Cut(later, next) =>
          rest, milestoneNext := later, next;
      }
      return Ok(());
    }

    /** One turn of `split_raw`'s loop on the remaining text `rest`, with
        `current` the name whose text comes next: with a `<tag` left, see
        `SplitAtTag`; with none, all of `rest` is stored as the text of
        `current` and the loop is done. */
    method SplitStep(rest: string, current: Key, parse: string -> Option<Attributes>) returns (step: Step)
      modifies this
      ensures Keys(parts) == Keys(old(parts))
      ensures var before := Resume(milestone, attributeName, parse, old(parts), rest, current, old(count));
        match step
        case Failed(e) =>
          && before == Err(e) && parts == old(parts)
          && if Find(rest, Opener(milestone)).Some? && e.MissingPart? then
               TagCounted(attributeName, parse, rest, Find(rest, Opener(milestone)).value, old(count), count)
             else count == old(count)
        case Finished =>
          && before == Ok((parts, count))
          && parts == SetText(old(parts), current, rest) && count == old(count)
        case Cut(later, next) =>
          && Find(rest, Opener(milestone)).Some?
          && TagCut(milestone, attributeName, parse, rest, Find(rest, Opener(milestone)).value, current,
                    old(parts), old(count), later, next, parts, count)
          && |later| < |rest| && before == Resume(milestone, attributeName, parse, parts, later, next, count)
    {
      var found := Find(rest, Opener(milestone));
      if found.Some? {
        step := SplitAtTag(rest, current, parse, found.value);
        return;
      }
      if current !in Keys(parts) {
        RawPassMissingStep(milestone, attributeName, parse, Keys(parts), rest, current, count);
        ResumeFails(milestone, attributeName, parse, parts, rest, current, count, MissingPart(current));
        return Failed(MissingPart(current));
      }
      ResumeLast(milestone, attributeName, parse, parts, rest, current, count);
      SetTextKeys(parts, current, rest[..|rest|]);
      PrefixAll(rest);
      parts := SetText(parts, current, rest[..|rest|]);
      return Finished;
    }

    /** The turn of `split_raw`'s loop that finds a `<tag` at `index`: find its
        `>` (ValueError without one), parse the element (the parser's failure
        without a well-formed one) and name it, then store the slice before it
        as the text of `current` (KeyError when `current` was never recorded)
        and go on after the `>` with the new name. */
    method SplitAtTag(rest: string, current: Key, parse: string -> Option<Attributes>, index: nat) returns (step: Step)
      requires Find(rest, Opener(milestone)) == Some(index)
      modifies this
      ensures Keys(parts) == Keys(old(parts))
      ensures var before := Resume(milestone, attributeName, parse, old(parts), rest, current, old(count));
        match step
        case Failed(e) =>
          && before == Err(e) && parts == old(parts)
          && if e.MissingPart? then TagCounted(attributeName, parse, rest, index, old(count), count)
             else count == old(count)
        case Finished => false
        case Cut(later, next) =>
          && TagCut(milestone, attributeName, parse, rest, index, current, old(parts), old(count), later, next, parts, count)
          && |later| < |rest| && before == Resume(milestone, attributeName, parse, parts, later, next, count)
    {
      var end := Find(rest[index..], ">");
      if end.None? {
        RawPassUnterminatedStep(milestone, attributeName, parse, Keys(parts), rest, current, count, index);
        ResumeFails(milestone, attributeName, parse, parts, rest, current, count, UnterminatedTag);
        return Failed(UnterminatedTag);
      }
      var total := index + end.value;
      var element := rest[index..total + 1];
      var attrs := parse(element);
      if attrs.None? {
        RawPassMalformedStep(milestone, attributeName, parse, Keys(parts), rest, current, count, index, end.value);
        ResumeFails(milestone, attributeName, parse, parts, rest, current, count, MalformedTag(element));
        return Failed(MalformedTag(element));
      }
      var next := GetMilestoneName(attrs.value);
      if current !in Keys(parts) {
        RawPassMissingStep(milestone, attributeName, parse, Keys(old(parts)), rest, current, old(count));
        ResumeFails(milestone, attributeName, parse, old(parts), rest, current, old(count), MissingPart(current));
        return Failed(MissingPart(current));
      }
      ResumeTag(milestone, attributeName, parse, parts, rest, current, old(count), index, end.value);
      SetTextKeys(parts, current, rest[..index]);
      parts := SetText(parts, current, rest[..index]);
      return Cut(rest[total + 1..], next);
    }

    /** `create_closing_tags`: `</t>` for each ancestor, nearest first. */
    static method CreateClosingTags(parent: Chain) returns (closing: string)
      ensures closing == ClosingTags(parent)
    {
      closing := "";
      for i := 0 to |parent|
        invariant closing == ClosingTags(parent[..i])
      {
        assert parent[..i + 1][..i] == parent[..i];
        closing := closing + ClosingTag(parent[i].tag);
      }
      assert parent[..|parent|] == parent;
    }

    /** `create_opening_tags`: for each ancestor, outermost first, its tag with
        its attributes and the continuation marker. */
    static method CreateOpeningTags(parent: Chain) returns (opening: string)
      ensures opening == OpeningTags(parent)
    {
      opening := "";
      var i := |parent|;
      while i > 0
        invariant 0 <= i <= |parent|
        invariant opening == OpeningTags(parent[i..])
      {
        i := i - 1;
        var a := parent[i];
        var attributeXml := "";
        for j := 0 to |a.attrs|
          invariant attributeXml == AttributesText(a.attrs[..j])
        {
          assert a.attrs[..j + 1][..j] == a.attrs[..j];
          attributeXml := attributeXml + Attribute(a.attrs[j].0, a.attrs[j].1);
        }
        assert a.attrs[..|a.attrs|] == a.attrs;
        attributeXml := attributeXml + Continued;
        assert parent[i..][1..] == parent[i + 1..];
        opening := opening + OpeningTag(a.tag, attributeXml);
      }
    }

    /** `create_all_closing_tags`: every part gets its chain's closing tags. */
    method CreateAllClosingTags()
      requires Valid()
      modifies this
      ensures Valid()
      ensures parts == WithClosings(old(parts)) && count == old(count)
    {
      var i := 0;
      while i < |parts|
        invariant 0 <= i <= |parts| == |old(parts)| && count == old(count)
        invariant forall j :: 0 <= j < i ==> parts[j] == WithClosings(old(parts))[j]
        invariant forall j :: i <= j < |parts| ==> parts[j] == old(parts)[j]
      {
        var closing := CreateClosingTags(parts[i].1.parents);
        parts := parts[i := (parts[i].0, parts[i].1.(closing := Some(closing)))];
        i := i + 1;
      }
      assert parts == WithClosings(old(parts));
      assert forall j :: 0 <= j < |parts| ==> Keys(parts)[j] == Keys(old(parts))[j];
      assert Keys(parts) == Keys(old(parts));
    }

    /** `create_all_opening_tags`: every part gets its chain's opening tags. */
    method CreateAllOpeningTags()
      requires Valid()
      modifies this
      ensures Valid()
      ensures parts == WithOpenings(old(parts)) && count == old(count)
    {
      var i := 0;
      while i < |parts|
        invariant 0 <= i <= |parts| == |old(parts)| && count == old(count)
        invariant forall j :: 0 <= j < i ==> parts[j] == WithOpenings(old(parts))[j]
        invariant forall j :: i <= j < |parts| ==> parts[j] == old(parts)[j]
      {
        var opening := CreateOpeningTags(parts[i].1.parents);
        parts := parts[i := (parts[i].0, parts[i].1.(opening := Some(opening)))];
        i := i + 1;
      }
      assert parts == WithOpenings(old(parts));
      assert forall j :: 0 <= j < |parts| ==> Keys(parts)[j] == Keys(old(parts))[j];
      assert Keys(parts) == Keys(old(parts));
    }

    /** `get_next_milestone_name`: the position of `name` among the keys
        (ValueError when absent), then the key after it, if any. */
    method GetNextMilestoneName(name: Key) returns (r: Result<Option<Key>>)
      ensures r == NextName(parts, name)
    {
      var keys := Keys(parts);
      var i := 0;
      while i < |keys| && keys[i] != name
        invariant 0 <= i <= |keys|
        invariant forall j :: 0 <= j < i ==> keys[j] != name
      {
        i := i + 1;
      }
      if i == |keys| {
        return Err(UnknownName(name));
      }
      IndexOfUnique(keys, name, i);
      var target := i + 1;
      if target < |keys| {
        return Ok(Some(keys[target]));
      }
      return Ok(None);
    }

    /** `combine_part`: opening tags, middle text and the next part's closing
        tags, failing where the Python lookups fail. */
    method CombinePart(name: Key) returns (r: Result<string>)
      ensures r == Combine(parts, name)
    {
      var nextName := GetNextMilestoneName(name);
      if nextName.Err? {
        return Err(nextName.error);
      }
      var closing := "";
      if nextName.value.Some? {
        var next := nextName.value.value;
        assert next in Keys(parts);
        var nextData := Get(parts, next).value;
        if nextData.closing.None? {
          return Err(MissingField("closing", next));
        }
        closing := nextData.closing.value;
      }
      var data := Get(parts, name).value;
      if data.text.None? {
        return Err(MissingField("text", name));
      }
      var middle := "";
      if data.text.value != "" {
        middle := data.text.value + "\n";
        if data.text.value == "\n" {
          middle := "\n";
        }
      }
      if data.opening.None? {
        return Err(MissingField("opening", name));
      }
      return Ok(data.opening.value + middle + closing);
    }

    /** `transform`: each part, in order, inside a milestone element that
        names it. */
    method Transform() returns (r: Result<string>)
      ensures r == Render(milestone, attributeName, parts)
    {
      ghost var bodies := Combined(parts);
      forall j | 0 <= j < |parts|
        ensures bodies[j] == Combine(parts, parts[j].0)
      {
        CombinedAt(parts, j);
      }
      var attribute := IdAttribute(attributeName);
      r := TransformEach(attribute, bodies);
    }

    /** `transform`'s loop, given the identifying attribute and the combined
        text of every part. */
    method TransformEach(attribute: string, ghost bodies: seq<Result<string>>) returns (r: Result<string>)
      requires |bodies| == |parts|
      requires forall j {:trigger Combine(parts, parts[j].0)} :: 0 <= j < |parts| ==>
        bodies[j] == Combine(parts, parts[j].0)
      ensures r == Assemble(milestone, attribute, Keys(parts), bodies, |parts|)
    {
      var output := "";
      ghost var names := Keys(parts);
      for i := 0 to |parts|
        invariant Assemble(milestone, attribute, names, bodies, i) == Ok(output)
      {
        var name := parts[i].0;
        var opening := OpeningTag(milestone, Attribute(attribute, KeyText(name)));
        var body := CombinePart(name);
        assert name == names[i] && body == bodies[i];
        AssembleStep(milestone, attribute, names, bodies, i, output);
        if body.Err? {
          AssembleFailureStays(milestone, attribute, names, bodies, i + 1, |parts|);
          return Err(body.error);
        }
        AppendWrapped(output, milestone, attribute, name, body.value);
        output := output + (opening + "\n");
        output := output + body.value;
        output := output + (ClosingTag(milestone) + "\n");
      }
      return Ok(output);
    }

    /** `write_files`: for each part, in order, the file name (a `None` name
        cannot be joined into a path) and the combined text written there. */
    method WriteFiles() returns (r: Result<seq<(string, string)>>)
      ensures r == Files(parts)
    {
      ghost var bodies := Combined(parts);
      forall j | 0 <= j < |parts|
        ensures bodies[j] == Combine(parts, parts[j].0)
      {
        CombinedAt(parts, j);
      }
      r := WriteEach(bodies);
    }

    /** `write_files`' loop, given the combined text of every part. */
    method WriteEach(ghost bodies: seq<Result<string>>) returns (r: Result<seq<(string, string)>>)
      requires |bodies| == |parts|
      requires forall j {:trigger Combine(parts, parts[j].0)} :: 0 <= j < |parts| ==>
        bodies[j] == Combine(parts, parts[j].0)
      ensures r == Gather(Keys(parts), bodies, |parts|)
    {
      var files: seq<(string, string)> := [];
      ghost var names := Keys(parts);
      for i := 0 to |parts|
        invariant Gather(names, bodies, i) == Ok(files)
      {
        var name := parts[i].0;
        assert name == names[i];
        GatherStep(names, bodies, i, files);
        if name.None? {
          GatherFailureStays(names, bodies, i + 1, |parts|);
          return Err(UnnamedPart);
        }
        var text := WriteFile(name);
        assert text == bodies[i];
        if text.Err? {
          GatherFailureStays(names, bodies, i + 1, |parts|);
          return Err(text.error);
        }
        files := files + [(name.value, text.value)];
      }
      return Ok(files);
    }

    /** `write_file`: the combined text of one part, which `write_files`
        writes to the file named after it. */
    method WriteFile(name: Key) returns (text: Result<string>)
      ensures text == Combine(parts, name)
    {
      text := CombinePart(name);
    }

    /** `split_file` for one file, given its milestone occurrences in document
        order and its raw text. */
    method SplitFile(occs: seq<Occurrence>, text: string, parse: string -> Option<Attributes>) returns (r: Result<Output>)
      modifies this
      ensures r == FileOutput(milestone, attributeName, transformWithoutSplit, parse, occs, text)
      ensures r.Ok? ==> Prepared(milestone, attributeName, parse, occs, text) == Ok(parts)
      ensures r.Ok? ==> var split := SplitRawSpec(milestone, attributeName, parse, Record(attributeName, [], 0, occs), text);
        split.Ok? && count == split.value.1
    {
      ClearParts();
      for i := 0 to |occs|
        invariant Valid()
        invariant parts == Record(attributeName, [], 0, occs[..i])
        invariant count == CountAfter(attributeName, 0, i)
      {
        RecordSnoc(attributeName, occs[..i], occs[i]);
        PrefixSnoc(occs, i);
        ProcessMilestone(occs[i]);
      }
      PrefixAll(occs);
      var split := SplitRaw(text, parse);
      if split.Err? {
        return Err(split.error);
      }
      CreateAllClosingTags();
      CreateAllOpeningTags();
      if transformWithoutSplit {
        var doc := Transform();
        if doc.Err? {
          return Err(doc.error);
        }
        return Ok(Document(doc.value));
      }
      var files := WriteFiles();
      if files.Err? {
        return Err(files.error);
      }
      return Ok(Written(files.value));
    }

    /** `split_file` on the i-th input, as the i-th of the outcomes of every
        input. */
    method SplitInput(inputs: seq<FileInput>, i: nat, parse: string -> Option<Attributes>,
                      ghost outcomes: seq<Result<Output>>) returns (result: Result<Output>)
      requires i < |inputs|
      requires |outcomes| == |inputs|
      requires forall j {:trigger FileOutput(milestone, attributeName, transformWithoutSplit, parse, inputs[j].occurrences, inputs[j].text)} :: 0 <= j < |inputs| ==>
        outcomes[j] == FileOutput(milestone, attributeName, transformWithoutSplit, parse, inputs[j].occurrences, inputs[j].text)
      modifies this
      ensures result == outcomes[i]
      ensures result.Ok? ==> (result.value.Document? <==> transformWithoutSplit)
    {
      result := SplitFile(inputs[i].occurrences, inputs[i].text, parse);
      FileOutputKind(milestone, attributeName, transformWithoutSplit, parse, inputs[i].occurrences, inputs[i].text);
    }

    /** `split`'s loop: every input file in turn, collecting the transformed
        documents, each followed by a newline, until the first failure. */
    method SplitEach(inputs: seq<FileInput>, parse: string -> Option<Attributes>,
                     ghost outcomes: seq<Result<Output>>) returns (r: Result<string>)
      requires |outcomes| == |inputs|
      requires forall j {:trigger FileOutput(milestone, attributeName, transformWithoutSplit, parse, inputs[j].occurrences, inputs[j].text)} :: 0 <= j < |inputs| ==>
        outcomes[j] == FileOutput(milestone, attributeName, transformWithoutSplit, parse, inputs[j].occurrences, inputs[j].text)
      modifies this
      ensures r == Collect(outcomes, |inputs|)
    {
      var output := "";
      for i := 0 to |inputs|
        invariant Collect(outcomes, i) == Ok(output)
      {
        var result := SplitInput(inputs, i, parse, outcomes);
        CollectStep(outcomes, i, output);
        if result.Err? {
          CollectFailureStays(outcomes, i + 1, |inputs|);
          return Err(result.error);
        }
        if transformWithoutSplit {
          output := output + result.value.text + "\n";
        }
      }
      return Ok(output);
    }

    /** `split`: the joined documents when transforming, nothing otherwise. */
    method Split(inputs: seq<FileInput>, parse: string -> Option<Attributes>) returns (r: Result<Option<string>>)
      modifies this
      ensures r == SplitAll(milestone, attributeName, transformWithoutSplit, parse, inputs)
    {
      ghost var outcomes := Outcomes(milestone, attributeName, transformWithoutSplit, parse, inputs);
      forall j | 0 <= j < |inputs|
        ensures outcomes[j] == FileOutput(milestone, attributeName, transformWithoutSplit, parse, inputs[j].occurrences, inputs[j].text)
      {
        OutcomeAt(milestone, attributeName, transformWithoutSplit, parse, inputs, j);
      }
      var collected := SplitEach(inputs, parse, outcomes);
      if collected.Err? {
        SplitAllFails(milestone, attributeName, transformWithoutSplit, parse, inputs, collected.error);
        return Err(collected.error);
      }
      SplitAllCollected(milestone, attributeName, transformWithoutSplit, parse, inputs, collected.value);
      if transformWithoutSplit {
        return Ok(Some(collected.value));
      }
      return Ok(None);
    }
  }
}
