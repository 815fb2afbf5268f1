/** `split_file` and `split` as functions of their inputs, and what the whole
    segmentation promises in counting mode. */
module Pipeline {
  import opened Basics
  import opened Strings
  import opened OrderedMaps
  import opened Tags
  import opened Parts
  import opened RawSplit

  /** The phases of `split_file` before output: a cleared state, each occurrence
      recorded, the raw pass, then the closing and the opening tags. */
  function Prepared(milestone: string, attributeName: Option<string>, parse: string -> Option<Attributes>,
                    occs: seq<Occurrence>, text: string): Result<PartMap>
  {
    match SplitRawSpec(milestone, attributeName, parse, Record(attributeName, [], 0, occs), text)
    case Err(e) => Err(e)
    case Ok(split) => Ok(WithOpenings(WithClosings(split.0)))
  }

  /** What `split_file` produces: the transformed document, or the files that
      `write_files` writes (name and text of each, paths left aside). */
  datatype Output = Document(text: string) | Written(files: seq<(string, string)>)

  function FileOutput(milestone: string, attributeName: Option<string>, transformWithoutSplit: bool,
                      parse: string -> Option<Attributes>, occs: seq<Occurrence>, text: string): Result<Output>
  {
    match Prepared(milestone, attributeName, parse, occs, text)
    case Err(e) => Err(e)
    case Ok(parts) =>
      if transformWithoutSplit then
        match Render(milestone, attributeName, parts)
        case Err(e) => Err(e)
        case Ok(doc) => Ok(Document(doc))
      else
        match Files(parts)
        case Err(e) => Err(e)
        case Ok(files) => Ok(Written(files))
  }

  /** A transforming run gives a document, a splitting run the written files. */
  lemma FileOutputKind(milestone: string, attributeName: Option<string>, transformWithoutSplit: bool,
                       parse: string -> Option<Attributes>, occs: seq<Occurrence>, text: string)
    ensures var r := FileOutput(milestone, attributeName, transformWithoutSplit, parse, occs, text);
      r.Ok? ==> (r.value.Document? <==> transformWithoutSplit)
  {
  }

  /** One input file: the milestone occurrences of its tree and its raw text. */
  datatype FileInput = FileInput(occurrences: seq<Occurrence>, text: string)

  /** What `split_file` gives for each input file, in order. */
  function Outcomes(milestone: string, attributeName: Option<string>, transformWithoutSplit: bool,
                    parse: string -> Option<Attributes>, files: seq<FileInput>): (r: seq<Result<Output>>)
    ensures |r| == |files|
  {
    if files == [] then []
    else
      var last := files[|files| - 1];
      Outcomes(milestone, attributeName, transformWithoutSplit, parse, files[..|files| - 1]) +
        [FileOutput(milestone, attributeName, transformWithoutSplit, parse, last.occurrences, last.text)]
  }

  /** The i-th outcome is the i-th file's `split_file`. */
  lemma {:induction false} OutcomeAt(milestone: string, attributeName: Option<string>, transformWithoutSplit: bool,
                                     parse: string -> Option<Attributes>, files: seq<FileInput>, i: nat)
    requires i < |files|
    ensures Outcomes(milestone, attributeName, transformWithoutSplit, parse, files)[i] ==
      FileOutput(milestone, attributeName, transformWithoutSplit, parse, files[i].occurrences, files[i].text)
  {
    if i < |files| - 1 {
      var fewer := files[..|files| - 1];
      OutcomeAt(milestone, attributeName, transformWithoutSplit, parse, fewer, i);
      assert fewer[i] == files[i];
    }
  }

  /** `split`'s loop over the first `n` outcomes: each transformed document
      followed by a newline (nothing is collected from written files); the
      first failure ends it. */
  function Collect(outcomes: seq<Result<Output>>, n: nat): Result<string>
    requires n <= |outcomes|
  {
    if n == 0 then Ok("")
    else
      match Collect(outcomes, n - 1)
      case Err(e) => Err(e)
      case Ok(out) =>
        match outcomes[n - 1]
        case Err(e) => Err(e)
        case Ok(Document(doc)) => Ok(out + doc + "\n")
        case Ok(Written(_)) => Ok(out)
  }

  /** `split`: the collected output of every file, returned only when
      transforming. */
  function SplitAll(milestone: string, attributeName: Option<string>, transformWithoutSplit: bool,
                    parse: string -> Option<Attributes>, files: seq<FileInput>): Result<Option<string>>
  {
    match Collect(Outcomes(milestone, attributeName, transformWithoutSplit, parse, files), |files|)
    case Err(e) => Err(e)
    case Ok(out) => if transformWithoutSplit then Ok(Some(out)) else Ok(None)
  }

  /** `split` returns what it collected only when transforming... */
  lemma SplitAllCollected(milestone: string, attributeName: Option<string>, transformWithoutSplit: bool,
                          parse: string -> Option<Attributes>, files: seq<FileInput>, out: string)
    requires Collect(Outcomes(milestone, attributeName, transformWithoutSplit, parse, files), |files|) == Ok(out)
    ensures SplitAll(milestone, attributeName, transformWithoutSplit, parse, files) ==
      if transformWithoutSplit then Ok(Some(out)) else Ok(None)
  {
  }

  /** ... and fails with the first failing file's error. */
  lemma SplitAllFails(milestone: string, attributeName: Option<string>, transformWithoutSplit: bool,
                      parse: string -> Option<Attributes>, files: seq<FileInput>, e: Error)
    requires Collect(Outcomes(milestone, attributeName, transformWithoutSplit, parse, files), |files|) == Err(e)
    ensures SplitAll(milestone, attributeName, transformWithoutSplit, parse, files) == Err(e)
  {
  }

  /** One more file's outcome after a successful prefix. */
  lemma CollectStep(outcomes: seq<Result<Output>>, i: nat, out: string)
    requires i < |outcomes| && Collect(outcomes, i) == Ok(out)
    ensures Collect(outcomes, i + 1) ==
      if outcomes[i].Err? then Err(outcomes[i].error)
      else if outcomes[i].value.Document? then Ok(out + outcomes[i].value.text + "\n")
      else Ok(out)
  {
  }

  /** Once a file has failed, the whole run fails the same way. */
  lemma {:induction false} CollectFailureStays(outcomes: seq<Result<Output>>, k: nat, n: nat)
    requires k <= n <= |outcomes|
    requires Collect(outcomes, k).Err?
    ensures Collect(outcomes, n) == Collect(outcomes, k)
  {
    if n > k {
      CollectFailureStays(outcomes, k, n - 1);
    }
  }

  /** When transforming, the output is every file's document, each followed by
      a newline, in input order; it fails exactly when some file fails. */
  lemma {:induction false} CollectDocuments(outcomes: seq<Result<Output>>, n: nat)
    requires n <= |outcomes|
    requires forall i :: 0 <= i < |outcomes| ==> outcomes[i].Ok? ==> outcomes[i].value.Document?
    ensures Collect(outcomes, n).Ok? <==> forall i :: 0 <= i < n ==> outcomes[i].Ok?
    ensures Collect(outcomes, n).Ok? ==>
      Collect(outcomes, n).value ==
        Concat(seq(n, i requires 0 <= i < n && outcomes[i].Ok? && outcomes[i].value.Document? => outcomes[i].value.text + "\n"))
  {
    if n > 0 {
      CollectDocuments(outcomes, n - 1);
      if Collect(outcomes, n).Ok? {
        var all := seq(n, i requires 0 <= i < n && outcomes[i].Ok? && outcomes[i].value.Document? => outcomes[i].value.text + "\n");
        var fewer := seq(n - 1, i requires 0 <= i < n - 1 && outcomes[i].Ok? && outcomes[i].value.Document? => outcomes[i].value.text + "\n");
        assert all[..n - 1] == fewer;
      }
    }
  }

  /** The text of the i-th part (0-based) after a counting raw pass that found
      `m` tags: the slice after tag i + 1, or the whole text when there was no
      tag and this is the only name that gets one. */
  function CountedText(ws: seq<Write>, i: nat): Option<string>
    requires |ws| >= 1
  {
    var m := |ws| - 1;
    if i + 1 <= m then Some(ws[i + 1].slice)
    else if m == 0 && i == 0 then Some(ws[0].slice)
    else None
  }

  /** Where the first slice goes to "1" and every later slice j to "j", the name
      "i+1" ends up with the text `CountedText` gives. */
  lemma CountedLastWrite(ws: seq<Write>, i: nat)
    requires |ws| >= 1 && ws[0].key == Some(Decimal(1))
    requires forall j :: 1 <= j < |ws| ==> ws[j].key == Some(Decimal(j))
    ensures LastWrite(ws, Some(Decimal(i + 1))) == CountedText(ws, i)
  {
    var m := |ws| - 1;
    var k := Some(Decimal(i + 1));
    forall j | 1 <= j < |ws| && j != i + 1 ensures ws[j].key != k {
      DecimalInjective(j, i + 1);
    }
    if i + 1 <= m {
      LastWriteAt(ws, k, i + 1);
    } else if m == 0 && i == 0 {
      LastWriteAt(ws, k, 0);
    } else {
      DecimalInjective(1, i + 1);
      LastWriteNone(ws, k);
    }
  }

  /** Counting mode, from a cleared state: after recording and the raw pass,
      part i (0-based) is named "i+1" and holds its own occurrence's parents and
      `CountedText`: the slice after tag i + 1. The slice before the first tag
      goes to "1" and is then overwritten, unless there is no tag at all. */
  lemma CountedSplitTexts(milestone: string, attributeName: Option<string>, parse: string -> Option<Attributes>,
                          occs: seq<Occurrence>, text: string)
    requires Counting(attributeName)
    requires SplitRawSpec(milestone, attributeName, parse, Record(attributeName, [], 0, occs), text).Ok?
    ensures var recorded := Record(attributeName, [], 0, occs);
      var after := SplitRawSpec(milestone, attributeName, parse, recorded, text).value.0;
      var ws := RawPass(milestone, attributeName, parse, Keys(recorded), text, recorded[0].0, 0).value.writes;
      && |occs| >= 1 && |ws| >= 1
      && |ws| - 1 <= |occs|
      && |after| == |occs|
      && forall i :: 0 <= i < |occs| ==>
           after[i] == (Some(Decimal(i + 1)), Part(occs[i].parents, CountedText(ws, i), None, None))
  {
    var recorded := Record(attributeName, [], 0, occs);
    CountedRecord(attributeName, occs);
    CountedKeys(attributeName, occs);
    CountedNamesDistinct(attributeName, 0, occs);
    CountedTextsOf(milestone, attributeName, parse, recorded, occs, text);
  }

  /** Counting mode: the raw pass over the recorded parts gives the first slice
      to "1" and slice j to "j", with no more tags than recorded milestones. */
  lemma CountedPassWrites(milestone: string, attributeName: Option<string>, parse: string -> Option<Attributes>,
                          occs: seq<Occurrence>, text: string)
    requires Counting(attributeName)
    requires SplitRawSpec(milestone, attributeName, parse, Record(attributeName, [], 0, occs), text).Ok?
    ensures var recorded := Record(attributeName, [], 0, occs);
      var ws := RawPass(milestone, attributeName, parse, Keys(recorded), text, recorded[0].0, 0).value.writes;
      && |occs| >= 1 && |ws| >= 1 && |ws| - 1 <= |occs|
      && ws[0].key == Some(Decimal(1))
      && forall j :: 1 <= j < |ws| ==> ws[j].key == Some(Decimal(j))
  {
    CountedRecord(attributeName, occs);
    CountedWritesOf(milestone, attributeName, parse, Record(attributeName, [], 0, occs), text);
  }

  /** The names "1", "2", ... in order. */
  ghost predicate Numbered(parts: PartMap)
  {
    forall i :: 0 <= i < |parts| ==> parts[i].0 == Some(Decimal(i + 1))
  }

  /** `CountedPassWrites` for any numbered parts. */
  lemma CountedWritesOf(milestone: string, attributeName: Option<string>, parse: string -> Option<Attributes>,
                        parts: PartMap, text: string)
    requires Counting(attributeName) && parts != [] && Numbered(parts)
    requires RawPass(milestone, attributeName, parse, Keys(parts), text, parts[0].0, 0).Ok?
    ensures var ws := RawPass(milestone, attributeName, parse, Keys(parts), text, parts[0].0, 0).value.writes;
      && |ws| >= 1 && |ws| - 1 <= |parts|
      && ws[0].key == Some(Decimal(1))
      && forall j :: 1 <= j < |ws| ==> ws[j].key == Some(Decimal(j))
  {
    var ws := RawPass(milestone, attributeName, parse, Keys(parts), text, parts[0].0, 0).value.writes;
    var m := |ws| - 1;
    CountedPassNames(milestone, attributeName, parse, Keys(parts), text, parts[0].0);
    if m >= 1 {
      var i := IndexOf(Keys(parts), ws[m].key);
      assert parts[i].0 == Some(Decimal(m));
      DecimalInjective(i + 1, m);
    }
  }

  /** `CountedSplitTexts` for any numbered parts holding fresh records of the
      occurrences. */
  lemma CountedTextsOf(milestone: string, attributeName: Option<string>, parse: string -> Option<Attributes>,
                       parts: PartMap, occs: seq<Occurrence>, text: string)
    requires Counting(attributeName) && |parts| == |occs| >= 1 && Numbered(parts)
    requires forall i :: 0 <= i < |parts| ==> parts[i].1 == Fresh(occs[i])
    requires Distinct(Keys(parts))
    requires RawPass(milestone, attributeName, parse, Keys(parts), text, parts[0].0, 0).Ok?
    ensures var ws := RawPass(milestone, attributeName, parse, Keys(parts), text, parts[0].0, 0).value.writes;
      var after := ApplyWrites(parts, ws);
      && |ws| >= 1 && |ws| - 1 <= |occs|
      && |after| == |occs|
      && forall i :: 0 <= i < |occs| ==>
           after[i] == (Some(Decimal(i + 1)), Part(occs[i].parents, CountedText(ws, i), None, None))
  {
    var ws := RawPass(milestone, attributeName, parse, Keys(parts), text, parts[0].0, 0).value.writes;
    CountedWritesOf(milestone, attributeName, parse, parts, text);
    ApplyWritesAt(parts, ws);
    forall i | 0 <= i < |occs|
      ensures LastWrite(ws, Some(Decimal(i + 1))) == CountedText(ws, i)
    {
      CountedLastWrite(ws, i);
    }
  }
}
