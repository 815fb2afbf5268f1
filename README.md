# Milestone splitting, modelled in Dafny

`milestone.py` splits an XML document at a milestone tag such as `<pb/>`. The
work is done by the `Milestone` class, which has four phases:

1. **Naming and recording.** It names each milestone element, either with a
   counter (`"1"`, `"2"`, ...) or with the value of a configured attribute.
   It stores each element's ancestor chain in an ordered dictionary under
   that name.
2. **Raw pass.** It re-reads the document's raw text and cuts it at every
   literal `<tag`. The text between two milestone tags goes to the name of
   the milestone before it.
3. **Tag text.** It builds, for every part, the closing tags of its chain
   (`</t>` per ancestor, nearest first). It also builds the reopening tags:
   `<t k="v" ... continued="true">` per ancestor, outermost first.
4. **Output.** For each part it joins the part's reopening tags, its text and
   the *next* part's closing tags. The results go either into one file per
   part or into one transformed document, where each part is wrapped in a
   milestone element that names it.

The project models that class:

- `milestones.dfy` holds the class `Milestones.Milestone`. It has the
  dictionary (`parts`) and the counter (`count`) as mutable fields.
  - Most methods of the Python class have a method of the same name. Those
    that compute something are proved against a function that specifies
    them. The constructor and `ClearParts` state the new fields directly.
  - `get_first_milestone_name` is the function `Parts.FirstName`, which
    `SplitRaw` calls and `RawSplit.SplitRawSpec` uses.
  - `get_parents` and `get_subdirectory_name` have no counterpart (see
    "Left out").
  - Some loops of the Python code are helper methods of their own:
    - `SplitStep` and `SplitAtTag` are one turn of `split_raw`'s loop;
    - `TransformEach` is `transform`'s loop;
    - `WriteEach` is `write_files`' loop;
    - `SplitInput` and `SplitEach` are one turn and the whole of `split`'s
      loop.
- The other files define the specifying functions and prove what the code
  promises about them:
  - `basics.dfy`: options, results and the errors that stand for Python's
    exceptions;
  - `strings.dfy`: `str.index` and `str(n)`;
  - `ordered_maps.dfy`: `OrderedDict` as a sequence of entries;
  - `tags.dfy`: the three format strings and the tag builders;
  - `parts.dfy`: naming, recording and reassembly;
  - `raw_split.dfy`: the raw pass;
  - `pipeline.dfy`: `split_file` and `split` as functions.

The model keeps the code's behaviour, including these quirks:

- The search for `<tag` is a plain substring search, so `<pbx` also matches
  `<pb`.
- Attribute values are written without XML escaping.
- `continued="true"` is added to every reopened element, including those of
  the first part.
- Only text that is exactly one newline keeps its single newline; all other
  non-empty text gets a newline appended.
- The raw pass resets the counter and starts from the first recorded name.
  So the text before the first milestone is stored under that name and then
  overwritten by the text after the first milestone tag: it is lost
  (`Pipeline.CountedSplitTexts`).
- Python raises an exception at several points. Each becomes an `Err` value
  of `Basics.Error`, one constructor per cause:
  - an empty dictionary at `get_first_milestone_name`;
  - a `<tag` with no `>` after it;
  - a tag text lxml cannot parse;
  - a name that was never recorded;
  - a missing `text`, `closing` or `opening` entry;
  - an unknown name in `list.index`;
  - a `None` name joined into a file path.
- In attribute mode, an element without the attribute is named `None`. Python
  keeps `None` as a dictionary key and `transform` writes it as `None`
  (`Basics.Key`, `Basics.KeyText`).

lxml is not modelled. The recorder's tree walk becomes its result: the
milestone occurrences of each file in document order. Each occurrence has
its ancestor chain, nearest first, and its attributes. lxml's `fromstring`,
used by the raw pass on each tag's text, becomes a parameter
`parse: string -> Option<Attributes>`, where `None` stands for a parse
error. The file's raw text is a string parameter.

## Model

| member | source | states |
|---|---|---|
| Milestones.Milestone.constructor | milestone.py:119-131 | the configuration is stored, the counter is 0 and the dictionary is empty |
| Milestones.Milestone.ClearParts | milestone.py:133-137 | afterwards the dictionary is empty and the counter is 0 |
| Parts.Counting | milestone.py:220 | naming is by counting exactly when the attribute name is None or empty |
| Parts.NameOf | milestone.py:218-224 | with no naming attribute (None or empty), the counter goes up by exactly one and the name is its new value's decimal text; otherwise the name is the element's value for the attribute and the counter stays |
| Milestones.Milestone.GetMilestoneName | milestone.py:218-224 | the name returned and the new counter are `NameOf` of the old counter; the dictionary is unchanged |
| Parts.CountingNameValue | milestone.py:220-222 | a counted name is all digits and reads back as the counter value it was made from |
| Strings.Decimal | milestone.py:222 | `str(n)`: at least one character, all digits, and a leading `0` only for 0 |
| Strings.DecimalRoundTrip | milestone.py:222 | `str(n)` read back as a decimal number is `n` |
| Strings.DecimalInjective | milestone.py:222 | different counter values give different names |
| Tags.Lookup | milestone.py:223 | `element.get(key)` is the value of an attribute with that name, and is None exactly when no attribute has that name |
| OrderedMaps.Keys | milestone.py:207 | `list(self.parts.keys())`: the names in dictionary order, one per entry |
| OrderedMaps.Get | milestone.py:188-190 | `self.parts[k]`: the value stored under a present key, None (KeyError) for an absent one |
| Milestones.Milestone.ProcessMilestone | milestone.py:236-239 | the new dictionary is the old one with a fresh record of the parents assigned under the milestone's name; the counter is `NameOf`'s; keys stay distinct |
| OrderedMaps.Put | milestone.py:239 | assigning to a present key keeps the key order, assigning to a new key appends it, and the key then holds the new value |
| OrderedMaps.PutOther | milestone.py:239 | an assignment leaves every other present key's value alone |
| OrderedMaps.PutDistinct | milestone.py:239 | an assignment keeps the keys distinct |
| Parts.Names | milestone.py:218-224 | the names `get_milestone_name` gives the occurrences in document order, one per occurrence, the i-th from the counter value reached after i namings |
| Parts.Fresh | milestone.py:239 | the entry `{'parents': ...}` that `process_milestone` stores: the occurrence's parents, and no text, closing or opening yet |
| Parts.RecordParts | milestone.py:162-163 | the assignment `self.parts[name] = {'parents': ...}` for each occurrence in document order, with its name, each a fresh record holding only the parents |
| Parts.Record | milestone.py:162-163 | `process_milestone` on each occurrence in document order: each is named by `NameOf` from the counter reached so far, then recorded |
| Parts.RecordKeys | milestone.py:162-163 | after recording, the keys are the names in order of first occurrence, and they are distinct: a repeated name adds no key |
| Parts.RecordLastWins | milestone.py:162-163 | after recording, a name holds the parents of the last occurrence that carried it |
| Parts.RecordSnoc | milestone.py:162-163 | recording one more occurrence is one more assignment, under the name the counter reached so far yields |
| Parts.CountedNamesDistinct | milestone.py:220-222 | in counting mode no two occurrences get the same name |
| Parts.CountedRecord | milestone.py:159-163 | in counting mode, recording from a cleared state gives one entry per occurrence, named "1", "2", ... in document order, each holding its own occurrence's parents |
| Parts.CountedKeys | milestone.py:159-163 | in counting mode, recording from a cleared state gives exactly the counted names as keys, in order |
| Parts.FirstName | milestone.py:226-228 | the first key, or StopIteration exactly when the dictionary is empty |
| RawSplit.Opener | milestone.py:252 | `'<%s' % self.milestone`: what the raw pass searches for |
| Strings.Find | milestone.py:252 | `str.index`: the first position where the pattern occurs, and None, for ValueError, exactly when it occurs nowhere |
| RawSplit.RawPass | milestone.py:249-265 | the loop from the remaining text on. It finds the next `<tag` and the first `>` after it, parses and names the tag, and stores the slice before it; the result is the assignments in order and the final counter, or the first failure, ordered as in the loop body |
| RawSplit.SplitRawSpec | milestone.py:241-265 | `split_raw`: the counter is reset, the first name is taken (StopIteration when there is none), the pass runs from it and its assignments are applied to the dictionary |
| RawSplit.Resume | milestone.py:249-265 | the rest of `split_raw` from a point inside the loop: the pass from there, with its assignments applied to the dictionary |
| RawSplit.TagCounted | milestone.py:258-262 | the `<tag` runs to the first `>` after it, its text parses, and the counter has moved as `NameOf` of the parsed attributes moves it |
| RawSplit.TagCut | milestone.py:258-264 | the state one `<tag` turn leaves: the tag's text runs to the first `>` and parses; the slice before the tag is the current name's text; the next name and counter are its `NameOf`; the rest starts after the `>` |
| Milestones.Milestone.SplitRaw | milestone.py:241-265 | on success the dictionary and counter are those the raw pass over the old dictionary gives; on failure the error is the pass's (StopIteration for an empty dictionary included); the keys never change |
| Milestones.Milestone.SplitStep | milestone.py:249-265 | one turn of the loop, from which the pass continues to the same result as from the state before it. On failure it reports the pass's error and the dictionary is unchanged; the counter is unchanged too, except for a KeyError after a `<tag`, where it has moved as naming that tag moves it (`TagCounted`). With no `<tag` left, the whole rest is stored as the current name's text and the counter is unchanged. Otherwise the state is `TagCut` of the first `<tag`, and the rest is shorter |
| Milestones.Milestone.SplitAtTag | milestone.py:251-265 | the turn that finds a `<tag`. It fails with ValueError when no `>` follows, with the parser's failure, or with KeyError, as the pass gives them. In each failure the dictionary is unchanged. After ValueError or a parser failure the counter is unchanged. After KeyError it has moved as naming the tag moves it (`TagCounted`), since `get_milestone_name` runs before the assignment fails. Otherwise the new state is `TagCut`: the slice before the tag is the current name's text, the rest starts after the first `>`, and the next name and counter are `NameOf` of the tag's attributes. The pass from there gives the same result |
| RawSplit.RawPassUnterminatedStep | milestone.py:258 | a `<tag` with no `>` after it ends the pass with ValueError |
| RawSplit.UnterminatedTagFails | milestone.py:252-258 | any occurrence of `<tag` with no `>` anywhere after it makes the whole pass fail |
| RawSplit.RawPassMalformedStep | milestone.py:260-262 | a tag text the parser rejects ends the pass with that fragment's error |
| RawSplit.RawPassMissingStep | milestone.py:263 | a name that was never recorded ends the pass with KeyError once the next tag, if any, has been read |
| RawSplit.RawPassTagStep | milestone.py:252-264 | where a `<tag` and a later `>` follow, the slice before the tag goes to the current name and the pass goes on after the `>` under the tag's name |
| RawSplit.RawPassLastStep | milestone.py:253-256 | with no `<tag` left, the whole rest is the final slice, for the current name |
| RawSplit.RawPassSegmented | milestone.py:249-264 | a successful pass cuts the text so that each slice runs up to the first `<tag`, each tag text from there to the first `>`, and the final slice holds no `<tag` |
| RawSplit.RawPassRoundTrip | milestone.py:249-264 | the slices and tag texts of a successful pass, in order, are exactly the raw text |
| RawSplit.RawPassNames | milestone.py:247-263 | in a successful pass the first slice goes to the first name, each later slice to the name the tag before it yields, every name was recorded and every tag parsed |
| RawSplit.CountedPassNames | milestone.py:246-263 | in counting mode the slice after the j-th tag goes to "j" and the counter ends at the number of tags |
| RawSplit.NamedPassNames | milestone.py:261-263 | with a naming attribute, the slice after each tag goes to that attribute's value in the tag, and the counter does not move |
| Parts.SetText | milestone.py:263 | `self.parts[name]['text'] = t`: a present name's entry takes the text where it stands; an absent name leaves the dictionary alone (the loop fails with KeyError before that) |
| RawSplit.SetTextAt | milestone.py:263 | `parts[k]['text'] = t` changes the text of the entry for `k` and nothing else |
| RawSplit.ApplyWrites | milestone.py:263 | the assignments `self.parts[milestone_n]['text'] = text[:index]` made in loop order, each replacing the text of its name's entry |
| RawSplit.ApplyWritesAt | milestone.py:263 | after the pass's assignments every entry keeps its place, name, parents and tags, and holds the slice last assigned to its name, or its old text if none |
| RawSplit.LastWriteAt | milestone.py:263 | of several assignments to one name, the last is the one that stays |
| Pipeline.CountedPassWrites | milestone.py:241-265 | in counting mode the first slice goes to "1", the slice after tag j to "j", and there are no more tags than recorded milestones |
| Pipeline.CountedSplitTexts | milestone.py:157-165 | in counting mode, after recording and the raw pass, part i+1 holds its parents and the slice after tag i+1; the slice before the first tag is kept only when there is no tag at all |
| Tags.ClosingTag | milestone.py:80 | `CLOSING_TAG % t` is `</t>` |
| Tags.OpeningTag | milestone.py:81 | `OPENING_TAG % (t, a)` is `<t`, then `a`, then `>` |
| Tags.Attribute | milestone.py:82 | `ATTRIBUTE % (k, v)` is a space, `k`, `="`, `v` and `"`, with no escaping of `v`; the constant `Tags.Continued` is it for (`continued`, `true`), as at milestone.py:295 |
| Milestones.Milestone.CreateClosingTags | milestone.py:273-279 | the closing text is `ClosingTags` of the chain |
| Tags.ClosingTags | milestone.py:274-279 | the closing text is empty exactly for an empty chain |
| Tags.ClosingTagsFront | milestone.py:277-278 | the closing text starts with the nearest ancestor's `</t>` |
| Tags.ClosingTagsAppend | milestone.py:277-278 | the closing text of a longer chain is that of its inner part, then that of its outer part |
| Milestones.Milestone.CreateOpeningTags | milestone.py:287-297 | the opening text is `OpeningTags` of the chain |
| Tags.OpeningTags | milestone.py:288-297 | the opening text is empty exactly for an empty chain |
| Tags.OpeningTagsAppend | milestone.py:291-296 | the opening text of a longer chain is that of its outer part, then that of its inner part |
| Tags.AttributesText | milestone.py:292-294 | the `attribute_xml` loop: ` k="v"` for each attribute of the ancestor, in order |
| Tags.Reopened | milestone.py:292-296 | one reopened ancestor: its tag, its attributes' text, then ` continued="true"`, inside `<` and `>` |
| Tags.ReopenedShape | milestone.py:292-296 | each reopened tag starts with `<t` and ends with ` continued="true">` |
| Tags.TagsNest | milestone.py:274-297 | a chain's opening text, any body and the same chain's closing text nest properly, each element closed in reverse order of opening |
| Parts.WithClosings | milestone.py:267-271 | every entry, in place and in order, gets the closing tags of its own chain; nothing else changes |
| Parts.WithOpenings | milestone.py:281-285 | every entry, in place and in order, gets the opening tags of its own chain; nothing else changes |
| Milestones.Milestone.CreateAllClosingTags | milestone.py:267-271 | every entry gets its own chain's closing text, nothing else changes, and keys stay distinct |
| Milestones.Milestone.CreateAllOpeningTags | milestone.py:281-285 | every entry gets its own chain's opening text, nothing else changes, and keys stay distinct |
| OrderedMaps.IndexOf | milestone.py:208 | `keys.index(name)` for a present name: a position holding it, with no earlier position holding it |
| Parts.NextName | milestone.py:205-216 | ValueError exactly when the name is not a key |
| Milestones.Milestone.GetNextMilestoneName | milestone.py:205-216 | the result is `NextName`: the key after the name, None (Python's -1) after the last, ValueError for an unknown name |
| Parts.NextNameAt | milestone.py:205-216 | with distinct keys, the name after the i-th key is the (i+1)-th, and only the last has none |
| Parts.Middle | milestone.py:191-196 | empty text stays empty, text that is exactly a newline stays as it is, any other text gets one newline appended |
| Parts.Combine | milestone.py:182-197 | `combine_part`: fails with ValueError for an unknown name; otherwise it is the opening tags, the middle text and the next part's closing tags, failing where a lookup fails, in the code's order |
| Milestones.Milestone.CombinePart | milestone.py:182-197 | the result is `Combine`: opening tags, middle text and the next part's closing tags, failing where the Python lookups fail, in their order |
| Parts.CombineSynthesized | milestone.py:182-197 | after both tag phases, a part with text combines into its own reopening tags, its middle text and the next part's chain's closing tags (none for the last part) |
| Parts.CombineNested | milestone.py:182-197 | when the next milestone has the same chain, the combined part is the middle text properly nested inside that chain |
| Basics.KeyText | milestone.py:307 | `'%s' % name`: a string name is written as it is, the name None as `None` |
| Parts.IdAttribute | milestone.py:302-305 | the attribute naming each part in the transformed document: the configured naming attribute, or `id` when naming is by counting |
| Parts.Wrapped | milestone.py:307-310 | one part of the transformed document: the milestone opening tag with the name attribute, a newline, the combined text, the milestone closing tag and a newline |
| Parts.Combined | milestone.py:306-309 | the `combine_part` outcome of every part, in dictionary order, one per part |
| Parts.Assemble | milestone.py:306-311 | `transform`'s loop over the first n parts: their wrapped texts in order, or the first part's failure to combine |
| Parts.Render | milestone.py:299-311 | `transform`: `Assemble` over all parts, with `IdAttribute` as the attribute |
| Milestones.Milestone.Transform | milestone.py:299-311 | the result is `Render`: each part in order, inside a milestone element whose attribute (the naming attribute, or `id`) holds the name |
| Milestones.Milestone.TransformEach | milestone.py:306-311 | given each part's combined outcome, the loop's result is `Assemble` over all the parts |
| Parts.AssembleParts | milestone.py:306-311 | the transform succeeds exactly when every part combines, and then it is the wrapped parts concatenated in order |
| Parts.AssembleFails | milestone.py:306-311 | the first part that fails to combine is the transform's failure |
| Parts.Gather | milestone.py:178-180 | `write_files`' loop over the first n parts: each name with its combined text, in order; TypeError at a None name, or the first failure to combine |
| Parts.Files | milestone.py:172-180 | what `write_files` writes: `Gather` over all parts |
| Milestones.Milestone.WriteFiles | milestone.py:172-180 | the result is `Files`: each part's name with its combined text, in order, or the first failure |
| Milestones.Milestone.WriteEach | milestone.py:178-180 | the loop over the parts gathers each name with its combined text, stopping at an unnamed part or a failing combination |
| Milestones.Milestone.WriteFile | milestone.py:199-203 | the text written for a name is its combined text |
| Parts.GatherParts | milestone.py:178-180 | writing succeeds exactly when every name is a string and every part combines, and then the files are the names with their texts, in order |
| Pipeline.Prepared | milestone.py:159-166 | the phases of `split_file` before output: a cleared state, every occurrence recorded, the raw pass, then the closing and the opening tags; the first failure ends it |
| Pipeline.FileOutput | milestone.py:157-170 | `split_file`: the prepared dictionary rendered as one document when transforming, or written as files otherwise, or the first failure |
| Milestones.Milestone.SplitFile | milestone.py:157-170 | the result is `FileOutput`: record, raw pass, closing and opening tags, then the document or the files, with the first failure. On success the dictionary left behind is `Prepared`, and the counter is the raw pass's |
| Pipeline.FileOutputKind | milestone.py:167-170 | a transforming run gives a document, a splitting run files |
| Pipeline.Outcomes | milestone.py:142-143 | `split_file` on each input in order, one outcome per input |
| Pipeline.Collect | milestone.py:141-146 | `split`'s loop over the first n outcomes: each document followed by a newline, nothing from written files, or the first failure |
| Pipeline.SplitAll | milestone.py:139-148 | `split`: the collected documents when transforming, None when splitting, or the first failure |
| Milestones.Milestone.SplitInput | milestone.py:142-143 | splitting the i-th input gives the i-th outcome, a document exactly when transforming |
| Pipeline.OutcomeAt | milestone.py:142-143 | the i-th outcome is `split_file` on the i-th input |
| Milestones.Milestone.SplitEach | milestone.py:141-146 | the loop collects each transformed document followed by a newline, in input order, or stops at the first failure |
| Milestones.Milestone.Split | milestone.py:139-148 | the result is `SplitAll`: the collected documents when transforming, nothing when splitting, or the first failure |
| Pipeline.CollectDocuments | milestone.py:141-148 | when transforming, the output is every file's document followed by a newline, in order, and it fails exactly when some file fails |
| Pipeline.CollectFailureStays | milestone.py:142-143 | once one file has failed, the whole run fails with that error |

## Left out

- `main`, `argparse` and `print` (milestone.py:85-115): command-line handling only.
- Reading the input file and writing output files are not modelled. The raw text is a parameter. `write_files` and `write_file` yield each part's name and text.
- `get_subdirectory_name`, the output directory, `os.path.join` with the `.xml` suffix and `os.mkdir` are not modelled: they are path and directory handling.
- `etree.parse`, `findall` and `get_parents`/`iterancestors` (milestone.py:160-161, 230-234) are not modelled. Their result is an input: the occurrences in document order, each with its ancestor chain (nearest first) and attributes.
- `etree.fromstring` (milestone.py:262) is the parameter `parse`. What lxml accepts as well-formed is not modelled.
- The line-ending translation of Python's text-mode `read` is not modelled; the raw text is taken as it is.
- The unused loop counter `i` in `split_raw` (milestone.py:245, 265) is not modelled.
- Python exceptions are modelled as `Err` values of `Basics.Error`. An exception's traceback and type hierarchy are not modelled.
- Milestones.Milestone.constructor: does not store `input_filenames` or `output_dir` (milestone.py:126, 129). The output directory belongs to the path handling left out above. `Split` takes the input files as a parameter instead of reading them from the object.
- Parts.Gather and Milestones.Milestone.WriteFiles: a failure is only the error. The files `write_file` has already written for the parts before the failing one stay on disk in Python, because nothing is rolled back, and the model does not reflect them.
- Milestones.Milestone.SplitRaw: on failure, only states that the keys are unchanged and the error is the pass's. The texts assigned before the failing step and the counter are left unstated, because every caller stops at the error and its state is not read again.
- Milestones.Milestone.SplitFile: on failure, does not state the dictionary and counter left behind. The program stops at the exception, and nothing in it reads the object after that.
- Milestones.Milestone.Split: states only its result, not the dictionary and counter after the last file. `split` is the program's last use of the object, and nothing reads its fields afterwards. Each file's `split_file` also starts by clearing them (milestone.py:159).
- Milestones.Milestone.SplitInput: states only its result, not the dictionary and counter that `split_file` leaves, for the same reason as `Split`.
- Milestones.Milestone.SplitEach: states only the collected result, not the dictionary and counter after the last file, for the same reason as `Split`.
- Milestones.Milestone.CreateAllClosingTags and Milestones.Milestone.CreateAllOpeningTags: update each entry by position, where Python assigns by key. With distinct keys, which `Valid()` requires and every other method keeps, the two are the same.
