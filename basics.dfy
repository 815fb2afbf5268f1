/** Values shared by every part of the model: optional values, the error
    outcome that stands for a Python exception, and milestone names. */
module Basics {

  datatype Option<+T> = None | Some(value: T)

  /** A milestone name. In attribute mode it is whatever lxml's `get` returned,
      which is `None` when the element lacks the attribute; Python keeps that
      `None` as a dictionary key like any other. */
  type Key = Option<string>

  /** The exceptions the core can raise, one constructor per distinct cause. */
  datatype Error =
    | NoParts                               // StopIteration: no milestone was recorded
    | UnterminatedTag                       // ValueError: `<tag` with no later `>`
    | MalformedTag(fragment: string)        // lxml could not parse the tag's text
    | MissingPart(name: Key)                // KeyError: a name the recorder never stored
    | MissingField(field: string, name: Key) // KeyError: 'text', 'closing' or 'opening' absent
    | UnknownName(name: Key)                // ValueError from `list.index`
    | UnnamedPart                           // TypeError: a `None` name joined into a file path

  /** A successful value, or the exception that ended the computation. */
  datatype Result<+T> = Ok(value: T) | Err(error: Error)

  /** `'%s' % name`: how a name is written into text. */
  function KeyText(k: Key): string
  {
    match k
    case Some(s) => s
    case None => "None"
  }

  /** Growing a prefix by one element. */
  lemma PrefixSnoc<T>(s: seq<T>, i: nat)
    requires i < |s|
    ensures s[..i] + [s[i]] == s[..i + 1]
  {
  }

  /** The prefix as long as the sequence is the sequence. */
  lemma PrefixAll<T>(s: seq<T>)
    ensures s[..|s|] == s
  {
  }

  /** The two pieces of a sequence grown by one element. */
  lemma SnocParts<T>(s: seq<T>, x: T)
    ensures (s + [x])[..|s|] == s && (s + [x])[|s|] == x
  {
  }
}
