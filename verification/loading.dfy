/** Loading a store from its file, with the file system and the JSON decoder
    abstracted into the outcome of one read. */
module Loading {
  import opened Outcomes

  /** What opening and reading one store file produced. `decoded` is the
      document the JSON decoder made of `text`, or None when it reported a
      decode error. */
  datatype ReadResult<V> =
    | FileMissing
    | ReadFailed  // any other error while opening, reading or decoding, such as a
                  // RecursionError on deeply nested input (not a decode error)
    | Read(text: string, decoded: Option<map<string, V>>)

  /** Python's `str.isspace` for one character: the characters that
      `str.strip()` removes when called without arguments. */
  predicate IsPySpace(c: char)
  {
    || ('\t' <= c <= '\r')
    || ('\U{1C}' <= c <= '\U{1F}')
    || c == ' ' || c == '\U{85}' || c == '\U{A0}' || c == '\U{1680}'
    || ('\U{2000}' <= c <= '\U{200A}')
    || c == '\U{2028}' || c == '\U{2029}' || c == '\U{202F}' || c == '\U{205F}' || c == '\U{3000}'
  }

  /** `text.strip()` is empty, i.e. falsy. */
  predicate IsBlank(text: string)
  {
    forall i :: 0 <= i < |text| ==> IsPySpace(text[i])
  }

  /** `instantiate_data` of the book and user stores: the flag it returns and
      the store it leaves behind, given the store before the call. A blank
      file is a successful load of an empty store; a missing or undecodable
      file empties the store and reports failure; any other error reports
      failure and leaves the store as it was. */
  function Instantiate<V>(current: map<string, V>, r: ReadResult<V>): (out: Reply<map<string, V>>)
    ensures out.ok <==> r.Read? && (IsBlank(r.text) || r.decoded.Some?)
    ensures r.ReadFailed? ==> out.state == current
    ensures !r.ReadFailed? && !out.ok ==> out.state == map[]
    ensures r.Read? && IsBlank(r.text) ==> out.state == map[]
    ensures r.Read? && !IsBlank(r.text) && r.decoded.Some? ==> out.state == r.decoded.value
  {
    match r
    case FileMissing => Reply(false, map[])
    case ReadFailed => Reply(false, current)
    case Read(text, decoded) =>
      if IsBlank(text) then Reply(true, map[])
      else if decoded.Some? then Reply(true, decoded.value)
      else Reply(false, map[])
  }

  /** `_load_previous_context`: the assignment map read at session start, or
      None when the read raised an error the loader does not catch (anything
      but a missing file or a decode error), which aborts the session. */
  function LoadPreviousContext(r: ReadResult<string>): (out: Option<map<string, string>>)
    ensures out.None? <==> r.ReadFailed?
    ensures r.FileMissing? ==> out == Some(map[])
    ensures r.Read? && r.decoded.None? ==> out == Some(map[])
    ensures r.Read? && r.decoded.Some? ==> out == r.decoded
  {
    match r
    case FileMissing => Some(map[])
    case ReadFailed => None
    case Read(_, decoded) => if decoded.Some? then decoded else Some(map[])
  }

  /** The JSON decoder rejects a document that is only whitespace. */
  predicate DecodesOnlyNonBlank<V>(r: ReadResult<V>)
  {
    r.Read? && IsBlank(r.text) ==> r.decoded.None?
  }

  /** The store loaders test for a blank file before decoding, so a blank
      file is a successful load of an empty store whatever the decoder would
      say. The loan loader has no such test; a blank loan file starts empty
      only because the decoder rejects it. */
  lemma BlankFileLoadsEmpty<V>(current: map<string, V>, text: string, decoded: Option<map<string, V>>,
                               loanDecoded: Option<map<string, string>>)
    requires IsBlank(text)
    ensures Instantiate(current, Read(text, decoded)) == Reply(true, map[])
    ensures DecodesOnlyNonBlank(Read(text, loanDecoded)) ==> LoadPreviousContext(Read(text, loanDecoded)) == Some(map[])
  {
  }

  /** The loan loader and a store loader starting from empty yield the same
      map on every read outcome but one: on an error other than a missing
      file or a decode error the store loader keeps its (empty) store, while
      the loan loader lets the error escape. */
  lemma LoadersAgree(r: ReadResult<string>)
    requires DecodesOnlyNonBlank(r)
    ensures LoadPreviousContext(r) == (if r.ReadFailed? then None else Some(Instantiate(map[], r).state))
  {
  }
}
