/**
 * The values the snippet service works with: the stored row, the JSON body
 * of a create or update request, the JSON object a read returns, and the
 * outcomes of the operations.
 */
module Records {
  import TagCodec

  datatype Option<+T> = None | Some(value: T) {
    /** `dict.get(key, default)`: the value when the key is present. */
    function GetOr(default: T): T
    {
      match this
      case Some(v) => v
      case None => default
    }
  }

  /** Why an operation did not succeed. */
  datatype Error =
    | NotFound              // `get_or_404` found no row with that id
    | MalformedBody         // the request carried no JSON object
    | MissingKey(key: string)  // `data[key]` raised for a required key

  datatype Result<+T> = Ok(value: T) | Err(error: Error)

  /** A creation time; its clock and its ISO formatting are not modelled. */
  type Timestamp = int

  /** One row of the snippet table, without its id (the id is the key). */
  datatype Snippet = Snippet(
    title: string,
    code: string,
    language: string,
    tags: string,        // the comma-joined tag list
    createdAt: Timestamp)

  /** A JSON request body: each key is either absent or holds its value. */
  datatype Body = Body(
    title: Option<string>,
    code: Option<string>,
    language: Option<string>,
    tags: Option<seq<string>>)

  /** The body with none of the four keys. */
  const EMPTY_BODY := Body(None, None, None, None)

  /** The JSON object a read returns for one row. */
  datatype View = View(
    id: int,
    title: string,
    code: string,
    language: string,
    tags: seq<string>,
    createdAt: Timestamp)

  /**
   * The row a create stores: language defaults to "", tags to the empty
   * list (stored as ""); a given tag list is stored so that it reads back
   * unchanged exactly when it is storable.
   */
  function NewSnippet(b: Body, now: Timestamp): (r: Snippet)
    requires b.title.Some? && b.code.Some?
    ensures b.language.None? ==> r.language == ""
    ensures b.tags.None? ==> r.tags == ""
    ensures b.tags.Some? ==>
              (TagCodec.Decode(r.tags) == b.tags.value <==> TagCodec.Storable(b.tags.value))
    ensures r.createdAt == now
  {
    TagCodec.DecodeJoin(b.tags.GetOr([]));
    Snippet(b.title.value, b.code.value, b.language.GetOr(""),
            TagCodec.Join(b.tags.GetOr([])), now)
  }

  /**
   * How a row is shown: the tag column is read back as a list, and that
   * list determines the stored column, which is its join.
   */
  function Present(id: int, s: Snippet): (v: View)
    ensures TagCodec.Join(v.tags) == s.tags
    ensures v.tags == [] <==> s.tags == ""
  {
    TagCodec.JoinDecode(s.tags);
    View(id, s.title, s.code, s.language, TagCodec.Decode(s.tags), s.createdAt)
  }

  /**
   * The partial update: each key present in the body overwrites its field,
   * tags are re-joined only when the key is present, the creation time is
   * never touched.
   */
  function Merge(s: Snippet, b: Body): (r: Snippet)
    ensures r.createdAt == s.createdAt
    ensures b.tags.None? ==> r.tags == s.tags
    ensures b.tags.Some? && TagCodec.Storable(b.tags.value) ==>
              TagCodec.Decode(r.tags) == b.tags.value
  {
    TagCodec.DecodeJoin(b.tags.GetOr([]));
    Snippet(b.title.GetOr(s.title),
            b.code.GetOr(s.code),
            b.language.GetOr(s.language),
            if b.tags.Some? then TagCodec.Join(b.tags.value) else s.tags,
            s.createdAt)
  }

  /** A body with none of the keys changes nothing. */
  lemma MergeEmpty(s: Snippet)
    ensures Merge(s, EMPTY_BODY) == s
  {
  }

  /** Applying the same update twice is applying it once. */
  lemma MergeIdempotent(s: Snippet, b: Body)
    ensures Merge(Merge(s, b), b) == Merge(s, b)
  {
  }

  /**
   * What a read shows after an update, for every body: the body's value
   * for every key it holds, the old value for every key it lacks, and the
   * old creation time. New tags read back as given exactly when they are
   * storable.
   */
  lemma PresentMerge(id: int, s: Snippet, b: Body)
    ensures Present(id, Merge(s, b)).title == b.title.GetOr(s.title)
    ensures Present(id, Merge(s, b)).code == b.code.GetOr(s.code)
    ensures Present(id, Merge(s, b)).language == b.language.GetOr(s.language)
    ensures Present(id, Merge(s, b)).createdAt == s.createdAt
    ensures b.tags.None? ==> Present(id, Merge(s, b)).tags == Present(id, s).tags
    ensures b.tags.Some? ==>
              (Present(id, Merge(s, b)).tags == b.tags.value <==> TagCodec.Storable(b.tags.value))
  {
    TagCodec.DecodeJoin(b.tags.GetOr([]));
  }

  /**
   * What a read shows after a create, for every body holding `title` and
   * `code`: the given title and code, the language or "", the creation
   * time, and `[]` without tags. Given tags read back as given exactly
   * when they are storable.
   */
  lemma PresentNew(id: int, b: Body, now: Timestamp)
    requires b.title.Some? && b.code.Some?
    ensures Present(id, NewSnippet(b, now)).id == id
    ensures Present(id, NewSnippet(b, now)).title == b.title.value
    ensures Present(id, NewSnippet(b, now)).code == b.code.value
    ensures Present(id, NewSnippet(b, now)).language == b.language.GetOr("")
    ensures Present(id, NewSnippet(b, now)).createdAt == now
    ensures b.tags.None? ==> Present(id, NewSnippet(b, now)).tags == []
    ensures b.tags.Some? ==>
              (Present(id, NewSnippet(b, now)).tags == b.tags.value <==> TagCodec.Storable(b.tags.value))
  {
  }
}
