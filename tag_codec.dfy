/**
 * The tag codec of the snippet service: a list of tags is stored in one
 * text column as the comma-joined string, and read back by splitting that
 * string on commas, an empty column reading back as the empty list.
 */
module TagCodec {

  /** The separator written between two tags. */
  const SEP: char := ','

  /** A list of tags that survives being stored and read back. */
  predicate Storable(tags: seq<string>)
  {
    (forall t :: t in tags ==> SEP !in t) && tags != [""]
  }

  /** The summed length of the tags. */
  function TotalLength(tags: seq<string>): nat
  {
    if tags == [] then 0 else |tags[0]| + TotalLength(tags[1..])
  }

  /**
   * Python's `','.join(tags)`: the tags with one separator between each
   * two neighbours, and nothing for the empty list.
   */
  function Join(tags: seq<string>): (s: string)
    ensures tags == [] ==> s == ""
    ensures tags != [] ==> |s| == TotalLength(tags) + |tags| - 1
  {
    if tags == [] then ""
    else if |tags| == 1 then tags[0]
    else tags[0] + [SEP] + Join(tags[1..])
  }

  /**
   * Python's `s.split(',')`: the pieces between consecutive separators,
   * never an empty list (the empty string splits into one empty piece),
   * and no piece holds a separator.
   */
  function Split(s: string): (pieces: seq<string>)
    ensures |pieces| >= 1
    ensures forall p :: p in pieces ==> SEP !in p
  {
    if s == [] then [""]
    else
      var rest := Split(s[1..]);
      if s[0] == SEP then [""] + rest
      else [[s[0]] + rest[0]] + rest[1..]
  }

  /**
   * The read side: `s.split(',') if s else []`. Only the empty string
   * reads back as the empty list, and no tag read back holds a separator.
   */
  function Decode(s: string): (tags: seq<string>)
    ensures tags == [] <==> s == ""
    ensures forall t :: t in tags ==> SEP !in t
  {
    if s == "" then [] else Split(s)
  }

  /** A string without a separator is one piece. */
  lemma {:induction false} SplitSingle(t: string)
    requires SEP !in t
    ensures Split(t) == [t]
  {
    if t != [] {
      assert t[0] in t;
      SplitSingle(t[1..]);
      assert [t[0]] + t[1..] == t;
    }
  }

  /** Splitting stops at the first separator. */
  lemma {:induction false} SplitAfterPiece(a: string, b: string)
    requires SEP !in a
    ensures Split(a + [SEP] + b) == [a] + Split(b)
  {
    var s := a + [SEP] + b;
    if a == [] {
      assert s[0] == SEP && s[1..] == b;
    } else {
      assert s[0] == a[0] && s[1..] == a[1..] + [SEP] + b;
      SplitAfterPiece(a[1..], b);
      assert [a[0]] + a[1..] == a;
    }
  }

  /** Splitting the join gives the list back when no tag holds a separator. */
  lemma {:induction false} SplitJoin(tags: seq<string>)
    requires tags != []
    requires forall t :: t in tags ==> SEP !in t
    ensures Split(Join(tags)) == tags
  {
    if |tags| == 1 {
      SplitSingle(tags[0]);
    } else {
      assert tags[0] in tags;
      SplitAfterPiece(tags[0], Join(tags[1..]));
      assert forall t :: t in tags[1..] ==> t in tags;
      SplitJoin(tags[1..]);
      assert [tags[0]] + tags[1..] == tags;
    }
  }

  /** Joining the pieces of any string gives that string back. */
  lemma {:induction false} JoinSplit(s: string)
    ensures Join(Split(s)) == s
  {
    if s != [] {
      var rest := Split(s[1..]);
      JoinSplit(s[1..]);
      if s[0] == SEP {
        assert ([""] + rest)[1..] == rest;
      } else {
        var pieces := [[s[0]] + rest[0]] + rest[1..];
        assert pieces[1..] == rest[1..];
        if |rest| > 1 {
          assert Join(rest) == rest[0] + [SEP] + Join(rest[1..]);
        }
      }
    }
  }

  /** The join is empty exactly for the lists `[]` and `[""]`. */
  lemma JoinEmpty(tags: seq<string>)
    ensures Join(tags) == "" <==> tags == [] || tags == [""]
  {
  }

  /**
   * The round trip through the column: reading back the stored string
   * gives the original list exactly when no tag holds a separator and the
   * list is not `[""]`. The empty list is stored as "" and read back as [].
   */
  lemma {:induction false} DecodeJoin(tags: seq<string>)
    ensures Decode(Join(tags)) == tags <==> Storable(tags)
  {
    JoinEmpty(tags);
    if tags != [] && tags != [""] {
      if forall t :: t in tags ==> SEP !in t {
        SplitJoin(tags);
      } else {
        var t :| t in tags && SEP in t;
        assert t !in Split(Join(tags));
      }
    }
  }

  /** A stored string is unchanged by reading it back and storing it again. */
  lemma JoinDecode(s: string)
    ensures Join(Decode(s)) == s
  {
    if s != "" {
      JoinSplit(s);
    }
  }

  /** The two lossy cases, written out. */
  lemma LossyCases()
    ensures Decode(Join([""])) == []
    ensures Decode(Join(["a,b"])) == ["a", "b"]
  {
    assert Join(["a,b"]) == "a,b";
    SplitAfterPiece("a", "b");
    SplitSingle("b");
  }
}
