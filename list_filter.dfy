/**
 * The filter of the list operation: an optional exact language match and
 * an optional tag match, where the tag is looked for as a substring of the
 * stored comma-joined tag string. A filter that is absent or empty applies
 * no restriction.
 */
module ListFilter {
  import TagCodec
  import opened Records

  predicate IsPrefix(t: string, s: string)
  {
    |t| <= |s| && s[..|t|] == t
  }

  /** `t` occurs somewhere in `s`, searched from the left. */
  predicate IsSubstring(t: string, s: string)
    ensures t == [] ==> IsSubstring(t, s)
    ensures IsSubstring(t, s) ==> |t| <= |s|
    decreases |s|
  {
    IsPrefix(t, s) || (s != [] && IsSubstring(t, s[1..]))
  }

  /** `t` sits in `s` starting at position `i`. */
  predicate OccursAt(t: string, s: string, i: int)
  {
    0 <= i <= |s| - |t| && s[i..i + |t|] == t
  }

  /** The search agrees with "`t` sits at some position of `s`". */
  lemma {:induction false} IsSubstringAt(t: string, s: string)
    ensures IsSubstring(t, s) <==> exists i :: OccursAt(t, s, i)
    decreases |s|
  {
    if IsPrefix(t, s) {
      assert OccursAt(t, s, 0);
    }
    if s != [] {
      IsSubstringAt(t, s[1..]);
      if IsSubstring(t, s[1..]) {
        var i :| OccursAt(t, s[1..], i);
        assert s[i + 1..i + 1 + |t|] == s[1..][i..i + |t|];
        assert OccursAt(t, s, i + 1);
      }
      if exists i :: OccursAt(t, s, i) {
        var i :| OccursAt(t, s, i);
        if i > 0 {
          assert s[1..][i - 1..i - 1 + |t|] == s[i..i + |t|];
          assert OccursAt(t, s[1..], i - 1);
        }
      }
    } else if exists i :: OccursAt(t, s, i) {
      var i :| OccursAt(t, s, i);
      assert s[..|t|] == s[i..i + |t|];
    }
  }

  /** A query parameter restricts only when it is present and non-empty. */
  predicate Active(p: Option<string>)
  {
    p.Some? && p.value != ""
  }

  /**
   * The row passes both filters of the list operation: the language is
   * equal to an active language parameter, and an active tag parameter
   * sits at some position of the stored tag string.
   */
  predicate Matches(s: Snippet, language: Option<string>, tag: Option<string>)
    ensures Matches(s, language, tag) <==>
              && (Active(language) ==> s.language == language.value)
              && (Active(tag) ==> exists i :: OccursAt(tag.value, s.tags, i))
  {
    IsSubstringAt(tag.GetOr(""), s.tags);
    (Active(language) ==> s.language == language.value) &&
    (Active(tag) ==> IsSubstring(tag.value, s.tags))
  }

  /** Every piece of a split string occurs in that string. */
  lemma {:induction false} PiecesOccur(s: string)
    ensures forall p :: p in TagCodec.Split(s) ==> IsSubstring(p, s)
  {
    if s != [] {
      var rest := TagCodec.Split(s[1..]);
      PiecesOccur(s[1..]);
      FirstPieceIsPrefix(s[1..]);
      forall p | p in TagCodec.Split(s)
        ensures IsSubstring(p, s)
      {
        if p in rest {
          assert IsSubstring(p, s[1..]);
        } else if p != "" {
          assert s[0] != TagCodec.SEP && p == [s[0]] + rest[0];
          assert s[..|p|] == [s[0]] + s[1..][..|rest[0]|];
        }
      }
    }
  }

  /** The first piece of a split string is a prefix of it. */
  lemma {:induction false} FirstPieceIsPrefix(s: string)
    ensures IsPrefix(TagCodec.Split(s)[0], s)
  {
    if s != [] && s[0] != TagCodec.SEP {
      FirstPieceIsPrefix(s[1..]);
      var rest := TagCodec.Split(s[1..]);
      assert s[..1 + |rest[0]|] == [s[0]] + s[1..][..|rest[0]|];
    }
  }

  /**
   * No false negatives: a row carrying the tag `t` passes the tag filter
   * `t`.
   */
  lemma TagFilterComplete(s: Snippet, t: string)
    requires t in TagCodec.Decode(s.tags)
    ensures Matches(s, None, Some(t))
  {
    PiecesOccur(s.tags);
  }

  /**
   * False positives: the filter `py` passes a row tagged only `python`,
   * and the filter `a,b` passes a row tagged `a` and `b`.
   */
  lemma TagFilterOverApproximates(title: string, code: string, lang: string, now: Timestamp)
    ensures var s := Snippet(title, code, lang, TagCodec.Join(["python"]), now);
      "py" !in TagCodec.Decode(s.tags) && Matches(s, None, Some("py"))
    ensures var s := Snippet(title, code, lang, TagCodec.Join(["a", "b"]), now);
      "a,b" !in TagCodec.Decode(s.tags) && Matches(s, None, Some("a,b"))
  {
  }

  /** An absent and an empty parameter both let every row through. */
  lemma InactiveFiltersPassAll(s: Snippet, language: Option<string>, tag: Option<string>)
    requires !Active(language) && !Active(tag)
    ensures Matches(s, language, tag)
  {
  }

  /**
   * The language filter is an exact, case-sensitive comparison: a present,
   * non-empty parameter passes a row exactly when the languages are equal.
   */
  lemma LanguageFilterExact(s: Snippet, language: string)
    requires language != ""
    ensures Matches(s, Some(language), None) <==> s.language == language
  {
  }
}
