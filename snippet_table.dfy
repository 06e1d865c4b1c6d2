/**
 * The snippet table and the five operations on it: create, list with
 * filters, get, update and delete by id. The table is a map from id to
 * row; beside it the table keeps its ids in storage order, which is the
 * order a plain `SELECT` returns them in.
 */
module SnippetStore {
  import TagCodec
  import opened Records
  import opened ListFilter

  /** Strictly ascending ids. */
  predicate Increasing(ids: seq<int>)
  {
    forall i, j :: 0 <= i < j < |ids| ==> ids[i] < ids[j]
  }

  /** The ids of a list of shown rows, in the order shown. */
  function IdsOf(views: seq<View>): seq<int>
  {
    seq(|views|, i requires 0 <= i < |views| => views[i].id)
  }

  /** The ids of `ids` other than `x`, in the same order. */
  function Without(ids: seq<int>, x: int): (rest: seq<int>)
    ensures forall y :: y in rest <==> y in ids && y != x
    ensures Increasing(ids) ==> Increasing(rest)
  {
    if ids == [] then []
    else if ids[0] == x then Without(ids[1..], x)
    else
      var tail := Without(ids[1..], x);
      assert Increasing(ids) ==> Increasing([ids[0]] + tail) by {
        if Increasing(ids) {
          assert Increasing(ids[1..]);
          forall y | y in tail
            ensures ids[0] < y
          {
            var j :| 0 <= j < |ids[1..]| && ids[1..][j] == y;
            assert ids[j + 1] == y;
          }
          var r := [ids[0]] + tail;
          forall i, j | 0 <= i < j < |r|
            ensures r[i] < r[j]
          {
            assert r[j] == tail[j - 1] && r[j] in tail;
          }
        }
      }
      [ids[0]] + tail
  }

  class SnippetTable {
    /** The rows, by id. */
    var rows: map<int, Snippet>
    /** The ids of the rows in storage order. */
    var order: seq<int>

    /**
     * The table invariant: the storage order lists every id once, in
     * ascending order, and ids are positive.
     */
    ghost predicate Valid()
      reads this
    {
      && Increasing(order)
      && (forall k :: k in rows <==> k in order)
      && (forall k :: k in rows ==> 1 <= k)
    }

    /** A freshly created, empty table. */
    constructor ()
      ensures Valid()
      ensures rows == map[] && order == []
    {
      rows := map[];
      order := [];
    }

    /**
     * The id the next insert receives: one more than the largest id in the
     * table, or 1 in an empty table. It is new and above every id in use.
     */
    function NextId(): (id: int)
      reads this
      requires Valid()
      ensures 1 <= id
      ensures id !in rows
      ensures forall k :: k in rows ==> k < id
      ensures rows != map[] ==> id - 1 in rows
      ensures rows == map[] ==> id == 1
    {
      if order == [] then 1
      else
        assert order[|order| - 1] in order && order[|order| - 1] in rows;
        order[|order| - 1] + 1
    }

    /**
     * Create: the body must be a JSON object holding `title` and `code`
     * (looked up in that order); on success exactly one row is added under
     * a new id, above every id in use, and every other row is unchanged.
     */
    method Create(body: Option<Body>, now: Timestamp) returns (r: Result<int>)
      requires Valid()
      modifies this
      ensures Valid()
      ensures body.None? ==> r == Err(MalformedBody)
      ensures body.Some? && body.value.title.None? ==> r == Err(MissingKey("title"))
      ensures body.Some? && body.value.title.Some? && body.value.code.None? ==>
                r == Err(MissingKey("code"))
      ensures body.Some? && body.value.title.Some? && body.value.code.Some? ==> r.Ok?
      ensures r.Err? ==> rows == old(rows) && order == old(order)
      ensures r.Ok? ==>
                && body.Some? && body.value.title.Some? && body.value.code.Some?
                && r.value == old(NextId())
                && r.value !in old(rows)
                && (forall k :: k in old(rows) ==> k < r.value)
                && rows == old(rows)[r.value := NewSnippet(body.value, now)]
                && |rows| == |old(rows)| + 1
                && order == old(order) + [r.value]
    {
      if body.None? {
        return Err(MalformedBody);
      }
      var b := body.value;
      if b.title.None? {
        return Err(MissingKey("title"));
      }
      if b.code.None? {
        return Err(MissingKey("code"));
      }
      var id := NextId();
      rows := rows[id := NewSnippet(b, now)];
      order := order + [id];
      r := Ok(id);
    }

    /**
     * List: exactly the rows that pass both filters, each shown once, in
     * ascending id order.
     */
    method List(language: Option<string>, tag: Option<string>) returns (views: seq<View>)
      requires Valid()
      ensures Increasing(IdsOf(views))
      ensures forall k :: k in IdsOf(views) <==> k in rows && Matches(rows[k], language, tag)
      ensures forall v :: v in views ==> v.id in rows && v == Present(v.id, rows[v.id])
    {
      views := [];
      var i := 0;
      while i < |order|
        invariant 0 <= i <= |order|
        invariant Increasing(IdsOf(views))
        invariant forall k :: k in IdsOf(views) <==> k in order[..i] && Matches(rows[k], language, tag)
        invariant forall v :: v in views ==> v.id in rows && v == Present(v.id, rows[v.id])
      {
        var k := order[i];
        if Matches(rows[k], language, tag) {
          var v := Present(k, rows[k]);
          assert forall j :: j in IdsOf(views) ==> j < k;
          assert IdsOf(views + [v]) == IdsOf(views) + [k];
          views := views + [v];
        }
        assert order[..i + 1] == order[..i] + [k];
        i := i + 1;
      }
      assert order[..i] == order;
    }

    /** Get: the row shown, or not-found when the id is not in the table. */
    method Get(id: int) returns (r: Result<View>)
      ensures id in rows ==> r == Ok(Present(id, rows[id]))
      ensures id !in rows ==> r == Err(NotFound)
    {
      if id !in rows {
        return Err(NotFound);
      }
      r := Ok(Present(id, rows[id]));
    }

    /**
     * Update: not-found when the id is missing, checked before the body is
     * read; otherwise the keys present in the body overwrite their fields
     * of that one row. Every other row, the ids and their order stay.
     */
    method Update(id: int, body: Option<Body>) returns (r: Result<()>)
      requires Valid()
      modifies this
      ensures Valid()
      ensures id !in old(rows) ==> r == Err(NotFound)
      ensures id in old(rows) && body.None? ==> r == Err(MalformedBody)
      ensures id in old(rows) && body.Some? ==> r == Ok(())
      ensures r.Err? ==> rows == old(rows)
      ensures r.Ok? ==> rows == old(rows)[id := Merge(old(rows)[id], body.value)]
      ensures rows.Keys == old(rows).Keys && order == old(order)
      ensures forall k :: k in rows && k != id ==> rows[k] == old(rows)[k]
    {
      if id !in rows {
        return Err(NotFound);
      }
      if body.None? {
        return Err(MalformedBody);
      }
      var b := body.value;
      var s := rows[id];
      s := s.(title := b.title.GetOr(s.title));
      s := s.(code := b.code.GetOr(s.code));
      s := s.(language := b.language.GetOr(s.language));
      if b.tags.Some? {
        s := s.(tags := TagCodec.Join(b.tags.value));
      }
      rows := rows[id := s];
      r := Ok(());
    }

    /**
     * Delete: not-found when the id is missing; otherwise exactly that row
     * is removed and every other row is unchanged.
     */
    method Delete(id: int) returns (r: Result<()>)
      requires Valid()
      modifies this
      ensures Valid()
      ensures id !in old(rows) ==> r == Err(NotFound) && rows == old(rows) && order == old(order)
      ensures id in old(rows) ==> r == Ok(()) && rows == old(rows) - {id}
      ensures id in old(rows) ==> order == Without(old(order), id)
      ensures id in old(rows) ==> |rows| == |old(rows)| - 1
      ensures forall k :: k in old(rows) && k != id ==> k in rows && rows[k] == old(rows)[k]
    {
      if id !in rows {
        return Err(NotFound);
      }
      rows := rows - {id};
      order := Without(order, id);
      r := Ok(());
    }
  }

  /**
   * A create followed by a get of the returned id shows the given title,
   * code and language (or ""), and no tags when none were given. Given
   * tags come back as given exactly when they are storable.
   */
  method CreateThenGet(t: SnippetTable, b: Body, now: Timestamp) returns (v: View)
    requires t.Valid()
    requires b.title.Some? && b.code.Some?
    modifies t
    ensures v.title == b.title.value && v.code == b.code.value
    ensures v.language == b.language.GetOr("") && v.createdAt == now
    ensures b.tags.None? ==> v.tags == []
    ensures b.tags.Some? ==> (v.tags == b.tags.value <==> TagCodec.Storable(b.tags.value))
  {
    var created := t.Create(Some(b), now);
    var got := t.Get(created.value);
    PresentNew(created.value, b, now);
    v := got.value;
  }

  /**
   * An update whose body is a JSON object with none of the four keys
   * succeeds and leaves the table as it was.
   */
  method UpdateWithEmptyBody(t: SnippetTable, id: int) returns (r: Result<()>)
    requires t.Valid() && id in t.rows
    modifies t
    ensures r == Ok(())
    ensures t.rows == old(t.rows) && t.order == old(t.order)
  {
    MergeEmpty(t.rows[id]);
    r := t.Update(id, Some(EMPTY_BODY));
  }
}
