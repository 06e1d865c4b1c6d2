# Snippet store: a verified model of the snippet CRUD service

`app.py` is a small JSON service that stores code snippets in one table. Each
snippet has a title, a code body, a language, a tag list and a creation time.
The service has five operations: create, list with filters, get, update and
delete by id. With the web framework and the database taken away, its own
logic is what this project models:

- **Tag codec** (`tag_codec.dfy`, module `TagCodec`). A tag list is stored
  in one text column as `','.join(tags)`. It is read back with
  `s.split(',')`, and an empty column reads back as `[]`. `Split` follows
  Python's `str.split` with an explicit separator, so `"".split(',')` is
  `[""]` and `"a,,b"` splits into three pieces.
- **Records** (`records.dfy`, module `Records`). The stored row `Snippet`,
  the request body `Body`, the JSON object a read returns (`View`, built by
  `Present`), and the outcomes `Result`/`Error`. In a body, each key is
  either absent (`None`) or present with its value. `Merge` is the partial
  update of lines 91-96.
- **List filter** (`list_filter.dfy`, module `ListFilter`). `Matches` is the
  AND of two optional filters. The first is an exact language comparison.
  The second asks whether the tag occurs as a substring of the stored tag
  string. A parameter that is absent or `""` applies no filter, because the
  source tests its truth value.
- **Table** (`snippet_table.dfy`, module `SnippetStore`). Class
  `SnippetTable` has the field `rows: map<int, Snippet>` and the field
  `order: seq<int>`. `order` holds the ids in storage order, ascending. Its
  methods `Create`, `List`, `Get`, `Update` and `Delete` are the five
  handlers. `Create`, `Get`, `Update` and `Delete` return a `Result`: `Ok`,
  or an error that is one of `NotFound`, `MalformedBody` or `MissingKey`.
  `List` has no error outcome and returns the shown rows directly.
  `Create`, `Update` and `Delete` modify the table, and each one states the
  whole new table in terms of the old one. `Get` and `List` have no
  `modifies` clause, so they leave the table unchanged.

Decisions taken from the code:

- **Ids.** The `id` column is an SQLite integer primary key. A new row gets
  the largest id in the table plus one, or 1 in an empty table (`NextId`).
  So a new id is always above every id in use, and it goes at the end of
  the storage order. A plain `query.all()` returns rows in that order.
- **Create order of errors.** Create fails on a body that is not a JSON
  object. It then looks up `title` and after that `code`, so a body missing
  both fails on `title`. Nothing is stored on any failure, because the
  lookups come before `db.session.add`.
- **Update order of errors.** Update looks up the id before it reads the
  body. A missing id therefore gives not-found even when the body is bad.
- **Scope.** The model follows `app.py`. That file has no title/code
  validation or trimming, no users, no authentication, no categories and no
  last-updated time, so the model has none of these either.

## Model

| member | source | states |
|---|---|---|
| `TagCodec.Join` | app.py:28 | `','.join(tags)`: the empty list gives `""`; otherwise the length is the summed tag lengths plus one separator between each two neighbours |
| `TagCodec.Decode` | app.py:67 | `s.split(',') if s else []`: only `""` reads back as `[]`, and no tag read back holds a comma (the same expression is at line 81) |
| `TagCodec.Split` | app.py:67 | `str.split(',')` always gives at least one piece, and no piece holds a comma |
| `TagCodec.SplitJoin` | app.py:28 | splitting the joined string gives back any non-empty tag list whose tags hold no comma |
| `TagCodec.JoinSplit` | app.py:67 | joining the pieces of any string gives that string back |
| `TagCodec.JoinEmpty` | app.py:28 | the joined string is empty exactly for `[]` and `[""]` |
| `TagCodec.DecodeJoin` | app.py:81 | storing a tag list (line 28) and reading it back (lines 67, 81) gives the same list if and only if no tag holds a comma and the list is not `[""]`; `[]` is stored as `""` and reads back as `[]` |
| `TagCodec.JoinDecode` | app.py:96 | a stored tag string that is read back and stored again is unchanged |
| `TagCodec.LossyCases` | app.py:28 | the lossy cases written out: `[""]` reads back as `[]`, and `["a,b"]` reads back as `["a", "b"]` |
| `Records.NewSnippet` | app.py:28-35 | the row a create builds: language `""` and tags `""` when those keys are absent, the creation time `now`, and given tags that read back unchanged exactly when they are storable |
| `Records.Present` | app.py:76-83 | the JSON object of one row (the same shape as lines 62-69): the tag list shown is the read-back of the column, it is empty exactly when the column is `""`, and joining it gives the column back |
| `Records.Merge` | app.py:91-96 | the partial update of one row: the creation time is kept, the tag column is kept when `tags` is absent, storable new tags read back unchanged |
| `Records.MergeEmpty` | app.py:91-96 | an update body with none of `title`, `code`, `language`, `tags` leaves the row identical |
| `Records.MergeIdempotent` | app.py:91-96 | applying the same update body twice gives the same row as applying it once |
| `Records.PresentMerge` | app.py:91-96 | for every update body, a read afterwards shows the body's title, code and language where present and the old ones where absent, and the old creation time; absent tags read back as before, and present tags read back as given exactly when they are storable |
| `Records.PresentNew` | app.py:28-35 | a created row reads back with its id, the given title and code, the given language or `""`, and the creation time; absent tags read back as `[]`, and given tags read back as given exactly when they are storable |
| `ListFilter.IsSubstring` | app.py:58 | the containment test that `Snippet.tags.contains(tag)` performs: the empty tag is contained in every string, and a contained tag is no longer than the string |
| `ListFilter.Matches` | app.py:55-58 | a row passes the list filters exactly when an active language parameter equals its language and an active tag parameter sits at some position of its tag string; a parameter is active when present and non-empty |
| `ListFilter.IsSubstringAt` | app.py:58 | the tag search succeeds exactly when the tag sits at some position of the stored string |
| `ListFilter.TagFilterComplete` | app.py:57-58 | a row whose read-back tag list contains `t` passes the tag filter `t` (no false negatives) |
| `ListFilter.TagFilterOverApproximates` | app.py:58 | false positives: filter `py` passes a row tagged only `python`, and filter `a,b` passes a row tagged `a` and `b` |
| `ListFilter.InactiveFiltersPassAll` | app.py:55-57 | an absent or empty language and tag parameter let every row through |
| `ListFilter.LanguageFilterExact` | app.py:55-56 | a non-empty language parameter passes a row exactly when the row's language is equal to it |
| `SnippetStore.SnippetTable.constructor` | app.py:19-20 | a new table is empty and satisfies the table invariant |
| `SnippetStore.SnippetTable.NextId` | app.py:11 | the id for the next insert is at least 1, is not in use, and is above every id in use; it is one more than the largest id, and 1 in an empty table |
| `SnippetStore.SnippetTable.Create` | app.py:24-44 | no JSON object gives an error; a missing `title`, then a missing `code`, gives a missing-key error; on error nothing changes; on success exactly one row is added under the id `NextId` gave before the insert, which is new and above all others, with language `""` and tags `""` by default, and every other row is unchanged |
| `SnippetStore.SnippetTable.List` | app.py:48-69 | the result holds exactly the rows that pass both filters, each once, in ascending id order, each shown with its tags read back |
| `SnippetStore.SnippetTable.Get` | app.py:73-83 | a stored id gives the row shown with its tags read back; a missing id gives not-found |
| `SnippetStore.SnippetTable.Update` | app.py:87-100 | a missing id gives not-found and changes nothing; no JSON object gives an error and changes nothing; otherwise only that row changes, to the merge of the body into it, and the ids and their order stay |
| `SnippetStore.SnippetTable.Delete` | app.py:104-110 | a missing id gives not-found and changes nothing; otherwise exactly that id is removed from the rows and from the storage order, the table shrinks by one, and every other row keeps its record |
| `SnippetStore.CreateThenGet` | app.py:30-35 | a create followed by a get of the returned id shows the given title and code, the given language or `""`, and the creation time; absent tags show as `[]`, and given tags show as given exactly when they are storable |
| `SnippetStore.UpdateWithEmptyBody` | app.py:91-96 | an update with a JSON object holding none of the four keys succeeds and leaves the table unchanged |

## Left out

- HTTP routing, `request.get_json`, `jsonify` and status codes are not modelled. Operations return `Ok` or an `Error`. `NotFound` is the 404. `MalformedBody` stands for every way `get_json` can fail to give an object: a 400, a 415, or `None` and then an `AttributeError`. `MissingKey` is the `KeyError` that the framework turns into a server error.
- The SQLAlchemy session, `commit` and the SQLite engine are replaced by the `rows` and `order` fields. Each operation is one atomic step, and there is no concurrency.
- `Snippet.tags.contains(tag)` compiles to SQL `LIKE '%tag%'`. The model uses plain, case-sensitive substring containment. It therefore leaves out the `%` and `_` wildcards inside the tag and SQLite's case-insensitive matching of ASCII letters.
- Timestamps: `created_at` is the `now` parameter of `Create`. `datetime.utcnow` and `isoformat` are not modelled.
- The column lengths `String(100)`, `String(50)` and `String(200)` are not modelled. SQLite does not enforce them, and the code does not check them.
- JSON values of the wrong type are not modelled. This covers `null`, a non-string title, and a `tags` value that is not a list of strings. A body holds only absent keys or well-typed values. A `NULL` tag column is not modelled either, because this code never writes one.
- Ids are unbounded integers. SQLite's fallback when the largest id is 2^63-1 (a random unused id) is not modelled.
- Flask's `<int:...>` route converter refuses negative ids before a handler runs. In the model such an id simply gives not-found, because every stored id is at least 1.
- `app.run(debug=True)` and the table creation at start-up are not modelled beyond the empty-table constructor.
