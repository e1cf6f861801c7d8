/**
 The field indexes of one generation as the engine keeps them: built from the documents at the
 first filtered read, and from then on updated by every write instead of rebuilt.
 */
module DocumentIndexes {
  import opened Prelude
  import opened Filters
  import opened FieldIndexes

  type Documents = map<DocId, Metadata>
  type Fields = map<string, Postings>

  function IndexIn(fields: Fields, field: string): Postings {
    if field in fields then fields[field] else EMPTY_POSTINGS
  }

  // ----- What the indexes should be -----

  /** The fields some document carries. */
  ghost function FieldsOf(docs: Documents): set<string> {
    set d, f | d in docs && f in docs[d] :: f
  }

  ghost function ValuesOf(docs: Documents, field: string): set<string> {
    set d | d in docs && field in docs[d] :: docs[d][field]
  }

  ghost function Carriers(docs: Documents, field: string, v: string): set<DocId> {
    set d | d in docs && field in docs[d] && docs[d][field] == v
  }

  ghost function PostingsFor(docs: Documents, field: string): Postings {
    Postings(set d | d in docs && field in docs[d], map v | v in ValuesOf(docs, field) :: Carriers(docs, field, v))
  }

  /** The indexes built from the documents alone. */
  ghost function IndexesOf(docs: Documents): Fields {
    map f | f in FieldsOf(docs) :: PostingsFor(docs, f)
  }

  /** Every field is indexed as it should be, a missing index standing for an empty one. */
  ghost predicate Exact(fields: Fields, docs: Documents) {
    forall f :: IndexIn(fields, f) == PostingsFor(docs, f)
  }

  /** An exact index over only the fields in use is the one built from the documents. */
  lemma ExactIsBuilt(fields: Fields, docs: Documents)
    requires Exact(fields, docs)
    ensures FieldsOf(docs) <= fields.Keys
    ensures fields.Keys <= FieldsOf(docs) ==> fields == IndexesOf(docs)
  {
    forall f | f in FieldsOf(docs) ensures f in fields {
      var d :| d in docs && f in docs[d];
      assert IndexIn(fields, f) == PostingsFor(docs, f);
      assert d in PostingsFor(docs, f).docs;
    }
    forall f | f in fields ensures fields[f] == PostingsFor(docs, f) {
      assert IndexIn(fields, f) == PostingsFor(docs, f);
    }
  }

  /** The indexes the filter planner works on are those of its documents. */
  lemma ExactIsValid(parse: Parser, fields: Fields, docs: Documents)
    requires Exact(fields, docs)
    ensures Corpus(parse, docs, fields).Valid()
  {
    var c := Corpus(parse, docs, fields);
    forall f ensures Coherent(c.IndexOf(f), docs, f) {
      assert c.IndexOf(f) == IndexIn(fields, f) == PostingsFor(docs, f);
    }
  }

  /** Coherent postings without empty entries are determined by the documents. */
  lemma CoherentUnique(ix: Postings, docs: Documents, field: string)
    requires Coherent(ix, docs, field) && forall v | v in ix.valueDocs :: ix.valueDocs[v] != {}
    ensures ix == PostingsFor(docs, field)
  {
    forall v | v in ix.valueDocs ensures v in ValuesOf(docs, field) && ix.valueDocs[v] == Carriers(docs, field, v) {
      var d :| d in ix.valueDocs[v];
      assert docs[d][field] == v;
    }
    forall v | v in ValuesOf(docs, field) ensures v in ix.valueDocs {
      var d :| d in docs && field in docs[d] && docs[d][field] == v;
    }
    assert ix.valueDocs == PostingsFor(docs, field).valueDocs;
  }

  lemma PostingsCoherent(docs: Documents, field: string)
    ensures Coherent(PostingsFor(docs, field), docs, field)
    ensures forall v | v in PostingsFor(docs, field).valueDocs :: PostingsFor(docs, field).valueDocs[v] != {}
  {
    var ix := PostingsFor(docs, field);
    forall v | v in ix.valueDocs ensures ix.valueDocs[v] != {} {
      var d :| d in docs && field in docs[d] && docs[d][field] == v;
      assert d in Carriers(docs, field, v);
    }
  }

  // ----- One document -----

  /** A document that does not carry the field does not show in its postings. */
  lemma PostingsElsewhere(docs: Documents, docs': Documents, field: string)
    requires forall d :: (d in docs && field in docs[d]) <==> (d in docs' && field in docs'[d])
    requires forall d | d in docs && field in docs[d] :: docs[d][field] == docs'[d][field]
    ensures PostingsFor(docs, field) == PostingsFor(docs', field)
  {
    PostingsCoherent(docs, field);
    assert Coherent(PostingsFor(docs, field), docs', field);
    CoherentUnique(PostingsFor(docs, field), docs', field);
  }

  lemma InsertedExact(docs: Documents, field: string, d: DocId, m: Metadata)
    requires d !in docs && field in m
    ensures Inserted(PostingsFor(docs, field), d, m[field]) == PostingsFor(docs[d := m], field)
  {
    PostingsCoherent(docs, field);
    InsertedCoherent(PostingsFor(docs, field), docs, field, d, m);
    CoherentUnique(Inserted(PostingsFor(docs, field), d, m[field]), docs[d := m], field);
  }

  lemma RemovedExact(docs: Documents, field: string, d: DocId)
    requires d in docs && field in docs[d]
    ensures Removed(PostingsFor(docs, field), d, docs[d][field]) == PostingsFor(docs - {d}, field)
  {
    PostingsCoherent(docs, field);
    RemovedCoherent(PostingsFor(docs, field), docs, field, d, map[]);
    CoherentUnique(Removed(PostingsFor(docs, field), d, docs[d][field]), docs[d := map[]], field);
    PostingsElsewhere(docs[d := map[]], docs - {d}, field);
  }

  /** Adding a document to the postings of each of its fields. */
  ghost predicate AddedTo(before: Fields, after: Fields, d: DocId, m: Metadata) {
    forall f :: IndexIn(after, f) == if f in m then Inserted(IndexIn(before, f), d, m[f]) else IndexIn(before, f)
  }

  ghost predicate RemovedFrom(before: Fields, after: Fields, d: DocId, m: Metadata) {
    forall f :: IndexIn(after, f) == if f in m then Removed(IndexIn(before, f), d, m[f]) else IndexIn(before, f)
  }

  lemma AddingIsExact(before: Fields, after: Fields, docs: Documents, d: DocId, m: Metadata)
    requires Exact(before, docs) && AddedTo(before, after, d, m) && d !in docs
    ensures Exact(after, docs[d := m])
  {
    forall f ensures IndexIn(after, f) == PostingsFor(docs[d := m], f) {
      assert IndexIn(before, f) == PostingsFor(docs, f);
      if f in m { InsertedExact(docs, f, d, m); } else { PostingsElsewhere(docs, docs[d := m], f); }
    }
  }

  lemma RemovingIsExact(before: Fields, after: Fields, docs: Documents, d: DocId)
    requires d in docs && Exact(before, docs) && RemovedFrom(before, after, d, docs[d])
    ensures Exact(after, docs - {d})
  {
    forall f ensures IndexIn(after, f) == PostingsFor(docs - {d}, f) {
      assert IndexIn(before, f) == PostingsFor(docs, f);
      if f in docs[d] { RemovedExact(docs, f, d); } else { PostingsElsewhere(docs, docs - {d}, f); }
    }
  }

  // ----- The operations -----

  /** Adds one document to the index of each of its fields. */
  method AddTo(fields: Fields, d: DocId, m: Metadata) returns (r: Fields)
    ensures AddedTo(fields, r, d, m) && r.Keys == fields.Keys + m.Keys
  {
    r := fields;
    var todo := m.Keys;
    while todo != {}
      invariant todo <= m.Keys && r.Keys == fields.Keys + (m.Keys - todo)
      invariant forall f :: IndexIn(r, f) ==
                  if f in m && f !in todo then Inserted(IndexIn(fields, f), d, m[f]) else IndexIn(fields, f)
      decreases todo
    {
      var key :| key in todo;
      r := r[key := Inserted(IndexIn(r, key), d, m[key])];
      todo := todo - {key};
    }
  }

  /** Removes one document from the index of each of its fields that is indexed. */
  method RemoveFrom(fields: Fields, d: DocId, m: Metadata) returns (r: Fields)
    ensures RemovedFrom(fields, r, d, m) && r.Keys == fields.Keys
  {
    r := fields;
    var todo := m.Keys;
    while todo != {}
      invariant todo <= m.Keys && r.Keys == fields.Keys
      invariant forall f :: IndexIn(r, f) ==
                  if f in m && f !in todo then Removed(IndexIn(fields, f), d, m[f]) else IndexIn(fields, f)
      decreases todo
    {
      var key :| key in todo;
      if key in r { r := r[key := Removed(r[key], d, m[key])]; }
      todo := todo - {key};
    }
  }

  /** Builds the indexes from the documents. */
  method BuildFieldIndexes(docs: Documents) returns (fields: Fields)
    ensures fields == IndexesOf(docs)
  {
    fields := map[];
    var done: Documents := map[];
    var todo := docs.Keys;
    assert Exact(fields, done) by { forall f ensures IndexIn(fields, f) == PostingsFor(done, f) { NoPostings(f); } }
    while todo != {}
      invariant todo <= docs.Keys && done.Keys == docs.Keys - todo
      invariant forall d | d in done :: done[d] == docs[d]
      invariant Exact(fields, done) && fields.Keys <= FieldsOf(done)
      decreases todo
    {
      var d :| d in todo;
      var more := AddTo(fields, d, docs[d]);
      AddingIsExact(fields, more, done, d, docs[d]);
      FieldsGrow(done, d, docs[d]);
      fields, done, todo := more, done[d := docs[d]], todo - {d};
    }
    assert done == docs;
    ExactIsBuilt(fields, docs);
  }

  lemma NoPostings(field: string)
    ensures PostingsFor(map[], field) == EMPTY_POSTINGS
  {
    CoherentUnique(EMPTY_POSTINGS, map[], field);
  }

  lemma FieldsGrow(docs: Documents, d: DocId, m: Metadata)
    requires d !in docs
    ensures FieldsOf(docs[d := m]) == FieldsOf(docs) + m.Keys
  {
    var docs' := docs[d := m];
    forall f | f in FieldsOf(docs) ensures f in FieldsOf(docs') {
      var e :| e in docs && f in docs[e];
      assert e in docs' && f in docs'[e];
    }
    forall f | f in m ensures f in FieldsOf(docs') { assert d in docs' && f in docs'[d]; }
  }

  lemma FieldsShrink(docs: Documents, d: DocId)
    requires d in docs
    ensures FieldsOf(docs) <= FieldsOf(docs - {d}) + docs[d].Keys
  {
    forall f | f in FieldsOf(docs) && f !in docs[d] ensures f in FieldsOf(docs - {d}) {
      var e :| e in docs && f in docs[e];
      assert e in docs - {d} && f in (docs - {d})[e];
    }
  }

  /** Drops the changed fields that no document carries any more. */
  method Finalize(fields: Fields, changed: set<string>) returns (r: Fields)
    ensures forall f :: f in r <==> f in fields && !(f in changed && fields[f].docs == {})
    ensures forall f | f in r :: r[f] == fields[f]
  {
    r := fields;
    var todo := changed;
    while todo != {}
      invariant todo <= changed
      invariant forall f :: f in r <==> f in fields && !(f in changed - todo && fields[f].docs == {})
      invariant forall f | f in r :: r[f] == fields[f]
      decreases todo
    {
      var key :| key in todo;
      if key in r && r[key].docs == {} { r := r - {key}; }
      todo := todo - {key};
    }
  }

  lemma EmptyIsUnused(docs: Documents, field: string)
    ensures PostingsFor(docs, field).docs == {} <==> field !in FieldsOf(docs)
    ensures PostingsFor(docs, field).docs == {} ==> PostingsFor(docs, field) == EMPTY_POSTINGS
  {
    if d :| d in docs && field in docs[d] {
      assert d in PostingsFor(docs, field).docs;
    } else {
      NoPostings(field);
      PostingsElsewhere(docs, map[], field);
    }
  }

  /** Dropping them keeps the indexes exact, and if only changed fields were left over drops all that are. */
  lemma FinalizedIsExact(fields: Fields, r: Fields, docs: Documents, changed: set<string>)
    requires Exact(fields, docs)
    requires forall f :: f in r <==> f in fields && !(f in changed && fields[f].docs == {})
    requires forall f | f in r :: r[f] == fields[f]
    ensures Exact(r, docs)
    ensures fields.Keys <= FieldsOf(docs) + changed ==> r.Keys <= FieldsOf(docs)
  {
    forall f ensures IndexIn(r, f) == PostingsFor(docs, f) && (f in r && f in changed ==> f in FieldsOf(docs)) {
      assert IndexIn(fields, f) == PostingsFor(docs, f);
      EmptyIsUnused(docs, f);
    }
  }

  // ----- The state and its writes -----

  function Upserted(docs: Documents, batch: seq<(DocId, Metadata)>): Documents {
    if batch == [] then docs else Upserted(docs, batch[..|batch| - 1])[batch[|batch| - 1].0 := batch[|batch| - 1].1]
  }

  function Deleted(docs: Documents, ids: seq<DocId>): Documents {
    docs - (set d | d in ids)
  }

  /** `changed` covers every indexed field no document carries. */
  ghost predicate Settled(fields: Option<Fields>, docs: Documents, changed: set<string>) {
    fields.Some? ==> fields.value.Keys <= FieldsOf(docs) + changed
  }

  class IndexState {
    var documents: Documents
    var fields: Option<Fields>

    /** Indexes that exist are exact. */
    ghost predicate Valid()
      reads this
    {
      fields.Some? ==> Exact(fields.value, documents)
    }

    /** Indexes that exist are the ones built from the documents. */
    ghost predicate Lean()
      reads this
    {
      fields.Some? ==> fields.value == IndexesOf(documents)
    }

    constructor (documents: Documents)
      ensures Valid() && Lean() && this.documents == documents
    {
      this.documents, fields := documents, None;
    }

    /** The first filtered read builds the indexes; later ones find them. */
    method GetFieldIndexes() returns (r: Fields)
      requires Valid()
      modifies this`fields
      ensures Valid() && fields == Some(r)
      ensures forall parse: Parser :: Corpus(parse, documents, r).Valid()
      ensures old(Lean()) ==> Lean()
    {
      if fields.None? {
        var built := BuildFieldIndexes(documents);
        BuiltIsExact(documents);
        fields := Some(built);
      }
      r := fields.value;
      forall parse: Parser ensures Corpus(parse, documents, r).Valid() { ExactIsValid(parse, r, documents); }
    }

    /** Takes a document and its index entries out; `changed` collects the fields it touched. */
    method Remove(d: DocId, changed: set<string>, ghost extra: set<string>) returns (more: set<string>)
      requires Valid() && d in documents && Settled(fields, documents, changed + extra)
      modifies this
      ensures Valid() && documents == old(documents) - {d} && Settled(fields, documents, more + extra)
      ensures fields.Some? <==> old(fields.Some?)
    {
      more := changed;
      var m := documents[d];
      FieldsShrink(documents, d);
      if fields.Some? {
        var rest := RemoveFrom(fields.value, d, m);
        RemovingIsExact(fields.value, rest, documents, d);
        more := changed + (m.Keys * fields.value.Keys);
        fields := Some(rest);
      }
      documents := documents - {d};
    }

    /** Puts a document and its index entries in. */
    method Add(d: DocId, m: Metadata, changed: set<string>, ghost extra: set<string>) returns (more: set<string>)
      requires Valid() && d !in documents && Settled(fields, documents, changed + extra)
      modifies this
      ensures Valid() && documents == old(documents)[d := m] && Settled(fields, documents, more + extra)
      ensures fields.Some? <==> old(fields.Some?)
    {
      more := changed;
      FieldsGrow(documents, d, m);
      if fields.Some? {
        var grown := AddTo(fields.value, d, m);
        AddingIsExact(fields.value, grown, documents, d, m);
        more := changed + m.Keys;
        fields := Some(grown);
      }
      documents := documents[d := m];
    }

    /** Puts a document in the place of the one with its id, if there is one. */
    method Replace(d: DocId, m: Metadata, changed: set<string>, ghost extra: set<string>) returns (more: set<string>)
      requires Valid() && Settled(fields, documents, changed + extra)
      modifies this
      ensures Valid() && documents == old(documents)[d := m] && Settled(fields, documents, more + extra)
    {
      more := changed;
      if d in documents { more := Remove(d, more, extra); }
      more := Add(d, m, more, extra);
    }

    method FinalizeFields(changed: set<string>)
      requires Valid()
      modifies this`fields
      ensures Valid() && (old(Settled(fields, documents, changed)) ==> Lean())
    {
      if fields.Some? {
        var r := Finalize(fields.value, changed);
        FinalizedIsExact(fields.value, r, documents, changed);
        ExactIsBuilt(r, documents);
        fields := Some(r);
      }
    }

    /**
     Replaces or adds the documents of a batch.  The vector sync may fail after they are in, and then
     nothing is dropped; the indexes are exact all the same.
     */
    method Upsert(batch: seq<(DocId, Metadata)>, synced: bool)
      requires Valid()
      modifies this
      ensures Valid() && documents == Upserted(old(documents), batch)
      ensures old(Lean()) && synced ==> Lean()
    {
      var changed: set<string> := {};
      ghost var extra := Leftover(fields, documents);
      for i := 0 to |batch|
        invariant Valid() && documents == Upserted(old(documents), batch[..i])
        invariant Settled(fields, documents, changed + extra)
      {
        assert batch[..i + 1][..i] == batch[..i];
        changed := Replace(batch[i].0, batch[i].1, changed, extra);
      }
      assert batch[..|batch|] == batch;
      if synced { FinalizeFields(changed); }
    }

    /** Removes the documents of a list that exist. */
    method Delete(ids: seq<DocId>)
      requires Valid()
      modifies this
      ensures Valid() && documents == Deleted(old(documents), ids)
      ensures old(Lean()) ==> Lean()
    {
      var changed: set<string> := {};
      ghost var extra := Leftover(fields, documents);
      for i := 0 to |ids|
        invariant Valid() && documents == Deleted(old(documents), ids[..i])
        invariant Settled(fields, documents, changed + extra)
      {
        assert ids[..i + 1] == ids[..i] + [ids[i]];
        if ids[i] in documents { changed := Remove(ids[i], changed, extra); }
      }
      assert ids[..|ids|] == ids;
      FinalizeFields(changed);
    }
  }

  /** Indexed fields no document carries. */
  ghost function Leftover(fields: Option<Fields>, docs: Documents): set<string> {
    if fields.Some? then fields.value.Keys - FieldsOf(docs) else {}
  }

  lemma BuiltIsExact(docs: Documents)
    ensures Exact(IndexesOf(docs), docs)
  {
    forall f ensures IndexIn(IndexesOf(docs), f) == PostingsFor(docs, f) { EmptyIsUnused(docs, f); }
  }
}
