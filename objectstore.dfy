/** `MysqlObjectStore` (dulwich/mysqlrepo.py): the objects of one repository,
    stored in the shared `objs` table under the repository's name. Read-only
    queries are functions of the table; statements that write are methods of
    the store object, which holds the repository name and the database.

    The pack codec (header writer, object encoder, SHA-1, inflater) is a
    library the store calls but does not define; `PackCodec` bundles it as
    uninterpreted function values. */
module ObjectStore {
  import opened Wrappers
  import opened Tables
  import opened HexSha

  /** A git object as the codec hands it over: `obj.id` (40 hex characters),
      `obj.get_type()` and `obj.as_raw_string()`. */
  datatype ShaObject = ShaObject(id: string, otype: int, raw: string)

  /** What `get_raw` returns for a present object: (type number, payload). */
  datatype RawObject = RawObject(otype: int, data: string)

  /** The `objs` row that `_add_object` inserts for an object of `repo`. */
  function RowOf(o: ShaObject, repo: string): (Key, ObjRow) {
    (Key(o.id, repo), ObjRow(o.otype, |o.raw|, o.raw))
  }

  function RowsOf(objects: seq<ShaObject>, repo: string): (rows: seq<(Key, ObjRow)>)
    ensures |rows| == |objects|
    ensures forall i :: 0 <= i < |objects| ==> rows[i] == RowOf(objects[i], repo)
  {
    seq(|objects|, i requires 0 <= i < |objects| => RowOf(objects[i], repo))
  }

  /** The keys `delete_objects` removes: each id under `repo`. */
  function KeysFor(ids: seq<string>, repo: string): (keys: seq<Key>)
    ensures |keys| == |ids|
    ensures forall i :: 0 <= i < |ids| ==> keys[i] == Key(ids[i], repo)
  {
    seq(|ids|, i requires 0 <= i < |ids| => Key(ids[i], repo))
  }

  lemma InsertAllSnoc<V>(m: map<Key, V>, rows: seq<(Key, V)>, row: (Key, V))
    ensures InsertAll(m, rows + [row]) == InsertIgnore(InsertAll(m, rows), row.0, row.1)
  {
    assert (rows + [row])[..|rows|] == rows;
  }

  lemma RowsOfSnoc(objects: seq<ShaObject>, i: nat, repo: string)
    requires i < |objects|
    ensures RowsOf(objects[..i + 1], repo) == RowsOf(objects[..i], repo) + [RowOf(objects[i], repo)]
  {
  }

  // ---------------------------------------------------------------------
  // Read-only queries. Each one filters on the repository's name, so its
  // answer depends only on that repository's rows (LookupsIsolated).
  // ---------------------------------------------------------------------

  /** `_has_sha`: the `HAS` query, `EXISTS` of the row (sha, repo). */
  function HasSha(objs: map<Key, ObjRow>, repo: string, sha: string): (r: bool)
    ensures r <==> exists k :: k in objs && k.name == sha && k.repo == repo
  {
    assert Key(sha, repo).name == sha;
    Key(sha, repo) in objs
  }

  /** `contains_loose`: normalise the sha, then `_has_sha`. */
  function ContainsLoose(objs: map<Key, ObjRow>, repo: string, sha: string): (r: Result<bool>)
    ensures |sha| == 40 ==> r == Ok(Key(sha, repo) in objs)
    ensures |sha| == 20 ==> r == Ok(Key(ShaToHex(sha), repo) in objs)
    ensures |sha| != 20 && |sha| != 40 ==> r == Err(ValueError)
  {
    var hex :- ToHexSha(sha);
    Ok(HasSha(objs, repo, hex))
  }

  /** `contains_packed`: this store keeps no packs. */
  function ContainsPacked(sha: string): (r: bool)
    ensures !r
  {
    false
  }

  /** `packs`: the list of packs, always empty. */
  function Packs(): (r: seq<string>)
    ensures |r| == 0
  {
    []
  }

  /** `_all_shas` / `__iter__`: the `ALL` query, the ids of this repository's
      rows (the generator's order is the database's; the model keeps the set). */
  function AllShas(objs: map<Key, ObjRow>, repo: string): (r: set<string>)
    ensures forall id :: id in r <==> Key(id, repo) in objs
  {
    set k | k in objs && k.repo == repo :: k.name
  }

  /** `get_raw`: the `GET` query on the normalised sha; `None` when there is
      no such row; ValueError for a sha of the wrong length. */
  function GetRaw(objs: map<Key, ObjRow>, repo: string, name: string): (r: Result<Option<RawObject>>)
    ensures |name| != 20 && |name| != 40 ==> r == Err(ValueError)
    ensures (|name| == 20 || |name| == 40) ==> r.Ok?
    ensures r.Ok? ==> var k := Key(ToHexSha(name).value, repo);
      (r.value.Some? <==> k in objs) &&
      (k in objs ==> r.value.value == RawObject(objs[k].otype, objs[k].data))
  {
    var hex :- ToHexSha(name);
    var k := Key(hex, repo);
    if k in objs then Ok(Some(RawObject(objs[k].otype, objs[k].data))) else Ok(None)
  }

  /** Every query scoped to `repo` answers the same on two tables that hold
      the same rows for `repo`, whatever other repositories hold. */
  lemma LookupsIsolated(m1: map<Key, ObjRow>, m2: map<Key, ObjRow>, repo: string, sha: string)
    requires SameInside(m1, m2, repo)
    ensures ContainsLoose(m1, repo, sha) == ContainsLoose(m2, repo, sha)
    ensures GetRaw(m1, repo, sha) == GetRaw(m2, repo, sha)
    ensures AllShas(m1, repo) == AllShas(m2, repo)
  {
    if ToHexSha(sha).Ok? {
      var k := Key(ToHexSha(sha).value, repo);
      assert k.repo == repo;
      assert k in m1 <==> k in m2;
    }
    forall id ensures id in AllShas(m1, repo) <==> id in AllShas(m2, repo) {
      assert Key(id, repo).repo == repo;
    }
  }

  // ---------------------------------------------------------------------
  // The pack buffer and codec used by thin-pack completion.
  // ---------------------------------------------------------------------

  /** The contents of a byte buffer after writing `b` at position `p`:
      bytes of `b` replace those under them and the rest is kept. */
  function Overwrite(d: string, p: nat, b: string): (r: string)
    requires p <= |d|
    ensures |r| == if p + |b| < |d| then |d| else p + |b|
  {
    d[..p] + b + (if p + |b| < |d| then d[p + |b|..] else "")
  }

  /** Byte by byte: a byte under the write comes from `b`, any other byte is
      the buffer's own. */
  lemma OverwriteAt(d: string, p: nat, b: string)
    requires p <= |d|
    ensures forall i :: 0 <= i < |Overwrite(d, p, b)| ==>
      Overwrite(d, p, b)[i] == if p <= i < p + |b| then b[i - p] else d[i]
  {
  }

  /** Two consecutive writes are one write of their concatenation. */
  lemma OverwriteTwice(d: string, p: nat, a: string, b: string)
    requires p <= |d|
    ensures p + |a| <= |Overwrite(d, p, a)|
    ensures Overwrite(Overwrite(d, p, a), p + |a|, b) == Overwrite(d, p, a + b)
  {
    var lhs, rhs := Overwrite(Overwrite(d, p, a), p + |a|, b), Overwrite(d, p, a + b);
    OverwriteAt(d, p, a);
    OverwriteAt(Overwrite(d, p, a), p + |a|, b);
    OverwriteAt(d, p, a + b);
    assert |lhs| == |rhs|;
    forall i | 0 <= i < |lhs| ensures lhs[i] == rhs[i] {
      if p <= i < p + |a| { assert (a + b)[i - p] == a[i - p]; }
      else if p + |a| <= i < p + |a| + |b| { assert (a + b)[i - p] == b[i - p - |a|]; }
    }
  }

  /** A write that reaches the end of the buffer leaves nothing after it. */
  lemma OverwriteToEnd(d: string, p: nat, b: string)
    requires p <= |d| && |d| <= p + |b|
    ensures Overwrite(d, p, b) == d[..p] + b
  {
  }

  /** `BytesIO`, the in-memory file `add_pack` hands out. */
  class BytesIO {
    var data: string
    var pos: nat

    ghost predicate Valid()
      reads this
    {
      pos <= |data|
    }

    constructor ()
      ensures Valid() && data == "" && pos == 0
    {
      data, pos := "", 0;
    }

    method Seek(p: nat)
      requires p <= |data|
      modifies this
      ensures Valid() && data == old(data) && pos == p
    {
      pos := p;
    }

    method Write(b: string)
      requires Valid()
      modifies this
      ensures Valid()
      ensures data == Overwrite(old(data), old(pos), b) && pos == old(pos) + |b|
    {
      data := Overwrite(data, pos, b);
      pos := pos + |b|;
    }
  }

  /** The pack library, as uninterpreted functions: `write_pack_header`'s
      bytes for an object count, `write_pack_object`'s bytes for one object,
      the SHA-1 digest, and `PackInflater`'s objects of a complete pack. */
  datatype PackCodec = PackCodec(
    header: nat -> string,
    encodeObject: (int, string) -> string,
    digest: string -> string,
    inflate: string -> seq<ShaObject>)
  {
    /** The pack format's fixed sizes: a 12-byte header, a 20-byte digest. */
    ghost predicate Valid() {
      && (forall n: nat :: |header(n)| == 12)
      && (forall b: string :: |digest(b)| == 20)
    }
  }

  /** `indexer`: the entries it indexed (`list(indexer)`) and the 20-byte
      shas of the external bases it could not resolve (`ext_refs()`). */
  datatype PackIndex = PackIndex(entries: seq<string>, extRefs: seq<string>)

  /** The encodings of `objs`, one after the other. */
  function EncodeAll(objs: seq<RawObject>, codec: PackCodec): (r: string)
    decreases |objs|
  {
    if objs == [] then ""
    else EncodeAll(objs[..|objs| - 1], codec) + codec.encodeObject(objs[|objs| - 1].otype, objs[|objs| - 1].data)
  }

  lemma EncodeAllSnoc(objs: seq<RawObject>, o: RawObject, codec: PackCodec)
    ensures EncodeAll(objs + [o], codec) == EncodeAll(objs, codec) + codec.encodeObject(o.otype, o.data)
  {
    assert (objs + [o])[..|objs|] == objs;
  }

  /** One external base as `_complete_thin_pack` fetches it: a sha that is
      not 20 bytes fails the `assert`, an absent object makes the tuple
      unpacking of `None` raise TypeError. */
  function FetchOne(objs: map<Key, ObjRow>, repo: string, sha: string): (r: Result<RawObject>)
    ensures r.Ok? <==> |sha| == 20 && Key(ShaToHex(sha), repo) in objs
    ensures r.Ok? ==> GetRaw(objs, repo, sha) == Ok(Some(r.value))
    ensures r.Err? ==> r.error == if |sha| != 20 then AssertionError else TypeError
  {
    if |sha| != 20 then Err(AssertionError)
    else
      match GetRaw(objs, repo, sha).value
      case None => Err(TypeError)
      case Some(o) => Ok(o)
  }

  /** The external bases fetched with `get_raw`, in `ext_refs` order; the
      first failure wins. */
  function FetchExternal(objs: map<Key, ObjRow>, repo: string, refs: seq<string>): (r: Result<seq<RawObject>>)
    decreases |refs|
  {
    if refs == [] then Ok([])
    else
      var done :- FetchExternal(objs, repo, refs[..|refs| - 1]);
      var o :- FetchOne(objs, repo, refs[|refs| - 1]);
      Ok(done + [o])
  }

  /** The fetch succeeds exactly when every base can be fetched, and then
      yields the bases in order. */
  lemma {:induction false} FetchExternalAll(objs: map<Key, ObjRow>, repo: string, refs: seq<string>)
    ensures FetchExternal(objs, repo, refs).Ok? <==> forall i :: 0 <= i < |refs| ==> FetchOne(objs, repo, refs[i]).Ok?
    ensures FetchExternal(objs, repo, refs).Ok? ==> |FetchExternal(objs, repo, refs).value| == |refs|
    ensures FetchExternal(objs, repo, refs).Ok? ==>
      forall i :: 0 <= i < |refs| ==> FetchOne(objs, repo, refs[i]) == Ok(FetchExternal(objs, repo, refs).value[i])
    decreases |refs|
  {
    if refs != [] {
      var prefix := refs[..|refs| - 1];
      FetchExternalAll(objs, repo, prefix);
      assert forall i :: 0 <= i < |prefix| ==> prefix[i] == refs[i];
      var last := FetchOne(objs, repo, refs[|refs| - 1]);
      var done := FetchExternal(objs, repo, prefix);
      if done.Ok? && last.Ok? {
        var all := done.value + [last.value];
        assert FetchExternal(objs, repo, refs) == Ok(all);
        forall i | 0 <= i < |refs| ensures FetchOne(objs, repo, refs[i]) == Ok(all[i]) {
          if i < |prefix| { assert all[i] == done.value[i]; }
        }
      } else if done.Err? {
        var j :| 0 <= j < |prefix| && FetchOne(objs, repo, prefix[j]).Err?;
        assert refs[j] == prefix[j];
      }
    }
  }

  /** Fetching one more base extends the fetched prefix or fails with that
      base's error. */
  lemma FetchExternalStep(objs: map<Key, ObjRow>, repo: string, refs: seq<string>, i: nat, done: seq<RawObject>)
    requires i < |refs| && FetchExternal(objs, repo, refs[..i]) == Ok(done)
    ensures FetchExternal(objs, repo, refs[..i + 1]) ==
      if FetchOne(objs, repo, refs[i]).Err? then Err(FetchOne(objs, repo, refs[i]).error)
      else Ok(done + [FetchOne(objs, repo, refs[i]).value])
  {
    assert refs[..i + 1][..i] == refs[..i];
  }

  /** Once a prefix of the external refs fails, the whole fetch fails with
      the same error. */
  lemma {:induction false} FetchExternalFailsEarly(objs: map<Key, ObjRow>, repo: string, refs: seq<string>, i: nat)
    requires i <= |refs| && FetchExternal(objs, repo, refs[..i]).Err?
    ensures FetchExternal(objs, repo, refs) == FetchExternal(objs, repo, refs[..i])
    decreases |refs|
  {
    if i < |refs| {
      var prefix := refs[..|refs| - 1];
      assert prefix[..i] == refs[..i];
      FetchExternalFailsEarly(objs, repo, prefix, i);
    } else {
      assert refs[..i] == refs;
    }
  }

  /** The state `_complete_thin_pack` reaches once the first `i` external
      bases are fetched and written: from `p` on, the buffer holds their
      encodings, the position is after them, and the running SHA-1 has been
      fed them after `fed0`. */
  ghost predicate BasesWritten(objs: map<Key, ObjRow>, repo: string, refs: seq<string>, i: nat, codec: PackCodec,
                               d: string, p: nat, fed0: string, data: string, pos: nat, fed: string)
  {
    && i <= |refs| && p <= |d|
    && FetchExternal(objs, repo, refs[..i]).Ok?
    && var enc := EncodeAll(FetchExternal(objs, repo, refs[..i]).value, codec);
       data == Overwrite(d, p, enc) && pos == p + |enc| && fed == fed0 + enc
  }

  lemma BasesWrittenStart(objs: map<Key, ObjRow>, repo: string, refs: seq<string>, codec: PackCodec,
                          d: string, p: nat, fed0: string)
    requires p <= |d|
    ensures BasesWritten(objs, repo, refs, 0, codec, d, p, fed0, d, p, fed0)
  {
    assert refs[..0] == [];
    assert Overwrite(d, p, "") == d;
  }

  /** Writing the next base, when it can be fetched, reaches the state for
      one more base. */
  lemma BasesWrittenStep(objs: map<Key, ObjRow>, repo: string, refs: seq<string>, i: nat, codec: PackCodec,
                         d: string, p: nat, fed0: string, data: string, pos: nat, fed: string)
    requires BasesWritten(objs, repo, refs, i, codec, d, p, fed0, data, pos, fed)
    requires i < |refs| && FetchOne(objs, repo, refs[i]).Ok?
    ensures pos <= |data|
    ensures var o := FetchOne(objs, repo, refs[i]).value;
      var enc := codec.encodeObject(o.otype, o.data);
      BasesWritten(objs, repo, refs, i + 1, codec, d, p, fed0, Overwrite(data, pos, enc), pos + |enc|, fed + enc)
  {
    var done := FetchExternal(objs, repo, refs[..i]).value;
    var o := FetchOne(objs, repo, refs[i]).value;
    var enc := codec.encodeObject(o.otype, o.data);
    var before := EncodeAll(done, codec);
    FetchExternalStep(objs, repo, refs, i, done);
    assert FetchExternal(objs, repo, refs[..i + 1]) == Ok(done + [o]);
    EncodeAllSnoc(done, o, codec);
    assert EncodeAll(done + [o], codec) == before + enc;
    OverwriteTwice(d, p, before, enc);
    assert Overwrite(data, pos, enc) == Overwrite(d, p, before + enc);
  }

  /** A base that cannot be fetched fails the whole fetch with its error. */
  lemma BasesWrittenFails(objs: map<Key, ObjRow>, repo: string, refs: seq<string>, i: nat, codec: PackCodec,
                          d: string, p: nat, fed0: string, data: string, pos: nat, fed: string)
    requires BasesWritten(objs, repo, refs, i, codec, d, p, fed0, data, pos, fed)
    requires i < |refs| && FetchOne(objs, repo, refs[i]).Err?
    ensures FetchExternal(objs, repo, refs) == Err(FetchOne(objs, repo, refs[i]).error)
  {
    FetchExternalStep(objs, repo, refs, i, FetchExternal(objs, repo, refs[..i]).value);
    FetchExternalFailsEarly(objs, repo, refs, i + 1);
  }

  /** The completed pack: the header rewritten for `count` objects over the
      received bytes, the external bases appended in place of the old
      trailer, and the SHA-1 of all that as the new trailer. A buffer of at
      least 32 bytes (header and trailer of a well-formed pack) keeps every
      received object byte; a shorter one has part of its header covered by
      the appended objects, exactly as the writes fall. */
  function Completed(data: string, count: nat, ext: seq<RawObject>, codec: PackCodec): (r: string)
    requires |data| >= 20 && codec.Valid()
    ensures |r| == |data| + |EncodeAll(ext, codec)|
  {
    var rewritten := Overwrite(data, 0, codec.header(count));
    var body := rewritten[..|data| - 20] + EncodeAll(ext, codec);
    body + codec.digest(body)
  }

  /** The layout of a completed pack: header, received objects, appended
      bases, then the digest of everything before it. */
  lemma CompletedLayout(data: string, count: nat, ext: seq<RawObject>, codec: PackCodec)
    requires |data| >= 20 && codec.Valid()
    ensures var r := Completed(data, count, ext, codec);
      && (|data| >= 32 ==> r[..12] == codec.header(count) && r[12..|data| - 20] == data[12..|data| - 20])
      && r[|data| - 20..|r| - 20] == EncodeAll(ext, codec)
      && r[|r| - 20..] == codec.digest(r[..|r| - 20])
  {
    var rewritten := Overwrite(data, 0, codec.header(count));
    OverwriteAt(data, 0, codec.header(count));
    var body := rewritten[..|data| - 20] + EncodeAll(ext, codec);
    var r := body + codec.digest(body);
    assert r[..|r| - 20] == body;
    if |data| >= 32 {
      assert r[..12] == rewritten[..12];
      assert r[12..|data| - 20] == rewritten[12..|data| - 20];
    }
  }

  /** Completion succeeds exactly when every external base is a 20-byte sha
      of an object this repository holds; the completed pack then declares
      entries + external bases in its header and ends in a valid digest. */
  lemma {:induction false} ThinPackCompletes(objs: map<Key, ObjRow>, repo: string, data: string, index: PackIndex, codec: PackCodec)
    requires codec.Valid() && |data| >= 32
    requires forall i :: 0 <= i < |index.extRefs| ==>
      |index.extRefs[i]| == 20 && Key(ShaToHex(index.extRefs[i]), repo) in objs
    ensures FetchExternal(objs, repo, index.extRefs).Ok?
    ensures var count := |index.entries| + |index.extRefs|;
      var out := Completed(data, count, FetchExternal(objs, repo, index.extRefs).value, codec);
      out[..12] == codec.header(count) && out[|out| - 20..] == codec.digest(out[..|out| - 20])
  {
    forall i | 0 <= i < |index.extRefs|
      ensures FetchOne(objs, repo, index.extRefs[i]).Ok?
    {
      assert |index.extRefs[i]| == 20 && Key(ShaToHex(index.extRefs[i]), repo) in objs;
    }
    FetchExternalAll(objs, repo, index.extRefs);
    CompletedLayout(data, |index.entries| + |index.extRefs|, FetchExternal(objs, repo, index.extRefs).value, codec);
  }

  /** One absent external base aborts completion. */
  lemma MissingBaseAborts(objs: map<Key, ObjRow>, repo: string, refs: seq<string>, i: nat)
    requires i < |refs| && |refs[i]| == 20 && Key(ShaToHex(refs[i]), repo) !in objs
    ensures FetchExternal(objs, repo, refs).Err?
  {
    assert FetchOne(objs, repo, refs[i]).Err?;
    FetchExternalAll(objs, repo, refs);
  }

  /** The writes of `_complete_thin_pack` produce the completed pack: the
      header over the received bytes, the encoded bases over the old trailer,
      then the digest of everything before it. */
  lemma CompletedByWrites(data: string, count: nat, ext: seq<RawObject>, codec: PackCodec)
    requires |data| >= 20 && codec.Valid()
    ensures var rewritten := Overwrite(data, 0, codec.header(count));
      var end := |data| - 20;
      var fed := rewritten[..end] + EncodeAll(ext, codec);
      var enc := Overwrite(rewritten, end, EncodeAll(ext, codec));
      end + |EncodeAll(ext, codec)| <= |enc| &&
      Overwrite(enc, end + |EncodeAll(ext, codec)|, codec.digest(fed)) == Completed(data, count, ext, codec)
  {
    var rewritten := Overwrite(data, 0, codec.header(count));
    var end := |data| - 20;
    var encoded := EncodeAll(ext, codec);
    var fed := rewritten[..end] + encoded;
    OverwriteTwice(rewritten, end, encoded, codec.digest(fed));
    OverwriteToEnd(rewritten, end, encoded + codec.digest(fed));
  }

  /** The objects `add_thin_pack` commits, or the error that aborts it before
      any commit: a buffer shorter than a trailer fails the length check of
      `compute_file_sha`, and every external base must be fetched. */
  function ThinPackObjects(objs: map<Key, ObjRow>, repo: string, data: string, index: PackIndex, codec: PackCodec): (r: Result<seq<ShaObject>>)
    requires codec.Valid()
    ensures r.Ok? <==> |data| >= 20 && FetchExternal(objs, repo, index.extRefs).Ok?
    ensures r.Ok? ==> r.value == codec.inflate(Completed(data, |index.entries| + |index.extRefs|,
      FetchExternal(objs, repo, index.extRefs).value, codec))
  {
    if |data| < 20 then Err(AssertionError)
    else
      var ext :- FetchExternal(objs, repo, index.extRefs);
      Ok(codec.inflate(Completed(data, |index.entries| + |index.extRefs|, ext, codec)))
  }

  /** Adding the same object twice leaves the table as adding it once. */
  lemma AddObjectIdempotent(m: map<Key, ObjRow>, o: ShaObject, repo: string)
    ensures InsertAll(m, RowsOf([o, o], repo)) == InsertAll(m, RowsOf([o], repo))
  {
    var row := RowOf(o, repo);
    assert RowsOf([o, o], repo) == RowsOf([o], repo) + [row];
    InsertAllSnoc(m, RowsOf([o], repo), row);
    assert RowsOf([o], repo) == [] + [row];
    InsertAllSnoc(m, [], row);
  }

  /** The store of one repository (`MysqlObjectStore`): its name, which every
      statement filters or writes on, and the shared database. */
  class MysqlObjectStore {
    const repo: string
    const db: Database

    constructor (repo: string, db: Database)
      ensures this.repo == repo && this.db == db
    {
      this.repo := repo;
      this.db := db;
    }

    /** `_add_object` / `add_object`: one `INSERT IGNORE` of the object's row.
        A 40-character id is then found by `contains_loose`. */
    method AddObject(o: ShaObject)
      modifies db
      ensures db.objs == InsertIgnore(old(db.objs), RowOf(o, repo).0, RowOf(o, repo).1)
      ensures db.refs == old(db.refs)
      ensures SameOutside(old(db.objs), db.objs, repo)
      ensures |o.id| == 40 ==> ContainsLoose(db.objs, repo, o.id) == Ok(true)
    {
      var row := RowOf(o, repo);
      db.objs := InsertIgnore(db.objs, row.0, row.1);
    }

    /** Insert the rows of `objects` one after the other (the `executemany`
        of `add_objects` and the loop of the pack commit). */
    method InsertObjects(objects: seq<ShaObject>)
      modifies db
      ensures db.objs == InsertAll(old(db.objs), RowsOf(objects, repo))
      ensures db.refs == old(db.refs)
      ensures SameOutside(old(db.objs), db.objs, repo)
    {
      var i := 0;
      while i < |objects|
        invariant 0 <= i <= |objects|
        invariant db.objs == InsertAll(old(db.objs), RowsOf(objects[..i], repo))
        invariant db.refs == old(db.refs)
      {
        RowsOfSnoc(objects, i, repo);
        InsertAllSnoc(old(db.objs), RowsOf(objects[..i], repo), RowOf(objects[i], repo));
        AddObject(objects[i]);
        i := i + 1;
      }
      assert objects[..i] == objects;
      InsertAllIsolated(old(db.objs), RowsOf(objects, repo), repo);
    }

    /** `add_objects`: the objects of (object, path) pairs, each inserted with
        `INSERT IGNORE`. */
    method AddObjects(objects: seq<(ShaObject, string)>)
      modifies db
      ensures db.objs == InsertAll(old(db.objs), RowsOf(seq(|objects|, i requires 0 <= i < |objects| => objects[i].0), repo))
      ensures db.refs == old(db.refs)
      ensures SameOutside(old(db.objs), db.objs, repo)
    {
      InsertObjects(seq(|objects|, i requires 0 <= i < |objects| => objects[i].0));
    }

    /** `delete_objects`: one `DELETE` per id, on this repository's rows. */
    method DeleteObjects(ids: seq<string>)
      modifies db
      ensures db.objs == DeleteAll(old(db.objs), KeysFor(ids, repo))
      ensures forall id :: Key(id, repo) in db.objs <==> Key(id, repo) in old(db.objs) && id !in ids
      ensures db.refs == old(db.refs)
      ensures SameOutside(old(db.objs), db.objs, repo)
    {
      var keys := KeysFor(ids, repo);
      var i := 0;
      while i < |keys|
        invariant 0 <= i <= |keys|
        invariant db.objs == DeleteAll(old(db.objs), keys[..i])
        invariant db.refs == old(db.refs)
      {
        assert keys[..i + 1][..i] == keys[..i];
        db.objs := db.objs - {keys[i]};
        i := i + 1;
      }
      assert keys[..i] == keys;
      forall id ensures Key(id, repo) in db.objs <==> Key(id, repo) in old(db.objs) && id !in ids {
        assert Key(id, repo) in keys <==> id in ids by {
          if id in ids {
            var j :| 0 <= j < |ids| && ids[j] == id;
            assert keys[j] == Key(id, repo);
          }
        }
      }
      DeleteAllIsolated(old(db.objs), keys, repo);
    }

    /** `add_pack`: a fresh, empty buffer to write the pack into. */
    method AddPack() returns (f: BytesIO)
      ensures fresh(f) && f.Valid() && f.data == "" && f.pos == 0
    {
      f := new BytesIO();
    }

    /** The `commit` closure of `add_pack`: inflate the whole buffer and add
        every object. */
    method Commit(f: BytesIO, codec: PackCodec)
      modifies db
      ensures db.objs == InsertAll(old(db.objs), RowsOf(codec.inflate(f.data), repo))
      ensures db.refs == old(db.refs)
    {
      InsertObjects(codec.inflate(f.data));
    }

    /** The loop of `_complete_thin_pack`: for each external base, in order,
        fetch it with `get_raw` and write its encoding at the buffer position,
        feeding it to the running SHA-1 (represented by the bytes fed so far). */
    method AppendExternalBases(f: BytesIO, refs: seq<string>, codec: PackCodec, fed0: string)
      returns (r: Result<()>, fed: string)
      requires f.Valid()
      modifies f
      ensures f.Valid()
      ensures r.Ok? <==> FetchExternal(db.objs, repo, refs).Ok?
      ensures r.Err? ==> r.error == FetchExternal(db.objs, repo, refs).error
      ensures r.Ok? ==> var enc := EncodeAll(FetchExternal(db.objs, repo, refs).value, codec);
        f.data == Overwrite(old(f.data), old(f.pos), enc) && f.pos == old(f.pos) + |enc| && fed == fed0 + enc
    {
      fed := fed0;
      var i := 0;
      BasesWrittenStart(db.objs, repo, refs, codec, f.data, f.pos, fed0);
      while i < |refs|
        invariant f.Valid()
        invariant BasesWritten(db.objs, repo, refs, i, codec, old(f.data), old(f.pos), fed0, f.data, f.pos, fed)
      {
        ghost var data, pos := f.data, f.pos;
        var base := WriteBase(f, refs[i], codec);
        if base.Err? {
          BasesWrittenFails(db.objs, repo, refs, i, codec, old(f.data), old(f.pos), fed0, data, pos, fed);
          return Err(base.error), fed;
        }
        BasesWrittenStep(db.objs, repo, refs, i, codec, old(f.data), old(f.pos), fed0, data, pos, fed);
        fed := fed + codec.encodeObject(base.value.otype, base.value.data);
        i := i + 1;
      }
      assert refs[..i] == refs;
      r := Ok(());
    }

    /** One turn of that loop: fetch the base, and on success write its
        encoding at the buffer position. */
    method WriteBase(f: BytesIO, sha: string, codec: PackCodec) returns (base: Result<RawObject>)
      requires f.Valid()
      modifies f
      ensures f.Valid()
      ensures base == FetchOne(db.objs, repo, sha)
      ensures base.Ok? ==> f.data == Overwrite(old(f.data), old(f.pos), codec.encodeObject(base.value.otype, base.value.data))
      ensures base.Ok? ==> f.pos == old(f.pos) + |codec.encodeObject(base.value.otype, base.value.data)|
    {
      base := FetchOne(db.objs, repo, sha);
      if base.Ok? {
        f.Write(codec.encodeObject(base.value.otype, base.value.data));
      }
    }

    /** `_complete_thin_pack`: rewrite the header for entries + external
        bases, take the SHA-1 of all but the old trailer, append each external
        base, then append the digest. */
    method CompleteThinPack(f: BytesIO, index: PackIndex, codec: PackCodec) returns (r: Result<()>)
      requires f.Valid() && codec.Valid()
      modifies f
      ensures f.Valid()
      ensures r.Ok? <==> |old(f.data)| >= 20 && FetchExternal(db.objs, repo, index.extRefs).Ok?
      ensures r.Err? ==>
        r.error == if |old(f.data)| < 20 then AssertionError else FetchExternal(db.objs, repo, index.extRefs).error
      ensures r.Ok? ==> f.data == Completed(old(f.data), |index.entries| + |index.extRefs|,
        FetchExternal(db.objs, repo, index.extRefs).value, codec)
    {
      ghost var original := f.data;
      var count := |index.entries| + |index.extRefs|;
      f.Seek(0);
      f.Write(codec.header(count));
      ghost var rewritten := f.data;
      // compute_file_sha(f, end_ofs=-20) refuses a buffer shorter than 20 bytes
      if |f.data| < 20 {
        return Err(AssertionError);
      }
      var end := |f.data| - 20;
      var fed := f.data[..end];
      f.Seek(end);
      r, fed := AppendExternalBases(f, index.extRefs, codec, fed);
      if r.Err? {
        return;
      }
      ghost var ext := FetchExternal(db.objs, repo, index.extRefs).value;
      assert rewritten == Overwrite(original, 0, codec.header(count));
      CompletedByWrites(original, count, ext, codec);
      var digest := codec.digest(fed);
      f.Write(digest);
    }

    /** `add_thin_pack`. `received` is what the stream copier's `verify()`
        leaves: the bytes it wrote into the pack buffer and the indexer's
        result, or the error it raised. On any error `abort()` (which does
        nothing) runs and the error propagates, so nothing is committed;
        otherwise every object of the completed pack is committed. */
    method AddThinPack(received: Result<(string, PackIndex)>, codec: PackCodec) returns (r: Result<()>)
      requires codec.Valid()
      modifies db
      ensures received.Err? ==> r == Err(received.error)
      ensures received.Ok? ==>
        var spec := ThinPackObjects(old(db.objs), repo, received.value.0, received.value.1, codec);
        (r.Ok? <==> spec.Ok?) && (r.Err? ==> r.error == spec.error) &&
        (r.Ok? ==> db.objs == InsertAll(old(db.objs), RowsOf(spec.value, repo)))
      ensures r.Err? ==> db.objs == old(db.objs)
      ensures SameOutside(old(db.objs), db.objs, repo)
      ensures db.refs == old(db.refs)
    {
      if received.Err? {
        return Err(received.error);
      }
      var data, index := received.value.0, received.value.1;
      ghost var spec := ThinPackObjects(db.objs, repo, data, index, codec);
      var f := AddPack();
      f.Write(data);
      assert f.data == data;
      r := CompleteThinPack(f, index, codec);
      if r.Err? {
        return;
      }
      assert codec.inflate(f.data) == spec.value;
      Commit(f, codec);
      InsertAllIsolated(old(db.objs), RowsOf(spec.value, repo), repo);
    }
  }
}
