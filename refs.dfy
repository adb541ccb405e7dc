/** `MysqlRefsContainer` (dulwich/mysqlrepo.py): the references of one
    repository, stored in the shared `refs` table under the repository's
    name. A ref's value is either a sha or a symbolic ref `ref: <other>`.

    Symbolic resolution (`_follow`), the lookup `refs[name]` and the ref-name
    check (`_check_refname`) belong to dulwich's base `RefsContainer`, which
    is not part of this model: resolution is given here with the base
    class's hop bound (a chain needing a sixth read fails with KeyError), and
    the name check is a predicate the container is built with. */
module Refs {
  import opened Wrappers
  import opened Tables

  /** The prefix that marks a symbolic ref. */
  const SYMREF: string := "ref: "

  /** Python's `str.startswith(SYMREF)`. */
  predicate IsSymref(v: string) {
    |v| >= |SYMREF| && v[..|SYMREF|] == SYMREF
  }

  /** `ref: <target>`: the stored form of a symbolic ref. */
  function SymrefTo(target: string): (v: string)
    ensures IsSymref(v) && v[|SYMREF|..] == target
  {
    SYMREF + target
  }

  /** `read_loose_ref`: the `GET` query, the stored value (possibly empty)
      or None when there is no row. */
  function ReadLooseRef(refs: map<Key, string>, repo: string, name: string): (r: Option<string>)
    ensures r.Some? <==> Key(name, repo) in refs
    ensures r.Some? ==> r.value == refs[Key(name, repo)]
  {
    if Key(name, repo) in refs then Some(refs[Key(name, repo)]) else None
  }

  /** `get_packed_refs`: this container keeps no packed refs. */
  function GetPackedRefs(): (r: map<string, string>)
    ensures |r| == 0
  {
    map[]
  }

  /** The base container's `read_ref`: the loose value, falling back to the
      (empty) packed refs when it is absent or empty, so an empty value
      reads as None. */
  function ReadRef(refs: map<Key, string>, repo: string, name: string): (r: Option<string>)
    ensures r.Some? <==> Key(name, repo) in refs && refs[Key(name, repo)] != ""
    ensures r.Some? ==> r.value == refs[Key(name, repo)]
  {
    var loose := ReadLooseRef(refs, repo, name);
    if loose.Some? && loose.value != "" then loose
    else
      // the fallback to get_packed_refs() always finds nothing
      None
  }

  /** `_follow` from its `hop`-th read on: read `refname`; stop on an absent
      or empty value; raise KeyError once a sixth value has been read;
      continue with the target of a symbolic value; otherwise `refname`
      holds the final value. The result names the last ref read and what it
      holds: never a symbolic ref, and None only for a ref that holds
      nothing. */
  function FollowFrom(refs: map<Key, string>, repo: string, refname: string, hop: nat): (r: Result<(string, Option<string>)>)
    requires 1 <= hop <= 6
    ensures r.Ok? ==> ReadRef(refs, repo, r.value.0) == r.value.1
    ensures r.Ok? && r.value.1.Some? ==> !IsSymref(r.value.1.value)
    ensures r.Err? ==> r.error == KeyError
    decreases 6 - hop
  {
    match ReadRef(refs, repo, refname)
    case None => Ok((refname, None))
    case Some(contents) =>
      if hop > 5 then Err(KeyError)
      else if IsSymref(contents) then FollowFrom(refs, repo, contents[|SYMREF|..], hop + 1)
      else Ok((refname, Some(contents)))
  }

  /** `_follow(name)`: the ref that `name` finally resolves to, and its
      value. */
  function Follow(refs: map<Key, string>, repo: string, name: string): (r: Result<(string, Option<string>)>)
    ensures r.Ok? ==> ReadRef(refs, repo, r.value.0) == r.value.1
    ensures r.Ok? && r.value.1.Some? ==> !IsSymref(r.value.1.value)
    ensures r.Err? ==> r.error == KeyError
    ensures ReadRef(refs, repo, name).None? ==> r == Ok((name, None))
    ensures ReadRef(refs, repo, name).Some? && !IsSymref(ReadRef(refs, repo, name).value) ==>
      r == Ok((name, ReadRef(refs, repo, name)))
  {
    FollowFrom(refs, repo, name, 1)
  }

  /** The base container's `refs[name]`: the value `name` resolves to, or
      KeyError when resolution fails or ends at a ref holding nothing. */
  function Lookup(refs: map<Key, string>, repo: string, name: string): (r: Result<string>)
    ensures r.Ok? <==> Follow(refs, repo, name).Ok? && Follow(refs, repo, name).value.1.Some?
    ensures r.Ok? ==> r.value != "" && !IsSymref(r.value)
    ensures r.Ok? ==> ReadRef(refs, repo, Follow(refs, repo, name).value.0) == Some(r.value)
    ensures r.Err? ==> r.error == KeyError
  {
    var (_, sha) :- Follow(refs, repo, name);
    if sha.None? then Err(KeyError) else Ok(sha.value)
  }

  /** `allkeys`: the `ALL` query, the names of this repository's refs. */
  function AllKeys(refs: map<Key, string>, repo: string): (r: set<string>)
    ensures forall n :: n in r <==> Key(n, repo) in refs
  {
    set k | k in refs && k.repo == repo :: k.name
  }

  /** `REPLACE INTO refs`: the row (name, repo) now holds `value`, whatever it
      held before. */
  function Replace(refs: map<Key, string>, repo: string, name: string, value: string): (r: map<Key, string>)
    ensures r.Keys == refs.Keys + {Key(name, repo)}
    ensures ReadLooseRef(r, repo, name) == Some(value)
    ensures forall k :: k in refs && k != Key(name, repo) ==> r[k] == refs[k]
    ensures SameOutside(refs, r, repo)
  {
    refs[Key(name, repo) := value]
  }

  /** Resolution reads only this repository's rows. */
  lemma {:induction false} FollowFromIsolated(refs1: map<Key, string>, refs2: map<Key, string>, repo: string, refname: string, hop: nat)
    requires 1 <= hop <= 6 && SameInside(refs1, refs2, repo)
    ensures FollowFrom(refs1, repo, refname, hop) == FollowFrom(refs2, repo, refname, hop)
    decreases 6 - hop
  {
    assert Key(refname, repo).repo == repo;
    assert ReadRef(refs1, repo, refname) == ReadRef(refs2, repo, refname);
    match ReadRef(refs1, repo, refname)
    case None =>
    case Some(contents) =>
      if hop <= 5 && IsSymref(contents) {
        FollowFromIsolated(refs1, refs2, repo, contents[|SYMREF|..], hop + 1);
      }
  }

  /** Every ref query gives the same answer on two tables that hold the same
      rows for `repo`, whatever other repositories hold. */
  lemma RefQueriesIsolated(refs1: map<Key, string>, refs2: map<Key, string>, repo: string, name: string)
    requires SameInside(refs1, refs2, repo)
    ensures ReadLooseRef(refs1, repo, name) == ReadLooseRef(refs2, repo, name)
    ensures Follow(refs1, repo, name) == Follow(refs2, repo, name)
    ensures Lookup(refs1, repo, name) == Lookup(refs2, repo, name)
    ensures AllKeys(refs1, repo) == AllKeys(refs2, repo)
  {
    assert Key(name, repo).repo == repo;
    FollowFromIsolated(refs1, refs2, repo, name, 1);
    forall n ensures n in AllKeys(refs1, repo) <==> n in AllKeys(refs2, repo) {
      assert Key(n, repo).repo == repo;
    }
  }

  lemma {:induction false} SelfLoopFrom(refs: map<Key, string>, repo: string, a: string, hop: nat)
    requires 1 <= hop <= 6
    requires Key(a, repo) in refs && refs[Key(a, repo)] == SymrefTo(a)
    ensures FollowFrom(refs, repo, a, hop) == Err(KeyError)
    decreases 6 - hop
  {
    var contents := SymrefTo(a);
    assert ReadRef(refs, repo, a) == Some(contents);
    if hop <= 5 {
      SelfLoopFrom(refs, repo, a, hop + 1);
    }
  }

  /** Resolution terminates on a cycle: a ref that names itself fails with
      KeyError instead of looping. */
  lemma SelfLoopFails(refs: map<Key, string>, repo: string, a: string)
    requires Key(a, repo) in refs && refs[Key(a, repo)] == SymrefTo(a)
    ensures Follow(refs, repo, a) == Err(KeyError)
    ensures Lookup(refs, repo, a) == Err(KeyError)
  {
    SelfLoopFrom(refs, repo, a, 1);
  }

  /** A symbolic ref A to B, once B is set to a sha X, resolves to X through
      B. */
  lemma SymbolicResolution(refs: map<Key, string>, repo: string, a: string, b: string, x: string)
    requires a != b && x != "" && !IsSymref(x)
    ensures var r := Replace(Replace(refs, repo, a, SymrefTo(b)), repo, b, x);
      Follow(r, repo, a) == Ok((b, Some(x))) && Lookup(r, repo, a) == Ok(x)
  {
    var r := Replace(Replace(refs, repo, a, SymrefTo(b)), repo, b, x);
    assert ReadRef(r, repo, a) == Some(SymrefTo(b));
    assert ReadRef(r, repo, b) == Some(x);
    assert SymrefTo(b)[|SYMREF|..] == b;
  }

  /** `names` is a chain of symbolic refs in `repo`: every name but the last
      holds `ref: ` followed by the next name. */
  ghost predicate Chain(refs: map<Key, string>, repo: string, names: seq<string>) {
    |names| >= 1 &&
    forall i :: 0 <= i < |names| - 1 ==> ReadRef(refs, repo, names[i]) == Some(SymrefTo(names[i + 1]))
  }

  /** Resolution from the `hop`-th read follows a chain: it ends at the
      chain's last ref with that ref's value when the value is absent, or
      present and not symbolic with a read to spare; it fails with KeyError
      when the last ref is read as the sixth value and is present. */
  lemma {:induction false} FollowFromChain(refs: map<Key, string>, repo: string, names: seq<string>, hop: nat)
    requires Chain(refs, repo, names) && 1 <= hop && hop + |names| <= 7
    ensures var last := names[|names| - 1]; var v := ReadRef(refs, repo, last);
      (v.None? || (!IsSymref(v.value) && hop + |names| <= 6)) ==> FollowFrom(refs, repo, names[0], hop) == Ok((last, v))
    ensures var last := names[|names| - 1];
      hop + |names| == 7 && ReadRef(refs, repo, last).Some? ==> FollowFrom(refs, repo, names[0], hop) == Err(KeyError)
    decreases |names|
  {
    if |names| > 1 {
      var rest := names[1..];
      assert Chain(refs, repo, rest) by {
        forall i | 0 <= i < |rest| - 1
          ensures ReadRef(refs, repo, rest[i]) == Some(SymrefTo(rest[i + 1]))
        {
          assert rest[i] == names[i + 1] && rest[i + 1] == names[i + 2];
        }
      }
      FollowFromChain(refs, repo, rest, hop + 1);
      assert ReadRef(refs, repo, names[0]) == Some(SymrefTo(names[1]));
      assert SymrefTo(names[1])[|SYMREF|..] == names[1];
    }
  }

  /** `_follow(name)` along a chain starting at `name`: a chain of at most
      six refs ending at an absent ref, or at most five ending at a sha,
      resolves to its last ref and value; six present refs are KeyError. */
  lemma FollowChain(refs: map<Key, string>, repo: string, names: seq<string>)
    requires Chain(refs, repo, names) && |names| <= 6
    ensures var last := names[|names| - 1]; var v := ReadRef(refs, repo, last);
      (v.None? || (!IsSymref(v.value) && |names| <= 5)) ==> Follow(refs, repo, names[0]) == Ok((last, v))
    ensures |names| == 6 && ReadRef(refs, repo, names[5]).Some? ==> Follow(refs, repo, names[0]) == Err(KeyError)
  {
    FollowFromChain(refs, repo, names, 1);
  }

  /** Every resolution from the `hop`-th read is the following of a chain:
      the chain stops at an absent or non-symbolic ref unless the read
      budget runs out, and the result is KeyError exactly when the budget
      ran out on a present ref. */
  lemma {:induction false} FollowFromTrace(refs: map<Key, string>, repo: string, refname: string, hop: nat) returns (names: seq<string>)
    requires 1 <= hop <= 6
    ensures Chain(refs, repo, names) && names[0] == refname && hop + |names| <= 7
    ensures var v := ReadRef(refs, repo, names[|names| - 1]);
      (hop + |names| < 7 ==> v.None? || !IsSymref(v.value)) &&
      FollowFrom(refs, repo, refname, hop) ==
        if hop + |names| == 7 && v.Some? then Err(KeyError) else Ok((names[|names| - 1], v))
    decreases 6 - hop
  {
    match ReadRef(refs, repo, refname)
    case None =>
      names := [refname];
    case Some(c) =>
      if hop <= 5 && IsSymref(c) {
        var rest := FollowFromTrace(refs, repo, c[|SYMREF|..], hop + 1);
        names := [refname] + rest;
        assert c == SymrefTo(rest[0]) by {
          assert c == c[..|SYMREF|] + c[|SYMREF|..];
        }
        forall i | 0 <= i < |names| - 1
          ensures ReadRef(refs, repo, names[i]) == Some(SymrefTo(names[i + 1]))
        {
          if i > 0 {
            assert names[i] == rest[i - 1] && names[i + 1] == rest[i];
          }
        }
      } else {
        names := [refname];
      }
  }

  /** `_follow(name)` is the following of the chain that starts at `name`:
      at most six refs, stopping early only at an absent or non-symbolic
      ref; KeyError exactly when six present values were read. */
  lemma FollowTrace(refs: map<Key, string>, repo: string, name: string) returns (names: seq<string>)
    ensures Chain(refs, repo, names) && names[0] == name && |names| <= 6
    ensures var v := ReadRef(refs, repo, names[|names| - 1]);
      (|names| < 6 ==> v.None? || !IsSymref(v.value)) &&
      Follow(refs, repo, name) == if |names| == 6 && v.Some? then Err(KeyError) else Ok((names[|names| - 1], v))
  {
    names := FollowFromTrace(refs, repo, name, 1);
  }

  /** The refs of one repository (`MysqlRefsContainer`): its name, the shared
      database, the base container's ref-name check, and the peeled-ref
      cache, which starts empty and which no operation fills. */
  class MysqlRefsContainer {
    const repo: string
    const db: Database
    const checkRefname: string -> bool
    var peeled: map<string, string>

    constructor (repo: string, db: Database, checkRefname: string -> bool)
      ensures this.repo == repo && this.db == db && this.checkRefname == checkRefname
      ensures peeled == map[]
    {
      this.repo := repo;
      this.db := db;
      this.checkRefname := checkRefname;
      peeled := map[];
    }

    /** `get_peeled`: the cached peeled value, never a database read; None
        while the cache is empty. */
    function GetPeeled(name: string): (r: Option<string>)
      reads this
      ensures r.Some? <==> name in peeled
      ensures peeled == map[] ==> r == None
    {
      if name in peeled then Some(peeled[name]) else None
    }

    /** `_update_ref`: the `ADD` statement, a `REPLACE` of the row. */
    method UpdateRef(name: string, value: string)
      modifies db
      ensures db.refs == Replace(old(db.refs), repo, name, value)
      ensures db.objs == old(db.objs)
    {
      db.refs := Replace(db.refs, repo, name, value);
    }

    /** `_remove_ref`: the `DEL` statement on the row (name, repo). */
    method RemoveRef(name: string)
      modifies db
      ensures db.refs == old(db.refs) - {Key(name, repo)}
      ensures ReadLooseRef(db.refs, repo, name) == None
      ensures SameOutside(old(db.refs), db.refs, repo)
      ensures db.objs == old(db.objs)
    {
      db.refs := db.refs - {Key(name, repo)};
    }

    /** `set_if_equals`: when `oldRef` is given and the stored value differs,
        return False and write nothing; otherwise resolve `name`, check the
        resolved name, and write `newRef` there. */
    method SetIfEquals(name: string, oldRef: Option<string>, newRef: string) returns (r: Result<bool>)
      modifies db
      ensures oldRef.Some? && ReadLooseRef(old(db.refs), repo, name) != oldRef ==>
        r == Ok(false) && db.refs == old(db.refs)
      ensures oldRef.None? || ReadLooseRef(old(db.refs), repo, name) == oldRef ==>
        match Follow(old(db.refs), repo, name)
        case Err(e) => r == Err(e) && db.refs == old(db.refs)
        case Ok((realname, _)) =>
          if checkRefname(realname) then r == Ok(true) && db.refs == Replace(old(db.refs), repo, realname, newRef)
          else r == Err(RefFormatError) && db.refs == old(db.refs)
      ensures SameOutside(old(db.refs), db.refs, repo)
      ensures db.objs == old(db.objs)
    {
      if oldRef.Some? {
        var current := ReadLooseRef(db.refs, repo, name);
        if oldRef != current {
          return Ok(false);
        }
      }
      var followed := Follow(db.refs, repo, name);
      if followed.Err? {
        return Err(followed.error);
      }
      var realname := followed.value.0;
      if !checkRefname(realname) {
        return Err(RefFormatError);
      }
      UpdateRef(realname, newRef);
      r := Ok(true);
    }

    /** `set_symbolic_ref`: write `ref: <other>` under `name`, unresolved and
        unchecked. The source calls `_update_ref` without its cursor argument;
        the model performs the `REPLACE` that call is meant to issue. */
    method SetSymbolicRef(name: string, other: string)
      modifies db
      ensures db.refs == Replace(old(db.refs), repo, name, SymrefTo(other))
      ensures db.objs == old(db.objs)
    {
      UpdateRef(name, SymrefTo(other));
    }

    /** `add_if_new`: return False and write nothing when `name` holds a
        non-empty value; otherwise write `ref` under `name` (unresolved). The
        source calls `_update_ref` without its cursor argument; the model
        performs the intended `REPLACE`. */
    method AddIfNew(name: string, ref: string) returns (r: bool)
      modifies db
      ensures r <==> ReadRef(old(db.refs), repo, name).None?
      ensures !r ==> db.refs == old(db.refs)
      ensures r ==> db.refs == Replace(old(db.refs), repo, name, ref)
      ensures ReadLooseRef(db.refs, repo, name).Some?
      ensures SameOutside(old(db.refs), db.refs, repo)
      ensures db.objs == old(db.objs)
    {
      var current := ReadLooseRef(db.refs, repo, name);
      if current.Some? && current.value != "" {
        return false;
      }
      UpdateRef(name, ref);
      r := true;
    }

    /** `remove_if_equals`: when `oldRef` is given and the stored value
        differs, return False and delete nothing; otherwise delete the row of
        `name` itself (unresolved). */
    method RemoveIfEquals(name: string, oldRef: Option<string>) returns (r: bool)
      modifies db
      ensures r <==> oldRef.None? || ReadLooseRef(old(db.refs), repo, name) == oldRef
      ensures !r ==> db.refs == old(db.refs)
      ensures r ==> db.refs == old(db.refs) - {Key(name, repo)}
      ensures SameOutside(old(db.refs), db.refs, repo)
      ensures db.objs == old(db.objs)
    {
      if oldRef.Some? {
        var current := ReadLooseRef(db.refs, repo, name);
        if current != oldRef {
          return false;
        }
      }
      RemoveRef(name);
      r := true;
    }
  }
}
