/** `MysqlRepo` (dulwich/mysqlrepo.py): a bare repository named `name`,
    whose object store and refs container share one database and filter
    every statement on that name; and the registry class methods that look
    across repositories. */
module Repo {
  import opened Wrappers
  import opened Tables
  import opened ObjectStore
  import opened Refs

  /** A repository: its name, its object store and its refs container. It is
      always bare: there is no working tree and no index. */
  class MysqlRepo {
    const name: string
    const objectStore: MysqlObjectStore
    const refs: MysqlRefsContainer
    const bare: bool

    /** `__init__`: both halves are built over the same name. Nothing is
        read or written, so `init_bare` and `open` (which only call this)
        neither create nor check for the repository. */
    constructor (name: string, db: Database, checkRefname: string -> bool)
      ensures this.name == name && bare
      ensures objectStore.repo == name && objectStore.db == db
      ensures refs.repo == name && refs.db == db && refs.checkRefname == checkRefname
      ensures fresh(objectStore) && fresh(refs) && refs.peeled == map[]
    {
      this.name := name;
      objectStore := new MysqlObjectStore(name, db);
      refs := new MysqlRefsContainer(name, db, checkRefname);
      bare := true;
    }

    /** `head`: `refs['refs/heads/master']`, the sha the master branch
        resolves to, or KeyError. */
    function Head(): (r: Result<string>)
      reads this, refs, refs.db
      ensures r.Ok? ==> r.value != "" && !IsSymref(r.value)
      ensures r.Err? ==> r.error == KeyError
      ensures var v := ReadRef(refs.db.refs, refs.repo, MASTER);
        (v.None? ==> r == Err(KeyError)) &&
        (v.Some? && !IsSymref(v.value) ==> r == Ok(v.value))
    {
      Lookup(refs.db.refs, refs.repo, MASTER)
    }
  }

  /** The branch `head` reads. */
  const MASTER: string := "refs/heads/master"

  /** `head` follows the chain of symbolic refs from the master branch: a
      chain of at most five refs ending at a sha gives that sha; six present
      refs, or a chain ending at an absent ref, give KeyError. */
  lemma HeadFollowsChain(repo: MysqlRepo, names: seq<string>)
    requires Chain(repo.refs.db.refs, repo.refs.repo, names) && names[0] == MASTER && |names| <= 6
    ensures var v := ReadRef(repo.refs.db.refs, repo.refs.repo, names[|names| - 1]);
      (v.Some? && !IsSymref(v.value) && |names| <= 5 ==> repo.Head() == Ok(v.value)) &&
      (v.None? ==> repo.Head() == Err(KeyError))
    ensures |names| == 6 && ReadRef(repo.refs.db.refs, repo.refs.repo, names[5]).Some? ==> repo.Head() == Err(KeyError)
  {
    FollowChain(repo.refs.db.refs, repo.refs.repo, names);
  }

  /** `init_bare` / `open`: a repository object for `name`, whether or not
      any row of it exists. */
  method Open(name: string, db: Database, checkRefname: string -> bool) returns (repo: MysqlRepo)
    ensures fresh(repo) && repo.name == name && repo.bare
    ensures repo.objectStore.db == db && repo.refs.db == db
    ensures repo.objectStore.repo == name && repo.refs.repo == name
  {
    repo := new MysqlRepo(name, db, checkRefname);
  }

  /** `open_index`: a bare repository has no index. */
  function OpenIndex(): (r: Result<()>)
    ensures r == Err(NoIndexPresent)
  {
    Err(NoIndexPresent)
  }

  /** `repo_exists`: whether some `objs` row belongs to `name`; refs are not
      consulted. */
  function RepoExists(objs: map<Key, ObjRow>, name: string): (r: bool)
    ensures r <==> AllShas(objs, name) != {}
  {
    var exists_ := exists k :: k in objs && k.repo == name;
    assert exists_ ==> (var k :| k in objs && k.repo == name; k.name in AllShas(objs, name));
    assert AllShas(objs, name) != {} ==> (var id :| id in AllShas(objs, name); Key(id, name) in objs);
    exists_
  }

  /** `list_repos`: `SELECT DISTINCT repo FROM objs`, each repository that
      has an object, once. */
  function ListRepos(objs: map<Key, ObjRow>): (r: set<string>)
    ensures forall n :: n in r <==> RepoExists(objs, n)
  {
    set k | k in objs :: k.repo
  }

  /** The rows that survive `DELETE ... WHERE repo = name`. */
  function WithoutRepo<V>(m: map<Key, V>, name: string): (r: map<Key, V>)
    ensures forall k :: k in r <==> k in m && k.repo != name
    ensures forall k :: k in r ==> r[k] == m[k]
    ensures SameOutside(m, r, name)
  {
    map k | k in m && k.repo != name :: m[k]
  }

  /** `delete_repo`: remove every `objs` row and every `refs` row of `name`
      and no other. */
  method DeleteRepo(db: Database, name: string)
    modifies db
    ensures db.objs == WithoutRepo(old(db.objs), name)
    ensures db.refs == WithoutRepo(old(db.refs), name)
    ensures !RepoExists(db.objs, name) && name !in ListRepos(db.objs)
    ensures AllKeys(db.refs, name) == {} && AllShas(db.objs, name) == {}
  {
    db.objs := WithoutRepo(db.objs, name);
    db.refs := WithoutRepo(db.refs, name);
  }

  /** After `delete_repo(n)` every other repository's registry entry,
      objects and refs are as before. */
  lemma DeleteRepoKeepsOthers(objs: map<Key, ObjRow>, refs: map<Key, string>, name: string, other: string)
    requires other != name
    ensures RepoExists(WithoutRepo(objs, name), other) == RepoExists(objs, other)
    ensures AllShas(WithoutRepo(objs, name), other) == AllShas(objs, other)
    ensures AllKeys(WithoutRepo(refs, name), other) == AllKeys(refs, other)
  {
    var objs' := WithoutRepo(objs, name);
    if RepoExists(objs, other) {
      var k :| k in objs && k.repo == other;
      assert k in objs';
    }
  }

  /** Adding an object makes its repository exist and be listed. */
  lemma AddedObjectListsRepo(objs: map<Key, ObjRow>, o: ShaObject, repo: string)
    ensures var objs' := InsertIgnore(objs, RowOf(o, repo).0, RowOf(o, repo).1);
      RepoExists(objs', repo) && repo in ListRepos(objs')
  {
    var objs' := InsertIgnore(objs, RowOf(o, repo).0, RowOf(o, repo).1);
    assert Key(o.id, repo) in objs';
  }
}
