/**
 * The file based context registry: every agent's context is marked by a file named
 * after the agent, inside a directory path fixed when the factory is built. The file
 * system is the set of files that exist, each named by its resolved name, together with
 * the resolution of a file name to the file it denotes; each operation returns the set
 * afterwards.
 */
module FileContexts {
  import opened Results
  import opened JavaStrings

  /** The resolved names of the files that exist. */
  type Files = set<string>

  /** How the file system resolves a file name to the file it denotes: `p/./a` and `p/a`
      denote one file, and so do names differing only in case on some systems. */
  type Resolver = string -> string

  /** The directory used when the configuration names none. */
  const DefaultPath := ".eveagents"

  /** `setPath(path)`: the default for a null path, with a `/` appended unless the path
      already ends in one. */
  function SetPath(path: Option<string>): (r: string)
    ensures EndsWith(r, "/")
    ensures path.None? ==> r == DefaultPath + "/"
    ensures path.Some? && EndsWith(path.value, "/") ==> r == path.value
    ensures path.Some? && !EndsWith(path.value, "/") ==> r == path.value + "/"
  {
    var p := path.GetOr(DefaultPath);
    if EndsWith(p, "/") then p else p + "/"
  }

  /** A normalised path is kept as it is: setting it again changes nothing. */
  lemma SetPathIdempotent(path: Option<string>)
    ensures SetPath(Some(SetPath(path))) == SetPath(path)
  {
  }

  /** The factory, with the directory path it stores contexts under. */
  datatype Factory = Factory(path: Option<string>)

  /** The constructor taking configuration parameters: the `path` entry, if any, set
      through `SetPath`; a missing map or entry means the default. */
  function NewFactory(params: Option<map<string, string>>): (r: Factory)
    ensures r.path.Some? && EndsWith(r.path.value, "/")
    ensures params.None? || "path" !in params.value ==> r.path == Some(DefaultPath + "/")
    ensures params.Some? && "path" in params.value ==> r.path == Some(SetPath(Some(params.value["path"])))
  {
    var newPath := if params.Some? && "path" in params.value then Some(params.value["path"]) else None;
    Factory(Some(SetPath(newPath)))
  }

  /** The constructor taking the path itself. */
  function NewFactoryAt(path: Option<string>): (r: Factory)
    ensures r.path.Some? && EndsWith(r.path.value, "/")
    ensures path.Some? && EndsWith(path.value, "/") ==> r.path == path
  {
    Factory(Some(SetPath(path)))
  }

  /** `getFilename(agentId)`: the agent id appended to the path, or the bare id when no
      path is set. */
  function Filename(f: Factory, agentId: string): (r: string)
    ensures StartsWith(r, f.path.GetOr(""))
    ensures r[|f.path.GetOr("")|..] == agentId
  {
    f.path.GetOr("") + agentId
  }

  /** Different agents get different files. */
  lemma FilenameInjective(f: Factory, a: string, b: string)
    ensures Filename(f, a) == Filename(f, b) <==> a == b
  {
    if Filename(f, a) == Filename(f, b) {
      var p := f.path.GetOr("");
      assert a == Filename(f, a)[|p|..] && b == Filename(f, b)[|p|..];
    }
  }

  /** `exists(agentId)`: the file named after the agent exists. */
  predicate Exists(f: Factory, canon: Resolver, files: Files, agentId: string) {
    canon(Filename(f, agentId)) in files
  }

  /** True when the two agents' file names denote one file. */
  predicate SameFile(f: Factory, canon: Resolver, a: string, b: string) {
    canon(Filename(f, a)) == canon(Filename(f, b))
  }

  /** A context handle: the agent it belongs to and the file name that backs it. */
  datatype FileContext = FileContext(agentId: string, filename: string)

  /** `get(agentId)`: the agent's context when its file exists, otherwise null. */
  function Get(f: Factory, canon: Resolver, files: Files, agentId: string): (r: Option<FileContext>)
    ensures r.None? <==> !Exists(f, canon, files, agentId)
    ensures r.Some? ==> r.value.agentId == agentId && canon(r.value.filename) in files
  {
    if Exists(f, canon, files, agentId) then Some(FileContext(agentId, Filename(f, agentId))) else None
  }

  /** Why `create` throws. */
  datatype CreateError = AlreadyExists(agentId: string)

  /** `create(agentId)`: refused when the agent's file exists; otherwise the file is
      created and the new context returned with the files afterwards. */
  function Create(f: Factory, canon: Resolver, files: Files, agentId: string): (r: Result<(FileContext, Files), CreateError>)
    ensures r.Failure? <==> Exists(f, canon, files, agentId)
    ensures r.Failure? ==> r.error == AlreadyExists(agentId)
    ensures r.Success? ==> Exists(f, canon, r.value.1, agentId) && Get(f, canon, r.value.1, agentId) == Some(r.value.0)
    ensures r.Success? ==> forall other ::
              Exists(f, canon, r.value.1, other) <==> Exists(f, canon, files, other) || SameFile(f, canon, other, agentId)
    ensures r.Success? ==> files <= r.value.1 && |r.value.1| == |files| + 1
  {
    if Exists(f, canon, files, agentId) then Failure(AlreadyExists(agentId))
    else
      var filename := Filename(f, agentId);
      Success((FileContext(agentId, filename), files + {canon(filename)}))
  }

  /** `delete(agentId)`: removes the agent's file when it exists; a missing one is left
      alone. */
  function Delete(f: Factory, canon: Resolver, files: Files, agentId: string): (r: Files)
    ensures forall other :: SameFile(f, canon, other, agentId) ==> !Exists(f, canon, r, other)
    ensures !Exists(f, canon, files, agentId) ==> r == files
    ensures forall other :: !SameFile(f, canon, other, agentId) ==>
              (Exists(f, canon, r, other) <==> Exists(f, canon, files, other))
    ensures r <= files && |files - r| <= 1
  {
    var file := canon(Filename(f, agentId));
    if file in files then files - {file} else files
  }

  /** When the file system tells every name apart, different agents never share a file,
      so `create` and `delete` touch no other agent. */
  lemma OthersUntouched(f: Factory, canon: Resolver, agentId: string)
    requires forall x, y :: canon(x) == canon(y) ==> x == y
    ensures forall other :: other != agentId ==> !SameFile(f, canon, other, agentId)
  {
    forall other | other != agentId
      ensures !SameFile(f, canon, other, agentId)
    {
      FilenameInjective(f, other, agentId);
    }
  }

  /** Two ids that resolve to one file are one agent to the factory: after `a` is created,
      `./a` exists too and cannot be created. */
  lemma AliasedIdsShareAFile()
    ensures var f := Factory(Some("p/"));
            var canon: Resolver := x => if x == "p/./a" then "p/a" else x;
            && Create(f, canon, {}, "a").Success?
            && Exists(f, canon, Create(f, canon, {}, "a").value.1, "./a")
            && Create(f, canon, Create(f, canon, {}, "a").value.1, "./a") == Failure(AlreadyExists("./a"))
  {
    var f := Factory(Some("p/"));
    assert Filename(f, "a") == "p/a" && Filename(f, "./a") == "p/./a";
  }

  /** Deleting twice is deleting once. */
  lemma DeleteIdempotent(f: Factory, canon: Resolver, files: Files, agentId: string)
    ensures Delete(f, canon, Delete(f, canon, files, agentId), agentId) == Delete(f, canon, files, agentId)
  {
  }

  /** Creating a context and deleting it again leaves the files as they were. */
  lemma CreateThenDelete(f: Factory, canon: Resolver, files: Files, agentId: string)
    requires !Exists(f, canon, files, agentId)
    ensures Create(f, canon, files, agentId).Success?
    ensures Delete(f, canon, Create(f, canon, files, agentId).value.1, agentId) == files
  {
  }

  /** Once a context is deleted it can be created again, and creating it a second time
      without a delete fails. */
  lemma CreateOnce(f: Factory, canon: Resolver, files: Files, agentId: string)
    ensures Create(f, canon, Delete(f, canon, files, agentId), agentId).Success?
    ensures Create(f, canon, files, agentId).Success? ==>
              Create(f, canon, Create(f, canon, files, agentId).value.1, agentId) == Failure(AlreadyExists(agentId))
  {
  }
}
