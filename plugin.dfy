/**
 * The configuration and argument logic of the kaniko Drone plugin: the
 * plugin's parameters, their validation, the assembly of the
 * `/kaniko/executor` command line (with tags read from tag files), and the
 * rewrite of the Docker credentials file.
 */
module Plugin {
  import opened Wrappers
  import opened Paths
  import opened Text
  import Base64
  import Utf8

  const DockerRegistry: string := "https://index.docker.io/v1/"
  const ExecutorCommand: string := "/kaniko/executor"

  // ----------------------------------------------------------- parameters

  /** The value of the plugin's parameter record, one component per field. */
  datatype Params = Params(
    registry: string,
    username: string,
    password: string,
    context: string,
    dockerfile: string,
    buildArgs: seq<string>,
    cache: bool,
    cacheDir: string,
    cacheRepo: string,
    noPush: bool,
    repo: string,
    tags: seq<string>,
    tagFiles: seq<string>,
    tarPath: string,
    verbosity: string,
    pluginDryRun: bool,
    disableGCRHelper: bool)

  /** The errors the plugin's operations report, one per distinct error site. */
  datatype Error =
    | NoRepo                    // tag(s) were specified, but no repo was set
    | AbsContext                // determining absolute context path
    | ReadTag(path: string)     // reading tag from the file at path
    | InvalidTag(path: string)  // the file at path does not hold a valid tag
    | DecodeJson                // reading the credentials file as JSON

  /** The parameters before the environment is applied: Docker Hub and the current directory. */
  function DefaultConfig(): Params {
    Params(DockerRegistry, "", "", ".", "", [], false, "", "", false, "", [], [], "", "", false, false)
  }

  /** Tags are requested (literally or from files) but there is no repository to tag. */
  predicate MissingRepo(p: Params) {
    |p.tags| + |p.tagFiles| > 0 && p.repo == ""
  }

  /** What a successful validation establishes about the parameters. */
  predicate Validated(p: Params) {
    !MissingRepo(p) && IsAbs(p.context)
  }

  // ------------------------------------------------------------ tag files

  /** Tag-file contents by path: a path mapped to its text can be read, any other path fails to read. */
  type FileSystem = map<string, string>

  /** The file a tag-file name refers to: a relative name is taken relative to a non-empty context. */
  function TagFilePath(context: string, name: string): (path: string)
    ensures IsAbs(name) || context == "" ==> path == name
    ensures !IsAbs(name) && context != "" ==> path == Join(context, name)
    ensures IsAbs(context) ==> IsAbs(path)
  {
    if !IsAbs(name) && context != "" then Join(context, name) else name
  }

  /**
   * readTagFile: the tag held in a tag file is the file's text with the
   * surrounding white space trimmed; reading fails when the file cannot be
   * read or the trimmed text does not match the tag regular expression.
   */
  function ReadTagFile(context: string, name: string, fs: FileSystem): Result<string, Error> {
    var path := TagFilePath(context, name);
    if path !in fs then Err(ReadTag(path))
    else
      var raw := TrimSpace(fs[path]);
      if !ContainsWordChar(raw) then Err(InvalidTag(path)) else Ok(raw)
  }

  /** Reading the tag file of a given name, for a fixed context and file system. */
  function TagReader(context: string, fs: FileSystem): string -> Result<string, Error> {
    name => ReadTagFile(context, name, fs)
  }

  /** The tags of a list of tag files, in order, or the error of the first file that fails. */
  function ReadTagFiles(read: string -> Result<string, Error>, names: seq<string>): (r: Result<seq<string>, Error>)
    ensures r.Ok? ==> |r.value| == |names|
    decreases |names|
  {
    if names == [] then Ok([])
    else
      var init := ReadTagFiles(read, names[..|names| - 1]);
      if init.Err? then init
      else
        var last := read(names[|names| - 1]);
        if last.Err? then Err(last.error) else Ok(init.value + [last.value])
  }

  // ------------------------------------------------------ executor command

  /** An executable and the arguments it is run with (`exec.Command(path, args...)`). */
  datatype Cmd = Cmd(path: string, args: seq<string>)

  /** `flag v` for every value `v`, in order. */
  function Pairs(flag: string, values: seq<string>): (r: seq<string>)
    ensures |r| == 2 * |values|
    decreases |values|
  {
    if values == [] then []
    else Pairs(flag, values[..|values| - 1]) + [flag, values[|values| - 1]]
  }

  /** The image references `repo:tag`, one per tag. */
  function ImageRefs(repo: string, tags: seq<string>): (refs: seq<string>)
    ensures |refs| == |tags|
  {
    seq(|tags|, i requires 0 <= i < |tags| => repo + ":" + tags[i])
  }

  function When(b: bool, args: seq<string>): seq<string> {
    if b then args else []
  }

  /** The executor's flags other than the destinations, in the order the plugin emits them. */
  function FlagArgs(p: Params): seq<string> {
    LeadingFlags(p) + Pairs("--build-arg", p.buildArgs) + TrailingFlags(p)
  }

  /** The flags before the build arguments. */
  function LeadingFlags(p: Params): seq<string> {
    ["--context", p.context]
    + When(p.cache, ["--cache"])
    + When(p.noPush, ["--no-push"])
    + When(p.dockerfile != "", ["--dockerfile", p.dockerfile])
  }

  /** The flags after the build arguments. */
  function TrailingFlags(p: Params): seq<string> {
    When(p.cacheDir != "", ["--cache-dir", p.cacheDir])
    + When(p.tarPath != "", ["--tarPath", p.tarPath])
    + When(p.verbosity != "", ["--verbosity", p.verbosity])
  }

  /**
   * The command the plugin runs: the flags, then one destination per tag,
   * literal tags first and tag-file tags after them; no command at all when
   * a tag file fails.
   */
  function CommandSpec(p: Params, fs: FileSystem): Result<Cmd, Error> {
    match ReadTagFiles(TagReader(p.context, fs), p.tagFiles)
    case Err(e) => Err(e)
    case Ok(fileTags) =>
      Ok(Cmd(ExecutorCommand, FlagArgs(p) + Pairs("--destination", ImageRefs(p.repo, p.tags + fileTags))))
  }

  /** Once a prefix of the tag files fails, the whole list fails with the same error. */
  lemma {:induction false} ReadTagFilesPrefixErr(read: string -> Result<string, Error>, names: seq<string>, j: nat)
    requires j <= |names|
    requires ReadTagFiles(read, names[..j]).Err?
    ensures ReadTagFiles(read, names) == ReadTagFiles(read, names[..j])
    decreases |names| - j
  {
    if j < |names| {
      var next := names[..j + 1];
      assert next[..|next| - 1] == names[..j];
      ReadTagFilesPrefixErr(read, names, j + 1);
    } else {
      assert names[..j] == names;
    }
  }

  /** The context flag, then the cache, no-push and Dockerfile flags of those that are set. */
  method LeadingArgs(p: Params) returns (args: seq<string>)
    ensures args == LeadingFlags(p)
  {
    args := ["--context", p.context];
    if p.cache {
      args := args + ["--cache"];
    }
    if p.noPush {
      args := args + ["--no-push"];
    }
    if p.dockerfile != "" {
      args := args + ["--dockerfile", p.dockerfile];
    }
  }

  /** Appends the cache-directory, tar-path and verbosity flags of those that are set. */
  method AppendTrailingArgs(args: seq<string>, p: Params) returns (out: seq<string>)
    ensures out == args + TrailingFlags(p)
  {
    out := args;
    if p.cacheDir != "" {
      out := out + ["--cache-dir", p.cacheDir];
    }
    if p.tarPath != "" {
      out := out + ["--tarPath", p.tarPath];
    }
    if p.verbosity != "" {
      out := out + ["--verbosity", p.verbosity];
    }
  }

  /** Appends `flag v` for every value `v`, in order. */
  method AppendPairs(args: seq<string>, flag: string, values: seq<string>) returns (out: seq<string>)
    ensures out == args + Pairs(flag, values)
  {
    out := args;
    for i := 0 to |values|
      invariant out == args + Pairs(flag, values[..i])
    {
      assert values[..i + 1][..i] == values[..i];
      out := out + [flag, values[i]];
    }
    assert values[..|values|] == values;
  }

  /** Appends `--destination repo:tag` for every tag, in order. */
  method AppendDestinations(args: seq<string>, repo: string, tags: seq<string>) returns (out: seq<string>)
    ensures out == args + Pairs("--destination", ImageRefs(repo, tags))
  {
    out := args;
    for k := 0 to |tags|
      invariant out == args + Pairs("--destination", ImageRefs(repo, tags[..k]))
    {
      var refs := ImageRefs(repo, tags[..k + 1]);
      assert refs[..|refs| - 1] == ImageRefs(repo, tags[..k]);
      out := out + ["--destination", repo + ":" + tags[k]];
    }
    assert tags[..|tags|] == tags;
  }

  /** The literal tags followed by the tags read from the tag files, or the first tag file's error. */
  method ReadTags(context: string, literal: seq<string>, names: seq<string>, fs: FileSystem)
    returns (r: Result<seq<string>, Error>)
    ensures var files := ReadTagFiles(TagReader(context, fs), names);
      && (files.Err? ==> r == Err(files.error))
      && (files.Ok? ==> r == Ok(literal + files.value))
  {
    ghost var read := TagReader(context, fs);
    var fromFiles := [];
    for j := 0 to |names|
      invariant ReadTagFiles(read, names[..j]) == Ok(fromFiles)
    {
      var prefix := names[..j + 1];
      assert prefix[..|prefix| - 1] == names[..j];
      var tag := ReadTagFile(context, names[j], fs);
      assert read(names[j]) == tag;
      if tag.Err? {
        ReadTagFilesPrefixErr(read, names, j + 1);
        return Err(tag.error);
      }
      fromFiles := fromFiles + [tag.value];
    }
    assert names[..|names|] == names;
    return Ok(literal + fromFiles);
  }

  // ---------------------------------------------------- credentials file

  /** One registry's entry in the credentials file. */
  datatype AuthConfig = AuthConfig(auth: string)

  /**
   * The part of the Docker credentials document the plugin decodes: the
   * `auths` map (None when absent or null) and the optional `credHelpers` map.
   */
  datatype DockerConfig = DockerConfig(auths: Option<map<string, AuthConfig>>, credHelpers: Option<map<string, string>>)

  /** The contents of the credentials file: a document of that shape, or text that does not decode as one. */
  datatype ConfigData = Decoded(doc: DockerConfig) | Undecodable(text: string)

  /** The `auth` entry for a user: standard Base64 of the UTF-8 bytes of `username:password`. */
  function Credential(username: string, password: string): string {
    Base64.Encode(Utf8.Encode(username + ":" + password))
  }

  /**
   * The document after the rewrite: the entry for `registry` is set to the
   * user's credential, every other entry kept, and the credential helpers
   * dropped when they are disabled.
   */
  function UpdateDockerConfig(doc: DockerConfig, registry: string, username: string, password: string,
                              disableGCRHelper: bool): (r: DockerConfig)
    requires doc.auths.Some?
    ensures r.auths.Some? && r.auths.value.Keys == doc.auths.value.Keys + {registry}
    ensures r.auths.value[registry] == AuthConfig(Credential(username, password))
    ensures forall k :: k in doc.auths.value && k != registry ==> r.auths.value[k] == doc.auths.value[k]
    ensures disableGCRHelper ==> r.credHelpers == None
    ensures !disableGCRHelper ==> r.credHelpers == doc.credHelpers
  {
    var auths := doc.auths.value[registry := AuthConfig(Credential(username, password))];
    DockerConfig(Some(auths), if disableGCRHelper then None else doc.credHelpers)
  }

  /** The open credentials file, read and rewritten in place. */
  class DockerConfigFile {
    var data: ConfigData

    constructor (data: ConfigData)
      ensures this.data == data
    {
      this.data := data;
    }
  }

  // --------------------------------------------------------- the config

  /** The plugin's configuration record, whose context field validation rewrites in place. */
  class Config {
    var registry: string
    var username: string
    var password: string
    var context: string
    var dockerfile: string
    var buildArgs: seq<string>
    var cache: bool
    var cacheDir: string
    var cacheRepo: string
    var noPush: bool
    var repo: string
    var tags: seq<string>
    var tagFiles: seq<string>
    var tarPath: string
    var verbosity: string
    var pluginDryRun: bool
    var disableGCRHelper: bool

    /** The current value of every field. */
    function Snapshot(): Params
      reads this
    {
      Params(registry, username, password, context, dockerfile, buildArgs, cache, cacheDir, cacheRepo,
             noPush, repo, tags, tagFiles, tarPath, verbosity, pluginDryRun, disableGCRHelper)
    }

    constructor (p: Params)
      ensures Snapshot() == p
    {
      registry, username, password, context, dockerfile := p.registry, p.username, p.password, p.context, p.dockerfile;
      buildArgs, cache, cacheDir, cacheRepo, noPush := p.buildArgs, p.cache, p.cacheDir, p.cacheRepo, p.noPush;
      repo, tags, tagFiles, tarPath, verbosity := p.repo, p.tags, p.tagFiles, p.tarPath, p.verbosity;
      pluginDryRun, disableGCRHelper := p.pluginDryRun, p.disableGCRHelper;
    }

    /**
     * Validate: refuses tags without a repository, and makes the context
     * absolute by resolving a relative one against the working directory
     * `wd` (None when it cannot be determined).  Only the context changes.
     */
    method Validate(wd: Option<AbsPath>) returns (res: Outcome<Error>)
      modifies this
      ensures Snapshot() == old(Snapshot()).(context := context)
      ensures MissingRepo(old(Snapshot())) ==> res == Fail(NoRepo) && context == old(context)
      ensures !MissingRepo(old(Snapshot())) && IsAbs(old(context)) ==> res == Pass && context == old(context)
      ensures !MissingRepo(old(Snapshot())) && !IsAbs(old(context)) ==>
        match Abs(wd, old(context))
        case Some(path) => res == Pass && context == path
        case None => res == Fail(AbsContext) && context == ""
      ensures res.Pass? <==> !MissingRepo(old(Snapshot())) && (IsAbs(old(context)) || wd.Some?)
      ensures res.Pass? ==> Validated(Snapshot())
    {
      if |tags| + |tagFiles| > 0 && repo == "" {
        return Fail(NoRepo);
      }
      if !IsAbs(context) {
        var abs := Abs(wd, context);
        // filepath.Abs returns "" alongside its error, and that is what the field then holds.
        context := if abs.Some? then abs.value else "";
        if abs.None? {
          return Fail(AbsContext);
        }
      }
      return Pass;
    }

    /** Command: assembles the executor's command line, or reports the first tag file that fails. */
    method Command(fs: FileSystem) returns (r: Result<Cmd, Error>)
      ensures r == CommandSpec(Snapshot(), fs)
    {
      var p := Snapshot();
      var args := LeadingArgs(p);
      args := AppendPairs(args, "--build-arg", p.buildArgs);
      args := AppendTrailingArgs(args, p);
      var tags := ReadTags(p.context, p.tags, p.tagFiles, fs);
      if tags.Err? {
        return Err(tags.error);
      }
      args := AppendDestinations(args, p.repo, tags.value);
      return Ok(Cmd(ExecutorCommand, args));
    }

    /**
     * EditDockerConfig: decodes the credentials file, truncates it, and
     * writes back the document with this user's credential for the
     * registry.  A file that does not decode is left as it was.
     */
    method EditDockerConfig(file: DockerConfigFile) returns (res: Outcome<Error>)
      requires file.data.Decoded? ==> file.data.doc.auths.Some?
      modifies file
      ensures old(file.data).Undecodable? ==> res == Fail(DecodeJson) && file.data == old(file.data)
      ensures old(file.data).Decoded? ==>
        res == Pass &&
        file.data == Decoded(UpdateDockerConfig(old(file.data).doc, registry, username, password, disableGCRHelper))
    {
      if file.data.Undecodable? {
        return Fail(DecodeJson);
      }
      var doc := file.data.doc;
      // Truncate the file before rewriting it.
      file.data := Undecodable("");

      var creds := Credential(username, password);
      var auths := doc.auths.value;
      auths := auths[registry := AuthConfig(creds)];
      var credHelpers := doc.credHelpers;
      if disableGCRHelper {
        credHelpers := None;
      }
      file.data := Decoded(DockerConfig(Some(auths), credHelpers));
      return Pass;
    }
  }
}
