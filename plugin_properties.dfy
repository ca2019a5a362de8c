/**
 * Properties of the plugin's command line and credential rewrite, proved
 * about the specification functions that the methods of Plugin.Config are
 * verified against.
 */
module PluginProperties {
  import opened Wrappers
  import opened Paths
  import opened Text
  import opened Plugin
  import Base64
  import Utf8

  function Count(b: bool): nat {
    if b then 1 else 0
  }

  // ------------------------------------------------------------ pairs

  /** `Pairs(flag, values)` holds `flag` at every even position and the values, in order, at the odd ones. */
  lemma {:induction false} PairsAt(flag: string, values: seq<string>)
    ensures forall i :: 0 <= i < |values| ==>
      Pairs(flag, values)[2 * i] == flag && Pairs(flag, values)[2 * i + 1] == values[i]
    decreases |values|
  {
    if values != [] {
      var init := values[..|values| - 1];
      PairsAt(flag, init);
      assert forall i :: 0 <= i < |init| ==> values[i] == init[i];
    }
  }

  /** The same, for the pairs in the middle of a longer argument list. */
  lemma PairsInside(pre: seq<string>, flag: string, values: seq<string>, post: seq<string>)
    ensures var a := pre + Pairs(flag, values) + post;
      && |a| == |pre| + 2 * |values| + |post|
      && a[..|pre|] == pre
      && a[|pre| + 2 * |values|..] == post
      && forall i :: 0 <= i < |values| ==> a[|pre| + 2 * i] == flag && a[|pre| + 2 * i + 1] == values[i]
  {
    var pairs := Pairs(flag, values);
    var a := pre + pairs + post;
    PairsAt(flag, values);
    forall i | 0 <= i < |values|
      ensures a[|pre| + 2 * i] == flag && a[|pre| + 2 * i + 1] == values[i]
    {
      assert a[|pre| + 2 * i] == pairs[2 * i];
      assert a[|pre| + 2 * i + 1] == pairs[2 * i + 1];
    }
  }

  // -------------------------------------------------------- tag files

  /**
   * readTagFile: the read succeeds exactly when the file can be read and the
   * tag regular expression matches its trimmed text, which is the case
   * exactly when the text holds an ASCII word character; an unreadable file
   * and an invalid tag are reported with the joined path; the tag is that
   * text with only white space removed around it.
   */
  lemma ReadTagFileSpec(context: string, name: string, fs: FileSystem)
    ensures var path := TagFilePath(context, name);
      var r := ReadTagFile(context, name, fs);
      && (r.Ok? <==> path in fs && TagRegexMatches(TrimSpace(fs[path])))
      && (r.Ok? <==> path in fs && ContainsWordChar(fs[path]))
      && (path !in fs ==> r == Err(ReadTag(path)))
      && (path in fs && r.Err? ==> r == Err(InvalidTag(path)))
      && (r.Ok? ==>
            var raw, tag := fs[path], r.value;
            var i := TrimStart(raw, 0);
            && tag != [] && !IsSpace(tag[0]) && !IsSpace(tag[|tag| - 1])
            && i + |tag| <= |raw| && raw[i..i + |tag|] == tag
            && (forall k :: 0 <= k < i ==> IsSpace(raw[k]))
            && (forall k :: i + |tag| <= k < |raw| ==> IsSpace(raw[k])))
  {
    var path := TagFilePath(context, name);
    if path in fs {
      TagRegexMatchesIff(TrimSpace(fs[path]));
      TrimSpaceKeepsWordChars(fs[path]);
      TrimSpaceShape(fs[path]);
    }
  }

  /**
   * The tags read from a list of tag files: the list succeeds exactly when
   * every file does, and its tags are then the files' tags in order.
   */
  lemma {:induction false} ReadTagFilesOk(read: string -> Result<string, Error>, names: seq<string>)
    ensures var r := ReadTagFiles(read, names);
      && (r.Ok? <==> forall j :: 0 <= j < |names| ==> read(names[j]).Ok?)
      && (r.Ok? ==> forall j :: 0 <= j < |names| ==> r.value[j] == read(names[j]).value)
    decreases |names|
  {
    if names != [] {
      var init, n := names[..|names| - 1], |names| - 1;
      ReadTagFilesOk(read, init);
      assert forall j :: 0 <= j < n ==> names[j] == init[j];
    }
  }

  /** A list of tag files that fails reports the error of its first file that fails. */
  lemma {:induction false} ReadTagFilesFirstErr(read: string -> Result<string, Error>, names: seq<string>)
    requires ReadTagFiles(read, names).Err?
    ensures exists j :: 0 <= j < |names| && read(names[j]) == Err(ReadTagFiles(read, names).error)
                     && forall i :: 0 <= i < j ==> read(names[i]).Ok?
    decreases |names|
  {
    var init, n := names[..|names| - 1], |names| - 1;
    var e := ReadTagFiles(read, names).error;
    assert forall j :: 0 <= j < n ==> names[j] == init[j];
    if ReadTagFiles(read, init).Err? {
      ReadTagFilesFirstErr(read, init);
      var j :| 0 <= j < n && read(init[j]) == Err(e) && forall i :: 0 <= i < j ==> read(init[i]).Ok?;
      assert read(names[j]) == Err(e);
    } else {
      ReadTagFilesOk(read, init);
      assert read(names[n]) == Err(e);
    }
  }

  // ---------------------------------------------------- command layout

  /** Where the build arguments begin: after the context, cache, no-push and Dockerfile flags. */
  function BuildArgsStart(p: Params): nat {
    2 + Count(p.cache) + Count(p.noPush) + 2 * Count(p.dockerfile != "")
  }

  /** The flags before the build arguments: `--context` first, then each of the others only when set. */
  lemma LeadingLayout(p: Params)
    ensures var a, c, n := LeadingFlags(p), Count(p.cache), Count(p.noPush);
      && |a| == BuildArgsStart(p)
      && a[0] == "--context" && a[1] == p.context
      && (p.cache ==> a[2] == "--cache")
      && (p.noPush ==> a[2 + c] == "--no-push")
      && (p.dockerfile != "" ==> a[2 + c + n] == "--dockerfile" && a[3 + c + n] == p.dockerfile)
  {
  }

  /** The flags after the build arguments: cache directory, tar path, verbosity, each only when set. */
  lemma TrailingLayout(p: Params)
    ensures var a, d, t := TrailingFlags(p), 2 * Count(p.cacheDir != ""), 2 * Count(p.tarPath != "");
      && |a| == d + t + 2 * Count(p.verbosity != "")
      && (p.cacheDir != "" ==> a[0] == "--cache-dir" && a[1] == p.cacheDir)
      && (p.tarPath != "" ==> a[d] == "--tarPath" && a[d + 1] == p.tarPath)
      && (p.verbosity != "" ==> a[d + t] == "--verbosity" && a[d + t + 1] == p.verbosity)
  {
  }

  /**
   * Every build argument appears as the pair `--build-arg arg`, in input
   * order, after the leading flags and before the trailing ones.
   */
  lemma BuildArgsLayout(p: Params)
    ensures var a, k := FlagArgs(p), BuildArgsStart(p);
      && |a| == k + 2 * |p.buildArgs| + |TrailingFlags(p)|
      && a[..k] == LeadingFlags(p)
      && (forall i :: 0 <= i < |p.buildArgs| ==> a[k + 2 * i] == "--build-arg" && a[k + 2 * i + 1] == p.buildArgs[i])
      && a[k + 2 * |p.buildArgs|..] == TrailingFlags(p)
  {
    LeadingLayout(p);
    PairsInside(LeadingFlags(p), "--build-arg", p.buildArgs, TrailingFlags(p));
  }

  /** The destination pair of tag `k` in flags followed by the destinations of the tags. */
  lemma DestinationAt(args: seq<string>, flags: seq<string>, repo: string, tags: seq<string>, k: nat)
    requires args == flags + Pairs("--destination", ImageRefs(repo, tags))
    requires k < |tags|
    ensures args[|flags| + 2 * k] == "--destination" && args[|flags| + 2 * k + 1] == repo + ":" + tags[k]
  {
    var refs := ImageRefs(repo, tags);
    PairsAt("--destination", refs);
    assert args[|flags| + 2 * k] == Pairs("--destination", refs)[2 * k];
    assert args[|flags| + 2 * k + 1] == Pairs("--destination", refs)[2 * k + 1];
  }

  /** Where each tag's destination pair sits in flags followed by the destinations of the tags. */
  lemma DestinationsOf(args: seq<string>, flags: seq<string>, repo: string, literal: seq<string>, fromFiles: seq<string>)
    requires args == flags + Pairs("--destination", ImageRefs(repo, literal + fromFiles))
    ensures var f, d := |flags|, |flags| + 2 * |literal|;
      && |args| == d + 2 * |fromFiles|
      && args[..f] == flags
      && (forall i :: 0 <= i < |literal| ==> args[f + 2 * i] == "--destination" && args[f + 2 * i + 1] == repo + ":" + literal[i])
      && (forall j :: 0 <= j < |fromFiles| ==> args[d + 2 * j] == "--destination" && args[d + 2 * j + 1] == repo + ":" + fromFiles[j])
  {
    var tags, f, t := literal + fromFiles, |flags|, |literal|;
    forall i | 0 <= i < t
      ensures args[f + 2 * i] == "--destination" && args[f + 2 * i + 1] == repo + ":" + literal[i]
    {
      DestinationAt(args, flags, repo, tags, i);
      assert tags[i] == literal[i];
    }
    forall j | 0 <= j < |fromFiles|
      ensures args[f + 2 * t + 2 * j] == "--destination" && args[f + 2 * t + 2 * j + 1] == repo + ":" + fromFiles[j]
    {
      DestinationAt(args, flags, repo, tags, t + j);
      assert tags[t + j] == fromFiles[j];
    }
    assert args[..f] == flags;
  }

  /** A successful command is the executor run with the flags and then the destinations of all tags. */
  lemma CommandArgs(p: Params, fs: FileSystem)
    requires CommandSpec(p, fs).Ok?
    ensures var fromFiles := ReadTagFiles(TagReader(p.context, fs), p.tagFiles);
      && fromFiles.Ok?
      && CommandSpec(p, fs).value == Cmd(ExecutorCommand, FlagArgs(p) + Pairs("--destination", ImageRefs(p.repo, p.tags + fromFiles.value)))
  {
  }

  /** The flags come first in a successful command, and two arguments per tag follow them. */
  lemma FlagsFirst(p: Params, fs: FileSystem)
    requires CommandSpec(p, fs).Ok?
    ensures var cmd, fromFiles := CommandSpec(p, fs).value, ReadTagFiles(TagReader(p.context, fs), p.tagFiles);
      && cmd.path == ExecutorCommand
      && fromFiles.Ok?
      && |cmd.args| == |FlagArgs(p)| + 2 * (|p.tags| + |fromFiles.value|)
      && cmd.args[..|FlagArgs(p)|] == FlagArgs(p)
  {
    CommandArgs(p, fs);
    var fileTags := ReadTagFiles(TagReader(p.context, fs), p.tagFiles).value;
    DestinationsOf(CommandSpec(p, fs).value.args, FlagArgs(p), p.repo, p.tags, fileTags);
  }

  /** After the flags come the destinations of the literal tags, in order. */
  lemma LiteralDestinations(p: Params, fs: FileSystem)
    requires CommandSpec(p, fs).Ok?
    ensures var args, f := CommandSpec(p, fs).value.args, |FlagArgs(p)|;
      forall i :: 0 <= i < |p.tags| ==>
        args[f + 2 * i] == "--destination" && args[f + 2 * i + 1] == p.repo + ":" + p.tags[i]
  {
    CommandArgs(p, fs);
    var fileTags := ReadTagFiles(TagReader(p.context, fs), p.tagFiles).value;
    DestinationsOf(CommandSpec(p, fs).value.args, FlagArgs(p), p.repo, p.tags, fileTags);
  }

  /** After the literal tags' destinations come those of the tags read from the tag files, in order. */
  lemma FileDestinations(p: Params, fs: FileSystem)
    requires CommandSpec(p, fs).Ok?
    ensures var args, d := CommandSpec(p, fs).value.args, |FlagArgs(p)| + 2 * |p.tags|;
      var fromFiles := ReadTagFiles(TagReader(p.context, fs), p.tagFiles);
      && fromFiles.Ok?
      && forall j :: 0 <= j < |fromFiles.value| ==>
           args[d + 2 * j] == "--destination" && args[d + 2 * j + 1] == p.repo + ":" + fromFiles.value[j]
  {
    CommandArgs(p, fs);
    var fileTags := ReadTagFiles(TagReader(p.context, fs), p.tagFiles).value;
    DestinationsOf(CommandSpec(p, fs).value.args, FlagArgs(p), p.repo, p.tags, fileTags);
  }

  /** The destination of tag file `j` names the tag read from that file. */
  lemma TagFileDestinations(p: Params, fs: FileSystem)
    requires CommandSpec(p, fs).Ok?
    ensures var cmd, d := CommandSpec(p, fs).value, |FlagArgs(p)| + 2 * |p.tags|;
      && |cmd.args| == d + 2 * |p.tagFiles|
      && forall j :: 0 <= j < |p.tagFiles| ==>
            && ReadTagFile(p.context, p.tagFiles[j], fs).Ok?
            && cmd.args[d + 2 * j] == "--destination"
            && cmd.args[d + 2 * j + 1] == p.repo + ":" + ReadTagFile(p.context, p.tagFiles[j], fs).value
  {
    var read := TagReader(p.context, fs);
    ReadTagFilesOk(read, p.tagFiles);
    FlagsFirst(p, fs);
    FileDestinations(p, fs);
    forall j | 0 <= j < |p.tagFiles|
      ensures ReadTagFile(p.context, p.tagFiles[j], fs) == read(p.tagFiles[j])
    {
    }
  }

  /**
   * The argument count is two per tag on top of the flags: one argument for
   * each boolean flag that is set and two for each non-empty string flag and
   * each build argument.
   */
  lemma ArgCount(p: Params, fs: FileSystem)
    requires CommandSpec(p, fs).Ok?
    ensures |CommandSpec(p, fs).value.args| ==
      2 + Count(p.cache) + Count(p.noPush)
      + 2 * (Count(p.dockerfile != "") + |p.buildArgs| + Count(p.cacheDir != "") + Count(p.tarPath != "")
             + Count(p.verbosity != "") + |p.tags| + |p.tagFiles|)
  {
    FlagsFirst(p, fs);
    BuildArgsLayout(p);
    TrailingLayout(p);
  }

  /** The command begins with `--context` and the context path. */
  lemma CommandStartsWithContext(p: Params, fs: FileSystem)
    requires CommandSpec(p, fs).Ok?
    ensures var args := CommandSpec(p, fs).value.args;
      |args| >= 2 && args[0] == "--context" && args[1] == p.context
  {
    FlagsFirst(p, fs);
    BuildArgsLayout(p);
    LeadingLayout(p);
    var args := CommandSpec(p, fs).value.args;
    assert args[..|FlagArgs(p)|][..BuildArgsStart(p)] == LeadingFlags(p);
  }

  /**
   * Command fails exactly when some tag file fails, and then with the error
   * of the first such file; no command is produced.
   */
  lemma CommandFailsOnTagFile(p: Params, fs: FileSystem)
    ensures var r := CommandSpec(p, fs);
      && (r.Err? <==> exists j :: 0 <= j < |p.tagFiles| && ReadTagFile(p.context, p.tagFiles[j], fs).Err?)
      && (r.Err? ==> exists j :: 0 <= j < |p.tagFiles| && ReadTagFile(p.context, p.tagFiles[j], fs) == Err(r.error)
                       && forall i :: 0 <= i < j ==> ReadTagFile(p.context, p.tagFiles[i], fs).Ok?)
  {
    var read := TagReader(p.context, fs);
    ReadTagFilesOk(read, p.tagFiles);
    if CommandSpec(p, fs).Err? {
      ReadTagFilesFirstErr(read, p.tagFiles);
    }
  }

  /**
   * The default parameters pass the repository check, leave the context to
   * be resolved, and with any context yield the bare `--context` command.
   */
  lemma DefaultCommand(context: string, fs: FileSystem)
    ensures !MissingRepo(DefaultConfig()) && !IsAbs(DefaultConfig().context)
    ensures CommandSpec(DefaultConfig().(context := context), fs) == Ok(Cmd(ExecutorCommand, ["--context", context]))
  {
    var p := DefaultConfig().(context := context);
    assert ReadTagFiles(TagReader(context, fs), []) == Ok([]);
    assert p.tags + [] == [];
    assert ImageRefs(p.repo, []) == [];
    assert Pairs("--destination", []) == [] && Pairs("--build-arg", []) == [];
    assert LeadingFlags(p) == ["--context", context];
    assert TrailingFlags(p) == [];
    assert FlagArgs(p) == ["--context", context];
  }

  /** One build argument and one tag: `--build-arg FOO=bar` and then `--destination img:v1`. */
  lemma ExampleCommand(fs: FileSystem)
    ensures var p := DefaultConfig().(context := "/src", buildArgs := ["FOO=bar"], tags := ["v1"], repo := "img");
      CommandSpec(p, fs) == Ok(Cmd(ExecutorCommand, ["--context", "/src", "--build-arg", "FOO=bar", "--destination", "img:v1"]))
  {
    var p := DefaultConfig().(context := "/src", buildArgs := ["FOO=bar"], tags := ["v1"], repo := "img");
    assert ReadTagFiles(TagReader("/src", fs), []) == Ok([]);
    assert ["FOO=bar"][..0] == [];
    assert Pairs("--build-arg", ["FOO=bar"]) == ["--build-arg", "FOO=bar"];
    assert LeadingFlags(p) == ["--context", "/src"];
    assert TrailingFlags(p) == [];
    assert FlagArgs(p) == ["--context", "/src", "--build-arg", "FOO=bar"];
    assert p.tags + [] == ["v1"];
    var refs := ImageRefs("img", ["v1"]);
    assert "img" + ":" + "v1" == "img:v1";
    assert |refs| == 1 && refs[0] == "img:v1";
    assert refs == ["img:v1"];
    assert refs[..0] == [];
    assert Pairs("--destination", refs) == ["--destination", "img:v1"];
    assert FlagArgs(p) + Pairs("--destination", refs) ==
      ["--context", "/src", "--build-arg", "FOO=bar", "--destination", "img:v1"];
  }

  // ------------------------------------------------------- credentials

  /** The stored credential decodes to the UTF-8 bytes of the username, a colon, and the password. */
  lemma CredentialDecodes(username: string, password: string)
    ensures Base64.Decode(Credential(username, password)) ==
      Some(Utf8.Encode(username) + [':' as int] + Utf8.Encode(password))
  {
    Utf8.EncodeConcat(username + ":", password);
    Utf8.EncodeConcat(username, ":");
    assert Utf8.Encode(":") == [':' as int] by {
      assert ":"[1..] == [];
    }
    Base64.DecodeEncode(Utf8.Encode(username + ":" + password));
  }

  /** Decoding the stored credential, first from Base64 and then from UTF-8, recovers `username:password`. */
  lemma CredentialRecovers(username: string, password: string)
    ensures var bytes := Base64.Decode(Credential(username, password));
      bytes.Some? && Utf8.Decode(bytes.value) == Some(username + ":" + password)
  {
    var text := username + ":" + password;
    Base64.DecodeEncode(Utf8.Encode(text));
    Utf8.DecodeEncode(text);
  }

  /** The credential of user `u` with password `p` is `dTpw`. */
  lemma CredentialExample()
    ensures Credential("u", "p") == "dTpw"
  {
    assert "u" + ":" + "p" == "u:p";
    Utf8.EncodeAscii("u:p");
    var b := Utf8.Encode("u:p");
    assert b == [117, 58, 112];
    assert b[3..] == [];
    assert Base64.Encode(b) == Base64.Quantum(117, 58, 112);
  }

  /** Rewriting the document a second time with the same parameters changes nothing more. */
  lemma UpdateIdempotent(doc: DockerConfig, registry: string, username: string, password: string, disable: bool)
    requires doc.auths.Some?
    ensures var once := UpdateDockerConfig(doc, registry, username, password, disable);
      UpdateDockerConfig(once, registry, username, password, disable) == once
  {
    var once := UpdateDockerConfig(doc, registry, username, password, disable);
    var auths := once.auths.value;
    assert auths[registry := AuthConfig(Credential(username, password))] == auths;
  }
}
