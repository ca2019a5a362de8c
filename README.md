# kaniko Drone plugin: configuration, command line and credentials

This project models the configuration and argument logic of
`kaniko-drone/plugin.go`, a Drone CI plugin that runs the kaniko image
builder, and proves what that logic promises. The model covers five things:

- the plugin's parameter record and its defaults (Docker Hub as the
  registry, `.` as the context);
- `Validate`, which refuses tags without a repository and makes a relative
  build context absolute, in place;
- `Command`, which assembles the argument vector of `/kaniko/executor`;
- `readTagFile`, which reads a tag from a file, trims it and checks it
  against the tag regular expression;
- `EditDockerConfig`, which rewrites the Docker credentials document. It
  stores the user's padded Base64 credential (RFC 4648, section 4) for the
  registry and can drop the credential helpers.

Modules:

- `Wrappers` holds `Option`, `Result` and `Outcome`. `Outcome` stands for
  Go's bare `error` return.
- `Paths` holds `filepath.IsAbs`, `Join` and `Abs` on Unix. `Abs` takes
  the working directory as a parameter.
- `Text` holds `bytes.TrimSpace` over ASCII white space. It states the
  unanchored regular-expression check `[\w][\w.-]{0,127}` twice: as
  "some slice of the text matches the grammar", and as the executable
  "the text contains an ASCII word character". A lemma proves the two
  agree.
- `Bytes` holds the octet type.
- `Utf8` holds the UTF-8 encoding of strings, with a strict decoder as its
  partner.
- `Base64` holds a standard padded Base64 encoder, with a strict decoder
  as its partner. The decoder refuses non-zero pad bits, so the two
  directions of the round trip pin the encoder to the canonical encoding.
- `Plugin` holds the following.
  - The parameter record `Params`.
  - `Config`, a class: `Validate` updates its `context` field;
    `Command` and `EditDockerConfig` are its methods.
  - `DockerConfigFile`, a class holding the credentials file's contents.
    The contents are either a decoded document or text that does not
    decode.
  - The specification functions that the methods are proved against:
    `CommandSpec`, `ReadTagFile`, `ReadTagFiles` and `UpdateDockerConfig`.
- `PluginProperties` holds the lemmas about the command layout, the
  tag files and the credential.

The file system is a map from path to contents. A path missing from the map
cannot be read.

Two points of the code are easy to misread, and the model follows the code
in both.

- **Tag check.** The pattern `[\w][\w.-]{0,127}` reads like a grammar of
  whole tags of 1 to 128 characters. The code uses it unanchored, through
  `Regexp.Match`, and `{0,127}` allows zero repetitions. So a trimmed tag
  is accepted exactly when it contains at least one ASCII word character.
  `Text.UnanchoredAcceptsMore` shows three strings outside that grammar
  that the code accepts.
- **Flag order.** The optional flags are not emitted as a group. The code
  emits `--dockerfile` before the build arguments, and `--cache-dir`,
  `--tarPath` and `--verbosity` after them.

## Model

| member | source | states |
|---|---|---|
| Paths.IsAbs | kaniko-drone/plugin.go:66 | no contract of its own: a path is absolute when it starts with `/` (also the test at line 121); Paths.Abs and Plugin.TagFilePath state what follows from it |
| Paths.Join | kaniko-drone/plugin.go:121-123 | joining onto an absolute directory gives an absolute path; an empty element is ignored; otherwise the result is the directory, one `/` and the name |
| Paths.Abs | kaniko-drone/plugin.go:66-68 | succeeds exactly when the path is absolute or the working directory is known; an absolute path is returned unchanged; a relative one is joined onto the working directory; every result is absolute |
| Plugin.TagFilePath | kaniko-drone/plugin.go:121-123 | a relative tag-file name is joined onto a non-empty context, any other name is used as is; with an absolute context the path is absolute |
| Text.TrimStart | kaniko-drone/plugin.go:128 | the start index skips only white space and stops at the first other character |
| Text.TrimStop | kaniko-drone/plugin.go:128 | the stop index drops only trailing white space and stops after the last other character |
| Text.TrimSpace | kaniko-drone/plugin.go:128 | the trimmed text is no longer than the input and neither starts nor ends with white space |
| Text.TrimSpaceShape | kaniko-drone/plugin.go:128 | the trimmed text is a slice of the input with only white space on either side of it |
| Text.ContainsWordChar | kaniko-drone/plugin.go:129 | true exactly when some character is an ASCII letter, digit or underscore |
| Text.TagRegexMatchesIff | kaniko-drone/plugin.go:129 | the unanchored tag pattern matches some slice of the text exactly when the text contains a word character |
| Text.TrimSpaceKeepsWordChars | kaniko-drone/plugin.go:128-129 | trimming neither adds nor removes word characters, so the tag check gives the same answer before and after trimming |
| Text.AnchoredTagsAccepted | kaniko-drone/plugin.go:22 | every string of the anchored grammar `[\w][\w.-]{0,127}` passes the tag check |
| Text.UnanchoredAcceptsMore | kaniko-drone/plugin.go:22 | `.v1`, `v 1` and a string of 129 `v`s pass the tag check although each is outside the anchored grammar |
| Utf8.EncodeRune | kaniko-drone/plugin.go:160 | one to four UTF-8 bytes per character; ASCII characters encode to their own code, other characters only to bytes of 0x80 and above |
| Utf8.Encode | kaniko-drone/plugin.go:160 | a string of n characters encodes to between n and 4n bytes |
| Utf8.EncodeConcat | kaniko-drone/plugin.go:159-160 | the encoding of a concatenation is the concatenation of the encodings |
| Utf8.EncodeAscii | kaniko-drone/plugin.go:160 | an ASCII string encodes byte for byte to its character codes |
| Utf8.DecodeRuneEncode | kaniko-drone/plugin.go:160 | the encoding of any character, whatever follows it, decodes back to that character and its byte count |
| Utf8.DecodeEncode | kaniko-drone/plugin.go:160 | decoding the UTF-8 encoding of a string gives back the string, for every string |
| Utf8.EncodeInjective | kaniko-drone/plugin.go:160 | different strings have different UTF-8 encodings |
| Base64.CharSextet | kaniko-drone/plugin.go:160 | any character it maps to a value is the alphabet character of that value |
| Base64.SextetRoundTrip | kaniko-drone/plugin.go:160 | every sextet value maps back from its alphabet character |
| Base64.QuantumAlphabet | kaniko-drone/plugin.go:160 | a full group of three bytes encodes to four alphabet characters |
| Base64.Encode | kaniko-drone/plugin.go:160 | the encoding has 4 characters per started group of 3 bytes |
| Base64.EncodeAlphabet | kaniko-drone/plugin.go:160 | every character but the last two is from the alphabet |
| Base64.EncodePadding | kaniko-drone/plugin.go:160 | the output ends in `==` when one byte is left over, in a single `=` when two are, and is unpadded otherwise |
| Base64.DecodeEncode | kaniko-drone/plugin.go:160 | decoding the encoding gives back the bytes, for every byte sequence |
| Base64.EncodeInjective | kaniko-drone/plugin.go:160 | different byte sequences have different encodings |
| Base64.EncodeDecode | kaniko-drone/plugin.go:160 | anything the decoder accepts is the encoding of what it decodes to, so the encoder's output is the canonical one, pad bits zero included |
| Base64.DecodeInjective | kaniko-drone/plugin.go:160 | different accepted texts decode to different bytes |
| Base64.PadBitsChecked | kaniko-drone/plugin.go:160 | `QQ==` decodes to `A` and `QR==`, with non-zero pad bits, is refused |
| Plugin.DefaultConfig | kaniko-drone/plugin.go:46-51 | no contract of its own: Docker Hub as registry, `.` as context, every other field empty; PluginProperties.DefaultCommand states what follows from it |
| Plugin.ReadTagFile | kaniko-drone/plugin.go:120-133 | no contract of its own: the join, the read, the trim and the tag check; PluginProperties.ReadTagFileSpec states it |
| Plugin.ReadTagFiles | kaniko-drone/plugin.go:105-111 | a successful read yields one tag per tag file |
| Plugin.ReadTagFilesPrefixErr | kaniko-drone/plugin.go:105-109 | once some tag file fails, later files do not change the result |
| Plugin.LeadingArgs | kaniko-drone/plugin.go:77-86 | the appends before the build arguments build exactly the leading flags |
| Plugin.AppendPairs | kaniko-drone/plugin.go:87-89 | the loop appends `--build-arg v` for every value, in order, after the existing arguments |
| Plugin.AppendTrailingArgs | kaniko-drone/plugin.go:90-98 | the appends after the build arguments add exactly the trailing flags |
| Plugin.ReadTags | kaniko-drone/plugin.go:100-111 | the loop over the tag files yields the literal tags followed by the file tags, or the error of the first failing file |
| Plugin.AppendDestinations | kaniko-drone/plugin.go:113-116 | the loop appends `--destination repo:tag` for every tag, in order |
| Plugin.CommandSpec | kaniko-drone/plugin.go:76-118 | no contract of its own: the command `Command` builds; Plugin.Config.Command is proved equal to it, and the PluginProperties lemmas from LeadingLayout to CommandFailsOnTagFile state its layout, length and errors |
| Plugin.Config.Command | kaniko-drone/plugin.go:76-118 | the assembled command is exactly the specified one, including its error |
| Plugin.Config.Validate | kaniko-drone/plugin.go:61-74 | fails with the repository error exactly when tags are given without a repository, and then leaves the context unchanged; leaves an absolute context unchanged; resolves a relative one against the working directory and fails with the context error (storing `""`) when that is unknown; changes no other field; on success the context is absolute |
| Plugin.UpdateDockerConfig | kaniko-drone/plugin.go:157-165 | the registry's entry becomes the user's Base64 credential; every other entry keeps its value; the keys are the old ones plus the registry; the credential helpers are dropped when disabled and kept otherwise |
| Plugin.Credential | kaniko-drone/plugin.go:158-160 | no contract of its own: Base64 of the UTF-8 bytes of `username:password`; PluginProperties.CredentialDecodes, CredentialRecovers and CredentialExample state it |
| Plugin.Config.EditDockerConfig | kaniko-drone/plugin.go:135-172 | a file that does not decode is reported and left unchanged; otherwise the file holds the updated document |
| PluginProperties.PairsAt | kaniko-drone/plugin.go:87-89 | the flag is at every even position and the values, in order, are at the odd positions |
| PluginProperties.ReadTagFileSpec | kaniko-drone/plugin.go:120-133 | a read succeeds exactly when the file exists and its trimmed text matches the pattern, which is when the raw text has a word character; a missing file gives the read error, a bad tag the invalid-tag error, both naming the joined path; the tag is non-empty, has no white space at either end, and is the file's text with only white space cut around it |
| PluginProperties.ReadTagFilesOk | kaniko-drone/plugin.go:105-111 | the list of tag files succeeds exactly when every file does, and then yields each file's tag in file order |
| PluginProperties.ReadTagFilesFirstErr | kaniko-drone/plugin.go:105-109 | a failing list reports the error of its first failing file, all earlier files having succeeded |
| PluginProperties.LeadingLayout | kaniko-drone/plugin.go:77-86 | the arguments begin with `--context` and the context, then `--cache`, `--no-push` and `--dockerfile` with its value, each only when set, in that order |
| PluginProperties.BuildArgsLayout | kaniko-drone/plugin.go:87-89 | every build argument appears as `--build-arg arg`, in input order, after the leading flags and before the trailing ones |
| PluginProperties.TrailingLayout | kaniko-drone/plugin.go:90-98 | after the build arguments come `--cache-dir`, `--tarPath` and `--verbosity` with their values, each only when non-empty, in that order |
| PluginProperties.DestinationsOf | kaniko-drone/plugin.go:113-116 | after the flags, every tag gets one `--destination repo:tag` pair: the literal tags first, then the file tags, both in order |
| PluginProperties.FlagsFirst | kaniko-drone/plugin.go:76-117 | a successful command runs `/kaniko/executor`, starts with the flags, and has two more arguments per tag |
| PluginProperties.LiteralDestinations | kaniko-drone/plugin.go:101-116 | the literal tags' destinations come right after the flags, in input order |
| PluginProperties.FileDestinations | kaniko-drone/plugin.go:105-116 | the file tags' destinations come after the literal ones, in file order |
| PluginProperties.TagFileDestinations | kaniko-drone/plugin.go:105-116 | the destination for tag file j names the tag read from that file |
| PluginProperties.ArgCount | kaniko-drone/plugin.go:76-117 | the argument count is two per tag, build argument and non-empty string flag, one per set boolean flag, plus the context pair |
| PluginProperties.CommandStartsWithContext | kaniko-drone/plugin.go:77 | a command always begins with `--context` and the context |
| PluginProperties.CommandFailsOnTagFile | kaniko-drone/plugin.go:105-109 | the command fails exactly when some tag file fails, and then with the first failing file's error and no command |
| PluginProperties.DefaultCommand | kaniko-drone/plugin.go:46-51 | the defaults pass the repository check, have a relative context, and give the bare `--context` command |
| PluginProperties.ExampleCommand | kaniko-drone/plugin.go:76-117 | build argument `FOO=bar`, tag `v1` and repository `img` give `--context /src --build-arg FOO=bar --destination img:v1` |
| PluginProperties.CredentialDecodes | kaniko-drone/plugin.go:158-162 | the stored credential decodes to the UTF-8 bytes of the username, a colon and the password |
| PluginProperties.CredentialRecovers | kaniko-drone/plugin.go:158-162 | decoding the stored credential from Base64 and then from UTF-8 gives back `username:password` |
| PluginProperties.CredentialExample | kaniko-drone/plugin.go:159-160 | user `u` with password `p` gets the credential `dTpw` |
| PluginProperties.UpdateIdempotent | kaniko-drone/plugin.go:157-165 | rewriting the document again with the same parameters changes nothing |

## Left out

- Reading parameters from the environment (`newConfigFromEnv` and the
  envconfig library) is not modelled. The parameters are a `Params` value.
- `kaniko-drone/main.go` is not part of this model. It covers opening and
  closing the credentials file, dry-run printing, running the executor
  with its standard streams, and mirroring its exit code; all of this is
  process I/O.
- The shell resolution of tags tested in `kaniko-drone/plugin_test.go` is
  not modelled. It spawns a subprocess and is not defined in `plugin.go`.
- JSON decoding and encoding are left out: the syntax, `omitempty`, and
  fields outside `auths` and `credHelpers`, which decoding drops. The
  file's contents are a decoded document or text that does not decode.
- Plugin.UpdateDockerConfig keeps the other registries' entries only as
  decoded. Each `auths` entry decodes to its `auth` field alone
  (`kaniko-drone/plugin.go:136-138`). So any other field of an entry,
  such as `identitytoken`, `email` or `username`, is lost when the file is
  rewritten, for every registry. The model's `AuthConfig` holds only
  `auth`, so it does not show this loss.
- The failure paths of `Truncate`, `Seek` and the final write
  (`kaniko-drone/plugin.go:150-155`, `168-170`) are not modelled. These
  calls always succeed in the model.
- Plugin.Config.EditDockerConfig requires a present `auths` map. Go
  panics when the decoded map is nil (`kaniko-drone/plugin.go:162`).
- Paths.Join does not clean its result as `filepath.Join` does. `.`, `..`
  and repeated `/` stay in the result: `Join("/src", "a/../t")` is
  `/src/a/../t` in the model and `/src/t` in Go. So the file-system key a
  tag file is looked up under, and the path named in the read and
  invalid-tag errors, are spelled differently from Go's. When `a` is a
  symbolic link, the uncleaned path can even name a different file.
- Paths.Abs takes the working directory as a parameter (None when it
  cannot be determined), because the working directory is process state.
- Paths.Abs does not clean its result. Go's `filepath.Abs` returns
  `Clean(path)` for an absolute path and the cleaned join for a relative
  one. So the context `.` with working directory `/w` becomes `/w/.` in the
  model, where Go gives `/w`.
- Text.TrimSpace trims ASCII white space only. Go's `bytes.TrimSpace` also
  trims Unicode white space.
- The tag check is modelled directly as "contains an ASCII word
  character", not through the RE2 matcher.
- Strings are sequences of Unicode scalar values. Tag files are read as
  text, so invalid UTF-8 in a file is not modelled.
- Running the command (`exec.Command`) is not modelled. The model keeps
  only the executable and its arguments.
- Go's `tags = cfg.Tags` and subsequent `append` may share storage with the
  config's tag slice. Sequences are values in the model, so this aliasing
  is not represented.
