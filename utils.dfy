/**
 * The state-changing helpers of `Concourse::Deployer::Utils`: the local
 * files they reconcile, held by a Workspace object, and the answer loop of
 * `prompt` over the lines the user types.
 */
module Utils {
  import opened Wrappers
  import opened Text
  import opened Reconcile

  /** A value of the secrets document: YAML scalars, sequences and mappings. */
  datatype Value = Scalar(text: string) | Sequence(items: seq<Value>) | Mapping(fields: map<string, Value>)

  /** The secrets document once loaded: its top-level mapping. */
  type Secrets = map<string, Value>

  /** What `bosh_secrets` starts from: the stored document, or `{}` when the file is absent. */
  function Loaded(stored: Option<Secrets>): Secrets
  {
    if stored.Some? then stored.value else map[]
  }

  /**
   * The files of the working directory that the helpers read and write.
   * Each text file is its lines, or None while it does not exist; the
   * secrets document is kept as the mapping it serialises.
   */
  class Workspace {
    var gitignore: File
    var gitattributes: File
    var envrc: File
    var secrets: Option<Secrets>

    constructor (gitignore: File, gitattributes: File, envrc: File, secrets: Option<Secrets>)
      ensures this.gitignore == gitignore && this.gitattributes == gitattributes
      ensures this.envrc == envrc && this.secrets == secrets
    {
      this.gitignore := gitignore;
      this.gitattributes := gitattributes;
      this.envrc := envrc;
      this.secrets := secrets;
    }

    /**
     * `ensure_in_gitignore`: nothing is written when the glob is already a
     * line of the ignore list; otherwise it is appended as the new last line,
     * creating the file if needed.
     */
    method EnsureInGitignore(glob: string) returns (edit: Edit)
      modifies this`gitignore
      ensures edit != Rewritten
      ensures edit == Present <==> glob in Lines(old(gitignore))
      ensures edit == Present ==> gitignore == old(gitignore)
      ensures edit == Appended ==> gitignore == Some(Lines(old(gitignore)) + [glob])
      ensures gitignore == LineAfter(old(gitignore), glob)
    {
      if gitignore.Some? && glob in gitignore.value {
        return Present;
      }
      gitignore := Some(Lines(gitignore) + [glob]);
      return Appended;
    }

    /**
     * `ensure_in_gitcrypt`: the same rule for the rendered attribute line
     * `<glob> filter=git-crypt diff=git-crypt`; a missing attributes file is
     * created by the append.
     */
    method EnsureInGitcrypt(glob: string) returns (edit: Edit)
      modifies this`gitattributes
      ensures edit != Rewritten
      ensures edit == Present <==> CryptEntry(glob) in Lines(old(gitattributes))
      ensures edit == Present ==> gitattributes == old(gitattributes)
      ensures edit == Appended ==> gitattributes == Some(Lines(old(gitattributes)) + [CryptEntry(glob)])
      ensures gitattributes == LineAfter(old(gitattributes), CryptEntry(glob))
    {
      var entry := CryptEntry(glob);
      if gitattributes.Some? && entry in gitattributes.value {
        return Present;
      }
      gitattributes := Some(Lines(gitattributes) + [entry]);
      return Appended;
    }

    /**
     * `ensure_in_envrc`: with a value, keeps `export KEY=VALUE` current
     * (append when no line exports the key, nothing when the first such line
     * already reads so, otherwise every such line rewritten in place); without
     * one, ensures the key itself is a line of the file.
     */
    method EnsureInEnvrc(key: string, value: Option<string>) returns (edit: Edit)
      modifies this`envrc
      ensures edit == EnvrcEdit(Lines(old(envrc)), key, value)
      ensures envrc == EnvrcAfter(old(envrc), key, value)
      ensures edit == Present ==> envrc == old(envrc)
      ensures edit == Appended ==> envrc == Some(Lines(old(envrc)) + [EnvrcEntry(key, value)])
      ensures edit == Rewritten ==> value.Some? && envrc.Some? && |envrc.value| == |Lines(old(envrc))|
    {
      var entries := Lines(envrc);
      match value {
        case Some(v) =>
          var contents := ExportLine(key, v);
          var found := FirstMatch(entries, key);
          if found.None? {
            envrc := Some(entries + [contents]);
            edit := Appended;
          } else if entries[found.value] == contents {
            edit := Present;
          } else {
            var a := new string[|entries|](i requires 0 <= i < |entries| => entries[i]);
            assert a[..] == entries;
            ReplaceExportsInPlace(a, key, contents);
            envrc := Some(a[..]);
            edit := Rewritten;
          }
        case None =>
          if key in entries {
            edit := Present;
          } else {
            envrc := Some(entries + [key]);
            edit := Appended;
          }
      }
    }

    /**
     * `bosh_secrets`: loads the document (`{}` when the file is absent).
     * Without a block it returns what it loaded and writes nothing; with a
     * block it writes back exactly the mapping the block leaves and returns it.
     */
    method BoshSecrets(block: Option<Secrets -> Secrets>) returns (vars: Secrets)
      modifies this`secrets
      ensures block.None? ==> vars == Loaded(old(secrets)) && secrets == old(secrets)
      ensures block.Some? ==> vars == block.value(Loaded(old(secrets))) && secrets == Some(vars)
    {
      vars := Loaded(secrets);
      if block.None? {
        return;
      }
      vars := block.value(vars);
      secrets := Some(vars);
    }
  }

  /**
   * Two `bosh_secrets` calls in a row: the mapping a block leaves is what
   * the next load, without a block, returns, and that load writes nothing.
   */
  method SecretsWriteBackIsReloaded(w: Workspace, block: Secrets -> Secrets) returns (written: Secrets, reloaded: Secrets)
    modifies w`secrets
    ensures written == block(Loaded(old(w.secrets)))
    ensures reloaded == written && w.secrets == Some(written)
  {
    written := w.BoshSecrets(Some(block));
    reloaded := w.BoshSecrets(None);
  }

  /**
   * `entries.map!` on the array of lines: every line that exports the key
   * becomes `contents`, in place.
   */
  method ReplaceExportsInPlace(entries: array<string>, key: string, contents: string)
    modifies entries
    ensures entries[..] == ReplaceExports(old(entries[..]), key, contents)
  {
    var i := 0;
    while i < entries.Length
      invariant 0 <= i <= entries.Length
      invariant forall j :: 0 <= j < i ==>
                  entries[j] == if ExportsKey(old(entries[j]), key) then contents else old(entries[j])
      invariant forall j :: i <= j < entries.Length ==> entries[j] == old(entries[j])
    {
      if ExportsKey(entries[i], key) {
        entries[i] := contents;
      }
      i := i + 1;
    }
  }

  /** What `prompt` makes of one line read from the terminal: `gets.chomp.strip`. */
  function Cleaned(line: string): string
  {
    Strip(Chomp(line))
  }

  /** A line cleans up to the empty answer exactly when it is blank. */
  lemma CleanedEmpty(line: string)
    ensures Cleaned(line) == [] <==> IsBlank(line)
  {
    StripAfterChomp(line);
    StripSpec(line);
  }

  /**
   * How a prompt ends: with an answer after reading `consumed` lines, or by
   * running out of input (`gets` returns nil and `chomp` on it raises).
   */
  datatype Reply = Answer(text: string, consumed: nat) | EndOfInput

  /** The answer rule of `prompt`, from line `i` of the input on. */
  function Select(input: seq<string>, default: Option<string>, i: nat): Reply
    requires i <= |input|
    decreases |input| - i
  {
    if i == |input| then EndOfInput
    else if Cleaned(input[i]) != [] then Answer(Cleaned(input[i]), i + 1)
    else if default.Some? then Answer(default.value, i + 1)
    else Select(input, default, i + 1)
  }

  /**
   * When the answer rule runs out of input, from a point before which every
   * line was blank (and, with a default, none was read yet): exactly when
   * there is no line at all, or every line is blank and there is no default.
   */
  lemma {:induction false} SelectEndsFrom(input: seq<string>, default: Option<string>, i: nat)
    requires i <= |input|
    requires forall j :: 0 <= j < i ==> IsBlank(input[j])
    requires default.Some? ==> i == 0
    ensures Select(input, default, i).EndOfInput?
            <==> input == [] || (default.None? && forall j :: 0 <= j < |input| ==> IsBlank(input[j]))
    decreases |input| - i
  {
    if i < |input| {
      CleanedEmpty(input[i]);
      if Cleaned(input[i]) == [] && default.None? {
        SelectEndsFrom(input, default, i + 1);
      }
    }
  }

  /**
   * What an answer of the rule is, from such a point: the lines read before
   * the last are blank; the last is not blank and gives the answer cleaned,
   * or is blank and gives the default; with a default only one line is
   * read; and the answer is never empty unless it is the default.
   */
  lemma {:induction false} SelectAnswersFrom(input: seq<string>, default: Option<string>, i: nat)
    requires i <= |input|
    requires forall j :: 0 <= j < i ==> IsBlank(input[j])
    requires default.Some? ==> i == 0
    ensures var reply := Select(input, default, i);
            reply.Answer? ==>
              && i < reply.consumed <= |input|
              && (forall j :: 0 <= j < reply.consumed - 1 ==> IsBlank(input[j]))
              && (default.Some? ==> reply.consumed == 1)
              && (reply.text != [] || default == Some(reply.text))
              && var last := input[reply.consumed - 1];
                 (!IsBlank(last) && reply.text == Cleaned(last)) || (IsBlank(last) && default == Some(reply.text))
    decreases |input| - i
  {
    if i < |input| {
      CleanedEmpty(input[i]);
      if Cleaned(input[i]) == [] && default.None? {
        SelectAnswersFrom(input, default, i + 1);
      }
    }
  }

  /**
   * `prompt`: reads lines until one is not blank and returns it cleaned; a
   * blank line returns the default when there is one and otherwise asks
   * again, so the answer is never empty unless it is the default.
   */
  method Prompt(input: seq<string>, default: Option<string>) returns (reply: Reply)
    ensures reply == Select(input, default, 0)
  {
    var i := 0;
    while i < |input|
      invariant 0 <= i <= |input|
      invariant Select(input, default, i) == Select(input, default, 0)
    {
      var answer := Cleaned(input[i]);
      i := i + 1;
      if answer == [] {
        if default.Some? {
          return Answer(default.value, i);
        }
        // error "Please provide an answer.", true: a message, then the loop asks again
      } else {
        return Answer(answer, i);
      }
    }
    return EndOfInput;
  }

}
