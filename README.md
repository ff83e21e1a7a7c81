# concourse-deployer: local-file reconciliation helpers

A Dafny model of the helpers in `Concourse::Deployer::Utils`
(`lib/concourse/deployer/utils.rb`) that keep the deployer's local files in
shape. Each helper reads a file's current lines, decides the smallest edit that
makes the file hold a wanted entry, and then writes nothing, appends one line,
or rewrites the file:

- `ensure_in_gitignore` keeps a glob as an exact line of `.gitignore`;
- `ensure_in_gitcrypt` does the same in `.gitattributes` for the rendered line
  `<glob> filter=git-crypt diff=git-crypt`;
- `ensure_in_envrc` keeps `export KEY=VALUE` current in the environment file,
  or, without a value, keeps a raw shell line in it;
- `bosh_secrets` loads the secrets document (`{}` when it is absent) and, when
  a block is given, writes back the mapping the block leaves;
- `prompt` picks an answer from the lines the user types.

Layout:

- `wrappers.dfy` — `Option`, used for absent files and for Ruby's `nil`.
- `text.dfy` (module `Text`) — Ruby's `chomp`, `rstrip`, `lstrip` and `strip`,
  each followed by the lemma stating what it promises.
- `reconcile.dfy` (module `Reconcile`) — the decisions as functions of a file's
  lines: `LineEdit`/`LineAfter` for exact lines, `ExportsKey`, `FirstMatch` and
  `ReplaceExports` for the `export KEY=` lines, and `EnvrcEdit`/`EnvrcAfter` for
  the whole of `ensure_in_envrc`, with the lemmas about them.
- `utils.dfy` (module `Utils`) — the class `Workspace`, one field per file (the
  lines of a text file, or `None` while the file does not exist; the secrets
  document as its mapping), whose methods are the helpers; the in-place
  `entries.map!` loop; and the `prompt` loop over a sequence of input lines.

Each `ensure_*` helper returns an `Edit`: `Present` (no write), `Appended` (the file is
opened with mode `"a"` and one line is added) or `Rewritten` (the file is
opened with mode `"w"`). Each method's contract ties the new file to the
reconciliation function of the old one, and the lemmas prove what that function
does: membership, append at the end, in-place replacement with order and length
kept, and idempotence.

Two behaviours of the code worth noting:

- When the first `export KEY=` line has a different value, the code rewrites
  every line that exports the key (`entries.map!`, utils.rb:81-83), not only
  the first. Only the first such line decides whether anything is written, so
  later duplicates are left alone when the first already matches.
- `ensure_in_gitcrypt` only ever writes `.gitattributes`: a missing
  attributes file is created by the append (utils.rb:53).

## Model

| member | source | states |
|---|---|---|
| `Utils.Workspace.EnsureInGitignore` | lib/concourse/deployer/utils.rb:33-42 | Writes nothing exactly when the glob already is a line of the ignore list; otherwise the file (empty when absent) gets the glob as its new last line with all earlier lines kept in order; never rewrites; touches no other file |
| `Utils.Workspace.EnsureInGitcrypt` | lib/concourse/deployer/utils.rb:44-54 | Membership is tested for the rendered `<glob> filter=git-crypt diff=git-crypt` line, not the glob; writes nothing when it is present, otherwise appends it, creating the attributes file when absent |
| `Reconcile.CryptEntry` | lib/concourse/deployer/utils.rb:45 | The rendered attribute line starts with the glob and differs from it, so a bare glob line never counts as the entry |
| `Reconcile.LineIdempotent` | lib/concourse/deployer/utils.rb:33-54 | On files as line sequences: after ensuring an exact line the file exists and contains it; a second identical call finds it and leaves the file as it is (byte-level exceptions under Left out) |
| `Utils.Workspace.EnsureInEnvrc` | lib/concourse/deployer/utils.rb:56-102 | The returned edit and the new environment file are the reconciliation of the old file for this key and value (or bare line); no write when present, one appended entry, or a rewrite of the same length; no other file changes |
| `Reconcile.ExportLine` | lib/concourse/deployer/utils.rb:67-68 | The written `export KEY=VALUE` line is itself matched by the `export KEY=` matcher and carries the value after the prefix |
| `Reconcile.FirstMatch` | lib/concourse/deployer/utils.rb:70 | Finds the first line that starts with `export KEY=`: the one returned matches and no earlier line does; none is returned only when no line matches |
| `Reconcile.FirstMatchIs` | lib/concourse/deployer/utils.rb:70 | The first matching line is unique: any matching line with no match before it is the one `grep(...).first` yields |
| `Reconcile.ReplaceExports` | lib/concourse/deployer/utils.rb:81-83 | `map!` keeps the length; every matching line becomes the new entry at its index and every other line is unchanged at its index |
| `Utils.ReplaceExportsInPlace` | lib/concourse/deployer/utils.rb:81-83 | The in-place loop over the array of lines leaves exactly the replaced sequence |
| `Reconcile.EnvrcAppends` | lib/concourse/deployer/utils.rb:70-74 | With a value, the file is appended to exactly when no line exports the key, and then becomes the old lines followed by one `export KEY=VALUE`; an absent or empty file becomes that single line |
| `Reconcile.EnvrcKeepsFirstMatch` | lib/concourse/deployer/utils.rb:70-78 | With a value, when the first line exporting the key already equals `export KEY=VALUE`, nothing is written, whatever later matching lines say |
| `Reconcile.EnvrcOverwritesInPlace` | lib/concourse/deployer/utils.rb:79-85 | With a value, when the first matching line differs, the file is rewritten with the same length, every matching line replaced in place and every other line kept at its index |
| `Reconcile.EnvrcIdempotent` | lib/concourse/deployer/utils.rb:56-101 | On files as line sequences: after any call, in either mode, the file exists and an immediate second identical call finds the entry and writes nothing (byte-level exceptions under Left out) |
| `Utils.Workspace.BoshSecrets` | lib/concourse/deployer/utils.rb:163-170 | Loads the stored mapping or `{}` when absent; without a block returns it and writes nothing; with a block stores exactly the mapping the block leaves and returns that same mapping |
| `Utils.SecretsWriteBackIsReloaded` | lib/concourse/deployer/utils.rb:163-170 | What a block-driven call stores is what the next block-less call returns, and that call writes nothing |
| `Text.ChompSpec` | lib/concourse/deployer/utils.rb:141 | `chomp` drops at most two trailing characters, all of them `\r` or `\n`; it returns its input unchanged exactly when it does not end in a line terminator, and drops two characters exactly when it ends in `\r\n`, so exactly one terminator goes |
| `Text.ChompLine` | lib/concourse/deployer/utils.rb:141 | A line read back with its newline comes out of `chomp` as it was typed |
| `Text.RStripSpec` | lib/concourse/deployer/utils.rb:141 | `rstrip` keeps a prefix that does not end in whitespace and drops only whitespace |
| `Text.LStripSpec` | lib/concourse/deployer/utils.rb:141 | `lstrip` keeps a suffix that does not start with whitespace and drops only whitespace |
| `Text.StripSpec` | lib/concourse/deployer/utils.rb:141 | `strip` returns the slice between leading and trailing whitespace, neither starting nor ending with whitespace, and is empty exactly when the line is blank |
| `Text.StripAfterChomp` | lib/concourse/deployer/utils.rb:141 | `chomp` followed by `strip` is the same as `strip` alone |
| `Utils.CleanedEmpty` | lib/concourse/deployer/utils.rb:141-142 | An answer line is empty after `chomp.strip` exactly when it is blank |
| `Utils.Prompt` | lib/concourse/deployer/utils.rb:135-148 | The loop over input lines returns what the answer rule `Select` gives for the whole input |
| `Utils.SelectEndsFrom` | lib/concourse/deployer/utils.rb:135-148 | The prompt runs out of input exactly when there is no line, or every line is blank and there is no default (proved from any point before which every line was blank) |
| `Utils.SelectAnswersFrom` | lib/concourse/deployer/utils.rb:135-148 | When the prompt answers, the lines read before the last are blank; the last is returned cleaned when it is not blank, otherwise the default is returned; with a default only the first line is read; the answer is non-empty or equal to the default |

## Left out

- File paths: each file is its own field, so the model assumes the ignore list, the attributes file, the environment file (`ENVRC_FILE`, defined at `lib/concourse/deployer.rb:12`) and the secrets document (`BOSH_SECRETS`, not defined in the files modelled) are four distinct paths; aliasing between them is not modelled.
- Regex metacharacters in keys: `/^export #{entry_key}=/` interpolates the key unescaped; the model reads it as the literal prefix `export KEY=`, which is what the regex means for a key without metacharacters.
- LineIdempotent: idempotence holds on files as line sequences. The byte-level file does not always behave so: `ensure_in_gitignore("")` writes an empty line that `split("\n")` drops on the next read, so every call appends again (utils.rb:35,41); and appending to a file whose last line has no trailing newline glues the entry onto that line, so the next call appends again.
- EnvrcIdempotent: idempotence holds on files as line sequences. In the byte-level file it fails for a value or bare line containing a newline: `ensure_in_envrc("K", "a\nb")` writes `export K=a` and `b` as two lines, the first match then differs from the entry, and each later call rewrites it and adds another `b` line (utils.rb:70,76,81-84); it fails too when an append lands on a last line without a trailing newline.
- Byte-level file contents: files are sequences of lines. `split("\n")` dropping trailing empty lines, `puts` gluing onto a last line that has no trailing newline, and the newline `join`/`puts` write are not modelled.
- YAML: the secrets document is kept as the mapping it serialises, so `YAML.load_file` and `to_yaml` are taken to round-trip; YAML syntax, a malformed document (a parse error in Ruby) and a document whose top level is not a mapping are not modelled.
- Utils.Workspace.BoshSecrets: the block is a function from the loaded mapping to the mapping it leaves; side effects of the block other than on that mapping are not modelled.
- Console output: `sh`, `running`, `note`, `important` and `error` only print (and `error` may exit); the messages, including the prompt text `query [default]: `, are not modelled. `error "Please provide an answer.", true` only prints, so it is the loop asking again.
- Utils.Prompt: standard input is the sequence of lines given to it; reaching its end (where `gets` returns `nil` and `chomp` raises) is the reply `EndOfInput`. Whitespace for `strip` is Ruby's set (NUL, tab, line feed, vertical tab, form feed, carriage return, space) over characters, with no encoding.
- Filesystem errors on reading or writing (fatal in Ruby) are not modelled.
- `which` and `unless_which` (a PATH lookup by shelling out), `ensure_git_submodule` and `update_git_submodule` (git commands and `chdir`), `bbl_external_ip` (parses a subprocess's output), `bosh_update_stemcell`, `bosh_update_release` and `bosh_update_from_git_repo` (network fetches, XML queries, temporary directories) and `prompt_for_file_contents` (reads a file the user names) all depend on processes, the network or arbitrary files.
- `lib/concourse/deployer.rb` is Rake task wiring and shell invocations; its only reconciliation logic is a fixed series of `ensure_in_envrc` calls, which the model of `ensure_in_envrc` covers.
