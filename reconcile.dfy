/**
 * What the `ensure_in_*` helpers of `Concourse::Deployer::Utils` decide, as
 * functions of a file's current lines and the desired entry: whether the
 * entry is already there, has to be appended, or replaces existing
 * `export KEY=` lines; and the file that results.
 */
module Reconcile {
  import opened Wrappers

  /** A local text file as its lines (`File.read(...).split("\n")`), or None when it does not exist. */
  type File = Option<seq<string>>

  /** The lines a helper starts from: those of the file, none for an absent file. */
  function Lines(f: File): seq<string>
  {
    if f.Some? then f.value else []
  }

  /**
   * The write a helper performs: Present writes nothing, Appended opens the
   * file with mode "a" and adds one line, Rewritten opens it with mode "w".
   */
  datatype Edit = Present | Appended | Rewritten

  // ---------------------------------------------------------------------
  // Exact lines: the ignore list, the attributes file, a bare envrc line
  // ---------------------------------------------------------------------

  /** An exact line is left alone when some line equals it and appended otherwise. */
  function LineEdit(lines: seq<string>, entry: string): Edit
  {
    if entry in lines then Present else Appended
  }

  function LineAfter(f: File, entry: string): File
  {
    if LineEdit(Lines(f), entry) == Present then f else Some(Lines(f) + [entry])
  }

  /** The attribute line that puts a glob under git-crypt. */
  function CryptEntry(glob: string): (line: string)
    ensures glob <= line && line != glob
  {
    glob + " filter=git-crypt diff=git-crypt"
  }

  /** Ensuring an exact line twice is ensuring it once, and the second time writes nothing. */
  lemma LineIdempotent(f: File, entry: string)
    ensures LineAfter(f, entry).Some?
    ensures entry in Lines(LineAfter(f, entry))
    ensures LineEdit(Lines(LineAfter(f, entry)), entry) == Present
    ensures LineAfter(LineAfter(f, entry), entry) == LineAfter(f, entry)
  {
    if entry !in Lines(f) {
      assert Lines(LineAfter(f, entry))[|Lines(f)|] == entry;
    }
  }

  // ---------------------------------------------------------------------
  // `export KEY=VALUE` lines of the environment file
  // ---------------------------------------------------------------------

  /** What `/^export #{key}=/` looks for at the start of a line, for a key free of regex metacharacters. */
  function ExportPrefix(key: string): string
  {
    "export " + key + "="
  }

  predicate ExportsKey(line: string, key: string)
  {
    ExportPrefix(key) <= line
  }

  /** The line `export KEY=VALUE`; the line written is always one the matcher finds again. */
  function ExportLine(key: string, value: string): (line: string)
    ensures ExportsKey(line, key)
    ensures |line| == |ExportPrefix(key)| + |value| && line[|ExportPrefix(key)|..] == value
  {
    ExportPrefix(key) + value
  }

  /** `entries.grep(entry_match).first`, as the index of that line: the first line that exports the key. */
  function FirstMatch(lines: seq<string>, key: string): (r: Option<nat>)
    ensures r.Some? ==> r.value < |lines| && ExportsKey(lines[r.value], key)
    ensures forall j :: 0 <= j < (if r.Some? then r.value else |lines|) ==> !ExportsKey(lines[j], key)
  {
    if |lines| == 0 then None
    else if ExportsKey(lines[0], key) then Some(0)
    else match FirstMatch(lines[1..], key)
         case None => None
         case Some(i) => Some(i + 1)
  }

  /** `entries.map!`: every line that exports the key becomes `entry`, every other line stays. */
  function ReplaceExports(lines: seq<string>, key: string, entry: string): (r: seq<string>)
    ensures |r| == |lines|
    ensures forall i :: 0 <= i < |lines| ==> r[i] == if ExportsKey(lines[i], key) then entry else lines[i]
  {
    if |lines| == 0 then []
    else [if ExportsKey(lines[0], key) then entry else lines[0]] + ReplaceExports(lines[1..], key, entry)
  }

  /**
   * The decision of `ensure_in_envrc`: with a value, on the first line that
   * exports the key (only that one is compared); without one, the exact-line
   * rule applied to the key itself.
   */
  function EnvrcEdit(lines: seq<string>, key: string, value: Option<string>): Edit
  {
    match value
    case None => LineEdit(lines, key)
    case Some(v) =>
      match FirstMatch(lines, key)
      case None => Appended
      case Some(i) => if lines[i] == ExportLine(key, v) then Present else Rewritten
  }

  /** The line `ensure_in_envrc` wants present. */
  function EnvrcEntry(key: string, value: Option<string>): string
  {
    match value
    case None => key
    case Some(v) => ExportLine(key, v)
  }

  /** The environment file after `ensure_in_envrc(key, value)`. */
  function EnvrcAfter(f: File, key: string, value: Option<string>): File
  {
    var lines := Lines(f);
    match EnvrcEdit(lines, key, value)
    case Present => f
    case Appended => Some(lines + [EnvrcEntry(key, value)])
    case Rewritten => Some(ReplaceExports(lines, key, EnvrcEntry(key, value)))
  }

  /** The first line that exports the key is the one FirstMatch names. */
  lemma FirstMatchIs(lines: seq<string>, key: string, i: nat)
    requires i < |lines| && ExportsKey(lines[i], key)
    requires forall j :: 0 <= j < i ==> !ExportsKey(lines[j], key)
    ensures FirstMatch(lines, key) == Some(i)
  {
  }

  /**
   * With a value and no line exporting the key, the file becomes its old
   * lines followed by exactly one `export KEY=VALUE`; an absent or empty file
   * becomes that single line. Conversely, appending happens only then.
   */
  lemma EnvrcAppends(f: File, key: string, v: string)
    ensures EnvrcEdit(Lines(f), key, Some(v)) == Appended
            <==> forall i :: 0 <= i < |Lines(f)| ==> !ExportsKey(Lines(f)[i], key)
    ensures EnvrcEdit(Lines(f), key, Some(v)) == Appended
            ==> EnvrcAfter(f, key, Some(v)) == Some(Lines(f) + [ExportLine(key, v)])
    ensures Lines(f) == [] ==> EnvrcAfter(f, key, Some(v)) == Some([ExportLine(key, v)])
  {
    if Lines(f) == [] {
      assert Lines(f) + [ExportLine(key, v)] == [ExportLine(key, v)];
    }
  }

  /**
   * With a value, when the first line exporting the key already reads
   * `export KEY=VALUE`, the file is left as it is, whatever later lines say.
   */
  lemma EnvrcKeepsFirstMatch(f: File, key: string, v: string, i: nat)
    requires i < |Lines(f)| && Lines(f)[i] == ExportLine(key, v)
    requires forall j :: 0 <= j < i ==> !ExportsKey(Lines(f)[j], key)
    ensures EnvrcEdit(Lines(f), key, Some(v)) == Present
    ensures EnvrcAfter(f, key, Some(v)) == f
  {
    FirstMatchIs(Lines(f), key, i);
  }

  /**
   * With a value, when the first line exporting the key differs from
   * `export KEY=VALUE`, the file is rewritten with the same number of lines:
   * every line exporting the key becomes `export KEY=VALUE` at its own index,
   * every other line stays as it was at its index.
   */
  lemma EnvrcOverwritesInPlace(f: File, key: string, v: string, i: nat)
    requires i < |Lines(f)| && ExportsKey(Lines(f)[i], key) && Lines(f)[i] != ExportLine(key, v)
    requires forall j :: 0 <= j < i ==> !ExportsKey(Lines(f)[j], key)
    ensures EnvrcEdit(Lines(f), key, Some(v)) == Rewritten
    ensures var g := EnvrcAfter(f, key, Some(v));
            g.Some? && |g.value| == |Lines(f)|
            && forall j :: 0 <= j < |Lines(f)| ==>
                 g.value[j] == if ExportsKey(Lines(f)[j], key) then ExportLine(key, v) else Lines(f)[j]
  {
    FirstMatchIs(Lines(f), key, i);
  }

  /**
   * After any `ensure_in_envrc(key, value)` the file exists, and an
   * immediate second identical call finds the entry and writes nothing.
   */
  lemma EnvrcIdempotent(f: File, key: string, value: Option<string>)
    ensures EnvrcAfter(f, key, value).Some?
    ensures EnvrcEdit(Lines(EnvrcAfter(f, key, value)), key, value) == Present
    ensures EnvrcAfter(EnvrcAfter(f, key, value), key, value) == EnvrcAfter(f, key, value)
  {
    var lines := Lines(f);
    var g := Lines(EnvrcAfter(f, key, value));
    match value
    case None =>
      LineIdempotent(f, key);
    case Some(v) =>
      var e := ExportLine(key, v);
      match FirstMatch(lines, key)
      case None =>
        assert g == lines + [e];
        assert g[|lines|] == e;
        FirstMatchIs(g, key, |lines|);
      case Some(i) =>
        if lines[i] != e {
          assert g == ReplaceExports(lines, key, e);
          FirstMatchIs(g, key, i);
        }
  }

}
