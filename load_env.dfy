/** The environment-file loader: each line `KEY=value` of `supabase.env`, then of
    `open-router.env`, is assigned into the process environment unless the key already
    holds a non-empty value. The file system is a map from file name to content. */
module EnvLoader {
  import opened Wrappers
  import opened Text

  /** The files read, in this order. */
  const EnvFiles: seq<string> := ["supabase.env", "open-router.env"]

  const Newline: char := '\n'

  /** A `KEY=value` line as parsed: the key before the first '=', the trimmed rest. */
  datatype Assignment = Assignment(key: string, value: string)

  /** One line: trimmed; blank lines and '#' comments are skipped; the key is the text
      before the first '=' and must be non-empty; the value is everything after it, with
      any further '=' kept, trimmed. */
  function ParseLine(line: string): Option<Assignment> {
    var trimmed := Trim(line);
    if trimmed == "" || StartsWith(trimmed, "#") then None
    else
      var parts := Split(trimmed, '=');
      if parts[0] != "" && |parts| > 1 then Some(Assignment(parts[0], Trim(Join(parts[1..], "="))))
      else None
  }

  /** A line yields an assignment exactly when its trimmed text is not a comment, has an
      '=' and does not start with one; the trimmed line is then the key, '=', and a raw
      value whose trimmed form is the value, and the key holds no '='. */
  lemma ParseLineSpec(line: string)
    ensures var t := Trim(line);
      ParseLine(line).Some? <==> t != "" && t[0] != '#' && '=' in t && t[0] != '='
    ensures ParseLine(line).Some? ==>
      var a := ParseLine(line).value;
      && a.key != "" && '=' !in a.key
      && exists raw :: Trim(line) == a.key + "=" + raw && a.value == Trim(raw)
  {
    var t := Trim(line);
    if t != "" && !StartsWith(t, "#") {
      var parts := Split(t, '=');
      SplitPiecesFree(t, '=');
      JoinSplit(t, '=');
      if |parts| > 1 {
        var raw := Join(parts[1..], "=");
        assert t == parts[0] + "=" + raw;
        assert t[..|parts[0]|] == parts[0];
        if parts[0] != "" {
          assert t[0] == parts[0][0];
        }
        assert t[|parts[0]|] == '=';
      } else {
        assert t == parts[0];
      }
    }
  }

  /** `if (!process.env[key]) process.env[key] = value`: an unset or empty variable takes
      the value, any other keeps its own. */
  function Assign(env: map<string, string>, a: Assignment): (r: map<string, string>)
    ensures a.key in r
    ensures r.Keys == env.Keys + {a.key}
    ensures a.key !in env || env[a.key] == "" ==> r[a.key] == a.value
    ensures a.key in env && env[a.key] != "" ==> r[a.key] == env[a.key]
    ensures forall k :: k in env && k != a.key ==> r[k] == env[k]
  {
    if a.key !in env || env[a.key] == "" then env[a.key := a.value] else env
  }

  /** The environment after one line. */
  function ApplyLine(env: map<string, string>, line: string): map<string, string> {
    match ParseLine(line)
    case None => env
    case Some(a) => Assign(env, a)
  }

  /** The environment after the given lines, in order. */
  function ApplyLines(env: map<string, string>, lines: seq<string>): map<string, string>
    decreases |lines|
  {
    if lines == [] then env else ApplyLine(ApplyLines(env, lines[..|lines| - 1]), lines[|lines| - 1])
  }

  /** `loadEnvFile`: a missing file changes nothing; otherwise every line of its content. */
  function LoadFile(env: map<string, string>, files: map<string, string>, name: string): map<string, string> {
    if name in files then ApplyLines(env, Split(files[name], Newline)) else env
  }

  /** The whole script: `supabase.env`, then `open-router.env`. */
  function LoadAll(env: map<string, string>, files: map<string, string>): map<string, string> {
    LoadFile(LoadFile(env, files, EnvFiles[0]), files, EnvFiles[1])
  }

  /** A variable that holds a non-empty value keeps it through any lines. */
  lemma {:induction false} NonEmptyKept(env: map<string, string>, lines: seq<string>, key: string)
    requires key in env && env[key] != ""
    ensures key in ApplyLines(env, lines) && ApplyLines(env, lines)[key] == env[key]
    decreases |lines|
  {
    if lines != [] {
      NonEmptyKept(env, lines[..|lines| - 1], key);
    }
  }

  /** A variable that no line assigns is left as it was. */
  lemma {:induction false} UnassignedUnchanged(env: map<string, string>, lines: seq<string>, key: string)
    requires forall i :: 0 <= i < |lines| && ParseLine(lines[i]).Some? ==> ParseLine(lines[i]).value.key != key
    ensures key in ApplyLines(env, lines) <==> key in env
    ensures key in env ==> ApplyLines(env, lines)[key] == env[key]
    decreases |lines|
  {
    if lines != [] {
      var front := lines[..|lines| - 1];
      forall i | 0 <= i < |front| && ParseLine(front[i]).Some? ensures ParseLine(front[i]).value.key != key {
        assert front[i] == lines[i];
      }
      UnassignedUnchanged(env, front, key);
    }
  }

  /** A variable that is unset or empty, and that the lines only assign empty values,
      stays unset or empty. */
  lemma {:induction false} EmptyStaysEmpty(env: map<string, string>, lines: seq<string>, key: string)
    requires key !in env || env[key] == ""
    requires forall i :: 0 <= i < |lines| && ParseLine(lines[i]).Some? && ParseLine(lines[i]).value.key == key ==>
      ParseLine(lines[i]).value.value == ""
    ensures key !in ApplyLines(env, lines) || ApplyLines(env, lines)[key] == ""
    decreases |lines|
  {
    if lines != [] {
      var front := lines[..|lines| - 1];
      forall i | 0 <= i < |front| && ParseLine(front[i]).Some? && ParseLine(front[i]).value.key == key
        ensures ParseLine(front[i]).value.value == ""
      {
        assert front[i] == lines[i];
      }
      EmptyStaysEmpty(env, front, key);
    }
  }

  /** For a variable unset or empty beforehand, the first line that assigns it a non-empty
      value decides its final value: earlier empty values are overwritten, later values
      are ignored. */
  lemma {:induction false} FirstNonEmptyWins(env: map<string, string>, lines: seq<string>, key: string, i: nat)
    requires key !in env || env[key] == ""
    requires i < |lines| && ParseLine(lines[i]).Some? && ParseLine(lines[i]).value.key == key
    requires ParseLine(lines[i]).value.value != ""
    requires forall j :: 0 <= j < i && ParseLine(lines[j]).Some? && ParseLine(lines[j]).value.key == key ==>
      ParseLine(lines[j]).value.value == ""
    ensures key in ApplyLines(env, lines) && ApplyLines(env, lines)[key] == ParseLine(lines[i]).value.value
    decreases |lines|
  {
    var front := lines[..|lines| - 1];
    if i == |lines| - 1 {
      forall j | 0 <= j < |front| && ParseLine(front[j]).Some? && ParseLine(front[j]).value.key == key
        ensures ParseLine(front[j]).value.value == ""
      {
        assert front[j] == lines[j];
      }
      EmptyStaysEmpty(env, front, key);
    } else {
      assert front[i] == lines[i];
      forall j | 0 <= j < i && ParseLine(front[j]).Some? && ParseLine(front[j]).value.key == key
        ensures ParseLine(front[j]).value.value == ""
      {
        assert front[j] == lines[j];
      }
      FirstNonEmptyWins(env, front, key, i);
    }
  }

  /** A non-empty value set by `supabase.env` is never replaced by `open-router.env`. */
  lemma FirstFileWins(env: map<string, string>, files: map<string, string>, key: string)
    requires var first := LoadFile(env, files, EnvFiles[0]); key in first && first[key] != ""
    ensures key in LoadAll(env, files) && LoadAll(env, files)[key] == LoadFile(env, files, EnvFiles[0])[key]
  {
    var first := LoadFile(env, files, EnvFiles[0]);
    if EnvFiles[1] in files {
      NonEmptyKept(first, Split(files[EnvFiles[1]], Newline), key);
    }
  }

  /** With neither file present the environment is unchanged. */
  lemma MissingFilesChangeNothing(env: map<string, string>, files: map<string, string>)
    requires EnvFiles[0] !in files && EnvFiles[1] !in files
    ensures LoadAll(env, files) == env
  {
  }

  /** The process environment. */
  class ProcessEnv {
    var vars: map<string, string>

    constructor(initial: map<string, string>)
      ensures vars == initial
    {
      vars := initial;
    }

    /** `loadEnvFile`: assigns the file's lines in order, skipping a missing file. */
    method LoadEnvFile(files: map<string, string>, name: string)
      modifies this
      ensures vars == LoadFile(old(vars), files, name)
    {
      if name !in files {
        return;
      }
      var lines := Split(files[name], Newline);
      var i := 0;
      while i < |lines|
        invariant 0 <= i <= |lines|
        invariant vars == ApplyLines(old(vars), lines[..i])
      {
        var parsed := ParseLine(lines[i]);
        if parsed.Some? {
          var key := parsed.value.key;
          if key !in vars || vars[key] == "" {
            vars := vars[key := parsed.value.value];
          }
        }
        assert lines[..i + 1][..i] == lines[..i];
        i := i + 1;
      }
      assert lines[..|lines|] == lines;
    }

    /** The script: each file of EnvFiles in turn. */
    method LoadEnvFiles(files: map<string, string>)
      modifies this
      ensures vars == LoadAll(old(vars), files)
    {
      var i := 0;
      while i < |EnvFiles|
        invariant 0 <= i <= |EnvFiles|
        invariant i == 0 ==> vars == old(vars)
        invariant i == 1 ==> vars == LoadFile(old(vars), files, EnvFiles[0])
        invariant i == 2 ==> vars == LoadAll(old(vars), files)
      {
        LoadEnvFile(files, EnvFiles[i]);
        i := i + 1;
      }
    }
  }
}
