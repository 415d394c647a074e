/** The start-up configuration of backend/config/passportConfig.js: when the
    Google OAuth credentials are not in the environment, the `.env` file is
    parsed and merged into `process.env`; then the credentials must be there.
    Reading the file is the `envFile` parameter (None when it cannot be read). */
module EnvConfig {
  import opened Common
  import opened Seqs
  import opened JsString

  type Env = map<string, string>

  const ClientId: string := "GOOGLE_CLIENT_ID"
  const ClientSecret: string := "GOOGLE_CLIENT_SECRET"
  const CredentialsMissing: string := "Google OAuth credentials are missing"

  /** A line the parser keeps: not blank once trimmed, and not starting with
      '#' as written (before trimming). */
  predicate Kept(line: string)
  {
    Trim(line) != "" && !StartsWith(line, "#")
  }

  /** `.filter(line => line.trim() !== '' && !line.startsWith('#'))`. */
  function KeptLines(lines: seq<string>): (r: seq<string>)
    ensures forall l :: l in r <==> l in lines && Kept(l)
    ensures |r| <= |lines|
  {
    if lines == [] then []
    else if Kept(lines[0]) then [lines[0]] + KeptLines(lines[1..])
    else KeptLines(lines[1..])
  }

  /** `filter` keeps the surviving lines in the file's order: filtering a
      concatenation is concatenating the filtered parts. */
  lemma {:induction false} KeptLinesAppend(a: seq<string>, b: seq<string>)
    ensures KeptLines(a + b) == KeptLines(a) + KeptLines(b)
  {
    if a == [] {
      assert a + b == b;
    } else {
      assert (a + b)[0] == a[0];
      assert (a + b)[1..] == a[1..] + b;
      KeptLinesAppend(a[1..], b);
    }
  }

  /** `const [key, value] = line.split('=')`, trimmed: the text before the
      first '=' and the text between the first and the second. None when there
      is no '=', where `value.trim()` throws. */
  function ParseLine(line: string): (r: Option<(string, string)>)
    ensures r.None? <==> '=' !in line
  {
    var parts := Split(line, '=');
    SplitCount(line, '=');
    if |parts| < 2 then None else Some((Trim(parts[0]), Trim(parts[1])))
  }

  /** A kept line as the `reduce` reads it: a key and a value, or None where
      it throws. */
  type Entry = Option<(string, string)>

  function Entries(lines: seq<string>): (r: seq<Entry>)
    ensures |r| == |lines| && forall i :: 0 <= i < |lines| ==> r[i] == ParseLine(lines[i])
  {
    seq(|lines|, i requires 0 <= i < |lines| => ParseLine(lines[i]))
  }

  /** The one key a plain object does not store: `acc['__proto__'] = value`
      calls the prototype setter, which ignores a string. */
  const ProtoKey: string := "__proto__"

  /** `acc[key] = value` on the plain object the `reduce` starts from. */
  function Store(acc: Env, key: string, value: string): (r: Env)
    ensures key != ProtoKey ==> key in r && r[key] == value
    ensures forall k :: k != key ==> (k in r <==> k in acc) && (k in r ==> r[k] == acc[k])
    ensures key == ProtoKey ==> r == acc
  {
    if key == ProtoKey then acc else acc[key := value]
  }

  /** An entry that stores a value under `key`. */
  predicate Sets(e: Entry, key: string)
  {
    e.Some? && e.value.0 == key && key != ProtoKey
  }

  /** The `reduce`, from the left: every entry is written into the
      accumulator in turn; the first line that throws aborts the whole parse. */
  function Assign(entries: seq<Entry>, acc: Env): Option<Env>
  {
    if entries == [] then Some(acc)
    else
      match entries[0]
      case None => None
      case Some((key, value)) => Assign(entries[1..], Store(acc, key, value))
  }

  /** The object the parser builds from the file's text. */
  function ParseEnv(content: string): Option<Env>
  {
    Assign(Entries(KeptLines(Split(content, '\n'))), map[])
  }

  /** The reduce fails exactly when some line throws. */
  lemma {:induction false} AssignFails(entries: seq<Entry>, acc: Env)
    ensures Assign(entries, acc).None? <==> exists i :: 0 <= i < |entries| && entries[i].None?
  {
    if entries != [] && entries[0].Some? {
      var (key, value) := entries[0].value;
      AssignFails(entries[1..], Store(acc, key, value));
      assert forall i :: 1 <= i < |entries| ==> entries[i] == entries[1..][i - 1];
    }
  }

  /** The parse fails exactly when some kept line holds no '='. */
  lemma ParseFails(lines: seq<string>)
    ensures Assign(Entries(lines), map[]).None? <==> exists i :: 0 <= i < |lines| && '=' !in lines[i]
  {
    AssignFails(Entries(lines), map[]);
  }

  /** One more entry is one more assignment. */
  lemma {:induction false} AssignSnoc(entries: seq<Entry>, key: string, value: string, acc: Env)
    ensures Assign(entries + [Some((key, value))], acc) ==
              match Assign(entries, acc)
              case None => None
              case Some(env) => Some(Store(env, key, value))
  {
    if entries == [] {
      assert entries + [Some((key, value))] == [Some((key, value))];
      assert [Some((key, value))][1..] == [];
    } else {
      assert (entries + [Some((key, value))])[0] == entries[0];
      assert (entries + [Some((key, value))])[1..] == entries[1..] + [Some((key, value))];
      if entries[0].Some? {
        var (k, v) := entries[0].value;
        AssignSnoc(entries[1..], key, value, Store(acc, k, v));
      }
    }
  }

  /** A key takes the value of the last entry that names it, and keeps the
      accumulator's value when no entry names it: a later line overrides an
      earlier one. */
  lemma {:induction false} AssignLastWins(entries: seq<Entry>, acc: Env, key: string)
    requires Assign(entries, acc).Some?
    ensures forall i :: 0 <= i < |entries| ==> entries[i].Some?
    ensures var env := Assign(entries, acc).value;
            && (key in env <==> key in acc || exists i :: 0 <= i < |entries| && Sets(entries[i], key))
            && (forall i ::
                  (&& 0 <= i < |entries| && Sets(entries[i], key)
                   && forall j :: i < j < |entries| ==> !Sets(entries[j], key))
                  ==> env[key] == entries[i].value.1)
            && ((forall i :: 0 <= i < |entries| ==> !Sets(entries[i], key)) && key in acc ==> env[key] == acc[key])
  {
    AssignFails(entries, acc);
    if entries != [] {
      var n := |entries| - 1;
      var init := entries[..n];
      var (k, v) := entries[n].value;
      assert entries == init + [Some((k, v))];
      AssignSnoc(init, k, v, acc);
      AssignFails(init, acc);
      assert forall i :: 0 <= i < n ==> init[i] == entries[i];
      AssignLastWins(init, acc, key);
    }
  }

  /** The kept lines around a kept line `j`: those before it, it, and those after it. */
  lemma KeptSplitAt(lines: seq<string>, j: nat)
    requires j < |lines| && Kept(lines[j])
    ensures KeptLines(lines) == KeptLines(lines[..j]) + KeptLines(lines[j..])
    ensures KeptLines(lines[j..]) == [lines[j]] + KeptLines(lines[j + 1..])
  {
    assert lines == lines[..j] + lines[j..];
    KeptLinesAppend(lines[..j], lines[j..]);
    assert lines[j..][0] == lines[j];
    assert lines[j..][1..] == lines[j + 1..];
  }

  /** Kept line `j` keeps its place among the kept lines, and every kept line
      after it comes from a later line of the file. */
  lemma KeptAfter(lines: seq<string>, j: nat)
    requires j < |lines| && Kept(lines[j])
    ensures |KeptLines(lines[..j])| < |KeptLines(lines)|
    ensures KeptLines(lines)[|KeptLines(lines[..j])|] == lines[j]
    ensures forall t :: |KeptLines(lines[..j])| < t < |KeptLines(lines)| ==>
              exists i :: j < i < |lines| && KeptLines(lines)[t] == lines[i]
  {
    KeptSplitAt(lines, j);
    var kept := KeptLines(lines);
    var n := |KeptLines(lines[..j])|;
    var after := lines[j + 1..];
    forall t | n < t < |kept|
      ensures exists i :: j < i < |lines| && kept[t] == lines[i]
    {
      assert kept[t] == KeptLines(after)[t - n - 1];
      assert kept[t] in after;
      var i :| 0 <= i < |after| && after[i] == kept[t];
      assert lines[j + 1 + i] == kept[t];
    }
  }

  /** When no later kept line sets `key`, no entry after line `j`'s sets it. */
  lemma LaterLinesSkip(lines: seq<string>, key: string, j: nat)
    requires j < |lines| && Kept(lines[j])
    requires forall i :: j < i < |lines| && Kept(lines[i]) ==> !Sets(ParseLine(lines[i]), key)
    ensures var entries := Entries(KeptLines(lines));
            forall t :: |KeptLines(lines[..j])| < t < |entries| ==> !Sets(entries[t], key)
  {
    KeptAfter(lines, j);
    var kept := KeptLines(lines);
    var n := |KeptLines(lines[..j])|;
    forall t | n < t < |kept|
      ensures !Sets(ParseLine(kept[t]), key)
    {
      assert exists i :: j < i < |lines| && kept[t] == lines[i];
      var i :| j < i < |lines| && kept[t] == lines[i];
      assert Kept(lines[i]);
    }
  }

  /** In the file, a later line overrides an earlier one: the key that kept
      line `j` sets holds that line's value whenever no later kept line sets
      it, whatever earlier lines set it too. */
  lemma FileLastWins(content: string, key: string, j: nat)
    requires ParseEnv(content).Some?
    requires j < |Split(content, '\n')|
    requires var lines := Split(content, '\n');
             && Kept(lines[j]) && Sets(ParseLine(lines[j]), key)
             && forall i :: j < i < |lines| && Kept(lines[i]) ==> !Sets(ParseLine(lines[i]), key)
    ensures var lines := Split(content, '\n');
            key in ParseEnv(content).value && ParseEnv(content).value[key] == ParseLine(lines[j]).value.1
  {
    var lines := Split(content, '\n');
    KeptAfter(lines, j);
    LaterLinesSkip(lines, key, j);
    var entries := Entries(KeptLines(lines));
    AssignLastWins(entries, map[], key);
  }

  /** A line with exactly one '=' splits into the text before it and the
      text after it. */
  lemma SplitOneEqualsAt(key: string, value: string)
    requires '=' !in key && '=' !in value
    ensures Split(key + "=" + value, '=') == [key, value]
  {
    assert key + "=" + value == key + ['='] + value;
    SplitAfterFirst(key, value, '=');
  }

  /** A line indented before its '#' is not a comment: it is kept, and read
      as an entry whose key starts with '#' (`  #x=1` sets `#x`). */
  lemma IndentedHashIsEntry(indent: string, key: string, value: string)
    requires indent != [] && forall k :: 0 <= k < |indent| ==> IsWhiteSpace(indent[k])
    requires key != [] && key[0] == '#' && '=' !in key && '=' !in value
    ensures Kept(indent + key + "=" + value)
    ensures ParseLine(indent + key + "=" + value) == Some((Trim(key), Trim(value)))
  {
    assert indent + key + "=" + value == indent + (key + "=" + value);
    IndentedHashKept(indent, key + "=" + value);
    IndentedHashParse(indent, key, value);
  }

  lemma IndentedHashKept(indent: string, rest: string)
    requires indent != [] && forall k :: 0 <= k < |indent| ==> IsWhiteSpace(indent[k])
    requires rest != [] && rest[0] == '#'
    ensures Kept(indent + rest)
  {
    assert !IsWhiteSpace('#');
    IndentedTrim(indent, rest);
    assert TrimEnd(rest) != [];
    assert (indent + rest)[..1][0] == indent[0];
  }

  lemma IndentedHashParse(indent: string, key: string, value: string)
    requires forall k :: 0 <= k < |indent| ==> IsWhiteSpace(indent[k])
    requires key != [] && key[0] == '#' && '=' !in key && '=' !in value
    ensures ParseLine(indent + key + "=" + value) == Some((Trim(key), Trim(value)))
  {
    assert !IsWhiteSpace('=') && !IsWhiteSpace('#');
    assert '=' !in indent + key by {
      assert forall k :: 0 <= k < |indent + key| ==> (indent + key)[k] != '=';
    }
    SplitOneEqualsAt(indent + key, value);
    IndentedTrim(indent, key);
  }

  /** Leading white space does not change the trimmed text, when what follows
      starts with something else. */
  lemma IndentedTrim(indent: string, rest: string)
    requires forall k :: 0 <= k < |indent| ==> IsWhiteSpace(indent[k])
    requires rest != [] && !IsWhiteSpace(rest[0])
    ensures TrimStart(indent + rest) == rest && TrimStart(rest) == rest
    ensures Trim(indent + rest) == Trim(rest)
  {
    TrimStartSkip(indent + rest, |indent|);
    assert (indent + rest)[|indent|..] == rest;
    TrimStartSkip(rest, 0);
  }

  /** Anything after a second '=' is dropped: the value stops at the next '='. */
  lemma ValueTruncated(key: string, value: string)
    requires '=' !in key && '=' in value
    ensures ParseLine(key + "=" + value) == Some((Trim(key), Trim(value[..IndexOf(value, '=')])))
  {
    SplitTwoEquals(key, value);
  }

  lemma SplitTwoEquals(key: string, value: string)
    requires '=' !in key && '=' in value
    ensures var parts := Split(key + "=" + value, '=');
            |parts| >= 3 && parts[0] == key && parts[1] == value[..IndexOf(value, '=')]
  {
    assert key + "=" + value == key + ['='] + value;
    SplitAfterFirst(key, value, '=');
    var k := IndexOf(value, '=');
    assert Split(value, '=') == [value[..k]] + Split(value[k + 1..], '=');
  }

  /** `K=a=b` stores `a` under `K`: the line reads exactly as `K=a` would. */
  lemma SecondEqualsTruncates(key: string, a: string, b: string)
    requires '=' !in key && '=' !in a
    ensures ParseLine(key + "=" + a + "=" + b) == Some((Trim(key), Trim(a)))
    ensures ParseLine(key + "=" + a + "=" + b) == ParseLine(key + "=" + a)
  {
    var value := a + "=" + b;
    assert value[|a|] == '=' && value[..|a|] == a;
    IndexOfAt(value, '=', |a|);
    assert key + "=" + a + "=" + b == key + "=" + value;
    ValueTruncated(key, value);
    SplitOneEqualsAt(key, a);
  }

  /** The evidently intended line parser: the value is everything after the
      first '=', trimmed. */
  function ParseLineWhole(line: string): (r: Option<(string, string)>)
    ensures r.None? <==> '=' !in line
  {
    if '=' !in line then None
    else
      var k := IndexOf(line, '=');
      Some((Trim(line[..k]), Trim(line[k + 1..])))
  }

  /** With the corrected parser, an entry written as `key=value` reads back as
      written, whatever '=' the value holds, provided neither key nor value is
      padded with white space and the key holds no '='. */
  lemma ParseLineWholeRoundTrip(key: string, value: string)
    requires '=' !in key
    requires Unpadded(key) && Unpadded(value)
    ensures ParseLineWhole(key + "=" + value) == Some((key, value))
  {
    var line := key + "=" + value;
    assert line[|key|] == '=' && line[..|key|] == key;
    assert IndexOf(line, '=') == |key|;
    assert line[|key| + 1..] == value;
    TrimUnpadded(key);
    TrimUnpadded(value);
  }

  /** The corrected parser agrees with the source's on every line holding at
      most one '='. */
  lemma ParseLineAgrees(line: string)
    requires Count(line, '=') <= 1
    ensures ParseLineWhole(line) == ParseLine(line)
  {
    if '=' in line {
      SplitOneEquals(line);
    }
  }

  lemma SplitOneEquals(line: string)
    requires Count(line, '=') <= 1 && '=' in line
    ensures var k := IndexOf(line, '=');
            Split(line, '=') == [line[..k], line[k + 1..]]
  {
    var k := IndexOf(line, '=');
    var rest := line[k + 1..];
    OnlyEqualsFirst(line);
    SplitAtFirst(line, '=');
    SplitNone(rest, '=');
  }

  /** With at most one '=', none follows the first. */
  lemma OnlyEqualsFirst(line: string)
    requires Count(line, '=') <= 1 && '=' in line
    ensures '=' !in line[IndexOf(line, '=') + 1..]
  {
    var k := IndexOf(line, '=');
    var head, rest := line[..k + 1], line[k + 1..];
    assert line == head + rest;
    assert head[k] == '=';
    CountAppend(head, rest, '=');
  }

  /** `!process.env.X`: unset or empty. */
  predicate Missing(env: Env, name: string)
  {
    name !in env || env[name] == ""
  }

  /** The environment after `loadEnvIfNeeded`: untouched when both credentials
      are set, when the file cannot be read and when it fails to parse;
      otherwise every parsed entry is assigned over it. */
  function LoadedEnv(env: Env, envFile: Option<string>): (r: Env)
    ensures !Missing(env, ClientId) && !Missing(env, ClientSecret) ==> r == env
    ensures envFile.None? ==> r == env
    ensures envFile.Some? && ParseEnv(envFile.value).None? ==> r == env
    ensures (Missing(env, ClientId) || Missing(env, ClientSecret)) && envFile.Some? && ParseEnv(envFile.value).Some? ==>
              r.Keys == env.Keys + ParseEnv(envFile.value).value.Keys
              && (forall k :: k in ParseEnv(envFile.value).value ==> r[k] == ParseEnv(envFile.value).value[k])
              && (forall k :: k in env && k !in ParseEnv(envFile.value).value ==> r[k] == env[k])
  {
    if !Missing(env, ClientId) && !Missing(env, ClientSecret) then env
    else if envFile.None? then env
    else
      match ParseEnv(envFile.value)
      case None => env
      case Some(parsed) => env + parsed
  }

  /** The check after loading: both credentials present, or the module throws. */
  function CheckCredentials(env: Env): (r: Result<(), string>)
    ensures r.Ok? <==> !Missing(env, ClientId) && !Missing(env, ClientSecret)
    ensures r.Err? ==> r.error == CredentialsMissing
  {
    if Missing(env, ClientId) || Missing(env, ClientSecret) then Err(CredentialsMissing) else Ok(())
  }

  /** Start-up succeeds exactly when the credentials were set already, or the
      file parses and, merged in, supplies the missing ones. */
  lemma StartupSucceeds(env: Env, envFile: Option<string>)
    ensures CheckCredentials(LoadedEnv(env, envFile)).Ok? <==>
              || (!Missing(env, ClientId) && !Missing(env, ClientSecret))
              || (&& envFile.Some? && ParseEnv(envFile.value).Some?
                  && !Missing(env + ParseEnv(envFile.value).value, ClientId)
                  && !Missing(env + ParseEnv(envFile.value).value, ClientSecret))
  {
  }

  /** `process.env`, the one global the module writes. */
  class ProcessEnv {
    var vars: Env

    constructor (initial: Env)
      ensures vars == initial
    {
      vars := initial;
    }

    /** `loadEnvIfNeeded`: parse first, then `Object.assign`, so a parse error
        leaves the environment as it was. */
    method LoadEnvIfNeeded(envFile: Option<string>)
      modifies this
      ensures vars == LoadedEnv(old(vars), envFile)
    {
      if Missing(vars, ClientId) || Missing(vars, ClientSecret) {
        if envFile.Some? {
          var envConfig := ParseEnv(envFile.value);
          if envConfig.Some? {
            vars := vars + envConfig.value;
          }
        }
      }
    }
  }

  /** Module start-up: load, then check. */
  method Configure(env: ProcessEnv, envFile: Option<string>) returns (r: Result<(), string>)
    modifies env
    ensures env.vars == LoadedEnv(old(env.vars), envFile)
    ensures r == CheckCredentials(env.vars)
  {
    env.LoadEnvIfNeeded(envFile);
    r := CheckCredentials(env.vars);
  }
}
