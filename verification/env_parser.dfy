/** `parseEnvsData` of the CLI: which format an environment file is in (bulk export, then the
    legacy key-value object, then a single environment export), and how the values of secret
    variables are taken back from the file. The file contents are given through the outcome of
    each schema check; reading the file (or fetching it) is not modelled. */
module EnvParser {
  import opened Wrappers
  import opened Strings

  /** An environment variable (`HoppEnvPair`); the latest schema omits the value of a secret one. */
  datatype EnvVar = EnvVar(key: string, value: Option<string>, secret: bool)

  /** A variable exactly as written in the file; only its `value` is read. */
  datatype OriginalVariable = OriginalVariable(value: Option<string>)

  /** What the schema checks make of the file contents. */
  datatype EnvFileContents = EnvFileContents(
    isBulkExport: bool,                         // the array-of-environments schema accepts it
    keyPairs: Option<seq<(string, string)>>,    // the key-value object schema: its entries, in order
    exportVariables: Option<seq<EnvVar>>,       // the environment schema: its migrated variables
    originalVariables: seq<OriginalVariable>)   // `contents.variables`

  datatype EnvError =
    | BulkEnvFile            // `BULK_ENV_FILE`
    | MalformedEnvFile       // `MALFORMED_ENV_FILE`
    | MissingOriginalVariable  // the `TypeError` of reading `.value` past the end of `contents.variables`

  datatype HoppEnvs = HoppEnvs(global: seq<EnvVar>, selected: seq<EnvVar>)

  /** A value JavaScript treats as true: a non-empty string. */
  predicate Truthy(v: Option<string>) {
    v.Some? && v.value != ""
  }

  /** The secret variable at `i` takes the file's value at the same index when that value is truthy. */
  predicate TakesOriginalValue(migrated: seq<EnvVar>, original: seq<OriginalVariable>, i: nat)
    requires i < |migrated|
  {
    migrated[i].secret && i < |original| && Truthy(original[i].value)
  }

  /** The variable at `i` after resolution. */
  function ResolvedAt(migrated: seq<EnvVar>, original: seq<OriginalVariable>, i: nat): EnvVar
    requires i < |migrated|
  {
    if TakesOriginalValue(migrated, original, i) then migrated[i].(value := original[i].value) else migrated[i]
  }

  /** Some secret variable at `k` or after has no original at its index. */
  predicate MissingOriginalFrom(migrated: seq<EnvVar>, original: seq<OriginalVariable>, k: nat) {
    exists i :: k <= i < |migrated| && migrated[i].secret && i >= |original|
  }

  /** The `map` callback applied from index `k` on: the resolved variables, or the error of the
      first secret variable whose original is missing. */
  function ResolveFrom(migrated: seq<EnvVar>, original: seq<OriginalVariable>, k: nat)
    : (r: Result<seq<EnvVar>, EnvError>)
    requires k <= |migrated|
    ensures r.Failure? <==> MissingOriginalFrom(migrated, original, k)
    ensures r.Failure? ==> r.error == MissingOriginalVariable
    ensures r.Success? ==> |r.value| == |migrated| - k
    ensures r.Success? ==> forall i :: k <= i < |migrated| ==> r.value[i - k] == ResolvedAt(migrated, original, i)
    decreases |migrated| - k
  {
    if k == |migrated| then Success([])
    else if migrated[k].secret && k >= |original| then Failure(MissingOriginalVariable)
    else
      match ResolveFrom(migrated, original, k + 1)
      case Failure(e) => Failure(e)
      case Success(rest) => Success([ResolvedAt(migrated, original, k)] + rest)
  }

  /** `resolvedEnvVariables`: each secret variable whose original at the same index has a truthy
      value takes that value; every other variable is kept as migrated. Reading the original of a
      secret variable past the end of the file's list throws. */
  function ResolveSecrets(migrated: seq<EnvVar>, original: seq<OriginalVariable>): (r: Result<seq<EnvVar>, EnvError>)
    ensures r.Failure? <==> exists i :: 0 <= i < |migrated| && migrated[i].secret && i >= |original|
    ensures r.Failure? ==> r.error == MissingOriginalVariable
    ensures r.Success? ==> |r.value| == |migrated|
    ensures r.Success? ==> forall i :: 0 <= i < |migrated| && TakesOriginalValue(migrated, original, i) ==>
              r.value[i] == migrated[i].(value := original[i].value)
    ensures r.Success? ==> forall i :: 0 <= i < |migrated| && !TakesOriginalValue(migrated, original, i) ==>
              r.value[i] == migrated[i]
  {
    var r := ResolveFrom(migrated, original, 0);
    assert r.Success? ==> forall i :: 0 <= i < |migrated| ==> r.value[i] == ResolvedAt(migrated, original, i) by {
      if r.Success? {
        forall i | 0 <= i < |migrated| ensures r.value[i] == ResolvedAt(migrated, original, i) {
          assert r.value[i - 0] == ResolvedAt(migrated, original, i);
        }
      }
    }
    r
  }

  /** Resolving the secrets of already resolved variables changes nothing. */
  lemma ResolveSecretsIdempotent(migrated: seq<EnvVar>, original: seq<OriginalVariable>)
    requires ResolveSecrets(migrated, original).Success?
    ensures ResolveSecrets(ResolveSecrets(migrated, original).value, original) == ResolveSecrets(migrated, original)
  {
    var once := ResolveSecrets(migrated, original).value;
    assert forall i :: 0 <= i < |once| ==> once[i].secret == migrated[i].secret;
    var twice := ResolveSecrets(once, original);
    assert twice.Success?;
    assert forall i :: 0 <= i < |once| ==>
             TakesOriginalValue(once, original, i) == TakesOriginalValue(migrated, original, i);
    assert twice.value == once;
  }

  /** The legacy key-value entries as variables, none of them secret. */
  function KeyPairVariables(pairs: seq<(string, string)>): (vars: seq<EnvVar>)
    ensures |vars| == |pairs|
    ensures forall i :: 0 <= i < |pairs| ==> vars[i] == EnvVar(pairs[i].0, Some(pairs[i].1), false)
  {
    seq(|pairs|, i requires 0 <= i < |pairs| => EnvVar(pairs[i].0, Some(pairs[i].1), false))
  }

  /** `parseEnvsData` once the contents are read. `processEnv` holds the entries of `process.env`;
      the overrides built from it are computed as the source computes them, and left unused. */
  function ParseEnvsData(contents: EnvFileContents, processEnv: seq<(string, Option<string>)>)
    : (r: Result<HoppEnvs, EnvError>)
    ensures contents.isBulkExport ==> r == Failure(BulkEnvFile)
    ensures !contents.isBulkExport && contents.keyPairs.None? && contents.exportVariables.None? ==>
              r == Failure(MalformedEnvFile)
    ensures !contents.isBulkExport && contents.keyPairs.Some? ==>
              r.Success? && r.value.selected == KeyPairVariables(contents.keyPairs.value)
    ensures !contents.isBulkExport && contents.keyPairs.None? && contents.exportVariables.Some? ==>
              (match ResolveSecrets(contents.exportVariables.value, contents.originalVariables)
               case Success(vars) => r == Success(HoppEnvs([], vars))
               case Failure(e) => r == Failure(e))
    ensures r.Success? ==> r.value.global == []
  {
    if contents.isBulkExport then Failure(BulkEnvFile)
    else if contents.keyPairs.None? && contents.exportVariables.None? then Failure(MalformedEnvFile)
    else if contents.keyPairs.Some? then Success(HoppEnvs([], KeyPairVariables(contents.keyPairs.value)))
    else
      match ResolveSecrets(contents.exportVariables.value, contents.originalVariables)
      case Failure(e) => Failure(e)
      case Success(vars) =>
        // `finalEnvVariables`: computed from the process environment, then never read
        var finalEnvVariables := FinalEnvVariables(vars, HoppEnvVariables(processEnv));
        Success(HoppEnvs([], vars))
  }

  /** Every successful result selects exactly one variable per variable of the file, and only a
      file that is no bulk export and matches one of the two single formats succeeds. */
  lemma ParseEnvsDataShape(contents: EnvFileContents, processEnv: seq<(string, Option<string>)>)
    ensures var r := ParseEnvsData(contents, processEnv);
            r.Success? ==> !contents.isBulkExport && (contents.keyPairs.Some? || contents.exportVariables.Some?)
    ensures var r := ParseEnvsData(contents, processEnv);
            r.Success? && contents.keyPairs.Some? ==> |r.value.selected| == |contents.keyPairs.value|
    ensures var r := ParseEnvsData(contents, processEnv);
            r.Success? && contents.keyPairs.None? ==> |r.value.selected| == |contents.exportVariables.value|
  {
  }

  // ---------------------------------------------------------------------------------------
  // The `HOPP_COL_ENV` overrides, computed and then left unused

  const HoppEnvPrefix: string := "HOPP_COL_ENV"

  /** The override a prefixed process variable becomes: the first `HOPP_COL_ENV_` of its name
      removed, `value || ""` as its value, not secret. */
  function OverrideOf(entry: (string, Option<string>)): (v: EnvVar)
    ensures !v.secret && v.value == Some(entry.1.GetOr(""))
    ensures StartsWith(entry.0, HoppEnvPrefix + "_") ==> v.key == entry.0[|HoppEnvPrefix| + 1..]
    ensures !Includes(entry.0, HoppEnvPrefix + "_") ==> v.key == entry.0
    ensures Includes(entry.0, HoppEnvPrefix + "_") ==>
              exists i :: FirstOccurrence(entry.0, HoppEnvPrefix + "_", i)
                          && v.key == entry.0[..i] + entry.0[i + |HoppEnvPrefix| + 1..]
  {
    ReplaceFirstAtFirst(entry.0, HoppEnvPrefix + "_", "");
    EnvVar(ReplaceFirst(entry.0, HoppEnvPrefix + "_", ""), Some(entry.1.GetOr("")), false)
  }

  /** `hoppEnvVariables`: the process variables whose name starts with the prefix, in order, each
      as its override. */
  function HoppEnvVariables(processEnv: seq<(string, Option<string>)>): (vars: seq<EnvVar>)
    ensures |vars| <= |processEnv|
    ensures forall x :: x in vars <==>
              exists j :: 0 <= j < |processEnv| && StartsWith(processEnv[j].0, HoppEnvPrefix) && x == OverrideOf(processEnv[j])
  {
    if |processEnv| == 0 then []
    else
      var rest := HoppEnvVariables(processEnv[1..]);
      assert forall j :: 1 <= j < |processEnv| ==> processEnv[j] == processEnv[1..][j - 1];
      if StartsWith(processEnv[0].0, HoppEnvPrefix) then [OverrideOf(processEnv[0])] + rest
      else rest
  }

  /** Taking the overrides of two lists of process variables one after the other gives the
      overrides of the first list followed by those of the second. */
  lemma {:induction false} HoppEnvVariablesAppend(xs: seq<(string, Option<string>)>, ys: seq<(string, Option<string>)>)
    ensures HoppEnvVariables(xs + ys) == HoppEnvVariables(xs) + HoppEnvVariables(ys)
  {
    if |xs| > 0 {
      assert (xs + ys)[1..] == xs[1..] + ys;
      HoppEnvVariablesAppend(xs[1..], ys);
    } else {
      assert xs + ys == ys;
    }
  }

  /** The first override with the given key. */
  function FindByKey(vars: seq<EnvVar>, key: string): (r: Option<EnvVar>)
    ensures r.Some? ==> r.value in vars && r.value.key == key
    ensures r.Some? ==> exists k :: 0 <= k < |vars| && vars[k] == r.value && forall j :: 0 <= j < k ==> vars[j].key != key
    ensures r.None? ==> forall i :: 0 <= i < |vars| ==> vars[i].key != key
  {
    if |vars| == 0 then None
    else if vars[0].key == key then Some(vars[0])
    else
      var r := FindByKey(vars[1..], key);
      if r.Some? then
        var k :| 0 <= k < |vars[1..]| && vars[1..][k] == r.value && forall j :: 0 <= j < k ==> vars[1..][j].key != key;
        assert vars[k + 1] == r.value;
        assert forall j :: 1 <= j < k + 1 ==> vars[j] == vars[1..][j - 1];
        r
      else r
  }

  /** Some variable of `vars` has the key. */
  predicate HasKey(vars: seq<EnvVar>, key: string) {
    exists i :: 0 <= i < |vars| && vars[i].key == key
  }

  /** Each resolved variable replaced by the first override with its key. */
  function ReplaceByOverrides(resolved: seq<EnvVar>, overrides: seq<EnvVar>): (vars: seq<EnvVar>)
    ensures |vars| == |resolved|
    ensures forall i :: 0 <= i < |resolved| ==> vars[i] == FindByKey(overrides, resolved[i].key).GetOr(resolved[i])
  {
    seq(|resolved|, i requires 0 <= i < |resolved| => FindByKey(overrides, resolved[i].key).GetOr(resolved[i]))
  }

  /** `finalEnvVariables`: each resolved variable replaced by the first override with its key,
      then each override whose key is not there yet appended. */
  function FinalEnvVariables(resolved: seq<EnvVar>, overrides: seq<EnvVar>): (vars: seq<EnvVar>)
    ensures |vars| >= |resolved|
    ensures forall i :: 0 <= i < |resolved| ==> vars[i] == FindByKey(overrides, resolved[i].key).GetOr(resolved[i])
    ensures forall j :: 0 <= j < |overrides| ==> HasKey(vars, overrides[j].key)
    ensures forall k :: |resolved| <= k < |vars| ==> vars[k] in overrides && !HasKey(vars[..k], vars[k].key)
    ensures vars[|resolved|..] == MissingFrom(resolved, overrides, 0)
  {
    var replaced := ReplaceByOverrides(resolved, overrides);
    var r := AppendMissing(replaced, overrides);
    assert forall i :: 0 <= i < |resolved| ==> r[i] == r[..|replaced|][i];
    ReplacedKeys(resolved, overrides);
    MissingFromSameKeys(replaced, resolved, overrides, 0);
    r
  }

  /** The variable added to `vars` for the override `o`: none when its key is already there. */
  function WithOverride(vars: seq<EnvVar>, o: EnvVar): seq<EnvVar> {
    if HasKey(vars, o.key) then vars else vars + [o]
  }

  /** Each override whose key no variable has yet is appended, in order: the appended overrides
      are exactly those whose key neither `vars` nor an earlier override has, and none of them
      repeats a key present before it. */
  function AppendMissing(vars: seq<EnvVar>, overrides: seq<EnvVar>): (r: seq<EnvVar>)
    ensures |r| >= |vars| && r[..|vars|] == vars
    ensures forall j :: 0 <= j < |overrides| ==> HasKey(r, overrides[j].key)
    ensures forall k :: |vars| <= k < |r| ==> r[k] in overrides && !HasKey(r[..k], r[k].key)
    ensures r[|vars|..] == MissingFrom(vars, overrides, 0)
    decreases |overrides|
  {
    if |overrides| == 0 then vars
    else
      var r := AppendMissing(WithOverride(vars, overrides[0]), overrides[1..]);
      AppendedKeys(vars, overrides, r);
      AppendedFresh(vars, overrides, r);
      AppendedTail(vars, overrides, r);
      r
  }

  /** The first step of `AppendMissing` keeps `vars` in front and makes every key present. */
  lemma AppendedKeys(vars: seq<EnvVar>, overrides: seq<EnvVar>, r: seq<EnvVar>)
    requires |overrides| > 0
    requires var next := WithOverride(vars, overrides[0]);
             |r| >= |next| && r[..|next|] == next
    requires forall j :: 0 <= j < |overrides[1..]| ==> HasKey(r, overrides[1..][j].key)
    ensures |r| >= |vars| && r[..|vars|] == vars
    ensures forall j :: 0 <= j < |overrides| ==> HasKey(r, overrides[j].key)
  {
    var next := WithOverride(vars, overrides[0]);
    assert r[..|vars|] == r[..|next|][..|vars|];
    assert HasKey(next, overrides[0].key) by {
      if !HasKey(vars, overrides[0].key) {
        assert next[|vars|].key == overrides[0].key;
      }
    }
    assert HasKey(r, overrides[0].key) by {
      var i :| 0 <= i < |next| && next[i].key == overrides[0].key;
      assert r[i] == r[..|next|][i];
    }
    assert forall j :: 1 <= j < |overrides| ==> overrides[j] == overrides[1..][j - 1];
  }

  /** The first step of `AppendMissing` appends only overrides whose key is not there yet. */
  lemma AppendedFresh(vars: seq<EnvVar>, overrides: seq<EnvVar>, r: seq<EnvVar>)
    requires |overrides| > 0
    requires var next := WithOverride(vars, overrides[0]);
             |r| >= |next| && r[..|next|] == next
    requires var next := WithOverride(vars, overrides[0]);
             forall k :: |next| <= k < |r| ==> r[k] in overrides[1..] && !HasKey(r[..k], r[k].key)
    ensures forall k :: |vars| <= k < |r| ==> r[k] in overrides && !HasKey(r[..k], r[k].key)
  {
    var next := WithOverride(vars, overrides[0]);
    if !HasKey(vars, overrides[0].key) {
      assert r[|vars|] == r[..|next|][|vars|];
      assert r[..|vars|] == r[..|next|][..|vars|];
    }
  }

  /** The tail `AppendMissing` adds, built from the first step and the rest. */
  lemma AppendedTail(vars: seq<EnvVar>, overrides: seq<EnvVar>, r: seq<EnvVar>)
    requires |overrides| > 0
    requires var next := WithOverride(vars, overrides[0]);
             |r| >= |next| && r[..|next|] == next && r[|next|..] == MissingFrom(next, overrides[1..], 0)
    ensures r[|vars|..] == MissingFrom(vars, overrides, 0)
  {
    var next := WithOverride(vars, overrides[0]);
    MissingShift(vars, overrides, 0);
    assert overrides[..0] == [];
    assert !HasKey([], overrides[0].key);
    if HasKey(vars, overrides[0].key) {
      assert !FirstMissing(vars, overrides, 0);
    } else {
      assert FirstMissing(vars, overrides, 0);
      assert r[|vars|..] == [overrides[0]] + r[|next|..];
    }
  }

  /** The override at `j` is appended: neither `vars` nor an earlier override has its key. */
  predicate FirstMissing(vars: seq<EnvVar>, overrides: seq<EnvVar>, j: nat)
    requires j < |overrides|
  {
    !HasKey(vars, overrides[j].key) && !HasKey(overrides[..j], overrides[j].key)
  }

  /** The overrides from index `k` on that are appended, in order. */
  function MissingFrom(vars: seq<EnvVar>, overrides: seq<EnvVar>, k: nat): seq<EnvVar>
    decreases |overrides| - k
  {
    if k >= |overrides| then []
    else (if FirstMissing(vars, overrides, k) then [overrides[k]] else []) + MissingFrom(vars, overrides, k + 1)
  }

  /** A key is in a concatenation exactly when it is in one of the parts. */
  lemma HasKeyAppend(a: seq<EnvVar>, b: seq<EnvVar>, key: string)
    ensures HasKey(a + b, key) <==> HasKey(a, key) || HasKey(b, key)
  {
    if HasKey(a + b, key) {
      var i :| 0 <= i < |a + b| && (a + b)[i].key == key;
      if i < |a| {
        assert a[i] == (a + b)[i];
      } else {
        assert b[i - |a|] == (a + b)[i];
      }
    }
    if HasKey(a, key) {
      var i :| 0 <= i < |a| && a[i].key == key;
      assert (a + b)[i] == a[i];
    }
    if HasKey(b, key) {
      var i :| 0 <= i < |b| && b[i].key == key;
      assert (a + b)[|a| + i] == b[i];
    }
  }

  /** After the first override has been dealt with, the rest decide alike. */
  lemma FirstMissingShift(vars: seq<EnvVar>, overrides: seq<EnvVar>, k: nat)
    requires k + 1 < |overrides|
    ensures FirstMissing(WithOverride(vars, overrides[0]), overrides[1..], k) == FirstMissing(vars, overrides, k + 1)
  {
    var o := overrides[0];
    var key := overrides[k + 1].key;
    assert overrides[1..][k] == overrides[k + 1];
    assert overrides[..k + 1] == [o] + overrides[1..][..k];
    HasKeyAppend([o], overrides[1..][..k], key);
    HasKeyAppend(vars, [o], key);
    assert HasKey([o], key) <==> o.key == key by {
      if o.key == key {
        assert [o][0].key == key;
      }
    }
  }

  lemma {:induction false} MissingShift(vars: seq<EnvVar>, overrides: seq<EnvVar>, k: nat)
    requires 0 < |overrides|
    ensures MissingFrom(WithOverride(vars, overrides[0]), overrides[1..], k) == MissingFrom(vars, overrides, k + 1)
    decreases |overrides| - k
  {
    var next := WithOverride(vars, overrides[0]);
    var rest := overrides[1..];
    if k + 1 < |overrides| {
      FirstMissingShift(vars, overrides, k);
      MissingShift(vars, overrides, k + 1);
      assert rest[k] == overrides[k + 1];
      var head := if FirstMissing(vars, overrides, k + 1) then [overrides[k + 1]] else [];
      assert MissingFrom(next, rest, k) == head + MissingFrom(next, rest, k + 1);
      assert MissingFrom(vars, overrides, k + 1) == head + MissingFrom(vars, overrides, k + 2);
    } else {
      assert MissingFrom(next, rest, k) == [];
      assert MissingFrom(vars, overrides, k + 1) == [];
    }
  }

  /** Replacing variables by overrides of the same key keeps the keys. */
  lemma ReplacedKeys(resolved: seq<EnvVar>, overrides: seq<EnvVar>)
    ensures forall key :: HasKey(ReplaceByOverrides(resolved, overrides), key) <==> HasKey(resolved, key)
  {
    var replaced := ReplaceByOverrides(resolved, overrides);
    assert forall i :: 0 <= i < |resolved| ==> replaced[i].key == resolved[i].key;
  }

  /** Which overrides are appended depends only on the keys present. */
  lemma {:induction false} MissingFromSameKeys(a: seq<EnvVar>, b: seq<EnvVar>, overrides: seq<EnvVar>, k: nat)
    requires forall key :: HasKey(a, key) <==> HasKey(b, key)
    ensures MissingFrom(a, overrides, k) == MissingFrom(b, overrides, k)
    decreases |overrides| - k
  {
    if k < |overrides| {
      assert FirstMissing(a, overrides, k) == FirstMissing(b, overrides, k);
      MissingFromSameKeys(a, b, overrides, k + 1);
    }
  }

  /** The `HOPP_COL_ENV_` process variables never reach the result: two process environments give
      the same result for the same file. */
  lemma ProcessEnvIgnored(contents: EnvFileContents, env1: seq<(string, Option<string>)>, env2: seq<(string, Option<string>)>)
    ensures ParseEnvsData(contents, env1) == ParseEnvsData(contents, env2)
  {
  }
}
