/** `utils::migrate`: bringing the shim binaries in the bin directory up to the current
    schema. The stored schema number decides which step runs; each step is a list of
    file operations run in order, stopping at the first failure, and saving the schema
    number last. Which operations fail is a parameter. */
module Migrate {
  import opened Wrappers
  import opened Strings

  const CurrentMigrationVersion := 13
  const NodeDefaultExecute := ["node", "npm", "npx", "corepack"]

  /** `str::parse::<i16>`: an optional sign, at least one digit, and a value in range. */
  function ParseI16(s: string): (r: Option<int>)
    ensures r.Some? ==> -32768 <= r.value <= 32767
  {
    var signed := |s| > 0 && (s[0] == '+' || s[0] == '-');
    var digits := if signed then s[1..] else s;
    if |digits| == 0 || !AllDigits(digits) then None
    else
      var magnitude: int := DigitsValue(digits);
      var value: int := if signed && s[0] == '-' then -magnitude else magnitude;
      if -32768 <= value <= 32767 then Some(value) else None
  }

  /** `i16::to_string` followed by `parse` gives the number back, for the numbers the
      app stores. */
  lemma ParseShown(n: nat)
    requires n <= 32767
    ensures ParseI16(NatToString(n)) == Some(n)
  {
    NatToStringIsNumeral(n);
    var s := NatToString(n);
    assert s[0] != '+' && s[0] != '-' by { assert IsDigit(s[0]); }
  }

  /** `get_schema_version`: an unreadable or unparsable file reads as 0. */
  function SchemaVersion(file: Result<string>): (v: int)
    ensures file.Err? ==> v == 0
    ensures file.Ok? && ParseI16(file.value).None? ==> v == 0
    ensures file.Ok? && ParseI16(file.value).Some? ==> v == ParseI16(file.value).value
  {
    if file.Err? then 0 else ParseI16(file.value).UnwrapOr(0)
  }

  datatype Step = Basic | ToLast

  /** `update_schema`'s decision: schema 0 runs only the basic step (the number is then
      taken as current), any other number below the current one runs the last step. */
  function Plan(v: int): (steps: seq<Step>)
    ensures v == 0 ==> steps == [Basic]
    ensures v != 0 && v < CurrentMigrationVersion ==> steps == [ToLast]
    ensures v >= CurrentMigrationVersion ==> steps == []
  {
    var afterBasic := if v == 0 then CurrentMigrationVersion else v;
    (if v == 0 then [Basic] else []) + (if afterBasic < CurrentMigrationVersion then [ToLast] else [])
  }

  datatype Op = CreateDirAll(path: string) | Copy(from: string, to: string) | Symlink(target: string, link: string)
              | SaveSchema(version: int)

  /** `ensure_bin_path_exists`. */
  function EnsureBin(bin: string, binExists: bool): seq<Op>
  {
    if binExists then [] else [CreateDirAll(bin)]
  }

  /** The Unix basic step: the shim is copied in and each default executable is a link to it. */
  function UnixBasic(res: string, bin: string, binExists: bool): seq<Op>
  {
    EnsureBin(bin, binExists) + [Copy(res + "/nvmd", bin + "/nvmd")]
      + seq(|NodeDefaultExecute|, i requires 0 <= i < |NodeDefaultExecute| => Symlink(bin + "/nvmd", bin + "/" + NodeDefaultExecute[i]))
      + [SaveSchema(CurrentMigrationVersion)]
  }

  /** The Windows copies for each default executable: `<name>.exe`, and `<name>.cmd`
      for all but `node`. */
  function WindowsShims(res: string, bin: string, names: seq<string>): seq<Op>
    decreases |names|
  {
    if names == [] then []
    else
      var name := names[0];
      [Copy(res + "/nvmd.exe", bin + "/" + name + ".exe")]
        + (if name != "node" then [Copy(res + "/temp.cmd", bin + "/" + name + ".cmd")] else [])
        + WindowsShims(res, bin, names[1..])
  }

  function WindowsBasic(res: string, bin: string, binExists: bool): seq<Op>
  {
    EnsureBin(bin, binExists) + [Copy(res + "/nvmd.exe", bin + "/nvmd.exe")]
      + WindowsShims(res, bin, NodeDefaultExecute) + [SaveSchema(CurrentMigrationVersion)]
  }

  function UnixLast(res: string, bin: string, binExists: bool): seq<Op>
  {
    EnsureBin(bin, binExists) + [Copy(res + "/nvmd", bin + "/nvmd"), SaveSchema(CurrentMigrationVersion)]
  }

  /** `path.extension() == Some("exe")` for an entry of the bin directory. */
  predicate IsExe(name: string)
  {
    |name| > 4 && name[|name| - 4..] == ".exe"
  }

  /** One copy of the new shim over each `*.exe` entry. */
  function ExeCopies(res: string, bin: string, entries: seq<string>): (ops: seq<Op>)
    decreases |entries|
  {
    if entries == [] then []
    else
      var head := if IsExe(entries[0]) then [Copy(res + "/nvmd.exe", bin + "/" + entries[0])] else [];
      head + ExeCopies(res, bin, entries[1..])
  }

  /** The Windows last step; `entries` is the bin directory's listing after the first copy. */
  function WindowsLast(res: string, bin: string, binExists: bool, entries: seq<string>): seq<Op>
  {
    EnsureBin(bin, binExists) + [Copy(res + "/nvmd.exe", bin + "/nvmd.exe")]
      + ExeCopies(res, bin, entries) + [SaveSchema(CurrentMigrationVersion)]
  }

  /** An `*.exe` entry is overwritten, and nothing else in the bin directory is touched. */
  lemma {:induction false} ExeCopiesExactly(res: string, bin: string, entries: seq<string>, name: string)
    ensures Copy(res + "/nvmd.exe", bin + "/" + name) in ExeCopies(res, bin, entries) <==> name in entries && IsExe(name)
    ensures forall op :: op in ExeCopies(res, bin, entries) ==> op.Copy? && op.from == res + "/nvmd.exe"
    decreases |entries|
  {
    if entries != [] {
      ExeCopiesExactly(res, bin, entries[1..], name);
      var e := entries[0];
      if e != name {
        assert (bin + "/" + name)[|bin| + 1..] == name;
        assert (bin + "/" + e)[|bin| + 1..] == e;
      }
    }
  }

  /** The Windows basic step writes 1 + 4 executables and 3 command scripts. */
  lemma WindowsBasicCounts(res: string, bin: string)
    ensures |WindowsShims(res, bin, NodeDefaultExecute)| == 7
    ensures Copy(res + "/temp.cmd", bin + "/node.cmd") !in WindowsShims(res, bin, NodeDefaultExecute)
  {
    var ns := NodeDefaultExecute;
    assert ns[1..] == ["npm", "npx", "corepack"];
    assert ns[1..][1..] == ["npx", "corepack"];
    assert ns[1..][1..][1..] == ["corepack"];
    assert ns[1..][1..][1..][1..] == [];
    assert (res + "/temp.cmd")[|res| + 1] == 't' && (res + "/nvmd.exe")[|res| + 1] == 'n';
    var node := bin + "/node.cmd";
    assert node[|bin| + 2] == 'o';
    assert (bin + "/npm.cmd")[|bin| + 2] == 'p';
    assert (bin + "/npx.cmd")[|bin| + 2] == 'p';
    assert (bin + "/corepack.cmd")[|bin| + 2] == 'o' && (bin + "/corepack.cmd")[|bin| + 3] == 'r';
    assert node[|bin| + 3] == 'd';
  }

  /** Running operations in order until one fails: the status and how many completed. */
  function Run(ops: seq<Op>, fails: map<Op, string>): (r: (Status, nat))
    ensures r.1 <= |ops|
    ensures forall i :: 0 <= i < r.1 ==> ops[i] !in fails
    ensures r.0.Done? <==> r.1 == |ops|
    ensures r.0.Failed? ==> ops[r.1] in fails && r.0.error == fails[ops[r.1]]
    decreases |ops|
  {
    if ops == [] then (Done, 0)
    else if ops[0] in fails then (Failed(fails[ops[0]]), 0)
    else var (s, n) := Run(ops[1..], fails); (s, n + 1)
  }

  /** The `?`-chained body of a step. */
  method RunOps(ops: seq<Op>, fails: map<Op, string>) returns (r: Status, completed: nat)
    ensures (r, completed) == Run(ops, fails)
  {
    var i := 0;
    while i < |ops|
      invariant 0 <= i <= |ops|
      invariant Run(ops, fails) == (var (s, n) := Run(ops[i..], fails); (s, n + i))
    {
      assert ops[i..][1..] == ops[i + 1..];
      if ops[i] in fails {
        return Failed(fails[ops[i]]), i;
      }
      i := i + 1;
    }
    return Done, i;
  }

  /** A step whose last operation saves the schema stores it only when every other
      operation of the step succeeded. */
  lemma SavedOnlyAfterAll(ops: seq<Op>, fails: map<Op, string>)
    requires |ops| > 0 && ops[|ops| - 1].SaveSchema?
    ensures Run(ops, fails).1 > |ops| - 1 <==> Run(ops, fails).0.Done?
    ensures Run(ops, fails).0.Done? ==> forall i :: 0 <= i < |ops| ==> ops[i] !in fails
  {
  }

  /** The schema is saved by the last operation and by no other. */
  predicate SavesLast(ops: seq<Op>)
  {
    && |ops| > 0 && ops[|ops| - 1] == SaveSchema(CurrentMigrationVersion)
    && forall i :: 0 <= i < |ops| - 1 ==> !ops[i].SaveSchema?
  }

  /** A body without a save, followed by the save, saves last. */
  lemma AppendSave(body: seq<Op>)
    requires forall op :: op in body ==> !op.SaveSchema?
    ensures SavesLast(body + [SaveSchema(CurrentMigrationVersion)])
  {
    var w := body + [SaveSchema(CurrentMigrationVersion)];
    forall i | 0 <= i < |w| - 1 ensures !w[i].SaveSchema? {
      assert w[i] == body[i];
    }
  }

  /** Every step ends with saving the current schema and saves nowhere else. */
  lemma StepsSaveLast(res: string, bin: string, binExists: bool, entries: seq<string>)
    ensures SavesLast(UnixBasic(res, bin, binExists))
    ensures SavesLast(WindowsBasic(res, bin, binExists))
    ensures SavesLast(UnixLast(res, bin, binExists))
    ensures SavesLast(WindowsLast(res, bin, binExists, entries))
  {
    var ensure := EnsureBin(bin, binExists);
    var links := seq(|NodeDefaultExecute|, i requires 0 <= i < |NodeDefaultExecute| => Symlink(bin + "/nvmd", bin + "/" + NodeDefaultExecute[i]));
    AppendSave(ensure + [Copy(res + "/nvmd", bin + "/nvmd")] + links);
    assert UnixBasic(res, bin, binExists) == ensure + [Copy(res + "/nvmd", bin + "/nvmd")] + links + [SaveSchema(CurrentMigrationVersion)];
    ShimsNoSave(res, bin, NodeDefaultExecute);
    AppendSave(ensure + [Copy(res + "/nvmd.exe", bin + "/nvmd.exe")] + WindowsShims(res, bin, NodeDefaultExecute));
    AppendSave(ensure + [Copy(res + "/nvmd", bin + "/nvmd")]);
    assert UnixLast(res, bin, binExists) == ensure + [Copy(res + "/nvmd", bin + "/nvmd")] + [SaveSchema(CurrentMigrationVersion)];
    ExeCopiesExactly(res, bin, entries, "");
    AppendSave(ensure + [Copy(res + "/nvmd.exe", bin + "/nvmd.exe")] + ExeCopies(res, bin, entries));
  }

  lemma {:induction false} ShimsNoSave(res: string, bin: string, names: seq<string>)
    ensures forall op :: op in WindowsShims(res, bin, names) ==> op.Copy?
    decreases |names|
  {
    if names != [] {
      ShimsNoSave(res, bin, names[1..]);
    }
  }

  /** `update_schema`: reads the stored number, runs the planned steps in order (a failing
      step ends the migration) and returns the status and the schema stored afterwards. */
  function UpdateSchema(file: Result<string>, basic: seq<Op>, last: seq<Op>, fails: map<Op, string>): (r: (Status, int))
  {
    var v := SchemaVersion(file);
    var plan := Plan(v);
    if plan == [] then (Done, v)
    else
      var ops := if plan[0].Basic? then basic else last;
      var (s, _) := Run(ops, fails);
      (s, if s.Done? then CurrentMigrationVersion else v)
  }

  /** On every platform: a missing or unreadable number runs the basic step only, a stale
      one (negative included) the last step only, and a current one nothing; the stored
      number becomes current exactly when the step ran through. */
  lemma UpdateSchemaOutcome(file: Result<string>, res: string, bin: string, binExists: bool, entries: seq<string>,
                            windows: bool, fails: map<Op, string>)
    ensures var basic := if windows then WindowsBasic(res, bin, binExists) else UnixBasic(res, bin, binExists);
      var last := if windows then WindowsLast(res, bin, binExists, entries) else UnixLast(res, bin, binExists);
      var v := SchemaVersion(file);
      var (s, stored) := UpdateSchema(file, basic, last, fails);
      && (v >= CurrentMigrationVersion ==> s == Done && stored == v)
      && (v == 0 ==> s == Run(basic, fails).0)
      && (v != 0 && v < CurrentMigrationVersion ==> s == Run(last, fails).0)
      && (v < CurrentMigrationVersion ==> (stored == CurrentMigrationVersion <==> s.Done?) && (s.Failed? ==> stored == v))
  {
    var basic := if windows then WindowsBasic(res, bin, binExists) else UnixBasic(res, bin, binExists);
    var last := if windows then WindowsLast(res, bin, binExists, entries) else UnixLast(res, bin, binExists);
    PlannedOutcome(file, basic, last, fails);
  }

  /** The outcome of `update_schema` for any two steps. */
  lemma PlannedOutcome(file: Result<string>, basic: seq<Op>, last: seq<Op>, fails: map<Op, string>)
    ensures var v := SchemaVersion(file);
      var (s, stored) := UpdateSchema(file, basic, last, fails);
      && (v >= CurrentMigrationVersion ==> s == Done && stored == v)
      && (v == 0 ==> s == Run(basic, fails).0)
      && (v != 0 && v < CurrentMigrationVersion ==> s == Run(last, fails).0)
      && (v < CurrentMigrationVersion ==> (stored == CurrentMigrationVersion <==> s.Done?) && (s.Failed? ==> stored == v))
  {
  }
}
