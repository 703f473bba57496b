/** `src/main/utils/migration.ts`: the Electron back end's schema migration. The stored
    number picks the steps; each step is a list of file operations, some of whose errors
    are caught and ignored. Which operations fail is a parameter, as are the platform,
    the application paths and the bin directory's listing. */
module ElectronMigration {
  import opened Wrappers
  import Strings
  import Migrate

  const CurrentMigrationVersion := 12
  const UpdateFailed := 408
  const NodeDefaultExecute := ["node", "npm", "npx", "corepack"]

  /** A JavaScript number as the guards see it. */
  datatype Num = NaN | Int(n: int)

  /** `Number(text)` for decimal integers: surrounding white space is ignored. */
  function NumberOf(s: string): Num
  {
    NumberOfTrimmed(Strings.Trim(s))
  }

  /** `Number` of a text without surrounding white space: "" is 0; then an optional
      sign and digits; anything else is NaN. */
  function NumberOfTrimmed(t: string): (r: Num)
    ensures t == "" ==> r == Int(0)
    ensures t != "" && t[0] != '+' && t[0] != '-' && !Strings.AllDigits(t) ==> r == NaN
    ensures t != "" && Strings.AllDigits(t) ==> r == Int(Strings.DigitsValue(t))
    ensures |t| > 1 && (t[0] == '+' || t[0] == '-') ==>
      r == if Strings.AllDigits(t[1..]) then Int(if t[0] == '-' then -(Strings.DigitsValue(t[1..]) as int) else Strings.DigitsValue(t[1..]))
           else NaN
  {
    if t == "" then Int(0)
    else if (t[0] == '+' || t[0] == '-') && |t| > 1 && Strings.AllDigits(t[1..]) then
      var k: int := Strings.DigitsValue(t[1..]);
      Int(if t[0] == '-' then -k else k)
    else if Strings.AllDigits(t) then Int(Strings.DigitsValue(t))
    else NaN
  }

  /** A stored number reads back as itself. */
  lemma NumberOfShown(n: nat)
    ensures NumberOf(Strings.NatToString(n)) == Int(n)
  {
    Strings.NatToStringIsNumeral(n);
    NumberOfNumeral(Strings.NatToString(n));
  }

  /** A decimal numeral is read as its value. */
  lemma NumberOfNumeral(s: string)
    requires Strings.IsNumeral(s)
    ensures NumberOf(s) == Int(Strings.DigitsValue(s))
  {
    assert Strings.Trim(s) == s by {
      assert Strings.IsDigit(s[0]) && Strings.IsDigit(s[|s| - 1]);
      Strings.TrimNoSpace(s);
    }
  }

  /** `getSchemaVersion`: 0 for a missing or empty file, else `Number` of its text. */
  function SchemaVersion(file: Option<string>): (v: Num)
    ensures file.None? || file == Some("") ==> v == Int(0)
    ensures file.Some? ==> v == NumberOf(file.value)
  {
    if file.None? || file.value == "" then Int(0) else NumberOf(file.value)
  }

  /** `version >= k`: false for NaN. */
  predicate AtLeast(v: Num, k: int)
  {
    v.Int? && v.n >= k
  }

  /** The guard of the default step. */
  predicate RunsDefault(v: Num) { !AtLeast(v, 1) }

  /** The guard of the last step. */
  predicate RunsLast(v: Num) { !AtLeast(v, CurrentMigrationVersion) }

  /** Which steps run for each stored version: from NaN or anything below 1 both, from 1
      to 11 only the last, from 12 on neither. */
  lemma GuardsFor(v: Num)
    ensures v.NaN? ==> RunsDefault(v) && RunsLast(v)
    ensures v.Int? && v.n < 1 ==> RunsDefault(v) && RunsLast(v)
    ensures v.Int? && 1 <= v.n < CurrentMigrationVersion ==> !RunsDefault(v) && RunsLast(v)
    ensures v.Int? && v.n >= CurrentMigrationVersion ==> !RunsDefault(v) && !RunsLast(v)
  {
  }

  /** Text that is not a number runs both steps. */
  lemma GarbageRunsBoth(s: string)
    requires var t := Strings.Trim(s); t != "" && t[0] != '+' && t[0] != '-' && !Strings.AllDigits(t)
    ensures RunsDefault(SchemaVersion(Some(s))) && RunsLast(SchemaVersion(Some(s)))
  {
  }

  /** The two back ends fall through differently: from schema 0 the Rust one runs one
      step and the Electron one both; a stored 12 is current here but stale there. */
  lemma TargetsDiffer()
    ensures Migrate.Plan(0) == [Migrate.Basic] && RunsDefault(Int(0)) && RunsLast(Int(0))
    ensures Migrate.Plan(12) == [Migrate.ToLast] && !RunsDefault(Int(12)) && !RunsLast(Int(12))
  {
  }

  datatype Op = SetPath | Copy(from: string, to: string) | Remove(path: string) | Symlink(target: string, link: string)
              | ReadBin | SaveSchema(version: int)

  /** An operation of a step, and whether its error is caught and ignored. */
  datatype Action = Action(op: Op, caught: bool)

  /** The application's directories: `~/.nvmd`, its `bin` and the bundled sources. */
  datatype Paths = Paths(appDir: string, bin: string, sources: string)

  /** Saving the schema: the write is not awaited and its error only logged. */
  const Save := Action(SaveSchema(CurrentMigrationVersion), true)

  /** The Windows shims: an `.exe` per name and a `.cmd` for all but node, each copy
      throwing on error. */
  function Shims(exe: string, cmd: string, bin: string, names: seq<string>): seq<Action>
    decreases |names|
  {
    if names == [] then []
    else
      [Action(Copy(exe, bin + "/" + names[0] + ".exe"), false)]
      + (if names[0] != "node" then [Action(Copy(cmd, bin + "/" + names[0] + ".cmd"), false)] else [])
      + Shims(exe, cmd, bin, names[1..])
  }

  /** The default step on Windows: `setx` (which never rejects), the nvmd shim, the
      command shims, the save. */
  function DefaultWindows(p: Paths, arch: string): seq<Action>
  {
    var exe := p.sources + "/" + arch + ".exe";
    [Action(SetPath, true), Action(Copy(exe, p.bin + "/nvmd.exe"), false)]
      + Shims(exe, p.sources + "/temp.cmd", p.bin, NodeDefaultExecute) + [Save]
  }

  /** The symlinks of the four commands to nvmd, each error ignored. */
  function Links(bin: string, names: seq<string>): (r: seq<Action>)
    ensures |r| == |names|
    ensures forall i :: 0 <= i < |r| ==> r[i] == Action(Symlink(bin + "/nvmd", bin + "/" + names[i]), true)
  {
    seq(|names|, i requires 0 <= i < |names| => Action(Symlink(bin + "/nvmd", bin + "/" + names[i]), true))
  }

  /** The default step elsewhere: the old shell files go when present (a failed removal
      throws), then the copy of nvmd and the symlinks, whose errors are ignored, then the
      save. */
  function DefaultUnix(p: Paths, shellExists: bool, scriptExists: bool): seq<Action>
  {
    (if shellExists then [Action(Remove(p.appDir + "/shell"), false)] else [])
      + (if scriptExists then [Action(Remove(p.appDir + "/nvmd.sh"), false)] else [])
      + [Action(Copy(p.sources + "/nvmd", p.bin + "/nvmd"), true)]
      + Links(p.bin, NodeDefaultExecute) + [Save]
  }

  /** The last step elsewhere: the copy of nvmd (error ignored), then the save. */
  function LastUnix(p: Paths): seq<Action>
  {
    [Action(Copy(p.sources + "/nvmd", p.bin + "/nvmd"), true), Save]
  }

  /** `name.endsWith(".exe")`. */
  predicate EndsWithExe(name: string)
  {
    |name| >= 4 && name[|name| - 4..] == ".exe"
  }

  /** A copy of the new shim over each `.exe` entry of the bin directory. */
  function ExeCopies(exe: string, bin: string, entries: seq<string>): (r: seq<Action>)
    ensures forall a :: a in r ==> !a.caught && a.op.Copy? && a.op.from == exe
    decreases |entries|
  {
    if entries == [] then []
    else
      (if EndsWithExe(entries[0]) then [Action(Copy(exe, bin + "/" + entries[0]), false)] else [])
      + ExeCopies(exe, bin, entries[1..])
  }

  /** Exactly the `.exe` entries are overwritten. */
  lemma {:induction false} ExeCopiesExactly(exe: string, bin: string, entries: seq<string>, name: string)
    ensures Action(Copy(exe, bin + "/" + name), false) in ExeCopies(exe, bin, entries)
      <==> name in entries && EndsWithExe(name)
    decreases |entries|
  {
    if entries != [] {
      ExeCopiesExactly(exe, bin, entries[1..], name);
      if bin + "/" + entries[0] == bin + "/" + name {
        assert entries[0] == (bin + "/" + name)[|bin| + 1..];
      }
    }
  }

  /** The last step on Windows: the nvmd shim, the listing of the bin directory, a copy
      over every `.exe` in it, all throwing on error; then the save. `entries` is the
      listing. */
  function LastWindows(p: Paths, arch: string, entries: seq<string>): seq<Action>
  {
    var exe := p.sources + "/" + arch + ".exe";
    [Action(Copy(exe, p.bin + "/nvmd.exe"), false), Action(ReadBin, false)] + ExeCopies(exe, p.bin, entries) + [Save]
  }

  /** Running a step: the status and the operations that took effect. A caught failure
      is skipped; any other ends the step. */
  function Run(actions: seq<Action>, fails: map<Op, string>): (r: (Status, seq<Op>))
    ensures forall op :: op in r.1 ==> op !in fails
    ensures |r.1| <= |actions|
    decreases |actions|
  {
    if actions == [] then (Done, [])
    else
      var a := actions[0];
      if a.op in fails && !a.caught then (Failed(fails[a.op]), [])
      else
        var (s, done) := Run(actions[1..], fails);
        if a.op in fails then (s, done) else (s, [a.op] + done)
  }

  /** Running a step action by action. */
  method RunStep(actions: seq<Action>, fails: map<Op, string>) returns (s: Status, done: seq<Op>)
    ensures (s, done) == Run(actions, fails)
  {
    done := [];
    var i := 0;
    assert actions[0..] == actions;
    while i < |actions|
      invariant 0 <= i <= |actions|
      invariant Run(actions, fails).0 == Run(actions[i..], fails).0
      invariant Run(actions, fails).1 == done + Run(actions[i..], fails).1
    {
      assert actions[i..][1..] == actions[i + 1..];
      var a := actions[i];
      if a.op in fails && !a.caught {
        assert Run(actions[i..], fails) == (Failed(fails[a.op]), []);
        assert done + [] == done;
        return Failed(fails[a.op]), done;
      }
      if a.op !in fails {
        done := done + [a.op];
      }
      i := i + 1;
    }
    assert Run(actions[i..], fails) == (Done, []) by {
      assert actions[i..] == [];
    }
    assert done + [] == done;
    return Done, done;
  }

  /** A step whose failing operations are all caught runs through, and what takes effect
      is every operation that did not fail, in order. */
  lemma {:induction false} CaughtRunsThrough(actions: seq<Action>, fails: map<Op, string>)
    requires forall i :: 0 <= i < |actions| && actions[i].op in fails ==> actions[i].caught
    ensures Run(actions, fails).0 == Done
    ensures forall i :: 0 <= i < |actions| && actions[i].op !in fails ==> actions[i].op in Run(actions, fails).1
    decreases |actions|
  {
    if actions != [] {
      CaughtRunsThrough(actions[1..], fails);
      forall i | 1 <= i < |actions| && actions[i].op !in fails
        ensures actions[i].op in Run(actions, fails).1
      {
        assert actions[1..][i - 1] == actions[i];
      }
    }
  }

  /** A step that runs through has attempted its final save; the save takes effect
      unless its write fails. */
  lemma {:induction false} RunThroughSaves(actions: seq<Action>, fails: map<Op, string>)
    requires |actions| > 0 && actions[|actions| - 1] == Save
    requires Run(actions, fails).0 == Done
    requires Save.op !in fails
    ensures Save.op in Run(actions, fails).1
    decreases |actions|
  {
    if |actions| > 1 {
      var a := actions[0];
      assert actions[1..][|actions| - 2] == Save;
      RunThroughSaves(actions[1..], fails);
    }
  }

  /** `updateSchema`: both steps get the number read at the start; a step that throws
      ends the migration with 408, success gives no code. Returns the code and the
      operations that took effect. */
  function UpdateSchema(file: Option<string>, windows: bool, p: Paths, arch: string, shellExists: bool,
                        scriptExists: bool, entries: seq<string>, fails: map<Op, string>): (r: (Option<int>, seq<Op>))
  {
    var v := SchemaVersion(file);
    var (s1, done1) := Run(FirstStep(v, windows, p, arch, shellExists, scriptExists), fails);
    if s1.Failed? then (Some(UpdateFailed), done1)
    else
      var (s2, done2) := Run(SecondStep(v, windows, p, arch, entries), fails);
      (if s2.Failed? then Some(UpdateFailed) else None, done1 + done2)
  }

  /** The default step when the stored number calls for it, for the platform. */
  function FirstStep(v: Num, windows: bool, p: Paths, arch: string, shellExists: bool, scriptExists: bool): seq<Action>
  {
    if !RunsDefault(v) then [] else if windows then DefaultWindows(p, arch) else DefaultUnix(p, shellExists, scriptExists)
  }

  /** The last step when the stored number calls for it, for the platform. */
  function SecondStep(v: Num, windows: bool, p: Paths, arch: string, entries: seq<string>): seq<Action>
  {
    if !RunsLast(v) then [] else if windows then LastWindows(p, arch, entries) else LastUnix(p)
  }

  /** Some operation of the step fails without its error being caught. */
  predicate Uncaught(actions: seq<Action>, fails: map<Op, string>)
  {
    exists i :: 0 <= i < |actions| && actions[i].op in fails && !actions[i].caught
  }

  /** A step fails exactly when one of its operations fails uncaught. */
  lemma {:induction false} RunFailsIff(actions: seq<Action>, fails: map<Op, string>)
    ensures Run(actions, fails).0.Failed? <==> Uncaught(actions, fails)
    decreases |actions|
  {
    if actions != [] {
      var a := actions[0];
      if a.op in fails && !a.caught {
        assert actions[0].op in fails && !actions[0].caught;
      } else {
        RunFailsIff(actions[1..], fails);
        if Uncaught(actions[1..], fails) {
          var i :| 0 <= i < |actions[1..]| && actions[1..][i].op in fails && !actions[1..][i].caught;
          assert actions[i + 1] == actions[1..][i];
        }
        if Uncaught(actions, fails) {
          var i :| 0 <= i < |actions| && actions[i].op in fails && !actions[i].caught;
          assert i > 0 && actions[1..][i - 1] == actions[i];
        }
      }
    }
  }

  /** Any operation that throws ends the migration with 408, and only then is a code
      returned. */
  lemma UpdateSchemaFails(file: Option<string>, windows: bool, p: Paths, arch: string, shellExists: bool,
                          scriptExists: bool, entries: seq<string>, fails: map<Op, string>)
    ensures var v := SchemaVersion(file);
      UpdateSchema(file, windows, p, arch, shellExists, scriptExists, entries, fails).0 ==
        if Uncaught(FirstStep(v, windows, p, arch, shellExists, scriptExists), fails)
           || Uncaught(SecondStep(v, windows, p, arch, entries), fails)
        then Some(UpdateFailed) else None
  {
    var v := SchemaVersion(file);
    RunFailsIff(FirstStep(v, windows, p, arch, shellExists, scriptExists), fails);
    RunFailsIff(SecondStep(v, windows, p, arch, entries), fails);
  }

  /** On Windows a failed copy of the nvmd shim fails every migration that runs a step. */
  lemma WindowsShimCopyFails(file: Option<string>, p: Paths, arch: string, entries: seq<string>, fails: map<Op, string>)
    requires RunsLast(SchemaVersion(file))
    requires Copy(p.sources + "/" + arch + ".exe", p.bin + "/nvmd.exe") in fails
    ensures UpdateSchema(file, true, p, arch, false, false, entries, fails).0 == Some(UpdateFailed)
  {
    var last := LastWindows(p, arch, entries);
    UncaughtAt(last, fails, 0);
    SecondStepFails(file, true, p, arch, false, false, entries, fails);
  }

  /** On Windows a failed copy of a command shim fails the default step. */
  lemma WindowsCommandShimFails(file: Option<string>, p: Paths, arch: string, entries: seq<string>, fails: map<Op, string>)
    requires RunsDefault(SchemaVersion(file))
    requires Copy(p.sources + "/temp.cmd", p.bin + "/npm.cmd") in fails
    ensures UpdateSchema(file, true, p, arch, false, false, entries, fails).0 == Some(UpdateFailed)
  {
    var exe := p.sources + "/" + arch + ".exe";
    var shims := Shims(exe, p.sources + "/temp.cmd", p.bin, NodeDefaultExecute);
    NpmCommandShim(exe, p.sources + "/temp.cmd", p.bin);
    var first := DefaultWindows(p, arch);
    assert first == [Action(SetPath, true), Action(Copy(exe, p.bin + "/nvmd.exe"), false)] + shims + [Save];
    assert first[4] == shims[2];
    UncaughtAt(first, fails, 4);
    FirstStepFails(file, true, p, arch, false, false, entries, fails);
  }

  /** The third command shim copy is the `.cmd` of npm. */
  lemma NpmCommandShim(exe: string, cmd: string, bin: string)
    ensures var shims := Shims(exe, cmd, bin, NodeDefaultExecute);
      |shims| > 2 && shims[2] == Action(Copy(cmd, bin + "/npm.cmd"), false)
  {
    var names := NodeDefaultExecute;
    assert names[0] == "node" && names[1..][0] == "npm" && names[1..][1..] == names[2..];
    assert bin + "/" + "npm" + ".cmd" == bin + "/npm.cmd";
    var rest := Shims(exe, cmd, bin, names[1..]);
    assert Shims(exe, cmd, bin, names) == [Action(Copy(exe, bin + "/" + "node" + ".exe"), false)] + rest;
    assert rest == [Action(Copy(exe, bin + "/" + "npm" + ".exe"), false),
      Action(Copy(cmd, bin + "/" + "npm" + ".cmd"), false)] + Shims(exe, cmd, bin, names[2..]);
  }

  /** One operation failing uncaught is enough. */
  lemma UncaughtAt(actions: seq<Action>, fails: map<Op, string>, i: nat)
    requires i < |actions| && actions[i].op in fails && !actions[i].caught
    ensures Uncaught(actions, fails)
  {
  }

  /** An uncaught failure in the default step, when it runs, gives 408. */
  lemma FirstStepFails(file: Option<string>, windows: bool, p: Paths, arch: string, shellExists: bool,
                       scriptExists: bool, entries: seq<string>, fails: map<Op, string>)
    requires RunsDefault(SchemaVersion(file))
    requires Uncaught(if windows then DefaultWindows(p, arch) else DefaultUnix(p, shellExists, scriptExists), fails)
    ensures UpdateSchema(file, windows, p, arch, shellExists, scriptExists, entries, fails).0 == Some(UpdateFailed)
  {
    UpdateSchemaFails(file, windows, p, arch, shellExists, scriptExists, entries, fails);
  }

  /** An uncaught failure in the last step, when it runs, gives 408. */
  lemma SecondStepFails(file: Option<string>, windows: bool, p: Paths, arch: string, shellExists: bool,
                        scriptExists: bool, entries: seq<string>, fails: map<Op, string>)
    requires RunsLast(SchemaVersion(file))
    requires Uncaught(if windows then LastWindows(p, arch, entries) else LastUnix(p), fails)
    ensures UpdateSchema(file, windows, p, arch, shellExists, scriptExists, entries, fails).0 == Some(UpdateFailed)
  {
    UpdateSchemaFails(file, windows, p, arch, shellExists, scriptExists, entries, fails);
  }

  /** On Windows a failed copy over an `.exe` of the bin directory fails the last step. */
  lemma WindowsExeCopyFails(file: Option<string>, p: Paths, arch: string, entries: seq<string>, fails: map<Op, string>,
                            name: string)
    requires RunsLast(SchemaVersion(file))
    requires name in entries && EndsWithExe(name)
    requires Copy(p.sources + "/" + arch + ".exe", p.bin + "/" + name) in fails
    ensures UpdateSchema(file, true, p, arch, false, false, entries, fails).0 == Some(UpdateFailed)
  {
    var exe := p.sources + "/" + arch + ".exe";
    var copies := ExeCopies(exe, p.bin, entries);
    var k := ExeCopyAt(exe, p.bin, entries, name);
    var last := LastWindows(p, arch, entries);
    assert last == [Action(Copy(exe, p.bin + "/nvmd.exe"), false), Action(ReadBin, false)] + copies + [Save];
    assert last[k + 2] == copies[k];
    UncaughtAt(last, fails, k + 2);
    SecondStepFails(file, true, p, arch, false, false, entries, fails);
  }

  /** Where the copy over a listed `.exe` sits among the copies. */
  lemma ExeCopyAt(exe: string, bin: string, entries: seq<string>, name: string) returns (k: nat)
    requires name in entries && EndsWithExe(name)
    ensures k < |ExeCopies(exe, bin, entries)| && ExeCopies(exe, bin, entries)[k] == Action(Copy(exe, bin + "/" + name), false)
  {
    ExeCopiesExactly(exe, bin, entries, name);
    var copies := ExeCopies(exe, bin, entries);
    k :| 0 <= k < |copies| && copies[k] == Action(Copy(exe, bin + "/" + name), false);
  }

  /** Outside Windows a failed removal of the old shell file fails the default step. */
  lemma UnixShellRemovalFails(file: Option<string>, p: Paths, arch: string, scriptExists: bool, entries: seq<string>,
                              fails: map<Op, string>)
    requires RunsDefault(SchemaVersion(file))
    requires Remove(p.appDir + "/shell") in fails
    ensures UpdateSchema(file, false, p, arch, true, scriptExists, entries, fails).0 == Some(UpdateFailed)
  {
    var first := DefaultUnix(p, true, scriptExists);
    UncaughtAt(first, fails, 0);
    FirstStepFails(file, false, p, arch, true, scriptExists, entries, fails);
  }

  /** Outside Windows the migration only fails when removing an old shell file fails:
      every other error is ignored. */
  lemma UnixOnlyRemovalFails(file: Option<string>, p: Paths, arch: string, shellExists: bool, scriptExists: bool,
                             entries: seq<string>, fails: map<Op, string>)
    requires Remove(p.appDir + "/shell") !in fails && Remove(p.appDir + "/nvmd.sh") !in fails
    ensures UpdateSchema(file, false, p, arch, shellExists, scriptExists, entries, fails).0.None?
  {
    DefaultUnixCaught(p, shellExists, scriptExists, fails);
    CaughtRunsThrough(DefaultUnix(p, shellExists, scriptExists), fails);
    CaughtRunsThrough(LastUnix(p), fails);
  }

  /** Outside Windows, the errors of the first step are all caught but those of removing
      the old shell files. */
  lemma DefaultUnixCaught(p: Paths, shellExists: bool, scriptExists: bool, fails: map<Op, string>)
    requires Remove(p.appDir + "/shell") !in fails && Remove(p.appDir + "/nvmd.sh") !in fails
    ensures var d := DefaultUnix(p, shellExists, scriptExists);
      forall i :: 0 <= i < |d| && d[i].op in fails ==> d[i].caught
  {
    var d := DefaultUnix(p, shellExists, scriptExists);
    var pre := (if shellExists then [Action(Remove(p.appDir + "/shell"), false)] else [])
      + (if scriptExists then [Action(Remove(p.appDir + "/nvmd.sh"), false)] else []);
    assert d == pre + [Action(Copy(p.sources + "/nvmd", p.bin + "/nvmd"), true)] + Links(p.bin, NodeDefaultExecute) + [Save];
  }

  /** From a missing schema file, with nothing failing outside Windows, both steps run
      through and the schema is saved by each. */
  lemma FreshUnixRunsBoth(p: Paths, arch: string, shellExists: bool, scriptExists: bool, entries: seq<string>)
    ensures var (code, done) := UpdateSchema(None, false, p, arch, shellExists, scriptExists, entries, map[]);
      && code.None?
      && done == Ops(DefaultUnix(p, shellExists, scriptExists)) + Ops(LastUnix(p))
  {
    NoFailures(DefaultUnix(p, shellExists, scriptExists));
    NoFailures(LastUnix(p));
  }

  /** The operations of a step. */
  function Ops(actions: seq<Action>): (r: seq<Op>)
    ensures |r| == |actions|
    ensures forall i :: 0 <= i < |actions| ==> r[i] == actions[i].op
  {
    seq(|actions|, i requires 0 <= i < |actions| => actions[i].op)
  }

  /** With nothing failing, every operation of a step takes effect, in order. */
  lemma {:induction false} NoFailures(actions: seq<Action>)
    ensures Run(actions, map[]) == (Done, Ops(actions))
    decreases |actions|
  {
    if actions != [] {
      NoFailures(actions[1..]);
      assert Ops(actions) == [actions[0].op] + Ops(actions[1..]);
    }
  }
}
