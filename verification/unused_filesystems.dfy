/**
 Section 1.1 of the benchmark, filesystem configuration
 (`utils/unused_filesystems.py`): unused kernel filesystem modules, the mount
 options of /tmp, /home, /dev/shm and removable media, separate partitions for
 /var and /home, the sticky bit on world-writable directories, automounting
 and USB storage, persisted to table `unused_filesystems`.

 The scanner compares against values of the machine it was written on: the
 kernel release inside every expected insmod line and the exact mount lines
 of /var and /home. They are the parameters of a `Site`; `SourceSite` holds
 the values written into the scanner.
 */
module UnusedFilesystems {
  import opened Text
  import opened Evidence
  import opened Rules
  import opened Rows
  import opened Store
  import opened Checks

  const Table: string := "unused_filesystems"

  /** The machine-specific values the checks compare against. */
  datatype Site = Site(kernelRelease: string, varMount: string, homeMount: string)

  const SourceSite: Site :=
    Site("6.5.0-35-generic", "/dev/xvdg1 on /var type ext4", "/dev/xvdf1 on /home type ext4")

  /** The line `modprobe -n -v` prints for a module it would load from
      `kernel/fs/<path>` of the site's kernel. */
  function InsmodLine(site: Site, path: string): string {
    "insmod /lib/modules/" + site.kernelRelease + "/kernel/fs/" + path
  }

  // The checks, one function per family.

  /** A kernel module check: a dry-run `modprobe` and an `lsmod` search for
      `kmod`; the module is disabled when modprobe prints the expected
      insmod line or nothing, and lsmod prints nothing. */
  function ModuleCheck(section: string, sectionName: string, kmod: string, insmodLine: string): (c: Check)
    ensures c.section == section && c.scored && WellFormed(c)
  {
    Check(section, sectionName, true,
      [ Command("modprobe", "modprobe -n -v " + kmod),
        Command("lsmod", "lsmod | grep " + kmod) ],
      ModuleDisabled(insmodLine))
  }

  /** 1.1.1.x: mounting of filesystem `fs` is disabled; its module lives at
      `kernel/fs/<fs>/<fs>.ko`. */
  function FilesystemCheck(site: Site, section: string, fs: string): (c: Check)
    ensures c.section == section && c.scored && WellFormed(c)
  {
    ModuleCheck(section, "Ensure mounting of " + fs + " filesystems is disabled", fs,
      InsmodLine(site, fs + "/" + fs + ".ko"))
  }

  /** A single shell pipeline that passes when it prints nothing: the
      `grep -v <option>` mount checks and the sticky-bit search. */
  function SilentCheck(section: string, sectionName: string, line: string): (c: Check)
    ensures c.section == section && c.scored && WellFormed(c)
  {
    Check(section, sectionName, true, [Command(line, line)], NoOutput())
  }

  /** A mount option check: `mount` lines for `mnt` that lack `option` are
      printed, so the check passes when nothing is. */
  function MountOptionCheck(section: string, mnt: string, option: string): (c: Check)
    ensures c.section == section && c.scored && WellFormed(c)
  {
    SilentCheck(section, "Ensure " + option + " option set on " + mnt + " partition",
      "mount | grep -E '\\s" + mnt + "\\s' | grep -v " + option)
  }

  /** A separate-partition check: the pipeline prints exactly the expected mount line. */
  function PartitionCheck(section: string, sectionName: string, line: string, expected: string): (c: Check)
    ensures c.section == section && c.scored && WellFormed(c)
  {
    Check(section, sectionName, true, [Command(line, line)], ExactOutput(expected))
  }

  /** A removable-media check (not scored): `mount` prints something and every
      line of it mentions `option`. */
  function RemovableMediaCheck(section: string, option: string): (c: Check)
    ensures c.section == section && !c.scored && WellFormed(c)
  {
    Check(section, "Ensure " + option + " option set on removable media partitions", false,
      [Command("mount", "mount")], EveryLineHasOption(option))
  }

  /** The commands of 1.1.2, each filed under its own text. */
  const TmpCommands: seq<string> := [
    "mount | grep -E '\\s/tmp\\s'",
    "grep -E '\\s/tmp\\s' /etc/fstab | grep -E -v '^\\s*#'",
    "systemctl is-enabled tmp.mount"]

  /** What 1.1.2 looks for in any of its outputs. */
  const TmpExpected: seq<string> := ["tmpfs on /tmp type tmpfs", "tmpfs\t/tmp\ttmpfs", "enabled"]

  /** 1.1.2: some output mentions a tmpfs mount of /tmp or an enabled tmp.mount. */
  function TmpConfigured(): (c: Check)
    ensures c.section == "1.1.2" && c.scored && WellFormed(c)
  {
    Check("1.1.2", "Ensure /tmp is configured", true,
      [ Command(TmpCommands[0], TmpCommands[0]),
        Command(TmpCommands[1], TmpCommands[1]),
        Command(TmpCommands[2], TmpCommands[2]) ],
      AnyOutputHasAny(TmpExpected, 3))
  }

  /** 1.1.6: `mount` shows exactly the site's /var line. */
  function VarConfigured(site: Site): (c: Check)
    ensures c.section == "1.1.6" && c.scored && WellFormed(c)
  {
    PartitionCheck("1.1.6", "Ensure separate partition exists for /var",
      "mount | grep -E '\\s/var\\s'", site.varMount)
  }

  /** 1.1.13: `mount | grep /home` shows exactly the site's /home line. */
  function HomeConfigured(site: Site): (c: Check)
    ensures c.section == "1.1.13" && c.scored && WellFormed(c)
  {
    PartitionCheck("1.1.13", "Ensure separate partition exists for /home",
      "mount | grep /home", site.homeMount)
  }

  const StickyBitCommand: string :=
    "df --local -P | awk '{if (NR!=1) print $6}' | xargs -I '{}' find '{}' -xdev -type d \\( -perm -0002 -a ! -perm -1000 \\) 2>/dev/null"

  /** 1.1.22: `systemctl is-enabled autofs` says "disabled" without complaint. */
  function AutomountDisabled(): (c: Check)
    ensures c.section == "1.1.22" && c.scored && WellFormed(c)
  {
    Check("1.1.22", "Disable Automounting", true,
      [Command("systemctl is-enabled autofs", "systemctl is-enabled autofs")],
      ReportsDisabled())
  }

  /** `cs` are well-formed checks for `sections`, in that order, all scored
      or all not scored as `scored` says. */
  predicate Conforms(cs: seq<Check>, sections: seq<string>, scored: bool) {
    && Sections(cs) == sections
    && forall i :: 0 <= i < |cs| ==> cs[i].scored == scored && WellFormed(cs[i])
  }

  /** Checks that match `sections` one by one, all with the given scoring and
      all well formed, conform to them. */
  lemma ConformsIntro(cs: seq<Check>, sections: seq<string>, scored: bool)
    requires |cs| == |sections|
    requires forall i :: 0 <= i < |cs| ==> cs[i].section == sections[i]
    requires forall i :: 0 <= i < |cs| ==> cs[i].scored == scored && WellFormed(cs[i])
    ensures Conforms(cs, sections, scored)
  {
  }

  /** Two runs of checks that conform with the same scoring conform one after the other. */
  lemma ConformsAppend(a: seq<Check>, sa: seq<string>, b: seq<Check>, sb: seq<string>, scored: bool)
    requires Conforms(a, sa, scored) && Conforms(b, sb, scored)
    ensures Conforms(a + b, sa + sb, scored)
  {
    SectionsAppend(a, b);
    forall i | 0 <= i < |a + b|
      ensures (a + b)[i].scored == scored && WellFormed((a + b)[i])
    {
      if i >= |a| {
        assert (a + b)[i] == b[i - |a|];
      }
    }
  }

  const FilesystemSections: seq<string> :=
    ["1.1.1.1", "1.1.1.2", "1.1.1.3", "1.1.1.4", "1.1.1.5", "1.1.1.6", "1.1.1.7", "1.1.1.8"]
  const TmpSections: seq<string> := ["1.1.2", "1.1.3", "1.1.4", "1.1.5"]
  const PartitionSections: seq<string> := ["1.1.6", "1.1.13", "1.1.14"]
  const DevShmSections: seq<string> := ["1.1.15", "1.1.16", "1.1.17"]
  const RemovableMediaSections: seq<string> := ["1.1.18", "1.1.19", "1.1.20"]
  const LastSections: seq<string> := ["1.1.21", "1.1.22", "1.1.23"]

  /** The sections of 1.1 in the order of the `ensure_*` definitions. */
  const SectionOrder: seq<string> :=
    FilesystemSections + TmpSections + PartitionSections + DevShmSections
      + RemovableMediaSections + LastSections

  /** The filesystems of 1.1.1.1 to 1.1.1.8, in that order. */
  const Filesystems: seq<string> :=
    ["cramfs", "freevxfs", "jffs2", "hfs", "hfsplus", "squashfs", "udf", "vfat"]

  /** 1.1.1.1 to 1.1.1.8: the unused filesystem modules. */
  function FilesystemChecks(site: Site): (cs: seq<Check>)
    ensures Conforms(cs, FilesystemSections, true)
    ensures forall i :: 0 <= i < |cs| ==> cs[i] == FilesystemCheck(site, FilesystemSections[i], Filesystems[i])
  {
    var cs := seq(|Filesystems|, i requires 0 <= i < |Filesystems| =>
      FilesystemCheck(site, FilesystemSections[i], Filesystems[i]));
    ConformsIntro(cs, FilesystemSections, true);
    cs
  }

  /** 1.1.2 to 1.1.5: /tmp is a tmpfs mount with nodev, nosuid and noexec. */
  function TmpChecks(): (cs: seq<Check>)
    ensures Conforms(cs, TmpSections, true)
  {
    var cs := [ TmpConfigured(),
      MountOptionCheck("1.1.3", "/tmp", "nodev"),
      MountOptionCheck("1.1.4", "/tmp", "nosuid"),
      MountOptionCheck("1.1.5", "/tmp", "noexec") ];
    ConformsIntro(cs, TmpSections, true);
    cs
  }

  /** 1.1.6, 1.1.13 and 1.1.14: separate /var and /home partitions, /home with nodev. */
  function PartitionChecks(site: Site): (cs: seq<Check>)
    ensures Conforms(cs, PartitionSections, true)
  {
    var cs := [ VarConfigured(site),
      HomeConfigured(site),
      MountOptionCheck("1.1.14", "/home", "nodev") ];
    ConformsIntro(cs, PartitionSections, true);
    cs
  }

  /** 1.1.15 to 1.1.17: /dev/shm with nodev, nosuid and noexec. */
  function DevShmChecks(): (cs: seq<Check>)
    ensures Conforms(cs, DevShmSections, true)
  {
    var cs := [ MountOptionCheck("1.1.15", "/dev/shm", "nodev"),
      MountOptionCheck("1.1.16", "/dev/shm", "nosuid"),
      MountOptionCheck("1.1.17", "/dev/shm", "noexec") ];
    ConformsIntro(cs, DevShmSections, true);
    cs
  }

  /** 1.1.18 to 1.1.20: removable media with nodev, nosuid and noexec, not scored. */
  function RemovableMediaChecks(): (cs: seq<Check>)
    ensures Conforms(cs, RemovableMediaSections, false)
  {
    var cs := [ RemovableMediaCheck("1.1.18", "nodev"),
      RemovableMediaCheck("1.1.19", "nosuid"),
      RemovableMediaCheck("1.1.20", "noexec") ];
    ConformsIntro(cs, RemovableMediaSections, false);
    cs
  }

  /** 1.1.21 to 1.1.23: sticky bit, automounting and USB storage. */
  function LastChecks(site: Site): (cs: seq<Check>)
    ensures Conforms(cs, LastSections, true)
  {
    var cs := [ SilentCheck("1.1.21", "Ensure sticky bit is set on all world-writable directories", StickyBitCommand),
      AutomountDisabled(),
      ModuleCheck("1.1.23", "Disabled USB Storage", "usb-storage", InsmodLine(site, "storage/usb-storage.ko")) ];
    ConformsIntro(cs, LastSections, true);
    cs
  }

  /** The checks in the order `run()` executes them: the order of the
      `def ensure` lines in the module. */
  function Catalog(site: Site): (cs: seq<Check>)
    ensures |cs| == 24
    ensures Sections(cs) == SectionOrder
    ensures forall i :: 0 <= i < 24 ==> WellFormed(cs[i])
    ensures forall i :: 0 <= i < 24 ==> (cs[i].scored <==> !(18 <= i <= 20))
  {
    GroupsShape(site);
    FilesystemChecks(site) + TmpChecks() + PartitionChecks(site) + DevShmChecks()
      + RemovableMediaChecks() + LastChecks(site)
  }

  /** The module's `run()` on a site, against the given command outputs and database. */
  function Run(site: Site, probes: seq<Probe>, db: Database): RunResult
    requires Valid(db) && |probes| == |Catalog(site)|
  {
    RunAll(Catalog(site), Table, probes, db)
  }

  // What each family of checks decides.

  /** A module check passes iff modprobe's unstripped output contains the
      expected insmod line or is all whitespace, and lsmod prints only whitespace. */
  lemma ModuleCheckIff(section: string, sectionName: string, kmod: string, insmodLine: string, outs: seq<Output>)
    requires |outs| == 2
    ensures Eval(ModuleCheck(section, sectionName, kmod, insmodLine).rule, outs) <==>
      (Contains(outs[0].stdout, insmodLine) || AllSpace(outs[0].stdout)) && AllSpace(outs[1].stdout)
  {
    ModuleDisabledIff(insmodLine, outs);
  }

  /** A module that lsmod lists fails its check, whatever modprobe printed. */
  lemma LoadedModuleFails(section: string, sectionName: string, kmod: string, insmodLine: string, outs: seq<Output>)
    requires |outs| == 2 && Strip(outs[1].stdout) != []
    ensures !Eval(ModuleCheck(section, sectionName, kmod, insmodLine).rule, outs)
  {
    StripEmptyIff(outs[1].stdout);
    ModuleLoadedFails(insmodLine, outs);
  }

  /** A `grep -v` mount check or the sticky-bit search passes iff its
      pipeline prints only whitespace. */
  lemma SilentCheckIff(section: string, sectionName: string, line: string, outs: seq<Output>)
    requires |outs| == 1
    ensures Eval(SilentCheck(section, sectionName, line).rule, outs) <==> AllSpace(outs[0].stdout)
  {
    StripEmptyIff(outs[0].stdout);
  }

  /** A separate-partition check passes iff the stripped output is the expected mount line. */
  lemma PartitionCheckIff(section: string, sectionName: string, line: string, expected: string, outs: seq<Output>)
    requires |outs| == 1
    ensures Eval(PartitionCheck(section, sectionName, line, expected).rule, outs) <==> Strip(outs[0].stdout) == expected
  {
  }

  /** The expected mount line passes however it is padded with whitespace,
      in particular with the newline `mount` ends it with. */
  lemma PartitionCheckPadded(section: string, sectionName: string, line: string, expected: string,
                             pre: string, post: string, stderr: string)
    requires AllSpace(pre) && AllSpace(post)
    requires expected == [] || (!IsSpace(expected[0]) && !IsSpace(expected[|expected| - 1]))
    ensures Eval(PartitionCheck(section, sectionName, line, expected).rule, [Output(pre + expected + post, stderr)])
  {
    StripPadded(pre, expected, post);
  }

  /** The /var line of the scanner's own machine, printed with its newline, passes 1.1.6. */
  lemma SourceVarLinePasses(stderr: string)
    ensures Eval(VarConfigured(SourceSite).rule, [Output(SourceSite.varMount + "\n", stderr)])
  {
    var e := SourceSite.varMount;
    assert e[0] == '/' && e[|e| - 1] == '4';
    StripPadded([], e, "\n");
    assert [] + e + "\n" == e + "\n";
  }

  /** 1.1.2 passes iff some stripped output mentions a tmpfs mount of /tmp in
      `mount` or fstab form, or says "enabled". */
  lemma TmpConfiguredIff(outs: seq<Output>)
    requires |outs| == 3
    ensures Eval(TmpConfigured().rule, outs) <==>
      exists i :: 0 <= i < 3 &&
        (|| Contains(Strip(outs[i].stdout), "tmpfs on /tmp type tmpfs")
         || Contains(Strip(outs[i].stdout), "tmpfs\t/tmp\ttmpfs")
         || Contains(Strip(outs[i].stdout), "enabled"))
  {
    AnyOfThreeIff(TmpExpected, outs);
  }

  /** The loop of 1.1.2 as written: for each expected text in turn,
      `configured = configured or any(op in output for each stripped output)`. */
  function ConfiguredLoop(ops: seq<string>, stripped: seq<string>, configured: bool): (b: bool)
    decreases |ops|
  {
    if ops == [] then configured
    else
      ConfiguredLoop(ops[1..], stripped,
        configured || exists i :: 0 <= i < |stripped| && Contains(stripped[i], ops[0]))
  }

  /** The loop ends configured iff it started so or some expected text occurs
      in some output. */
  lemma {:induction false} ConfiguredLoopIff(ops: seq<string>, stripped: seq<string>, configured: bool)
    ensures ConfiguredLoop(ops, stripped, configured) <==>
      configured || exists j, i :: 0 <= j < |ops| && 0 <= i < |stripped| && Contains(stripped[i], ops[j])
    decreases |ops|
  {
    if ops != [] {
      var now := configured || exists i :: 0 <= i < |stripped| && Contains(stripped[i], ops[0]);
      ConfiguredLoopIff(ops[1..], stripped, now);
      if exists j, i :: 0 <= j < |ops| && 0 <= i < |stripped| && Contains(stripped[i], ops[j]) {
        var j, i :| 0 <= j < |ops| && 0 <= i < |stripped| && Contains(stripped[i], ops[j]);
        if j > 0 {
          assert ops[1..][j - 1] == ops[j];
        }
      }
      if exists j, i :: 0 <= j < |ops[1..]| && 0 <= i < |stripped| && Contains(stripped[i], ops[1..][j]) {
        var j, i :| 0 <= j < |ops[1..]| && 0 <= i < |stripped| && Contains(stripped[i], ops[1..][j]);
        assert ops[1..][j] == ops[j + 1];
      }
    }
  }

  /** Each command's output, stripped. */
  function StrippedOutputs(outs: seq<Output>): (ss: seq<string>)
    ensures |ss| == |outs| && forall i :: 0 <= i < |outs| ==> ss[i] == Strip(outs[i].stdout)
  {
    seq(|outs|, i requires 0 <= i < |outs| => Strip(outs[i].stdout))
  }

  /** Looking for any of `ops` in any command's stripped output is the loop
      run from `configured = False` over those outputs. */
  lemma ConfiguredLoopAgrees(ops: seq<string>, outs: seq<Output>)
    ensures Eval(AnyOutputHasAny(ops, |outs|), outs) == ConfiguredLoop(ops, StrippedOutputs(outs), false)
  {
    var stripped := StrippedOutputs(outs);
    AnyOutputHasAnyIff(ops, outs);
    ConfiguredLoopIff(ops, stripped, false);
    if Eval(AnyOutputHasAny(ops, |outs|), outs) {
      var j, i :| 0 <= j < |ops| && 0 <= i < |outs| && Contains(Strip(outs[i].stdout), ops[j]);
      assert Contains(stripped[i], ops[j]);
    }
    if ConfiguredLoop(ops, stripped, false) {
      var j, i :| 0 <= j < |ops| && 0 <= i < |stripped| && Contains(stripped[i], ops[j]);
      assert Contains(Strip(outs[i].stdout), ops[j]);
    }
  }

  /** 1.1.2's rule agrees with the source's loop over its three expected
      texts (`TmpExpected`, in the source's order), run from
      `configured = False` on the three stripped outputs. */
  lemma TmpConfiguredAsWritten(outs: seq<Output>)
    requires |outs| == 3
    ensures Eval(TmpConfigured().rule, outs) == ConfiguredLoop(TmpExpected, StrippedOutputs(outs), false)
  {
    ConfiguredLoopAgrees(TmpExpected, outs);
  }

  /** With nothing visible from any of its commands, 1.1.2 fails. */
  lemma TmpSilentFails(outs: seq<Output>)
    requires |outs| == 3 && forall i :: 0 <= i < 3 ==> AllSpace(outs[i].stdout)
    ensures !Eval(TmpConfigured().rule, outs)
  {
    AnyOutputHasAnyBlank(TmpExpected, outs);
  }

  /** A removable-media check passes iff `mount` prints something visible and
      every line of its stripped output mentions the option. */
  lemma RemovableMediaCheckIff(section: string, option: string, outs: seq<Output>)
    requires |outs| == 1
    ensures Eval(RemovableMediaCheck(section, option).rule, outs) <==>
      !AllSpace(outs[0].stdout) && forall line | line in SplitLines(Strip(outs[0].stdout)) :: Contains(line, option)
  {
    StripEmptyIff(outs[0].stdout);
  }

  /** One mount line without the option fails a removable-media check. */
  lemma RemovableMediaLineMissing(section: string, option: string, outs: seq<Output>, line: string)
    requires |outs| == 1
    requires line in SplitLines(Strip(outs[0].stdout)) && !Contains(line, option)
    ensures !Eval(RemovableMediaCheck(section, option).rule, outs)
  {
    RemovableMediaCheckIff(section, option, outs);
  }

  /** An option missing from the whole stripped output fails a removable-media check. */
  lemma RemovableMediaOptionAbsent(section: string, option: string, outs: seq<Output>)
    requires |outs| == 1 && !Contains(Strip(outs[0].stdout), option)
    ensures !Eval(RemovableMediaCheck(section, option).rule, outs)
  {
    EveryLineHasOptionMissing(option, outs);
  }

  /** The automount check passes iff autofs reports "disabled" and nothing on stderr. */
  lemma AutomountDisabledIff(outs: seq<Output>)
    requires |outs| == 1
    ensures Eval(AutomountDisabled().rule, outs) <==> AllSpace(outs[0].stderr) && Strip(outs[0].stdout) == "disabled"
  {
    ReportsDisabledIff(outs);
  }

  /** The message the automount check files in place of the command output. */
  function AutomountReport(o: Output): string {
    if !AllSpace(o.stderr) then "Automounting is disabled as autofs is not in service."
    else if Strip(o.stdout) == "disabled" then "Automounting is disabled."
    else "Automounting is NOT disabled."
  }

  /** The filed message says "Automounting is disabled." exactly when the
      check passes; when systemctl complains (autofs not installed) the
      message still calls automounting disabled while the row is Not Compliant. */
  lemma AutomountReportAgrees(o: Output)
    ensures AutomountReport(o) == "Automounting is disabled." <==> Eval(AutomountDisabled().rule, [o])
    ensures !AllSpace(o.stderr) ==>
      AutomountReport(o) == "Automounting is disabled as autofs is not in service."
      && !Eval(AutomountDisabled().rule, [o])
  {
    AutomountDisabledIff([o]);
  }

  // The catalog as a whole.

  /** The catalog runs the 24 sections in that order; every check reads only
      its own commands and files them under distinct names; only the three
      removable-media checks, 1.1.18 to 1.1.20, are not scored. */
  lemma GroupsShape(site: Site)
    ensures var cs := FilesystemChecks(site) + TmpChecks() + PartitionChecks(site) + DevShmChecks()
      + RemovableMediaChecks() + LastChecks(site);
      && |cs| == 24
      && Sections(cs) == SectionOrder
      && (forall i :: 0 <= i < 24 ==> WellFormed(cs[i]))
      && (forall i :: 0 <= i < 24 ==> (cs[i].scored <==> !(18 <= i <= 20)))
  {
    var a := FilesystemChecks(site);
    ConformsAppend(a, FilesystemSections, TmpChecks(), TmpSections, true);
    var b := a + TmpChecks();
    ConformsAppend(b, FilesystemSections + TmpSections, PartitionChecks(site), PartitionSections, true);
    var c := b + PartitionChecks(site);
    ConformsAppend(c, FilesystemSections + TmpSections + PartitionSections, DevShmChecks(), DevShmSections, true);
    var scored := c + DevShmChecks();
    var removable := RemovableMediaChecks();
    var last := LastChecks(site);
    var cs := scored + removable + last;
    SectionsAppend(scored, removable);
    SectionsAppend(scored + removable, last);
    assert |scored| == 18 && |removable| == 3 && |last| == 3;
    forall i | 0 <= i < 24
      ensures WellFormed(cs[i]) && (cs[i].scored <==> !(18 <= i <= 20))
    {
      if i < 18 {
        assert cs[i] == scored[i];
      } else if i < 21 {
        assert cs[i] == removable[i - 18];
      } else {
        assert cs[i] == last[i - 21];
      }
    }
  }

  /** The 24 sections are distinct. */
  lemma SectionOrderDistinct()
    ensures |SectionOrder| == 24 && Distinct(SectionOrder)
  {
    var front := TmpSections + PartitionSections;
    var back := DevShmSections + RemovableMediaSections + LastSections;
    assert Distinct(front);
    assert Distinct(back);
    DistinctAppend(front, back);
    var rest := front + back;
    assert forall j :: 0 <= j < |rest| ==> |rest[j]| < 7;
    DistinctAppend(FilesystemSections, rest);
    assert SectionOrder == FilesystemSections + rest;
  }

  /** No two checks share a section, so no row of a run overwrites another. */
  lemma CatalogDistinctSections(site: Site)
    ensures DistinctSections(Catalog(site))
  {
    SectionOrderDistinct();
    DistinctSectionsOf(Catalog(site));
  }

  /** `run()` writes 24 rows, one per section in order; only the three
      removable-media rows are Not Scored. */
  lemma RunOrder(site: Site, probes: seq<Probe>, db: Database)
    requires Valid(db) && |probes| == 24
    ensures var rows := Run(site, probes, db).rows;
      && |rows| == 24
      && (forall i :: 0 <= i < 24 ==> rows[i].section == SectionOrder[i])
      && (forall i :: 0 <= i < 24 ==> (rows[i].scored == NotScored <==> 18 <= i <= 20))
  {
    var cs := Catalog(site);
    var rows := Run(site, probes, db).rows;
    forall i | 0 <= i < 24
      ensures rows[i].section == SectionOrder[i]
      ensures rows[i].scored == NotScored <==> 18 <= i <= 20
    {
      assert rows[i] == ResultRow(cs[i], probes[i].ctx, probes[i].outputs);
      assert cs[i].section == Sections(cs)[i];
    }
  }

  /** When every transaction commits, each of the 24 rows is in the table
      afterwards and is the only row with its (hostname, date, section). */
  lemma RunPersists(site: Site, probes: seq<Probe>, db: Database)
    requires Valid(db) && |probes| == 24
    requires forall i :: 0 <= i < 24 ==> probes[i].committed
    ensures var res := Run(site, probes, db);
      forall i :: 0 <= i < 24 ==>
        && res.rows[i] in TableRows(res.db, Table)
        && (forall x :: x in TableRows(res.db, Table) && KeyOf(x) == KeyOf(res.rows[i]) ==> x == res.rows[i])
  {
    var cs := Catalog(site);
    CatalogDistinctSections(site);
    RunAllPersists(cs, Table, probes, db);
    assert Run(site, probes, db) == RunAll(cs, Table, probes, db);
  }
}
