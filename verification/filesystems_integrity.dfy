/**
 Section 1.3 of the benchmark, filesystem integrity checking
 (`utils/filesystems_integrity.py`): whether AIDE is installed and whether a
 systemd unit or a cron entry runs it, both scored, persisted to table
 `filesystems_integrity`.
 */
module FilesystemsIntegrity {
  import opened Text
  import opened Evidence
  import opened Rules
  import opened Rows
  import opened Store
  import opened Checks

  const Table: string := "filesystems_integrity"

  /** 1.3.1: the rpm or the dpkg query mentions aide. */
  function AideInstalled(): Check {
    Check("1.3.1", "Ensure AIDE is installed", true,
      [ Command("rpm", "rpm -q aide"),
        Command("dpkg", "dpkg -s aide") ],
      SomeOutputHas("aide", 2))
  }

  /** The systemd queries of 1.3.2, in dictionary order. */
  const SystemdCommands: seq<Command> := [
    Command("is-enabled aidcheck.service", "systemctl is-enabled aidcheck.service"),
    Command("status aidcheck.service", "systemctl status aidcheck.service"),
    Command("is-enabled aidcheck.timer", "systemctl is-enabled aidcheck.timer"),
    Command("status aidcheck.timer", "systemctl status aidcheck.timer")]

  /** The cron searches of 1.3.2, in dictionary order. */
  const CronCommands: seq<Command> := [
    Command("root crontab", "crontab -u root -l | grep aide"),
    Command("etc cron", "grep -r aide /etc/cron.* /etc/crontab")]

  /** What 1.3.2 looks for in any of its outputs. */
  const IntegrityExpected: seq<string> := ["enabled", "aide"]

  /** 1.3.2: the systemd queries run first, then the cron searches; some
      output mentions "enabled" or "aide". */
  function IntegrityChecked(): (c: Check)
    ensures WellFormed(c)
  {
    IntegrityCommandsDistinct();
    Check("1.3.2", "Ensure filesystem integrity is regularly checked", true,
      SystemdCommands + CronCommands,
      AnyOutputHasAny(IntegrityExpected, 6))
  }

  /** The checks in the order `run()` executes them. */
  function Catalog(): (cs: seq<Check>) {
    [AideInstalled(), IntegrityChecked()]
  }

  /** The module's `run()` against the given command outputs and database. */
  function Run(probes: seq<Probe>, db: Database): RunResult
    requires Valid(db) && |probes| == |Catalog()|
  {
    RunAll(Catalog(), Table, probes, db)
  }

  /** 1.3.1 is compliant iff the stripped rpm or dpkg output contains "aide". */
  lemma AideInstalledIff(outs: seq<Output>)
    requires |outs| == 2
    ensures Eval(AideInstalled().rule, outs) <==>
      Contains(Strip(outs[0].stdout), "aide") || Contains(Strip(outs[1].stdout), "aide")
  {
    SomeOutputHasTwo("aide", outs);
  }

  /** 1.3.2 is compliant iff one of the six stripped outputs contains
      "enabled" or "aide". */
  lemma IntegrityCheckedIff(outs: seq<Output>)
    requires |outs| == 6
    ensures Eval(IntegrityChecked().rule, outs) <==>
      exists i :: 0 <= i < 6 &&
        (Contains(Strip(outs[i].stdout), "enabled") || Contains(Strip(outs[i].stdout), "aide"))
  {
    AnyOfTwoIff(IntegrityExpected, outs);
  }

  /** With no visible output from any of the six commands, 1.3.2 is not compliant. */
  lemma IntegrityCheckedSilentFails(outs: seq<Output>)
    requires |outs| == 6
    requires forall i :: 0 <= i < 6 ==> AllSpace(outs[i].stdout)
    ensures !Eval(IntegrityChecked().rule, outs)
  {
    AnyOutputHasAnyBlank(IntegrityExpected, outs);
  }

  /** The six commands of 1.3.2 carry distinct names. */
  lemma IntegrityCommandsDistinct()
    ensures DistinctLabels(SystemdCommands + CronCommands)
  {
  }

  /** The 1.3.2 evidence holds the four systemd entries, then the two cron
      entries, each under its description, with its command and its stripped output. */
  lemma IntegrityCheckedEvidence(outs: seq<Output>)
    requires |outs| == 6
    ensures var ev := EvidenceOf(IntegrityChecked(), outs);
      && |ev| == 6
      && (forall k :: 0 <= k < 4 ==>
            ev[k].name == SystemdCommands[k].name && ev[k].command == SystemdCommands[k].line)
      && (forall k :: 0 <= k < 2 ==>
            ev[4 + k].name == CronCommands[k].name && ev[4 + k].command == CronCommands[k].line)
      && forall k :: 0 <= k < 6 ==> ev[k].stdout == Strip(outs[k].stdout)
  {
  }

  /** Both checks are well formed and their sections are distinct. */
  lemma CatalogWellFormed()
    ensures forall c :: c in Catalog() ==> WellFormed(c)
    ensures DistinctSections(Catalog())
  {
  }

  /** `run()` produces the rows of 1.3.1 and 1.3.2 in that order, both scored. */
  lemma RunOrder(probes: seq<Probe>, db: Database)
    requires Valid(db) && |probes| == 2
    ensures var rows := Run(probes, db).rows;
      && |rows| == 2
      && rows[0].section == "1.3.1" && rows[1].section == "1.3.2"
      && rows[0].scored == Scored && rows[1].scored == Scored
  {
  }
}
