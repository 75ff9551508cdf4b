/**
 Section 1.2 of the benchmark, package manager configuration
 (`utils/software_updates.py`): repositories and GPG keys, both not scored,
 persisted to table `software_updates`. Each check queries yum or rpm, apt
 and zypper, and passes only when all three print something.
 */
module SoftwareUpdates {
  import opened Text
  import opened Evidence
  import opened Rules
  import opened Rows
  import opened Store
  import opened Checks

  const Table: string := "software_updates"

  /** 1.2.1: every package manager lists some repository. */
  function ReposConfigured(): Check {
    Check("1.2.1", "Ensure package manager repositories are configured", false,
      [ Command("yum", "yum repolist"),
        Command("apt", "apt-cache policy"),
        Command("zypper", "zypper repos") ],
      AllNonBlank(3))
  }

  /** 1.2.2: every package manager lists some key or repository. */
  function GpgKeysConfigured(): Check {
    Check("1.2.2", "Ensure GPG keys are configured", false,
      [ Command("rpm", "rpm -q gpg-pubkey --qf '%{name}-%{version}-%{release} --> %{summary}\\n'"),
        Command("apt", "apt-key list"),
        Command("zypper", "zypper repos") ],
      AllNonBlank(3))
  }

  /** The checks in the order `run()` executes them. */
  function Catalog(): (cs: seq<Check>) {
    [ReposConfigured(), GpgKeysConfigured()]
  }

  /** The module's `run()` against the given command outputs and database. */
  function Run(probes: seq<Probe>, db: Database): RunResult
    requires Valid(db) && |probes| == |Catalog()|
  {
    RunAll(Catalog(), Table, probes, db)
  }

  /** 1.2.1 is compliant iff all three listings show something visible; so
      a host with only one package manager never passes. */
  lemma ReposConfiguredIff(outs: seq<Output>)
    requires |outs| == 3
    ensures Eval(ReposConfigured().rule, outs) <==>
      !AllSpace(outs[0].stdout) && !AllSpace(outs[1].stdout) && !AllSpace(outs[2].stdout)
  {
    AllNonBlankIff(outs);
  }

  /** 1.2.2 is compliant iff all three listings show something visible. */
  lemma GpgKeysConfiguredIff(outs: seq<Output>)
    requires |outs| == 3
    ensures Eval(GpgKeysConfigured().rule, outs) <==>
      !AllSpace(outs[0].stdout) && !AllSpace(outs[1].stdout) && !AllSpace(outs[2].stdout)
  {
    AllNonBlankIff(outs);
  }

  /** Any listing that is empty once stripped fails either check. */
  lemma OneSilentManagerFails(outs: seq<Output>, i: nat)
    requires |outs| == 3 && i < 3 && Strip(outs[i].stdout) == []
    ensures !Eval(ReposConfigured().rule, outs) && !Eval(GpgKeysConfigured().rule, outs)
  {
    AllNonBlankIff(outs);
    StripEmptyIff(outs[i].stdout);
  }

  /** Both checks are well formed and their sections are distinct. */
  lemma CatalogWellFormed()
    ensures forall c :: c in Catalog() ==> WellFormed(c)
    ensures DistinctSections(Catalog())
  {
  }

  /** `run()` produces the rows of 1.2.1 and 1.2.2 in that order, both not scored. */
  lemma RunOrder(probes: seq<Probe>, db: Database)
    requires Valid(db) && |probes| == 2
    ensures var rows := Run(probes, db).rows;
      && |rows| == 2
      && rows[0].section == "1.2.1" && rows[1].section == "1.2.2"
      && rows[0].scored == NotScored && rows[1].scored == NotScored
  {
  }
}
