/**
 Section 1.4 of the benchmark, boot settings (`utils/bootloader_settings.py`):
 bootloader config permissions, bootloader password, and authentication for
 single user mode, all scored, persisted to table `bootloader_settings`.
 */
module BootloaderSettings {
  import opened Text
  import opened Evidence
  import opened Rules
  import opened Rows
  import opened Store
  import opened Checks

  const Table: string := "bootloader_settings"

  /** 1.4.1: some `stat` of a grub config reports an access line. */
  function PermissionsConfigured(): Check {
    Check("1.4.1", "Ensure permissions on bootloader config are configured", true,
      [ Command("/boot/grub2/grub.cfg", "stat /boot/grub2/grub.cfg"),
        Command("/boot/grub/grub.cfg", "stat /boot/grub/grub.cfg") ],
      SomeOutputHas("Access: (", 2))
  }

  /** 1.4.2: some grub config sets a password or superusers. */
  function PasswordSet(): Check {
    Check("1.4.2", "Ensure bootloader password is set", true,
      [ Command("grub", "grep \"^\\s*password\" /boot/grub/menu.lst"),
        Command("grub2_user_cfg", "grep \"^\\s*GRUB2_PASSWORD\" /boot/grub2/user.cfg"),
        Command("grub2_superusers", "grep \"^\\s*set superusers\" /boot/grub/grub.cfg"),
        Command("grub2_password", "grep \"^\\s*password\" /boot/grub/grub.cfg") ],
      AnyNonBlank(4))
  }

  /** 1.4.3: root's shadow entry has a locked password field. */
  function SingleUserAuthentication(): Check {
    Check("1.4.3", "Ensure authentication required for single user mode", true,
      [ Command("single_user_mode", "grep ^root:[*\\!]: /etc/shadow") ],
      SomeOutputHas("root", 1))
  }

  /** The checks in the order `run()` executes them. */
  function Catalog(): (cs: seq<Check>) {
    [PermissionsConfigured(), PasswordSet(), SingleUserAuthentication()]
  }

  /** The module's `run()` against the given command outputs and database. */
  function Run(probes: seq<Probe>, db: Database): RunResult
    requires Valid(db) && |probes| == |Catalog()|
  {
    RunAll(Catalog(), Table, probes, db)
  }

  /** 1.4.1 is compliant iff one of the two `stat` outputs contains "Access: (". */
  lemma PermissionsConfiguredIff(outs: seq<Output>)
    requires |outs| == 2
    ensures Eval(PermissionsConfigured().rule, outs) <==>
      Contains(Strip(outs[0].stdout), "Access: (") || Contains(Strip(outs[1].stdout), "Access: (")
  {
    SomeOutputHasTwo("Access: (", outs);
  }

  /** 1.4.2 is compliant iff one of the four greps prints something visible;
      when all four print nothing it is not. */
  lemma PasswordSetIff(outs: seq<Output>)
    requires |outs| == 4
    ensures Eval(PasswordSet().rule, outs) <==> exists i :: 0 <= i < 4 && Strip(outs[i].stdout) != []
    ensures (forall i :: 0 <= i < 4 ==> AllSpace(outs[i].stdout)) ==> !Eval(PasswordSet().rule, outs)
  {
    AnyNonBlankIff(outs);
    forall i | 0 <= i < 4 {
      StripEmptyIff(outs[i].stdout);
    }
  }

  /** 1.4.3 is compliant iff "root" occurs in the stripped grep output. */
  lemma SingleUserAuthenticationIff(outs: seq<Output>)
    requires |outs| == 1
    ensures Eval(SingleUserAuthentication().rule, outs) <==> Contains(Strip(outs[0].stdout), "root")
  {
    SomeOutputHasOne("root", outs);
  }

  /** Every check reads only its own commands, command names are distinct
      within a check, and sections are distinct across the module. */
  lemma CatalogWellFormed()
    ensures forall c :: c in Catalog() ==> WellFormed(c)
    ensures DistinctSections(Catalog())
  {
  }

  /** The 1.4.2 evidence holds one entry per grep, under its name, in order,
      each with its command and its stripped output. */
  lemma PasswordSetEvidence(outs: seq<Output>)
    requires |outs| == 4
    ensures var ev := EvidenceOf(PasswordSet(), outs);
      && |ev| == 4
      && ev[0].name == "grub" && ev[1].name == "grub2_user_cfg"
      && ev[2].name == "grub2_superusers" && ev[3].name == "grub2_password"
      && forall k :: 0 <= k < 4 ==> ev[k].stdout == Strip(outs[k].stdout)
  {
    PasswordSetWellFormed();
  }

  /** The 1.4.2 check is well formed on its own. */
  lemma PasswordSetWellFormed()
    ensures WellFormed(PasswordSet())
  {
    CatalogWellFormed();
    assert PasswordSet() == Catalog()[1];
  }

  /** `run()` produces the rows of 1.4.1, 1.4.2 and 1.4.3 in that order, all scored. */
  lemma RunOrder(probes: seq<Probe>, db: Database)
    requires Valid(db) && |probes| == 3
    ensures var rows := Run(probes, db).rows;
      && |rows| == 3
      && rows[0].section == "1.4.1" && rows[1].section == "1.4.2" && rows[2].section == "1.4.3"
      && forall i :: 0 <= i < 3 ==> rows[i].scored == Scored
  {
  }
}
