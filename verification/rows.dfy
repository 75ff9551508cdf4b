/**
 The row every check persists (`write_output_to_database`): the host context,
 the check's identity, and three labels derived from two booleans. The
 deviation label is the negation of the compliance verdict.
 */
module Rows {

  /** Where and when a scan runs: `socket.gethostname()`, the OS footprint and the calendar day. */
  datatype HostContext = HostContext(hostname: string, osFootprint: string, date: string)

  /** One persisted row, in the column order of the results tables. */
  datatype Row = Row(
    hostname: string,
    osFootprint: string,
    date: string,
    section: string,
    sectionName: string,
    scored: string,
    checklist: string,
    deviation: string)

  const Scored: string := "Scored"
  const NotScored: string := "Not Scored"
  const Compliant: string := "Compliant"
  const NotCompliant: string := "Not Compliant"
  const Deviated: string := "Deviated"
  const NotDeviated: string := "Not Deviated"

  /** True iff the row's three labels are ones the scanner writes and the
      deviation label is the negation of the checklist label. */
  predicate WellLabelled(r: Row) {
    && (r.scored == Scored || r.scored == NotScored)
    && ((r.checklist == Compliant && r.deviation == NotDeviated)
        || (r.checklist == NotCompliant && r.deviation == Deviated))
  }

  /** The row for one check result on the host described by `ctx`. */
  function BuildRow(ctx: HostContext, section: string, sectionName: string,
                    isScored: bool, isCompliant: bool): (r: Row)
    ensures WellLabelled(r)
    ensures (r.scored == Scored) == isScored
    ensures (r.checklist == Compliant) == isCompliant
    ensures (r.deviation == NotDeviated) == isCompliant
    ensures r.hostname == ctx.hostname && r.osFootprint == ctx.osFootprint && r.date == ctx.date
    ensures r.section == section && r.sectionName == sectionName
  {
    var deviation := if isCompliant then NotDeviated else Deviated;
    Row(ctx.hostname, ctx.osFootprint, ctx.date, section, sectionName,
        if isScored then Scored else NotScored,
        if isCompliant then Compliant else NotCompliant,
        deviation)
  }

  /** The host context a row was stamped with. */
  function ContextOf(r: Row): HostContext {
    HostContext(r.hostname, r.osFootprint, r.date)
  }

  /** Every well-labelled row is the row built from its own decoded verdict,
      so a row is well labelled exactly when some check result produced it. */
  lemma WellLabelledIsBuilt(r: Row)
    requires WellLabelled(r)
    ensures r == BuildRow(ContextOf(r), r.section, r.sectionName, r.scored == Scored, r.checklist == Compliant)
  {
  }

  /** Two results give the same row only if they agree on everything the row records. */
  lemma BuildRowInjective(ctx: HostContext, section: string, name: string, sc: bool, co: bool,
                          ctx': HostContext, section': string, name': string, sc': bool, co': bool)
    requires BuildRow(ctx, section, name, sc, co) == BuildRow(ctx', section', name', sc', co')
    ensures ctx == ctx' && section == section' && name == name' && sc == sc' && co == co'
  {
  }
}
