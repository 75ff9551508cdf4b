/**
 Compliance rules: a small combinator language over the captured output of a
 check's commands, addressed by position. Every check of the benchmark is an
 instance of one of the shapes built at the end of this module. An atom that
 names a command with no captured output is false, so missing evidence never
 makes a check compliant.
 */
module Rules {
  import opened Text
  import opened Evidence

  datatype Rule =
    | Const(b: bool)                 // a fixed verdict
    | Blank(i: nat)                  // `not out.strip()` for command i
    | NonBlank(i: nat)               // `out.strip()` is non-empty for command i
    | ErrBlank(i: nat)               // `not err.strip()` for command i
    | RawHas(i: nat, text: string)   // `text in out`, on the unstripped stdout
    | Has(i: nat, text: string)      // `text in out.strip()`
    | Equals(i: nat, text: string)   // `out.strip() == text`
    | EveryLine(i: nat, text: string) // every line of `out.strip()` contains `text`
    | SomeHas(n: nat, texts: seq<string>) // one of `texts` is in `out.strip()` for one of commands 0..n-1
    | EachNonBlank(n: nat)           // `out.strip()` is non-empty for each of commands 0..n-1
    | SomeNonBlank(n: nat)           // `out.strip()` is non-empty for one of commands 0..n-1
    | And(left: Rule, right: Rule)
    | Or(left: Rule, right: Rule)

  /** The verdict of `r` on the outputs of a check's commands. */
  function Eval(r: Rule, outs: seq<Output>): (b: bool) {
    match r
    case Const(b) => b
    case Blank(i) => i < |outs| && Strip(outs[i].stdout) == []
    case NonBlank(i) => i < |outs| && Strip(outs[i].stdout) != []
    case ErrBlank(i) => i < |outs| && Strip(outs[i].stderr) == []
    case RawHas(i, t) => i < |outs| && Contains(outs[i].stdout, t)
    case Has(i, t) => i < |outs| && Contains(Strip(outs[i].stdout), t)
    case Equals(i, t) => i < |outs| && Strip(outs[i].stdout) == t
    case EveryLine(i, t) => i < |outs| && EveryLineContains(Strip(outs[i].stdout), t)
    case SomeHas(n, ts) =>
      exists i, j :: 0 <= i < n && i < |outs| && 0 <= j < |ts| && Contains(Strip(outs[i].stdout), ts[j])
    case EachNonBlank(n) => n <= |outs| && forall i :: 0 <= i < n ==> Strip(outs[i].stdout) != []
    case SomeNonBlank(n) => exists i :: 0 <= i < n && i < |outs| && Strip(outs[i].stdout) != []
    case And(a, b) => Eval(a, outs) && Eval(b, outs)
    case Or(a, b) => Eval(a, outs) || Eval(b, outs)
  }

  /** True iff every command `r` refers to is one of the first `n`. */
  predicate RefersWithin(r: Rule, n: nat) {
    match r
    case Const(_) => true
    case Blank(i) => i < n
    case NonBlank(i) => i < n
    case ErrBlank(i) => i < n
    case RawHas(i, _) => i < n
    case Has(i, _) => i < n
    case Equals(i, _) => i < n
    case EveryLine(i, _) => i < n
    case SomeHas(m, _) => m <= n
    case EachNonBlank(m) => m <= n
    case SomeNonBlank(m) => m <= n
    case And(a, b) => RefersWithin(a, n) && RefersWithin(b, n)
    case Or(a, b) => RefersWithin(a, n) && RefersWithin(b, n)
  }

  /** A rule depends only on the outputs of the commands it refers to. */
  lemma {:induction false} EvalPrefix(r: Rule, outs: seq<Output>, more: seq<Output>)
    requires RefersWithin(r, |outs|)
    ensures Eval(r, outs + more) == Eval(r, outs)
  {
    assert forall i :: 0 <= i < |outs| ==> (outs + more)[i] == outs[i];
    match r
    case And(a, b) =>
      EvalPrefix(a, outs, more);
      EvalPrefix(b, outs, more);
    case Or(a, b) =>
      EvalPrefix(a, outs, more);
      EvalPrefix(b, outs, more);
    case _ =>
  }

  // The shapes of the benchmark's checks.

  /** A kernel module check: `modprobe -n -v` (command 0) either prints the
      expected insmod line or nothing, and `lsmod | grep` (command 1) prints nothing. */
  function ModuleDisabled(insmodLine: string): (r: Rule)
    ensures RefersWithin(r, 2)
  {
    And(Or(RawHas(0, insmodLine), Blank(0)), Blank(1))
  }

  /** The single command prints nothing (the `grep -v <option>` checks). */
  function NoOutput(): (r: Rule)
    ensures RefersWithin(r, 1)
  {
    Blank(0)
  }

  /** The single command prints exactly `expected`, up to surrounding whitespace. */
  function ExactOutput(expected: string): (r: Rule)
    ensures RefersWithin(r, 1)
  {
    Equals(0, expected)
  }

  /** Some of the first `n` commands prints `text`; false when `n` is 0, like
      Python's `any([])`. */
  function SomeOutputHas(text: string, n: nat): (r: Rule)
    ensures RefersWithin(r, n)
  {
    SomeHas(n, [text])
  }

  /** Some of the first `n` commands prints one of `texts`. */
  function AnyOutputHasAny(texts: seq<string>, n: nat): (r: Rule)
    ensures RefersWithin(r, n)
  {
    SomeHas(n, texts)
  }

  /** Each of the first `n` commands prints something; true when `n` is 0,
      like Python's `all([])`. */
  function AllNonBlank(n: nat): (r: Rule)
    ensures RefersWithin(r, n)
  {
    EachNonBlank(n)
  }

  /** One of the first `n` commands prints something. */
  function AnyNonBlank(n: nat): (r: Rule)
    ensures RefersWithin(r, n)
  {
    SomeNonBlank(n)
  }

  /** The single command prints something and each printed line mentions `option`. */
  function EveryLineHasOption(option: string): (r: Rule)
    ensures RefersWithin(r, 1)
  {
    And(NonBlank(0), EveryLine(0, option))
  }

  /** The single command reports "disabled" and writes nothing to stderr. */
  function ReportsDisabled(): (r: Rule)
    ensures RefersWithin(r, 1)
  {
    And(ErrBlank(0), Equals(0, "disabled"))
  }

  // What each shape means.

  /** A module check passes iff modprobe's raw output holds the insmod line or
      is all whitespace, and lsmod's output is all whitespace. */
  lemma ModuleDisabledIff(insmodLine: string, outs: seq<Output>)
    requires |outs| == 2
    ensures Eval(ModuleDisabled(insmodLine), outs) <==>
      (Contains(outs[0].stdout, insmodLine) || AllSpace(outs[0].stdout)) && AllSpace(outs[1].stdout)
  {
    assert Eval(Or(RawHas(0, insmodLine), Blank(0)), outs) ==
      (Contains(outs[0].stdout, insmodLine) || Strip(outs[0].stdout) == []);
    StripEmptyIff(outs[0].stdout);
    StripEmptyIff(outs[1].stdout);
  }

  /** Any visible lsmod output fails a module check, whatever modprobe printed. */
  lemma ModuleLoadedFails(insmodLine: string, outs: seq<Output>)
    requires |outs| == 2 && !AllSpace(outs[1].stdout)
    ensures !Eval(ModuleDisabled(insmodLine), outs)
  {
    ModuleDisabledIff(insmodLine, outs);
  }

  /** `SomeOutputHas` holds iff some command's stripped output contains `text`. */
  lemma SomeOutputHasIff(text: string, outs: seq<Output>)
    ensures Eval(SomeOutputHas(text, |outs|), outs) <==>
      exists i :: 0 <= i < |outs| && Contains(Strip(outs[i].stdout), text)
  {
    var texts := [text];
    if Eval(SomeOutputHas(text, |outs|), outs) {
      var i, j :| 0 <= i < |outs| && 0 <= j < |texts| && Contains(Strip(outs[i].stdout), texts[j]);
      assert texts[j] == text;
    }
    if exists i :: 0 <= i < |outs| && Contains(Strip(outs[i].stdout), text) {
      var i :| 0 <= i < |outs| && Contains(Strip(outs[i].stdout), text);
      assert Contains(Strip(outs[i].stdout), texts[0]);
    }
  }

  /** For a single command, `SomeOutputHas` is a containment test on its stripped output. */
  lemma SomeOutputHasOne(text: string, outs: seq<Output>)
    requires |outs| == 1
    ensures Eval(SomeOutputHas(text, 1), outs) <==> Contains(Strip(outs[0].stdout), text)
  {
    SomeOutputHasIff(text, outs);
    if Contains(Strip(outs[0].stdout), text) {
      assert 0 < |outs|;
    }
  }

  /** For two commands, `SomeOutputHas` tests the stripped output of each. */
  lemma SomeOutputHasTwo(text: string, outs: seq<Output>)
    requires |outs| == 2
    ensures Eval(SomeOutputHas(text, 2), outs) <==>
      Contains(Strip(outs[0].stdout), text) || Contains(Strip(outs[1].stdout), text)
  {
    SomeOutputHasIff(text, outs);
    if Contains(Strip(outs[0].stdout), text) {
      assert 0 < |outs|;
    }
    if Contains(Strip(outs[1].stdout), text) {
      assert 1 < |outs|;
    }
  }

  /** `AnyOutputHasAny` holds iff one of `texts` occurs in one command's stripped output. */
  lemma AnyOutputHasAnyIff(texts: seq<string>, outs: seq<Output>)
    ensures Eval(AnyOutputHasAny(texts, |outs|), outs) <==>
      exists j, i :: 0 <= j < |texts| && 0 <= i < |outs| && Contains(Strip(outs[i].stdout), texts[j])
  {
  }

  /** `out` holds one of the two texts `ts`. */
  predicate HasOneOfTwo(out: string, ts: seq<string>)
    requires |ts| == 2
  {
    Contains(out, ts[0]) || Contains(out, ts[1])
  }

  /** `out` holds one of the three texts `ts`. */
  predicate HasOneOfThree(out: string, ts: seq<string>)
    requires |ts| == 3
  {
    Contains(out, ts[0]) || Contains(out, ts[1]) || Contains(out, ts[2])
  }

  /** Finding the `j`-th of two texts is finding one of them. */
  lemma OneOfTwo(out: string, ts: seq<string>, j: int)
    requires |ts| == 2 && 0 <= j < 2 && Contains(out, ts[j])
    ensures HasOneOfTwo(out, ts)
  {
  }

  /** Finding one of two texts names the one found. */
  lemma PickOfTwo(out: string, ts: seq<string>) returns (j: int)
    requires |ts| == 2 && HasOneOfTwo(out, ts)
    ensures 0 <= j < 2 && Contains(out, ts[j])
  {
    j := if Contains(out, ts[0]) then 0 else 1;
  }

  /** Finding the `j`-th of three texts is finding one of them. */
  lemma OneOfThree(out: string, ts: seq<string>, j: int)
    requires |ts| == 3 && 0 <= j < 3 && Contains(out, ts[j])
    ensures HasOneOfThree(out, ts)
  {
  }

  /** Finding one of three texts names the one found. */
  lemma PickOfThree(out: string, ts: seq<string>) returns (j: int)
    requires |ts| == 3 && HasOneOfThree(out, ts)
    ensures 0 <= j < 3 && Contains(out, ts[j])
  {
    j := if Contains(out, ts[0]) then 0 else if Contains(out, ts[1]) then 1 else 2;
  }

  /** With two expected texts, the search succeeds iff one output holds
      one of the two. */
  lemma AnyOfTwoIff(ts: seq<string>, outs: seq<Output>)
    requires |ts| == 2
    ensures Eval(AnyOutputHasAny(ts, |outs|), outs) <==>
      exists i :: 0 <= i < |outs| && HasOneOfTwo(Strip(outs[i].stdout), ts)
  {
    if Eval(AnyOutputHasAny(ts, |outs|), outs) {
      var i, j :| 0 <= i < |outs| && 0 <= j < |ts| && Contains(Strip(outs[i].stdout), ts[j]);
      OneOfTwo(Strip(outs[i].stdout), ts, j);
    }
    if exists i :: 0 <= i < |outs| && HasOneOfTwo(Strip(outs[i].stdout), ts) {
      var i :| 0 <= i < |outs| && HasOneOfTwo(Strip(outs[i].stdout), ts);
      var j := PickOfTwo(Strip(outs[i].stdout), ts);
      assert 0 <= j < |ts| && Contains(Strip(outs[i].stdout), ts[j]);
    }
  }

  /** With three expected texts, the search succeeds iff one output holds
      one of the three. */
  lemma AnyOfThreeIff(ts: seq<string>, outs: seq<Output>)
    requires |ts| == 3
    ensures Eval(AnyOutputHasAny(ts, |outs|), outs) <==>
      exists i :: 0 <= i < |outs| && HasOneOfThree(Strip(outs[i].stdout), ts)
  {
    if Eval(AnyOutputHasAny(ts, |outs|), outs) {
      var i, j :| 0 <= i < |outs| && 0 <= j < |ts| && Contains(Strip(outs[i].stdout), ts[j]);
      OneOfThree(Strip(outs[i].stdout), ts, j);
    }
    if exists i :: 0 <= i < |outs| && HasOneOfThree(Strip(outs[i].stdout), ts) {
      var i :| 0 <= i < |outs| && HasOneOfThree(Strip(outs[i].stdout), ts);
      var j := PickOfThree(Strip(outs[i].stdout), ts);
      assert 0 <= j < |ts| && Contains(Strip(outs[i].stdout), ts[j]);
    }
  }

  /** When no command prints anything, no non-empty text is found: empty
      evidence fails a containment check. */
  lemma AnyOutputHasAnyBlank(texts: seq<string>, outs: seq<Output>)
    requires forall j :: 0 <= j < |texts| ==> texts[j] != []
    requires forall i :: 0 <= i < |outs| ==> AllSpace(outs[i].stdout)
    ensures !Eval(AnyOutputHasAny(texts, |outs|), outs)
  {
    forall j, i | 0 <= j < |texts| && 0 <= i < |outs|
      ensures !Contains(Strip(outs[i].stdout), texts[j])
    {
      StripEmptyIff(outs[i].stdout);
      ContainsEmpty([], texts[j]);
    }
  }

  /** `AllNonBlank` holds iff every command prints something visible. */
  lemma AllNonBlankIff(outs: seq<Output>)
    ensures Eval(AllNonBlank(|outs|), outs) <==> forall i :: 0 <= i < |outs| ==> !AllSpace(outs[i].stdout)
  {
    forall i | 0 <= i < |outs| {
      StripEmptyIff(outs[i].stdout);
    }
  }

  /** `AnyNonBlank` holds iff some command prints something visible. */
  lemma AnyNonBlankIff(outs: seq<Output>)
    ensures Eval(AnyNonBlank(|outs|), outs) <==> exists i :: 0 <= i < |outs| && !AllSpace(outs[i].stdout)
  {
    forall i | 0 <= i < |outs| {
      StripEmptyIff(outs[i].stdout);
    }
  }

  /** An option missing from the whole visible mount output fails the
      every-line check, and so does output with nothing visible. */
  lemma EveryLineHasOptionMissing(option: string, outs: seq<Output>)
    requires |outs| == 1
    requires AllSpace(outs[0].stdout) || !Contains(Strip(outs[0].stdout), option)
    ensures !Eval(EveryLineHasOption(option), outs)
  {
    StripEmptyIff(outs[0].stdout);
    var s := Strip(outs[0].stdout);
    if s != [] {
      var ls := SplitLines(s);
      assert ls[0] in ls;
      if Contains(ls[0], option) {
        ContainsTransitive(s, ls[0], option);
      }
    }
  }

  /** On output that is a single visible line, the every-line check is a plain containment test. */
  lemma EveryLineHasOptionSingleLine(option: string, outs: seq<Output>)
    requires |outs| == 1 && Strip(outs[0].stdout) != [] && SingleLine(Strip(outs[0].stdout))
    ensures Eval(EveryLineHasOption(option), outs) <==> Contains(Strip(outs[0].stdout), option)
  {
    SplitSingleLine(Strip(outs[0].stdout));
  }

  /** The automount check passes iff stderr is all whitespace and the stripped stdout is "disabled". */
  lemma ReportsDisabledIff(outs: seq<Output>)
    requires |outs| == 1
    ensures Eval(ReportsDisabled(), outs) <==> AllSpace(outs[0].stderr) && Strip(outs[0].stdout) == "disabled"
  {
    StripEmptyIff(outs[0].stderr);
  }
}
