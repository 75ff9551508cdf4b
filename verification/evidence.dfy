/**
 What a check records about the commands it ran. Each command is identified
 by a name; the captured text of a run is the input of the model, and the
 recorded evidence keeps the command and its stripped stdout and stderr under
 that name, in the insertion order of a Python dict.
 */
module Evidence {
  import opened Text

  /** The decoded text one shell command wrote to stdout and stderr. */
  datatype Output = Output(stdout: string, stderr: string)

  /** A command a check runs, with the name its evidence is filed under. */
  datatype Command = Command(name: string, line: string)

  /** The evidence kept for one command: the command and its stripped output. */
  datatype Entry = Entry(name: string, command: string, stdout: string, stderr: string)

  /** The stripped record of running command `c` with result `o`. */
  function Record(c: Command, o: Output): (e: Entry)
    ensures e.name == c.name && e.command == c.line
    ensures e.stdout == [] <==> AllSpace(o.stdout)
    ensures e.stderr == [] <==> AllSpace(o.stderr)
    ensures e.stdout == Strip(o.stdout) && e.stderr == Strip(o.stderr)
  {
    StripEmptyIff(o.stdout);
    StripEmptyIff(o.stderr);
    Entry(c.name, c.line, Strip(o.stdout), Strip(o.stderr))
  }

  /** The labels of some evidence, in order. */
  function Labels(ev: seq<Entry>): (ls: seq<string>)
    ensures |ls| == |ev|
    ensures forall k :: 0 <= k < |ev| ==> ls[k] == ev[k].name
  {
    if ev == [] then [] else [ev[0].name] + Labels(ev[1..])
  }

  /** True iff no two elements of `xs` are equal. */
  predicate Distinct<T(==)>(xs: seq<T>) {
    forall i, j :: 0 <= i < j < |xs| ==> xs[i] != xs[j]
  }

  /** Two distinct sequences with no element in common make a distinct sequence. */
  lemma DistinctAppend<T>(a: seq<T>, b: seq<T>)
    requires Distinct(a) && Distinct(b)
    requires forall i, j :: 0 <= i < |a| && 0 <= j < |b| ==> a[i] != b[j]
    ensures Distinct(a + b)
  {
    forall i, j | 0 <= i < j < |a + b|
      ensures (a + b)[i] != (a + b)[j]
    {
      if j < |a| {
        assert (a + b)[i] == a[i] && (a + b)[j] == a[j];
      } else if i < |a| {
        assert (a + b)[i] == a[i] && (a + b)[j] == b[j - |a|];
      } else {
        assert (a + b)[i] == b[i - |a|] && (a + b)[j] == b[j - |a|];
      }
    }
  }

  datatype Option<T> = None | Some(value: T)

  /** The entry filed under `name`, if any. */
  function Lookup(ev: seq<Entry>, name: string): (r: Option<Entry>)
    ensures r.Some? ==> r.value in ev && r.value.name == name
    ensures r.None? <==> name !in Labels(ev)
  {
    if ev == [] then None
    else if ev[0].name == name then Some(ev[0])
    else
      assert Labels(ev) == [ev[0].name] + Labels(ev[1..]);
      Lookup(ev[1..], name)
  }

  /** Python's `results[e.name] = e`: an existing entry with the same name is
      replaced where it stands, otherwise the entry is appended. */
  function Put(ev: seq<Entry>, e: Entry): (r: seq<Entry>)
    ensures e.name in Labels(ev) ==> Labels(r) == Labels(ev)
    ensures e.name !in Labels(ev) ==> Labels(r) == Labels(ev) + [e.name]
  {
    if ev == [] then [e]
    else if ev[0].name == e.name then [e] + ev[1..]
    else
      assert Labels(ev) == [ev[0].name] + Labels(ev[1..]);
      [ev[0]] + Put(ev[1..], e)
  }

  /** Dict semantics of `Put`: the new entry is found under its name and every
      other name still finds what it found before. */
  lemma {:induction false} LookupPut(ev: seq<Entry>, e: Entry, name: string)
    ensures Lookup(Put(ev, e), name) == if name == e.name then Some(e) else Lookup(ev, name)
  {
    if ev != [] && ev[0].name != e.name {
      LookupPut(ev[1..], e, name);
    }
  }

  /** Putting keeps the labels distinct. */
  lemma PutDistinct(ev: seq<Entry>, e: Entry)
    requires Distinct(Labels(ev))
    ensures Distinct(Labels(Put(ev, e)))
  {
  }

  /** True iff no two of `cmds` share a name. */
  predicate DistinctLabels(cmds: seq<Command>) {
    forall i, j :: 0 <= i < j < |cmds| ==> cmds[i].name != cmds[j].name
  }

  /** The evidence a check builds by running `cmds` in order and filing each
      result under its command's name, as the source's loops over a command dict do. */
  function Collect(cmds: seq<Command>, outs: seq<Output>): (ev: seq<Entry>)
    requires |cmds| == |outs|
    ensures Distinct(Labels(ev))
  {
    if cmds == [] then []
    else
      var n := |cmds| - 1;
      var prev := Collect(cmds[..n], outs[..n]);
      PutDistinct(prev, Record(cmds[n], outs[n]));
      Put(prev, Record(cmds[n], outs[n]))
  }

  /** With distinct labels no entry overwrites another: the evidence holds
      exactly one entry per command, in command order, each recording that
      command's stripped output. */
  lemma {:induction false} CollectDistinct(cmds: seq<Command>, outs: seq<Output>)
    requires |cmds| == |outs|
    requires DistinctLabels(cmds)
    ensures |Collect(cmds, outs)| == |cmds|
    ensures forall k :: 0 <= k < |cmds| ==> Collect(cmds, outs)[k] == Record(cmds[k], outs[k])
  {
    if cmds != [] {
      var n := |cmds| - 1;
      assert DistinctLabels(cmds[..n]);
      CollectDistinct(cmds[..n], outs[..n]);
      var prev := Collect(cmds[..n], outs[..n]);
      var e := Record(cmds[n], outs[n]);
      FreshName(prev, cmds);
      PutAbsent(prev, e);
      assert Collect(cmds, outs) == prev + [e];
      forall k | 0 <= k < |cmds|
        ensures Collect(cmds, outs)[k] == Record(cmds[k], outs[k])
      {
        if k < n {
          assert cmds[..n][k] == cmds[k] && outs[..n][k] == outs[k];
        }
      }
    }
  }

  /** The last command's name is not yet filed in evidence whose names are
      those of the earlier commands. */
  lemma FreshName(prev: seq<Entry>, cmds: seq<Command>)
    requires DistinctLabels(cmds) && |prev| + 1 == |cmds|
    requires forall k :: 0 <= k < |prev| ==> prev[k].name == cmds[k].name
    ensures cmds[|prev|].name !in Labels(prev)
  {
  }

  /** Putting an entry under a fresh name appends it. */
  lemma {:induction false} PutAbsent(ev: seq<Entry>, e: Entry)
    requires e.name !in Labels(ev)
    ensures Put(ev, e) == ev + [e]
  {
    if ev != [] {
      assert Labels(ev)[0] == ev[0].name;
      assert e.name !in Labels(ev[1..]) by {
        assert Labels(ev) == [ev[0].name] + Labels(ev[1..]);
      }
      PutAbsent(ev[1..], e);
      calc {
        Put(ev, e);
        [ev[0]] + Put(ev[1..], e);
        [ev[0]] + (ev[1..] + [e]);
        { assert ev == [ev[0]] + ev[1..]; }
        ev + [e];
      }
    }
  }
}
