/** `cip_info_cli_store` and `cip_info_cli_free` take no lock around the table and
    `cli_num`, and two tasks call them. Here each call is split into its accesses
    to the shared state, and the counter is shown to be exact precisely when the
    calls do not overlap. */
module CipStores {
  import opened CipTable

  datatype Who = AtTask | RecvTask

  /** How far a task is in such a call: outside; with a vacant entry chosen or an
      occupied one about to be cleared; with the entry written; with `cli_num`
      loaded but not yet stored back. */
  datatype Call = Out | Chosen(i: nat, fd: int) | Doomed(i: nat) | Wrote(delta: int) | Loaded(num: int, delta: int)

  datatype Table = Table(cli: seq<Client>, num: int, at: Call, recv: Call) {
    function Of(who: Who): Call { if who.AtTask? then at else recv }

    function With(who: Who, call: Call): Table {
      if who.AtTask? then this.(at := call) else this.(recv := call)
    }

    predicate Calm() { at.Out? && recv.Out? }
  }

  function Other(who: Who): Who { if who.AtTask? then RecvTask else AtTask }

  datatype Step =
    | Choose(who: Who, i: nat, fd: int)   // the first vacant entry, or the one asked for
    | Doom(i: nat)                        // only the receive task frees
    | Write(who: Who)
    | Load(who: Who)
    | Save(who: Who)

  function Written(t: Table, who: Who): Table {
    match t.Of(who)
    case Chosen(i, fd) => if i < |t.cli| then t.(cli := t.cli[i := Client(fd, false)]).With(who, Wrote(1)) else t
    case Doomed(i) => if i < |t.cli| then t.(cli := t.cli[i := VACANT]).With(who, Wrote(-1)) else t
    case _ => t
  }

  predicate Next(t: Table, step: Step, t': Table) {
    match step
    case Choose(who, i, fd) =>
      t.Of(who).Out? && i < |t.cli| && t.cli[i].fd < 0 && fd >= 0 && t' == t.With(who, Chosen(i, fd))
    case Doom(i) => t.recv.Out? && i < |t.cli| && t.cli[i].fd >= 0 && t' == t.(recv := Doomed(i))
    case Write(who) => (t.Of(who).Chosen? || t.Of(who).Doomed?) && t' == Written(t, who)
    case Load(who) => t.Of(who).Wrote? && t' == t.With(who, Loaded(t.num, t.Of(who).delta))
    case Save(who) => t.Of(who).Loaded? && t' == t.(num := t.Of(who).num + t.Of(who).delta).With(who, Out)
  }

  /** The call has yet to write entry k. */
  predicate Touches(call: Call, k: nat) { (call.Chosen? || call.Doomed?) && call.i == k }

  predicate Begins(step: Step) { step.Choose? || step.Doom? }

  function Caller(step: Step): Who { if step.Doom? then RecvTask else step.who }

  /** A call begins only while the other task is outside. */
  predicate Alone(t: Table, step: Step) { Begins(step) ==> t.Of(Other(Caller(step))).Out? }

  // ---- Calls that do not overlap ------------------------------------------------------

  /** What the counter still lacks, and what the call relies on. */
  predicate Consistent(t: Table, call: Call) {
    match call
    case Out => t.num == Live(t.cli)
    case Chosen(i, fd) => t.num == Live(t.cli) && i < |t.cli| && t.cli[i].fd < 0 && fd >= 0
    case Doomed(i) => t.num == Live(t.cli) && i < |t.cli| && t.cli[i].fd >= 0
    case Wrote(d) => t.num + d == Live(t.cli)
    case Loaded(v, d) => v == t.num && t.num + d == Live(t.cli)
  }

  predicate Inv(t: Table) {
    (t.at.Out? || t.recv.Out?) && !t.at.Doomed? && Consistent(t, if t.at.Out? then t.recv else t.at)
  }

  lemma StepKeepsInv(t: Table, step: Step, t': Table)
    requires Inv(t) && Next(t, step, t') && Alone(t, step)
    ensures Inv(t')
  {
    if step.Write? {
      match t.Of(step.who)
      case Chosen(i, fd) => LiveUpdate(t.cli, i, Client(fd, false));
      case Doomed(i) => LiveUpdate(t.cli, i, VACANT);
    }
  }

  // ---- Runs ---------------------------------------------------------------------------

  datatype Run = Run(states: seq<Table>, steps: seq<Step>)

  ghost predicate IsRun(r: Run) {
    && |r.states| == |r.steps| + 1
    && forall k :: 0 <= k < |r.steps| ==> Next(r.states[k], r.steps[k], r.states[k + 1])
  }

  function Last(r: Run): Table
    requires r.states != []
  {
    r.states[|r.states| - 1]
  }

  /** In every run whose calls do not overlap, the counter is the number of live
      entries whenever no call is under way. */
  lemma {:induction false} CountGuarantee(r: Run, k: nat)
    requires IsRun(r) && Inv(r.states[0]) && k < |r.states|
    requires forall n :: 0 <= n < |r.steps| ==> Alone(r.states[n], r.steps[n])
    ensures Inv(r.states[k]) && (r.states[k].Calm() ==> r.states[k].num == Live(r.states[k].cli))
  {
    if k > 0 {
      CountGuarantee(r, k - 1);
      StepKeepsInv(r.states[k - 1], r.steps[k - 1], r.states[k]);
    }
  }

  /** The call that step begins, and what else is under way, run to their ends. */
  ghost predicate Finishes(r: Run, t: Table, step: Step) {
    && Started(r, t, step) && Last(r).Calm()
  }

  ghost predicate Started(r: Run, t: Table, step: Step) {
    && IsRun(r) && r.steps != [] && r.states[0] == t && r.steps[0] == step
    && forall n :: 1 <= n < |r.steps| ==> !Begins(r.steps[n])
  }

  lemma Go(r: Run, t: Table, first: Step, step: Step, t': Table) returns (r': Run)
    requires Started(r, t, first) && Next(Last(r), step, t') && !Begins(step)
    ensures Started(r', t, first) && Last(r') == t'
  {
    r' := Run(r.states + [t'], r.steps + [step]);
  }

  /** The rest of a call, undisturbed. */
  lemma Complete(r: Run, t: Table, first: Step, who: Who) returns (r': Run)
    requires Started(r, t, first) && (Last(r).Of(who).Chosen? || Last(r).Of(who).Doomed?) && Last(r).Of(who).i < |Last(r).cli|
    ensures Started(r', t, first)
    ensures var a := Last(r);
            var w := Written(a, who);
            Last(r') == w.(num := a.num + w.Of(who).delta).With(who, Out)
  {
    var a := Last(r);
    var w := Written(a, who);
    r' := Go(r, t, first, Write(who), w);
    r' := Go(r', t, first, Load(who), w.With(who, Loaded(w.num, w.Of(who).delta)));
    r' := Go(r', t, first, Save(who), w.(num := a.num + w.Of(who).delta).With(who, Out));
  }

  /** The other task, taken to the point where it has loaded the counter. */
  lemma ToLoaded(r: Run, t: Table, first: Step, who: Who) returns (r': Run)
    requires Started(r, t, first) && !Last(r).Of(who).Out? && Consistent(Last(r), Last(r).Of(who))
    ensures Started(r', t, first) && Last(r').Of(who).Loaded? && Last(r').Of(Other(who)) == Last(r).Of(Other(who))
    ensures Consistent(Last(r'), Last(r').Of(who))
    ensures |Last(r').cli| == |Last(r).cli|
    ensures forall k :: 0 <= k < |Last(r).cli| && !Touches(Last(r).Of(who), k) ==> Last(r').cli[k] == Last(r).cli[k]
  {
    r' := r;
    var a := Last(r');
    if a.Of(who).Chosen? || a.Of(who).Doomed? {
      LiveUpdate(a.cli, a.Of(who).i, if a.Of(who).Chosen? then Client(a.Of(who).fd, false) else VACANT);
      r' := Go(r', t, first, Write(who), Written(a, who));
    }
    a := Last(r');
    if a.Of(who).Wrote? {
      r' := Go(r', t, first, Load(who), a.With(who, Loaded(a.num, a.Of(who).delta)));
    }
  }

  lemma FinishedCount(t: Table, who: Who)
    requires t.Of(who).Chosen? || t.Of(who).Doomed?
    requires t.Of(who).i < |t.cli| && (t.Of(who).Doomed? <==> t.cli[t.Of(who).i].fd >= 0) && (t.Of(who).Chosen? ==> t.Of(who).fd >= 0)
    ensures Written(t, who).Of(who).Wrote? && Written(t, who).Of(who).delta != 0
    ensures Live(Written(t, who).cli) == Live(t.cli) + Written(t, who).Of(who).delta
  {
    LiveUpdate(t.cli, t.Of(who).i, if t.Of(who).Chosen? then Client(t.Of(who).fd, false) else VACANT);
  }

  /** Two stores that chose the same entry: one live entry, counted twice. */
  lemma SameEntry(r: Run, t: Table, first: Step) returns (r': Run)
    requires Started(r, t, first) && Last(r).at.Chosen? && Last(r).recv.Chosen? && Last(r).at.i == Last(r).recv.i
    requires Consistent(Last(r), Last(r).at) && Last(r).recv.fd >= 0
    ensures Finishes(r', t, first) && Last(r').num == Last(r).num + 2 == Live(Last(r').cli) + 1
  {
    var a := Last(r);
    LiveUpdate(a.cli, a.at.i, Client(a.at.fd, false));
    r' := Complete(r, t, first, AtTask);
    LiveUpdate(Last(r').cli, a.at.i, Client(a.recv.fd, false));
    r' := Complete(r', t, first, RecvTask);
  }

  /** Anything else: the second call's update of the counter is lost. */
  lemma LostUpdate(r: Run, t: Table, first: Step, who: Who) returns (r': Run)
    requires Started(r, t, first) && Last(r).Of(who).Loaded? && Consistent(Last(r), Last(r).Of(who))
    requires var mine := Last(r).Of(Other(who));
             && (mine.Chosen? || mine.Doomed?) && mine.i < |Last(r).cli|
             && (mine.Doomed? <==> Last(r).cli[mine.i].fd >= 0) && (mine.Chosen? ==> mine.fd >= 0)
    ensures Finishes(r', t, first) && Last(r').num != Live(Last(r').cli)
  {
    var a, me := Last(r), Other(who);
    FinishedCount(a, me);
    r' := Complete(r, t, first, me);
    var b := Last(r');
    r' := Go(r', t, first, Save(who), b.(num := b.Of(who).num + b.Of(who).delta).With(who, Out));
  }

  /** Wherever the other task is in its call, a call begun then can leave the
      counter wrong. */
  lemma OverlapMiscounts(t: Table, step: Step, t': Table) returns (r: Run)
    requires Inv(t) && Begins(step) && Next(t, step, t') && !Alone(t, step)
    ensures Finishes(r, t, step) && Last(r).num != Live(Last(r).cli)
  {
    var me := Caller(step);
    var other := Other(me);
    r := Run([t, t'], [step]);
    if t.Of(other).Chosen? && step.Choose? && t.Of(other).i == step.i {
      r := SameEntry(r, t, step);
    } else {
      assert Consistent(t', t'.Of(other)) && !Touches(t'.Of(other), step.i);
      r := ToLoaded(r, t, step, other);
      r := LostUpdate(r, t, step, other);
    }
  }

  /** The exact condition: however the calls under way are scheduled, the counter
      is right when they have returned, if and only if the call was begun with the
      other task outside. */
  lemma CountExactIff(t: Table, step: Step, t': Table)
    requires Inv(t) && Begins(step) && Next(t, step, t')
    ensures (forall r :: Finishes(r, t, step) ==> Last(r).num == Live(Last(r).cli)) <==> Alone(t, step)
  {
    if Alone(t, step) {
      forall r | Finishes(r, t, step)
        ensures Last(r).num == Live(Last(r).cli)
      {
        assert forall n :: 0 <= n < |r.steps| ==> Alone(r.states[n], r.steps[n]);
        CountGuarantee(r, |r.states| - 1);
      }
    } else {
      var r := OverlapMiscounts(t, step, t');
      assert Last(r).num != Live(Last(r).cli);
    }
  }

  /** From the empty table: both tasks are given entry 0, and one connection is
      counted as two. */
  lemma RaceIsReached(t: Table, fd0: nat, fd1: nat) returns (r: Run)
    requires t.Calm() && t.num == 0 && |t.cli| == MAX_CLIENT_NUM && forall i :: 0 <= i < |t.cli| ==> t.cli[i] == VACANT
    ensures IsRun(r) && r.states[0] == t && Last(r).Calm() && Last(r).num == 2 && Live(Last(r).cli) == 1
  {
    NoneLive(t.cli);
    var t1 := t.(at := Chosen(0, fd0));
    var t2 := t1.(recv := Chosen(0, fd1));
    var step := Choose(RecvTask, 0, fd1);
    var r' := SameEntry(Run([t1, t2], [step]), t1, step);
    r := Run([t] + r'.states, [Choose(AtTask, 0, fd0)] + r'.steps);
    forall k | 0 <= k < |r.steps|
      ensures Next(r.states[k], r.steps[k], r.states[k + 1])
    {
      if k > 0 { assert Next(r'.states[k - 1], r'.steps[k - 1], r'.states[k]); }
    }
  }
}
