/** The Wi-Fi event loop's timeout list over a 32-bit millisecond clock. */
module EventLoop {
  import opened Common

  const M := 0x1_0000_0000
  const HALF := 0x8000_0000
  const ELOOP_ALL_CTX := -1

  /** A pending timeout. `due` is its expiry on a clock that never wraps and `id`
      its place in the order of registration; the source keeps `due` modulo 2^32. */
  datatype Timeout = Timeout(due: nat, id: nat, handler: int, eloopData: int, userData: int) {
    function Time(): nat { due % M }
  }

  // ---- Circular comparison -----------------------------------------------------------

  predicate AfterEq(a: int, b: int) { (a - b) % M < HALF }

  predicate Before(a: int, b: int) { (a - b) % M >= HALF }

  lemma ModShift(x: int)
    ensures -M <= x < 0 ==> x % M == x + M
    ensures 0 <= x < M ==> x % M == x
  {
  }

  /** The circular test on 32-bit values is the true comparison exactly while
      the two instants are less than half the range apart. */
  lemma CircularTestIff(clock: nat, due: nat)
    requires -M < clock - due < M
    ensures (AfterEq(clock % M, due % M) <==> clock >= due) <==> -HALF <= clock - due < HALF
  {
    assert (clock % M - due % M) % M == (clock - due) % M by { ModDifference(clock, due); }
    ModShift(clock - due);
  }

  lemma ModDifference(a: nat, b: nat)
    ensures (a % M - b % M) % M == (a - b) % M
  {
    var q := a / M - b / M;
    assert a - b == q * M + (a % M - b % M);
    ModPlus(q, a % M - b % M);
  }

  lemma ModPlus(q: int, x: int)
    ensures (q * M + x) % M == x % M
  {
  }

  // ---- Insertion -----------------------------------------------------------------------

  /** Where the scan stops: the first entry whose 32-bit time is greater. */
  function Position(list: seq<Timeout>, t: Timeout): (p: nat)
    ensures p <= |list|
    ensures p < |list| ==> t.Time() < list[p].Time()
    ensures forall i :: 0 <= i < p ==> list[i].Time() <= t.Time()
  {
    if list == [] || t.Time() < list[0].Time() then 0 else 1 + Position(list[1..], t)
  }

  function Inserted(list: seq<Timeout>, t: Timeout): seq<Timeout> {
    list[..Position(list, t)] + [t] + list[Position(list, t)..]
  }

  /** Strictly ordered by expiry, then by registration. */
  ghost predicate Ordered(list: seq<Timeout>) {
    forall i, j :: 0 <= i < j < |list| ==> Precedes(list[i], list[j])
  }

  predicate Precedes(a: Timeout, b: Timeout) { a.due < b.due || (a.due == b.due && a.id < b.id) }

  ghost predicate DueOrdered(list: seq<Timeout>) {
    forall i, j :: 0 <= i < j < |list| ==> list[i].due <= list[j].due
  }

  /** A list split where a new element fits stays ordered. */
  lemma OrderedWithin(list: seq<Timeout>, p: nat, t: Timeout)
    requires Ordered(list) && p <= |list|
    requires forall i :: 0 <= i < p ==> Precedes(list[i], t)
    requires forall i :: p <= i < |list| ==> Precedes(t, list[i])
    ensures Ordered(list[..p] + [t] + list[p..])
  {
    var r := list[..p] + [t] + list[p..];
    assert forall i :: 0 <= i < p ==> r[i] == list[i];
    assert forall i :: p < i < |r| ==> r[i] == list[i - 1];
  }

  lemma InsertKeepsOrder(list: seq<Timeout>, t: Timeout)
    requires Ordered(list) && t.due < M
    requires forall i :: 0 <= i < |list| ==> list[i].due < M && list[i].id < t.id
    ensures Ordered(Inserted(list, t))
  {
    var p := Position(list, t);
    forall i | 0 <= i < p
      ensures Precedes(list[i], t)
    {
      assert list[i].Time() == list[i].due && t.Time() == t.due;
    }
    forall i | p <= i < |list|
      ensures Precedes(t, list[i])
    {
      assert list[p].Time() == list[p].due && t.Time() == t.due;
      if p < i { assert Precedes(list[p], list[i]); }
    }
    OrderedWithin(list, p, t);
  }

  function Epoch(t: Timeout): nat { t.due / M }

  lemma EpochOrder(a: Timeout, b: Timeout)
    requires -M < a.due - b.due < M
    ensures Epoch(a) == Epoch(b) ==> (a.Time() < b.Time() <==> a.due < b.due)
    ensures Epoch(a) < Epoch(b) ==> a.due < b.due && b.Time() < a.Time()
    ensures Epoch(a) > Epoch(b) ==> b.due < a.due && a.Time() < b.Time()
  {
    assert a.due == Epoch(a) * M + a.Time() && b.due == Epoch(b) * M + b.Time();
  }

  /** Insertion compares plain 32-bit values. Across the wrap it keeps the list in
      order of expiry exactly when nothing pending belongs to an earlier round of
      the clock, and, if something belongs to a later round, some entry of the new
      timeout's own round is due after it. */
  lemma OrderSurvivesWrapIff(list: seq<Timeout>, t: Timeout)
    requires DueOrdered(list) && forall i :: 0 <= i < |list| ==> -M < list[i].due - t.due < M
    ensures DueOrdered(Inserted(list, t)) <==>
            && (forall i :: 0 <= i < |list| ==> Epoch(list[i]) >= Epoch(t))
            && ((exists i :: 0 <= i < |list| && Epoch(list[i]) > Epoch(t)) ==>
                  exists i :: 0 <= i < |list| && Epoch(list[i]) == Epoch(t) && list[i].due > t.due)
  {
    var p := Position(list, t);
    var r := Inserted(list, t);
    forall i | 0 <= i < |list|
      ensures Epoch(list[i]) < Epoch(t) ==> list[i].due < t.due && t.Time() < list[i].Time()
      ensures Epoch(list[i]) == Epoch(t) ==> (t.Time() < list[i].Time() <==> t.due < list[i].due)
      ensures Epoch(list[i]) > Epoch(t) ==> t.due < list[i].due && list[i].Time() < t.Time()
    {
      EpochOrder(list[i], t);
    }
    assert r[p] == t;
    if DueOrdered(r) {
      OrderedMeansInRound(list, t);
    } else if (forall i :: 0 <= i < |list| ==> Epoch(list[i]) >= Epoch(t)) &&
              ((exists i :: 0 <= i < |list| && Epoch(list[i]) > Epoch(t)) ==>
                 exists i :: 0 <= i < |list| && Epoch(list[i]) == Epoch(t) && list[i].due > t.due) {
      InRoundMeansOrdered(list, t);
    }
  }

  lemma OrderedMeansInRound(list: seq<Timeout>, t: Timeout)
    requires DueOrdered(list) && DueOrdered(Inserted(list, t))
    requires forall i :: 0 <= i < |list| ==> -M < list[i].due - t.due < M
    ensures forall i :: 0 <= i < |list| ==> Epoch(list[i]) >= Epoch(t)
    ensures (exists i :: 0 <= i < |list| && Epoch(list[i]) > Epoch(t)) ==>
              exists i :: 0 <= i < |list| && Epoch(list[i]) == Epoch(t) && list[i].due > t.due
  {
    var p := Position(list, t);
    var r := Inserted(list, t);
    assert r[p] == t;
    forall i | 0 <= i < |list|
      ensures Epoch(list[i]) >= Epoch(t)
    {
      EpochOrder(list[i], t);
      if i >= p { assert r[i + 1] == list[i]; }
    }
    assert forall j :: 0 <= j < p ==> r[j] == list[j];
    if i :| 0 <= i < |list| && Epoch(list[i]) > Epoch(t) {
      EpochOrder(list[i], t);
      assert i >= p;
      EpochOrder(list[p], t);
      assert r[p + 1] == list[p];
    }
  }

  lemma DivOrder(a: nat, b: nat)
    requires a <= b
    ensures a / M <= b / M
  {
  }

  /** An entry of t's own round that is due after it stops the scan; everything
      scanned before is of no later round. */
  lemma ScanStopsInRound(list: seq<Timeout>, t: Timeout, k: nat, i: nat)
    requires DueOrdered(list) && k < |list| && -M < list[k].due - t.due < M
    requires Epoch(list[k]) == Epoch(t) && list[k].due > t.due && i < Position(list, t)
    ensures Epoch(list[i]) <= Epoch(t)
  {
    EpochOrder(list[k], t);
    DivOrder(list[i].due, list[k].due);
  }

  lemma InRoundMeansOrdered(list: seq<Timeout>, t: Timeout)
    requires DueOrdered(list) && forall i :: 0 <= i < |list| ==> -M < list[i].due - t.due < M
    requires forall i :: 0 <= i < |list| ==> Epoch(list[i]) >= Epoch(t)
    requires (exists i :: 0 <= i < |list| && Epoch(list[i]) > Epoch(t)) ==>
               exists i :: 0 <= i < |list| && Epoch(list[i]) == Epoch(t) && list[i].due > t.due
    ensures DueOrdered(Inserted(list, t))
  {
    var p := Position(list, t);
    forall i | 0 <= i < p
      ensures list[i].due <= t.due
    {
      if k :| 0 <= k < |list| && Epoch(list[k]) == Epoch(t) && list[k].due > t.due {
        ScanStopsInRound(list, t, k, i);
      }
      EpochOrder(list[i], t);
    }
    forall i | p <= i < |list|
      ensures t.due <= list[i].due
    {
      EpochOrder(list[p], t);
      if p < i { assert list[p].due <= list[i].due; }
    }
    DueOrderedWithin(list, p, t);
  }

  lemma DueOrderedWithin(list: seq<Timeout>, p: nat, t: Timeout)
    requires DueOrdered(list) && p <= |list|
    requires forall i :: 0 <= i < p ==> list[i].due <= t.due
    requires forall i :: p <= i < |list| ==> t.due <= list[i].due
    ensures DueOrdered(list[..p] + [t] + list[p..])
  {
    var r := list[..p] + [t] + list[p..];
    assert forall i :: 0 <= i < p ==> r[i] == list[i];
    assert forall i :: p < i < |r| ==> r[i] == list[i - 1];
  }

  // ---- Cancellation ----------------------------------------------------------------------

  predicate Matches(t: Timeout, handler: int, eloopData: int, userData: int) {
    && t.handler == handler
    && (t.eloopData == eloopData || eloopData == ELOOP_ALL_CTX)
    && (t.userData == userData || userData == ELOOP_ALL_CTX)
  }

  /** The entries of the list that match (or, with keep, that do not), in order. */
  function Select(list: seq<Timeout>, handler: int, eloopData: int, userData: int, keep: bool): (r: seq<Timeout>)
    ensures |r| <= |list|
  {
    if list == [] then []
    else Select(list[..|list| - 1], handler, eloopData, userData, keep)
         + if Matches(list[|list| - 1], handler, eloopData, userData) != keep then [list[|list| - 1]] else []
  }

  /** How often a registration occurs in a list. */
  function Occurs(list: seq<Timeout>, id: nat): nat {
    if list == [] then 0 else Occurs(list[..|list| - 1], id) + if list[|list| - 1].id == id then 1 else 0
  }

  lemma {:induction false} OccursAppend(a: seq<Timeout>, b: seq<Timeout>, id: nat)
    ensures Occurs(a + b, id) == Occurs(a, id) + Occurs(b, id)
  {
    if b == [] {
      assert a + b == a;
    } else {
      assert (a + b)[..|a + b| - 1] == a + b[..|b| - 1];
      OccursAppend(a, b[..|b| - 1], id);
    }
  }

  lemma OccursOne(t: Timeout, id: nat)
    ensures Occurs([t], id) == if t.id == id then 1 else 0
  {
    assert [t][..0] == [];
  }

  /** Cancelling loses no entry and duplicates none. */
  lemma {:induction false} SelectSplits(list: seq<Timeout>, h: int, e: int, u: int, id: nat)
    ensures |Select(list, h, e, u, true)| + |Select(list, h, e, u, false)| == |list|
    ensures Occurs(Select(list, h, e, u, true), id) + Occurs(Select(list, h, e, u, false), id) == Occurs(list, id)
  {
    if list != [] {
      var init, last := list[..|list| - 1], list[|list| - 1];
      SelectSplits(init, h, e, u, id);
      var kept, gone := Select(init, h, e, u, true), Select(init, h, e, u, false);
      assert kept + [] == kept && gone + [] == gone;
      OccursAppend(kept, [last], id);
      OccursAppend(gone, [last], id);
      OccursOne(last, id);
    }
  }

  /** It takes exactly the matching entries. */
  lemma {:induction false} SelectMembers(list: seq<Timeout>, h: int, e: int, u: int, keep: bool)
    ensures forall t :: t in Select(list, h, e, u, keep) <==> t in list && Matches(t, h, e, u) != keep
    ensures forall t :: Matches(t, h, e, u) <==>
              t.handler == h && (e == ELOOP_ALL_CTX || t.eloopData == e) && (u == ELOOP_ALL_CTX || t.userData == u)
  {
    if list != [] {
      SelectMembers(list[..|list| - 1], h, e, u, keep);
      assert list == list[..|list| - 1] + [list[|list| - 1]];
    }
  }

  /** What stays keeps its order. */
  lemma {:induction false} SelectOrdered(list: seq<Timeout>, h: int, e: int, u: int)
    requires Ordered(list)
    ensures Ordered(Select(list, h, e, u, true))
  {
    if list != [] {
      var init, last := list[..|list| - 1], list[|list| - 1];
      SelectOrdered(init, h, e, u);
      SelectMembers(init, h, e, u, true);
      var kept := Select(init, h, e, u, true);
      forall i | 0 <= i < |kept|
        ensures Precedes(kept[i], last)
      {
        assert kept[i] in init;
      }
    }
  }

  // ---- Waiting -----------------------------------------------------------------------------

  /** What `wifi_eloop_run` does before it looks at the list again. */
  datatype Pause = Yield | WaitFor(ms: nat) | WaitForever

  // ---- Runs -------------------------------------------------------------------------------

  datatype Firing = Firing(t: Timeout, at: nat)

  /** The loop on a clock that does not wrap, with the history of what left the list. */
  datatype Loop = Loop(list: seq<Timeout>, clock: nat, registered: nat, fired: seq<Timeout>, firings: seq<Firing>,
                       cancelled: seq<Timeout>)

  datatype Step =
    | Tick(ms: nat)
    | Register(stamp: nat, msecs: nat, handler: int, eloopData: int, userData: int)  // the clock was read at stamp
    | Cancel(handler: int, eloopData: int, userData: int)
    | Handle

  function After(s: Loop, step: Step): Loop {
    match step
    case Tick(ms) => s.(clock := s.clock + ms)
    case Register(stamp, msecs, h, e, u) =>
      s.(list := Inserted(s.list, Timeout(stamp + msecs, s.registered, h, e, u)), registered := s.registered + 1)
    case Cancel(h, e, u) =>
      s.(list := Select(s.list, h, e, u, true), cancelled := s.cancelled + Select(s.list, h, e, u, false))
    case Handle =>
      if s.list != [] && AfterEq(s.clock % M, s.list[0].Time())
      then s.(list := s.list[1..], fired := s.fired + [s.list[0]], firings := s.firings + [Firing(s.list[0], s.clock)])
      else s
  }

  /** A registration reads the clock before its critical section, so time may pass
      and other registrations may get in between. */
  predicate Enabled(s: Loop, step: Step) { step.Register? ==> step.stamp <= s.clock }

  /** The step does not ask for a delay over half the range of the clock. */
  predicate ShortDelay(step: Step) { step.Register? ==> step.msecs <= HALF }

  /** And it stays clear of the 32-bit wrap. */
  predicate InRange(s: Loop, step: Step) {
    && ShortDelay(step) && After(s, step).clock < M
    && (step.Register? ==> step.stamp + step.msecs < M)
  }

  /** No handler ran before its time, and every registration is in exactly one of
      the list, the fired and the cancelled. */
  ghost predicate Fair(s: Loop) {
    && (forall t :: t in s.list ==> t.id < s.registered && t.due <= s.clock + HALF)
    && (forall f :: f in s.firings ==> f.t.due <= f.at)
    && (forall id: nat :: Occurs(s.list, id) + Occurs(s.fired, id) + Occurs(s.cancelled, id) == if id < s.registered then 1 else 0)
  }

  /** Before the wrap the list is ordered as well. */
  ghost predicate Tidy(s: Loop) {
    s.clock < M && Ordered(s.list) && forall t :: t in s.list ==> t.due < M && t.id < s.registered
  }

  lemma InsertedMembers(list: seq<Timeout>, t: Timeout)
    ensures forall x :: x in Inserted(list, t) <==> x == t || x in list
    ensures forall id: nat :: Occurs(Inserted(list, t), id) == Occurs(list, id) + if id == t.id then 1 else 0
  {
    var p := Position(list, t);
    assert list == list[..p] + list[p..];
    forall id: nat
      ensures Occurs(Inserted(list, t), id) == Occurs(list, id) + if id == t.id then 1 else 0
    {
      OccursAppend(list[..p] + [t], list[p..], id);
      OccursAppend(list[..p], [t], id);
      OccursAppend(list[..p], list[p..], id);
      OccursOne(t, id);
    }
  }

  lemma RegisterKeepsFair(s: Loop, step: Step)
    requires Fair(s) && step.Register? && Enabled(s, step) && ShortDelay(step)
    ensures Fair(After(s, step))
  {
    InsertedMembers(s.list, Timeout(step.stamp + step.msecs, s.registered, step.handler, step.eloopData, step.userData));
  }

  lemma RegisterKeepsTidy(s: Loop, step: Step)
    requires Tidy(s) && step.Register? && InRange(s, step)
    ensures Tidy(After(s, step))
  {
    var t := Timeout(step.stamp + step.msecs, s.registered, step.handler, step.eloopData, step.userData);
    assert forall i :: 0 <= i < |s.list| ==> s.list[i] in s.list;
    InsertKeepsOrder(s.list, t);
    InsertedMembers(s.list, t);
  }

  lemma CancelKeepsFair(s: Loop, step: Step)
    requires Fair(s) && step.Cancel?
    ensures Fair(After(s, step))
  {
    var (h, e, u) := (step.handler, step.eloopData, step.userData);
    SelectMembers(s.list, h, e, u, true);
    var s' := After(s, step);
    forall id: nat
      ensures Occurs(s'.list, id) + Occurs(s'.cancelled, id) == Occurs(s.list, id) + Occurs(s.cancelled, id)
    {
      SelectSplits(s.list, h, e, u, id);
      OccursAppend(s.cancelled, Select(s.list, h, e, u, false), id);
    }
  }

  lemma HandleKeepsFair(s: Loop)
    requires Fair(s)
    ensures Fair(After(s, Handle))
  {
    if s.list != [] && AfterEq(s.clock % M, s.list[0].Time()) {
      var t := s.list[0];
      assert t in s.list;
      NotEarly(s.clock, t.due);
      assert s.list == [t] + s.list[1..];
      forall id: nat
        ensures Occurs(s.list, id) == Occurs(s.list[1..], id) + Occurs([t], id)
        ensures Occurs(s.fired + [t], id) == Occurs(s.fired, id) + Occurs([t], id)
      {
        OccursAppend([t], s.list[1..], id);
        OccursAppend(s.fired, [t], id);
      }
    }
  }

  /** A due time at most half the range ahead is never taken for past. */
  lemma NotEarly(clock: nat, due: nat)
    requires due <= clock + HALF && AfterEq(clock % M, due % M)
    ensures due <= clock
  {
    ModDifference(clock, due);
    if due > clock { ModShift(clock - due); }
  }

  /** The head is run exactly when it is due, however many others are pending; the
      others stay. An overdue head is found as long as it is less than half the
      range late. */
  lemma DueHeadFiresIff(s: Loop)
    requires s.list != [] && s.list[0].due - HALF <= s.clock < s.list[0].due + HALF
    ensures var s' := After(s, Handle);
            if s.list[0].due <= s.clock
            then && s'.list == s.list[1..] && s'.fired == s.fired + [s.list[0]] && s'.clock == s.clock
                 && s'.firings == s.firings + [Firing(s.list[0], s.clock)] && s'.cancelled == s.cancelled
            else s' == s
  {
    CircularTestIff(s.clock, s.list[0].due);
  }

  /** The limit on delays is exact: registered on an empty list and handled at
      once, a timeout fires immediately when its delay is zero, and also when it
      exceeds half the range of the clock. */
  lemma FiresAtOnceIff(s: Loop, step: Step)
    requires s.list == [] && step.Register? && step.stamp == s.clock && step.msecs < M
    ensures After(After(s, step), Handle).list == [] <==> step.msecs == 0 || step.msecs > HALF
  {
    var s1 := After(s, step);
    assert |s1.list| == 1 && s1.list[0].due == s.clock + step.msecs;
    ModDifference(s.clock, s.clock + step.msecs);
    ModShift(0 - step.msecs as int);
    assert s1.list[1..] == [];
  }

  datatype Run = Run(states: seq<Loop>, steps: seq<Step>)

  ghost predicate IsRun(r: Run) {
    && |r.states| == |r.steps| + 1
    && forall k :: 0 <= k < |r.steps| ==> Enabled(r.states[k], r.steps[k]) && r.states[k + 1] == After(r.states[k], r.steps[k])
  }

  predicate Initial(s: Loop) {
    s.list == [] && s.clock < M && s.registered == 0 && s.fired == [] && s.firings == [] && s.cancelled == []
  }

  /** For every sequence of register, cancel, tick and fire, across any number of
      wraps of the clock: no handler ran before its time, and every registration
      is in exactly one of the list, the fired and the cancelled. */
  lemma {:induction false} FiringGuarantee(r: Run, k: nat)
    requires IsRun(r) && Initial(r.states[0]) && k < |r.states|
    requires forall n :: 0 <= n < |r.steps| ==> ShortDelay(r.steps[n])
    ensures Fair(r.states[k])
  {
    if k > 0 {
      FiringGuarantee(r, k - 1);
      var s, step := r.states[k - 1], r.steps[k - 1];
      match step {
        case Register(_, _, _, _, _) => RegisterKeepsFair(s, step);
        case Cancel(_, _, _) => CancelKeepsFair(s, step);
        case Handle => HandleKeepsFair(s);
        case Tick(_) =>
      }
    }
  }

  /** Until the clock or a pending expiry wraps, the list is moreover ordered by
      expiry and first-in-first-out among equal times. */
  lemma {:induction false} TimeoutGuarantee(r: Run, k: nat)
    requires IsRun(r) && Initial(r.states[0]) && k < |r.states|
    requires forall n :: 0 <= n < |r.steps| ==> InRange(r.states[n], r.steps[n])
    ensures Fair(r.states[k]) && Tidy(r.states[k])
  {
    FiringGuarantee(r, k);
    if k > 0 {
      TimeoutGuarantee(r, k - 1);
      var s, step := r.states[k - 1], r.steps[k - 1];
      match step {
        case Register(_, _, _, _, _) => RegisterKeepsTidy(s, step);
        case Cancel(h, e, u) =>
          SelectOrdered(s.list, h, e, u);
          SelectMembers(s.list, h, e, u, true);
        case _ =>
      }
    }
  }

  /** A timeout due after the wrap goes before one due before it. */
  lemma WrapInsertsFirst(t: Timeout, u: Timeout)
    requires t.due < M <= u.due < t.due + M
    ensures Inserted([t], u) == [u, t] && Inserted([], t) == [t]
  {
    ModShift(t.due);
    ModPlus(1, u.due - M);
    ModShift(u.due - M);
    assert u.Time() < t.Time();
  }

  /** What the wrap does: of two timeouts registered together, the one due before it
      is put behind the one due after it, and does not fire until that one does,
      however long it is overdue. */
  lemma WrapFiresLate(s: Loop, a: nat, b: nat, wait: nat) returns (r: Run)
    requires Initial(s) && s.clock + a < M <= s.clock + b && b <= HALF && a <= wait < b
    ensures IsRun(r) && r.states[0] == s && |r.steps| == 4 && r.steps[3] == Handle
    ensures var last := r.states[4];
            && last.clock == s.clock + wait && last.fired == [] && |last.list| == 2
            && last.list[0].due == s.clock + b > last.clock
            && last.list[1].due == s.clock + a <= last.clock
  {
    var u := Timeout(s.clock + b, 1, 0, 0, 0);
    var first, second := Register(s.clock, a, 0, 0, 0), Register(s.clock, b, 0, 0, 0);
    var s1, s2 := RegisterTwo(s, a, b);
    var s3 := s2.(clock := s.clock + wait);
    NothingFires(s3, u);
    r := FourSteps(s, s1, s2, s3, first, second, Tick(wait));
  }

  lemma RegisterTwo(s: Loop, a: nat, b: nat) returns (s1: Loop, s2: Loop)
    requires Initial(s) && s.clock + a < M <= s.clock + b < s.clock + a + M
    ensures s1 == After(s, Register(s.clock, a, 0, 0, 0)) && s1.clock == s.clock
    ensures s2 == After(s1, Register(s.clock, b, 0, 0, 0))
    ensures s2 == s.(list := [Timeout(s.clock + b, 1, 0, 0, 0), Timeout(s.clock + a, 0, 0, 0, 0)], registered := 2)
  {
    var t, u := Timeout(s.clock + a, 0, 0, 0, 0), Timeout(s.clock + b, 1, 0, 0, 0);
    WrapInsertsFirst(t, u);
    Registers(s, Register(s.clock, a, 0, 0, 0), [t]);
    s1 := s.(list := [t], registered := 1);
    Registers(s1, Register(s.clock, b, 0, 0, 0), [u, t]);
    s2 := s.(list := [u, t], registered := 2);
  }

  lemma Registers(s: Loop, step: Step, list: seq<Timeout>)
    requires step.Register?
    requires list == Inserted(s.list, Timeout(step.stamp + step.msecs, s.registered, step.handler, step.eloopData, step.userData))
    ensures After(s, step) == s.(list := list, registered := s.registered + 1)
  {
  }

  lemma FourSteps(s: Loop, s1: Loop, s2: Loop, s3: Loop, a: Step, b: Step, c: Step) returns (r: Run)
    requires Enabled(s, a) && s1 == After(s, a) && Enabled(s1, b) && s2 == After(s1, b) && Enabled(s2, c) && s3 == After(s2, c)
    ensures IsRun(r) && r.states[0] == s && r.steps == [a, b, c, Handle] && r.states[4] == After(s3, Handle)
  {
    r := Run([s, s1, s2, s3, After(s3, Handle)], [a, b, c, Handle]);
  }

  lemma NothingFires(s: Loop, u: Timeout)
    requires s.list != [] && s.list[0] == u && s.clock < u.due <= s.clock + HALF
    ensures After(s, Handle) == s
  {
    if AfterEq(s.clock % M, u.Time()) { NotEarly(s.clock, u.due); }
  }

  // ---- The source's operations ------------------------------------------------------------

  class Eloop {
    var timeouts: seq<Timeout>
    var terminate: bool
    var registered: nat   // how many registrations there have been

    constructor ()
      ensures timeouts == [] && !terminate && registered == 0
    {
      timeouts, terminate, registered := [], false, 0;
    }

    /** `eloop_timeout_register`. Only the 32-bit remainders are compared. */
    method TimeoutRegister(clock: nat, msecs: nat, handler: int, eloopData: int, userData: int, allocOk: bool)
      returns (ret: int)
      modifies this`timeouts, this`registered
      ensures ret == if old(terminate) || !allocOk then -1 else 0
      ensures ret == -1 ==> timeouts == old(timeouts) && registered == old(registered)
      ensures ret == 0 ==>
        && registered == old(registered) + 1
        && timeouts == Inserted(old(timeouts), Timeout(clock + msecs, old(registered), handler, eloopData, userData))
    {
      if terminate || !allocOk {
        return -1;
      }
      var t := Timeout(clock + msecs, registered, handler, eloopData, userData);
      var i := 0;
      while i < |timeouts|
        invariant 0 <= i <= Position(timeouts, t)
      {
        if t.Time() < timeouts[i].Time() {
          break;
        }
        i := i + 1;
      }
      timeouts := timeouts[..i] + [t] + timeouts[i..];
      registered := registered + 1;
      ret := 0;
    }

    /** `eloop_timeout_cancel`: exactly the matching entries leave the list, the
        others stay in order, and their number is returned. */
    method TimeoutCancel(handler: int, eloopData: int, userData: int) returns (removed: int)
      modifies this`timeouts
      ensures old(terminate) ==> removed == -1 && timeouts == old(timeouts)
      ensures !old(terminate) ==>
        && timeouts == Select(old(timeouts), handler, eloopData, userData, true)
        && removed == |Select(old(timeouts), handler, eloopData, userData, false)| == |old(timeouts)| - |timeouts|
    {
      if terminate {
        return -1;
      }
      removed := 0;
      var i := 0;
      ghost var seen := 0;
      ghost var l0 := timeouts;
      while i < |timeouts|
        invariant 0 <= seen <= |l0| && i == |Select(l0[..seen], handler, eloopData, userData, true)|
        invariant timeouts == Select(l0[..seen], handler, eloopData, userData, true) + l0[seen..]
        invariant removed == |Select(l0[..seen], handler, eloopData, userData, false)|
        decreases |timeouts| - i
      {
        SelectStep(l0, seen, handler, eloopData, userData);
        CutStep(Select(l0[..seen], handler, eloopData, userData, true), l0[seen], l0[seen + 1..]);
        if Matches(timeouts[i], handler, eloopData, userData) {
          timeouts := timeouts[..i] + timeouts[i + 1..];
          removed := removed + 1;
        } else {
          i := i + 1;
        }
        seen := seen + 1;
      }
      assert l0[seen..] == [] && l0[..seen] == l0;
      SelectSplits(l0, handler, eloopData, userData, 0);
    }

    /** `eloop_timeout_handle`: the head is removed and run once its time has come
        under circular comparison. */
    method TimeoutHandle(clock: nat) returns (ran: Option<Timeout>)
      modifies this`timeouts
      ensures var s := Loop(old(timeouts), clock, registered, [], [], []);
              After(s, Handle) == Loop(timeouts, clock, registered,
                                       if ran.Some? then [ran.value] else [],
                                       if ran.Some? then [Firing(ran.value, clock)] else [], [])
    {
      ran := None;
      if timeouts != [] {
        var now := clock % M;
        if AfterEq(now, timeouts[0].Time()) {
          ran := Some(timeouts[0]);
          timeouts := timeouts[1..];
        }
      }
    }

    /** The wait that `wifi_eloop_run` computes, for every value of the 32-bit
        clock: without limit only when nothing is pending, never zero (which would
        mean without limit), and ending exactly at the head's expiry. */
    method NextPause(now: nat) returns (p: Pause)
      requires now < M
      ensures p.WaitForever? <==> timeouts == []
      ensures p.WaitFor? ==> 1 <= p.ms <= HALF && (now + p.ms) % M == timeouts[0].Time()
      ensures p.Yield? <==> timeouts != [] && AfterEq(now, timeouts[0].Time())
    {
      var remain := 0;
      if timeouts != [] {
        if Before(now, timeouts[0].Time()) {
          remain := (timeouts[0].Time() - now) % M;
          Remaining(now, timeouts[0].Time());
        }
      }
      if timeouts != [] && remain == 0 {
        p := Yield;
      } else {
        p := if timeouts != [] then WaitFor(remain) else WaitForever;
      }
    }
  }

  lemma Remaining(now: nat, t: nat)
    requires now < M && t < M && Before(now, t)
    ensures 1 <= (t - now) % M <= HALF && (now + (t - now) % M) % M == t
  {
    ModShift(now - t);
    ModShift(t - now);
    ModShift(t);
    ModPlus(1, t);
  }

  lemma CutStep(kept: seq<Timeout>, t: Timeout, rest: seq<Timeout>)
    ensures var list := kept + ([t] + rest);
            var i := |kept|;
            list[i] == t && list[..i] + list[i + 1..] == kept + rest && list == kept + [t] + rest
  {
  }

  lemma SelectStep(list: seq<Timeout>, k: nat, h: int, e: int, u: int)
    requires k < |list|
    ensures Select(list[..k + 1], h, e, u, true)
         == Select(list[..k], h, e, u, true) + if Matches(list[k], h, e, u) then [] else [list[k]]
    ensures Select(list[..k + 1], h, e, u, false)
         == Select(list[..k], h, e, u, false) + if Matches(list[k], h, e, u) then [list[k]] else []
    ensures list[k..] == [list[k]] + list[k + 1..]
  {
    assert list[..k + 1][..k] == list[..k];
  }
}
