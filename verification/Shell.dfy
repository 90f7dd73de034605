/** The command line of the shell: an interrupt handler collects lines into a
    ring buffer and a queue of lengths, a task takes them out again. */
module Shell {
  import opened Common
  import opened CyclicBuffer

  const UART_BUFFER_SIZE := 128
  const CLI_QUEUE_SIZE := 3
  const RING_LEN := 4 * UART_BUFFER_SIZE
  const CAPACITY := RING_LEN - 1

  const CR: byte := 13
  const BS: byte := 8

  predicate Printable(ch: byte) { ch >= 0x20 }

  /** A line as its author sees it: the characters typed less those erased, and
      whether it has held a buffer full of them since it was last empty. */
  datatype Typing = Typing(text: seq<byte>, full: bool)

  const BLANK := Typing([], false)

  function Pressed(t: Typing, ch: byte): Typing {
    if Printable(ch) then Typing(t.text + [ch], t.full || |t.text| + 1 >= UART_BUFFER_SIZE)
    else if ch == CR then BLANK
    else if ch == BS && t.text != [] then Typing(t.text[..|t.text| - 1], t.full && |t.text| > 1)
    else t
  }

  /** `line` is what the handler has in its buffer, `queue` the lengths of the lines
      waiting, `hand` the length the task has dequeued but not yet read from the
      ring. `typed` is the line as typed so far; `accepted` records the buffers that
      entered the queue and `lines` the lines typed for them, `done` what became
      of each: the text executed, or nothing when no buffer could be allocated. */
  datatype Cli = Cli(line: seq<byte>, queue: seq<nat>, ring: seq<byte>, hand: Option<nat>, typed: Typing,
                     accepted: seq<seq<byte>>, lines: seq<Typing>, done: seq<Option<seq<byte>>>)

  // ---- The steps -----------------------------------------------------------------------

  /** `uart_cmd_rx_indicate` for a line of at least one character. */
  function Indicated(s: Cli): Cli {
    var text := s.line + [0];
    var s1 := s.(line := []);
    if |s.queue| >= CLI_QUEUE_SIZE then s1
    else
      s1.(queue := s.queue + [|text|], accepted := s.accepted + [text], lines := s.lines + [s.typed],
          ring := if |s.ring| + |text| <= CAPACITY then s.ring + text else s.ring)
  }

  /** One character in `log_uart_rx_irq_hdl`: what it does to the buffer, and what
      it means to who types it. */
  function Typed(s: Cli, ch: byte): Cli {
    Handled(s, ch).(typed := Pressed(s.typed, ch))
  }

  function Handled(s: Cli, ch: byte): Cli {
    if Printable(ch) then
      s.(line := if |s.line| + 1 >= UART_BUFFER_SIZE then [] else s.line + [ch])
    else if ch == CR then if s.line == [] then s else Indicated(s)
    else if ch == BS then if s.line == [] then s else s.(line := s.line[..|s.line| - 1])
    else s
  }

  function Dequeued(s: Cli): Cli
    requires s.queue != []
  {
    s.(hand := Some(s.queue[0]), queue := s.queue[1..])
  }

  /** `cmn_cmd_exec` up to the point where the command text is in hand. */
  function Executed(s: Cli, allocOk: bool): Cli
    requires s.hand.Some?
  {
    var n := Min(s.hand.value, |s.ring|);
    s.(hand := None, ring := s.ring[n..], done := s.done + [if allocOk then Some(s.ring[..n]) else None])
  }

  datatype Step = Key(ch: byte) | Dequeue | Exec(allocOk: bool)

  ghost predicate Next(s: Cli, step: Step, s': Cli) {
    match step
    case Key(ch) => s' == Typed(s, ch)
    case Dequeue => s.hand.None? && s.queue != [] && s' == Dequeued(s)
    case Exec(allocOk) => s.hand.Some? && s' == Executed(s, allocOk)
  }

  // ---- In step --------------------------------------------------------------------------

  function Concat(lines: seq<seq<byte>>): seq<byte> {
    if lines == [] then [] else lines[0] + Concat(lines[1..])
  }

  lemma {:induction false} ConcatSnoc(lines: seq<seq<byte>>, x: seq<byte>)
    ensures Concat(lines + [x]) == Concat(lines) + x
  {
    if lines == [] {
      assert lines + [x] == [x] && [x][1..] == [];
    } else {
      assert (lines + [x])[1..] == lines[1..] + [x];
      ConcatSnoc(lines[1..], x);
    }
  }

  function Lengths(s: Cli): seq<nat> {
    (if s.hand.Some? then [s.hand.value] else []) + s.queue
  }

  /** The lines that have been accepted but not dealt with. */
  function Waiting(s: Cli): seq<seq<byte>> {
    if |s.done| <= |s.accepted| then s.accepted[|s.done|..] else []
  }

  predicate IsLine(text: seq<byte>) {
    && 2 <= |text| <= UART_BUFFER_SIZE && text[|text| - 1] == 0
    && forall i :: 0 <= i < |text| - 1 ==> text[i] != 0
  }

  /** Ring and queue are in step: the ring holds exactly the waiting lines, the
      queue (and the task) exactly their lengths; every command executed so far
      was its line. */
  ghost predicate InStep(s: Cli) {
    && |s.queue| <= CLI_QUEUE_SIZE && |s.line| < UART_BUFFER_SIZE && (forall i :: 0 <= i < |s.line| ==> s.line[i] != 0)
    && |s.done| + |Lengths(s)| == |s.accepted|
    && s.ring == Concat(Waiting(s))
    && (forall i :: 0 <= i < |Waiting(s)| ==> IsLine(Waiting(s)[i]) && |Waiting(s)[i]| == Lengths(s)[i])
    && forall i :: 0 <= i < |s.done| && s.done[i].Some? ==> s.done[i].value == s.accepted[i]
  }

  /** The one case the ring is too small for: a line of 127 characters completed
      while three such lines are waiting, one of them in the task's hand. */
  predicate FullHouse(s: Cli, step: Step) {
    && step == Key(CR) && |s.line| == UART_BUFFER_SIZE - 1 && |s.queue| < CLI_QUEUE_SIZE
    && |Waiting(s)| == 3 && forall i :: 0 <= i < 3 ==> |Waiting(s)[i]| == UART_BUFFER_SIZE
  }

  lemma {:induction false} ConcatLength(lines: seq<seq<byte>>)
    requires forall i :: 0 <= i < |lines| ==> |lines[i]| <= UART_BUFFER_SIZE
    ensures |Concat(lines)| <= |lines| * UART_BUFFER_SIZE
    ensures |Concat(lines)| == |lines| * UART_BUFFER_SIZE <==> forall i :: 0 <= i < |lines| ==> |lines[i]| == UART_BUFFER_SIZE
  {
    if lines != [] {
      var tail := lines[1..];
      assert forall i :: 0 <= i < |tail| ==> tail[i] == lines[i + 1];
      ConcatLength(tail);
      if |Concat(lines)| == |lines| * UART_BUFFER_SIZE {
        forall i | 0 <= i < |lines|
          ensures |lines[i]| == UART_BUFFER_SIZE
        {
          if i > 0 { assert lines[i] == tail[i - 1]; }
        }
      }
    }
  }

  /** Three queued lines and one in hand fit into four line buffers, less the one
      cell a ring cannot use: a completed line finds room exactly unless all four
      have the greatest length. */
  lemma OverflowIff(s: Cli)
    requires InStep(s) && s.line != [] && |s.queue| < CLI_QUEUE_SIZE
    ensures |s.ring| + |s.line| + 1 > CAPACITY <==> FullHouse(s, Key(CR))
  {
    var w := Waiting(s);
    assert |w| == |Lengths(s)| <= 3;
    ConcatLength(w);
  }

  /** A completed line enters the queue exactly when that has room; refused it
      vanishes whole, and either way nothing that waits is touched. */
  lemma AcceptedIff(s: Cli)
    requires s.line != []
    ensures var s' := Typed(s, CR);
            && s'.line == [] && s'.typed == BLANK && s'.hand == s.hand && s'.done == s.done
            && (s'.accepted == s.accepted + [s.line + [0]] <==> |s.queue| < 3)
            && (|s.queue| >= 3 ==> s' == s.(line := [], typed := BLANK))
            && (|s.queue| < 3 ==> s'.queue == s.queue + [|s.line| + 1] && s'.lines == s.lines + [s.typed])
            && (|s.queue| < 3 && |s.ring| + |s.line| + 1 < 512 ==> s'.ring == s.ring + s.line + [0])
  {
    if |s.queue| < 3 { assert s.ring + (s.line + [0]) == s.ring + s.line + [0]; }
  }

  /** The line that is completed while there is room for it. */
  lemma AcceptKeepsStep(s: Cli)
    requires InStep(s) && s.line != [] && |s.queue| < CLI_QUEUE_SIZE && |s.ring| + |s.line| + 1 <= CAPACITY
    ensures InStep(Indicated(s))
  {
    var s', text := Indicated(s), s.line + [0];
    var w, l := Waiting(s), Lengths(s);
    var w', l' := Waiting(s'), Lengths(s');
    assert w' == w + [text];
    assert l' == l + [|text|];
    ConcatSnoc(w, text);
    assert IsLine(text);
    forall i | 0 <= i < |w'|
      ensures IsLine(w'[i]) && |w'[i]| == l'[i]
    {
      if i < |w| { assert IsLine(w[i]) && |w[i]| == l[i]; }
    }
  }

  lemma EditKeepsStep(s: Cli, ch: byte)
    requires InStep(s) && (ch == CR ==> s.line == [] || |s.queue| >= CLI_QUEUE_SIZE)
    ensures InStep(Typed(s, ch))
  {
    var s' := Typed(s, ch);
    assert Waiting(s') == Waiting(s) && Lengths(s') == Lengths(s);
  }

  lemma KeyKeepsStep(s: Cli, ch: byte)
    requires InStep(s) && !FullHouse(s, Key(ch))
    ensures InStep(Typed(s, ch))
  {
    if ch == CR && s.line != [] && |s.queue| < CLI_QUEUE_SIZE {
      OverflowIff(s);
      AcceptKeepsStep(s);
    } else {
      EditKeepsStep(s, ch);
    }
  }

  lemma ExecKeepsStep(s: Cli, allocOk: bool)
    requires InStep(s) && s.hand.Some?
    ensures InStep(Executed(s, allocOk))
    ensures var s' := Executed(s, allocOk);
            && s'.done == s.done + [if allocOk then Some(s.accepted[|s.done|]) else None]
            && Waiting(s') == Waiting(s)[1..]
  {
    var w, s' := Waiting(s), Executed(s, allocOk);
    assert Lengths(s)[0] == s.hand.value == |w[0]|;
    assert s.ring == w[0] + Concat(w[1..]);
    assert s.ring[..|w[0]|] == w[0] && s.ring[|w[0]|..] == Concat(w[1..]);
    assert Waiting(s') == w[1..] && Lengths(s') == Lengths(s)[1..];
  }

  lemma StepKeepsStep(s: Cli, step: Step, s': Cli)
    requires InStep(s) && Next(s, step, s') && !FullHouse(s, step)
    ensures InStep(s')
  {
    match step
    case Key(ch) => KeyKeepsStep(s, ch);
    case Exec(allocOk) => ExecKeepsStep(s, allocOk);
    case Dequeue => assert Lengths(s') == Lengths(s);
  }

  // ---- Runs ------------------------------------------------------------------------------

  datatype Run = Run(states: seq<Cli>, steps: seq<Step>)

  ghost predicate IsRun(r: Run) {
    && |r.states| == |r.steps| + 1
    && forall k :: 0 <= k < |r.steps| ==> Next(r.states[k], r.steps[k], r.states[k + 1])
  }

  const START := Cli([], [], [], None, BLANK, [], [], [])

  // ---- The buffer and the line typed -----------------------------------------------------

  /** x is what is left of whole when `lost` is cut off in front. */
  predicate Ends(x: seq<byte>, whole: seq<byte>, lost: seq<byte>, full: bool) {
    whole == lost + x && (full <==> lost != [])
  }

  /** The buffer holds the end of the line typed, and all of it exactly unless the
      line has been full. */
  ghost predicate Tail(line: seq<byte>, t: Typing) {
    |line| < UART_BUFFER_SIZE && exists lost :: Ends(line, t.text, lost, t.full)
  }

  ghost predicate Accepts(text: seq<byte>, t: Typing) {
    exists lost :: Ends(text, t.text + [0], lost, t.full)
  }

  /** So with every line accepted: it is the end of the line typed, and all of it
      exactly unless that has been full. */
  ghost predicate Recorded(s: Cli) {
    && Tail(s.line, s.typed) && |s.lines| == |s.accepted|
    && forall i :: 0 <= i < |s.lines| ==> Accepts(s.accepted[i], s.lines[i])
  }

  lemma AcceptsWholeIff(text: seq<byte>, t: Typing)
    requires Accepts(text, t)
    ensures text == t.text + [0] <==> !t.full
  {
    var lost :| Ends(text, t.text + [0], lost, t.full);
    assert |t.text + [0]| == |lost| + |text|;
  }

  lemma PrintableKeepsTail(line: seq<byte>, t: Typing, ch: byte)
    requires Tail(line, t) && Printable(ch)
    ensures Tail(if |line| + 1 >= UART_BUFFER_SIZE then [] else line + [ch], Pressed(t, ch))
  {
    var lost :| Ends(line, t.text, lost, t.full);
    var t' := Pressed(t, ch);
    if |line| + 1 >= UART_BUFFER_SIZE {
      assert Ends([], t'.text, t'.text, t'.full);
    } else {
      assert (lost + line) + [ch] == lost + (line + [ch]);
      assert Ends(line + [ch], t'.text, lost, t'.full);
    }
  }

  lemma BackspaceKeepsTail(line: seq<byte>, t: Typing)
    requires Tail(line, t)
    ensures Tail(if line == [] then [] else line[..|line| - 1], Pressed(t, BS))
  {
    var lost :| Ends(line, t.text, lost, t.full);
    var t' := Pressed(t, BS);
    if line != [] {
      assert (lost + line)[..|lost + line| - 1] == lost + line[..|line| - 1];
      assert Ends(line[..|line| - 1], t'.text, lost, t'.full);
    } else {
      assert Ends([], t'.text, t'.text, t'.full);
    }
  }

  lemma CompletedIsAccepted(line: seq<byte>, t: Typing)
    requires Tail(line, t)
    ensures Accepts(line + [0], t) && Tail([], BLANK)
  {
    var lost :| Ends(line, t.text, lost, t.full);
    assert (lost + line) + [0] == lost + (line + [0]);
    assert Ends(line + [0], t.text + [0], lost, t.full);
    assert Ends([], [], [], false);
  }

  lemma KeyKeepsRecord(s: Cli, ch: byte)
    requires Recorded(s)
    ensures Recorded(Typed(s, ch))
  {
    if Printable(ch) {
      PrintableKeepsTail(s.line, s.typed, ch);
    } else if ch == CR {
      CompletedIsAccepted(s.line, s.typed);
    } else if ch == BS {
      BackspaceKeepsTail(s.line, s.typed);
    }
  }

  lemma StepKeepsRecord(s: Cli, step: Step, s': Cli)
    requires Recorded(s) && Next(s, step, s')
    ensures Recorded(s')
  {
    if step.Key? { KeyKeepsRecord(s, step.ch); }
  }

  lemma {:induction false} RunIsRecorded(r: Run, k: nat)
    requires IsRun(r) && r.states[0] == START && k < |r.states|
    ensures Recorded(r.states[k])
  {
    if k > 0 {
      RunIsRecorded(r, k - 1);
      StepKeepsRecord(r.states[k - 1], r.steps[k - 1], r.states[k]);
    } else {
      assert Ends([], [], [], false);
    }
  }

  /** Ring and queue are in step throughout every run in which no line of 127
      characters is completed while three such lines are waiting. */
  lemma {:induction false} RunIsInStep(r: Run, k: nat)
    requires IsRun(r) && r.states[0] == START && k < |r.states|
    requires forall n :: 0 <= n < |r.steps| ==> !FullHouse(r.states[n], r.steps[n])
    ensures InStep(r.states[k])
  {
    if k > 0 {
      RunIsInStep(r, k - 1);
      StepKeepsStep(r.states[k - 1], r.steps[k - 1], r.states[k]);
    }
  }

  /** The i-th command executed is the i-th line typed, with its end marked. */
  ghost predicate ExecutesLine(s: Cli, i: nat)
    requires i < |s.done| && i < |s.lines| && s.done[i].Some?
  {
    s.done[i].value == s.lines[i].text + [0]
  }

  /** The commands executed are the lines accepted, in order, less those dropped for
      want of memory, and the ring is always the concatenation of the waiting
      lines. A command is exactly the line as typed if and only if that line has
      not held 128 characters since it was last empty. This holds in every run in
      which no line of 127 characters is completed while three such lines are
      waiting. */
  lemma EveryCommandIsALine(r: Run, k: nat)
    requires IsRun(r) && r.states[0] == START && k < |r.states|
    requires forall n :: 0 <= n < |r.steps| ==> !FullHouse(r.states[n], r.steps[n])
    ensures var s := r.states[k];
            && InStep(s) && |s.done| <= |s.lines|
            && forall i :: 0 <= i < |s.done| && s.done[i].Some? ==> (ExecutesLine(s, i) <==> !s.lines[i].full)
  {
    RunIsInStep(r, k);
    RunIsRecorded(r, k);
    var s := r.states[k];
    forall i | 0 <= i < |s.done| && s.done[i].Some?
      ensures ExecutesLine(s, i) <==> !s.lines[i].full
    {
      AcceptsWholeIff(s.accepted[i], s.lines[i]);
    }
  }

  /** The length of x is queued but its text is not in the ring. */
  ghost predicate Short(s: Cli, w: seq<seq<byte>>, x: seq<byte>) {
    && s.hand.Some? && |s.done| + |Lengths(s)| == |s.accepted| && Waiting(s) == w + [x]
    && s.ring == Concat(w) && |Lengths(s)| == |w| + 1
    && forall i :: 0 <= i < |w| ==> |w[i]| == Lengths(s)[i]
  }

  lemma ShortStep(s: Cli, w: seq<seq<byte>>, x: seq<byte>)
    requires Short(s, w, x) && w != []
    ensures Executed(s, true).queue != [] && Short(Dequeued(Executed(s, true)), w[1..], x)
  {
    var s' := Executed(s, true);
    assert Lengths(s)[0] == s.hand.value == |w[0]| && s.ring == w[0] + Concat(w[1..]);
    assert s.ring[|w[0]|..] == Concat(w[1..]);
    assert Lengths(s)[1..] == s.queue && |s.queue| == |w|;
    var s'' := Dequeued(s');
    assert Lengths(s'') == s.queue;
    assert Waiting(s'') == Waiting(s)[1..] == w[1..] + [x];
  }

  lemma {:induction false} ShortExecutesNothing(s: Cli, w: seq<seq<byte>>, x: seq<byte>) returns (r: Run)
    requires Short(s, w, x)
    ensures IsRun(r) && r.states[0] == s
    ensures var last, n := r.states[|r.steps|], |s.accepted|;
            last.accepted == s.accepted && |last.done| == n && last.done[n - 1] == Some([])
    decreases |w|
  {
    var s' := Executed(s, true);
    if w == [] {
      r := Run([s, s'], [Exec(true)]);
    } else {
      ShortStep(s, w, x);
      var rest := ShortExecutesNothing(Dequeued(s'), w[1..], x);
      r := Run([s, s'] + rest.states, [Exec(true), Dequeue] + rest.steps);
      forall k | 0 <= k < |r.steps|
        ensures Next(r.states[k], r.steps[k], r.states[k + 1])
      {
        if k >= 2 { assert Next(rest.states[k - 2], rest.steps[k - 2], rest.states[k - 1]); }
      }
    }
  }

  /** And only then: in the excluded case the length is queued without its text,
      ring and queue fall out of step, and when its turn comes no byte is read for
      it. The text is empty in this model; the source goes on to look for a blank
      in the allocated buffer, which nothing has filled, and may write before it. */
  lemma FullHouseLosesALine(s: Cli) returns (r: Run)
    requires InStep(s) && FullHouse(s, Key(CR))
    ensures !InStep(Typed(s, CR))
    ensures IsRun(r) && r.states[0] == Typed(s, CR)
    ensures var last, n := r.states[|r.steps|], |s.accepted|;
            && last.accepted == s.accepted + [s.line + [0]]
            && |last.done| == n + 1 && last.done[n] == Some([])
  {
    OverflowIff(s);
    var s1, x := Typed(s, CR), s.line + [0];
    assert Waiting(s1) == Waiting(s) + [x] && Lengths(s1) == Lengths(s) + [|x|];
    ConcatSnoc(Waiting(s), x);
    r := ShortExecutesNothing(s1, Waiting(s), x);
  }

  // ---- The excluded case can be typed --------------------------------------------------

  lemma Join(a: Run, b: Run) returns (r: Run)
    requires IsRun(a) && IsRun(b) && b.states[0] == a.states[|a.steps|]
    ensures IsRun(r) && r.states[0] == a.states[0] && |r.states| > 0 && r.states[|r.steps|] == b.states[|b.steps|]
  {
    r := Run(a.states[..|a.steps|] + b.states, a.steps + b.steps);
    forall k | 0 <= k < |r.steps|
      ensures Next(r.states[k], r.steps[k], r.states[k + 1])
    {
      if k < |a.steps| {
        assert Next(a.states[k], a.steps[k], a.states[k + 1]);
      } else {
        assert Next(b.states[k - |a.steps|], b.steps[k - |a.steps|], b.states[k - |a.steps| + 1]);
      }
    }
  }

  /** A line of n letters. */
  function Letters(n: nat): seq<byte> { seq(n, _ => 0x61) }

  predicate IsText(text: seq<byte>) { forall i :: 0 <= i < |text| ==> text[i] >= 0x20 }

  /** What is typed while there is room for it. */
  lemma {:induction false} TypeText(s: Cli, text: seq<byte>) returns (r: Run)
    requires IsText(text) && |s.line| + |text| < UART_BUFFER_SIZE
    requires s.typed.full || |s.typed.text| + |text| < UART_BUFFER_SIZE
    ensures IsRun(r) && r.states[0] == s
    ensures r.states[|r.steps|] == s.(line := s.line + text, typed := Typing(s.typed.text + text, s.typed.full))
    decreases |text|
  {
    if text == [] {
      assert s.line + text == s.line && s.typed.text + text == s.typed.text;
      r := Run([s], []);
    } else {
      var n := |text| - 1;
      var r0 := TypeText(s, text[..n]);
      var s1 := s.(line := s.line + text[..n], typed := Typing(s.typed.text + text[..n], s.typed.full));
      var s2 := s.(line := s.line + text, typed := Typing(s.typed.text + text, s.typed.full));
      assert text == text[..n] + [text[n]];
      assert s1.line + [text[n]] == s2.line && s1.typed.text + [text[n]] == s2.typed.text;
      assert Typed(s1, text[n]) == s2;
      r := Join(r0, Run([s1, s2], [Key(text[n])]));
    }
  }

  /** Any 128 characters put in front of a command are forgotten: the command is
      executed although the line as typed is another. */
  lemma TailIsExecuted(junk: seq<byte>, command: seq<byte>) returns (r: Run)
    requires |junk| == UART_BUFFER_SIZE && IsText(junk)
    requires 0 < |command| < UART_BUFFER_SIZE && IsText(command)
    ensures IsRun(r) && r.states[0] == START
    ensures var last := r.states[|r.steps|];
            last.done == [Some(command + [0])] && last.lines == [Typing(junk + command, true)]
  {
    var n := UART_BUFFER_SIZE - 1;
    r := TypeText(START, junk[..n]);
    var s1 := r.states[|r.steps|];
    assert s1.line == junk[..n] && s1.typed.text + [junk[n]] == junk;
    var s2 := Typed(s1, junk[n]);
    r := Join(r, Run([s1, s2], [Key(junk[n])]));
    var r' := TypeText(s2, command);
    r := Join(r, r');
    var s3 := r.states[|r.steps|];
    assert s3.line == command && s3.typed == Typing(junk + command, true);
    r := ExecuteOnly(r, command);
  }

  /** The first line is completed, taken and executed. */
  lemma ExecuteOnly(r: Run, command: seq<byte>) returns (r': Run)
    requires IsRun(r) && command != [] && |command| < UART_BUFFER_SIZE
    requires var s := r.states[|r.steps|];
             s == START.(line := command, typed := s.typed)
    ensures IsRun(r') && r'.states[0] == r.states[0]
    ensures var last := r'.states[|r'.steps|];
            last.done == [Some(command + [0])] && last.lines == [r.states[|r.steps|].typed]
  {
    var a := r.states[|r.steps|];
    var b := Typed(a, CR);
    var text := command + [0];
    assert b.ring == text && b.queue == [|text|] && b.lines == [a.typed];
    var c := Dequeued(b);
    var d := Executed(c, true);
    assert text[..|text|] == text;
    r' := Join(r, Run([a, b, c, d], [Key(CR), Dequeue, Exec(true)]));
  }

  /** The longest line, typed and completed. */
  lemma TypeLongLine(s: Cli) returns (r: Run)
    requires s.line == [] && s.typed == BLANK
    ensures IsRun(r) && r.states[0] == s && r.states[|r.steps|] == Typed(LongTyped(s), CR)
  {
    var r0 := TypeLetters(s);
    var s1 := LongTyped(s);
    r := Join(r0, Run([s1, Typed(s1, CR)], [Key(CR)]));
  }

  function LongTyped(s: Cli): Cli { s.(line := Letters(127), typed := Typing(Letters(127), false)) }

  lemma TypeLetters(s: Cli) returns (r: Run)
    requires s.line == [] && s.typed == BLANK
    ensures IsRun(r) && r.states[0] == s && r.states[|r.steps|] == LongTyped(s)
  {
    assert [] + Letters(127) == Letters(127);
    r := TypeText(s, Letters(127));
  }

  const LONG: seq<byte> := Letters(127) + [0]

  /** Four of the longest lines, with the first just taken from the queue when the
      fourth is completed, bring the excluded case about. */
  lemma FullHouseIsReachable() returns (r: Run)
    ensures IsRun(r) && r.states[0] == START && FullHouse(r.states[|r.steps|], Key(CR))
  {
    var r1 := TypeLongLine(START);
    var s1 := WithLines(1);
    LongLineArrives(0);
    var r2 := TypeLongLine(s1);
    var s2 := WithLines(2);
    LongLineArrives(1);
    var r3 := TypeLongLine(s2);
    var s3 := WithLines(3);
    LongLineArrives(2);
    var s4 := Dequeued(s3);
    var r4 := TypeLetters(s4);
    r := Join(r1, r2);
    r := Join(r, r3);
    r := Join(r, Run([s3, s4], [Dequeue]));
    r := Join(r, r4);
    assert Waiting(LongTyped(s4)) == seq(3, _ => LONG);
  }

  /** The shell with n of the longest lines waiting and the task not started. */
  function WithLines(n: nat): (s: Cli)
    requires n <= 3
    ensures |s.ring| == n * 128
  {
    Cli([], seq(n, _ => 128), if n == 0 then [] else if n == 1 then LONG else if n == 2 then LONG + LONG else LONG + LONG + LONG,
        None, BLANK, seq(n, _ => LONG), seq(n, _ => Typing(Letters(127), false)), [])
  }

  lemma OneMore<T>(n: nat, x: T)
    ensures seq(n, _ => x) + [x] == seq(n + 1, _ => x)
  {
  }

  lemma LongLineArrives(n: nat)
    requires n < 3
    ensures Typed(LongTyped(WithLines(n)), CR) == WithLines(n + 1)
    ensures WithLines(0) == START
  {
    OneMore<nat>(n, 128);
    OneMore(n, LONG);
    OneMore(n, Typing(Letters(127), false));
    assert [] + LONG == LONG;
  }

  // ---- The handler and the task as written -----------------------------------------------

  class UartShell {
    const cyc: Cyclic
    const uartBuf: array<byte>
    var uartIndex: nat
    var queue: seq<nat>
    var hand: Option<nat>
    ghost var typed: Typing
    ghost var accepted: seq<seq<byte>>
    ghost var lines: seq<Typing>
    ghost var done: seq<Option<seq<byte>>>

    ghost predicate Valid()
      reads this, cyc
    {
      && cyc.Valid() && cyc.buf.Length == RING_LEN && cyc.buf != uartBuf
      && uartBuf.Length == UART_BUFFER_SIZE && uartIndex < UART_BUFFER_SIZE
    }

    ghost function State(): Cli
      requires Valid()
      reads this, cyc, cyc.buf, uartBuf
    {
      Cli(uartBuf[..uartIndex], queue, cyc.Contents(), hand, typed, accepted, lines, done)
    }

    /** `log_uart_rx_init`. */
    constructor ()
      ensures Valid() && fresh(cyc) && fresh(cyc.buf) && fresh(uartBuf) && State() == START
    {
      cyc := new Cyclic(RING_LEN);
      uartBuf := new byte[UART_BUFFER_SIZE](_ => 0);
      uartIndex, queue, hand, typed, accepted, lines, done := 0, [], None, BLANK, [], [], [];
    }

    /** `uart_cmd_rx_indicate`: the length is queued first, then the text. */
    method RxIndicate()
      requires Valid() && uartIndex > 0 && uartBuf[uartIndex] == 0
      modifies this`queue, this`uartIndex, this`accepted, this`lines, cyc`writeIdx, cyc.buf
      ensures Valid() && State() == Indicated(old(State()))
    {
      ghost var s := State();
      var text := uartBuf[..uartIndex + 1];
      assert text == s.line + [0];
      if |queue| < CLI_QUEUE_SIZE {
        queue := queue + [uartIndex + 1];
        accepted, lines := accepted + [text], lines + [typed];
        var _ := cyc.Write(text);
      }
      uartIndex := 0;
      assert uartBuf[..0] == [];
    }

    /** One character in `log_uart_rx_irq_hdl`. */
    method RxChar(ch: byte)
      requires Valid()
      modifies this`queue, this`uartIndex, this`typed, this`accepted, this`lines, uartBuf, cyc`writeIdx, cyc.buf
      ensures Valid() && State() == Typed(old(State()), ch)
    {
      ghost var s := State();
      if ch >= 0x20 {
        uartBuf[uartIndex] := ch;
        uartIndex := uartIndex + 1;
        assert uartBuf[..uartIndex] == s.line + [ch];
        if uartIndex >= UART_BUFFER_SIZE {
          uartIndex := 0;
        }
      } else if ch == CR {
        uartBuf[uartIndex] := 0;
        assert uartBuf[..uartIndex] == s.line;
        if uartIndex > 0 {
          RxIndicate();
        }
      } else if ch == BS {
        if uartIndex > 0 {
          uartIndex := uartIndex - 1;
          uartBuf[uartIndex] := 0;
          assert uartBuf[..uartIndex] == s.line[..|s.line| - 1];
        }
      }
      typed := Pressed(typed, ch);
    }

    /** The task takes a length from the queue. */
    method QueueRead()
      requires Valid() && hand.None? && queue != []
      modifies this`queue, this`hand
      ensures Valid() && State() == Dequeued(old(State()))
    {
      hand := Some(queue[0]);
      queue := queue[1..];
    }

    /** `cmn_cmd_exec` with `uart_cmd_rx_handle_done`: the text is read from the
        ring, or dropped when there is no memory for it. */
    method CmdExec(allocOk: bool) returns (command: Option<seq<byte>>)
      requires Valid() && hand.Some?
      modifies this`hand, this`done, cyc`readIdx
      ensures Valid() && State() == Executed(old(State()), allocOk)
      ensures command == State().done[|State().done| - 1]
    {
      var len := hand.value;
      var count := cyc.Count();
      if len > count {
        len := count;
      }
      if !allocOk {
        var _ := cyc.Drop(len);
        command := None;
      } else {
        command := cyc.Read(len);
      }
      hand := None;
      done := done + [command];
    }
  }
}
