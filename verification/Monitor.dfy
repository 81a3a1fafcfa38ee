/** The run-time monitor of a contract: it reports into fixed-size C buffers
    what the reading of the observer's signals reports as lists. */
module Monitor {
  import opened Contracts
  import opened Options
  import opened FreshNames

  const NUL := '\0'

  // ---------------------------------------------------------------- C strings

  /** The buffer's characters up to its first NUL are `text`. */
  ghost predicate Holds(buffer: seq<char>, text: string) {
    |text| < |buffer| && buffer[..|text|] == text && buffer[|text|] == NUL && NUL !in text
  }

  lemma HoldsOne(buffer: seq<char>, s: string, t: string)
    requires Holds(buffer, s) && Holds(buffer, t)
    ensures s == t
  {
    assert forall i | 0 <= i < |s| :: buffer[i] == s[i];
    assert forall i | 0 <= i < |t| :: buffer[i] == t[i];
  }

  /** What of a text a buffer of `size` characters keeps. */
  function Clip(text: string, size: nat): string
    requires size > 0
  {
    if |text| < size then text else text[..size-1]
  }

  lemma HoldsShorter(buffer: seq<char>, text: string)
    requires Holds(buffer, text)
    ensures |text| < |buffer| && NUL !in text
  {
  }

  lemma ClipShort(text: string, size: nat)
    requires size > 0
    ensures |Clip(text, size)| < size && (|text| < size ==> Clip(text, size) == text)
  {
  }

  lemma ClipMore(text: string, more: string, size: nat)
    requires size > 0
    ensures Clip(Clip(text, size) + more, size) == Clip(text + more, size)
    ensures |Clip(text, size)| == size - 1 ==> Clip(text + more, size) == Clip(text, size)
  {
  }

  method StringLength(buffer: array<char>, ghost text: string) returns (n: nat)
    requires Holds(buffer[..], text)
    ensures n == |text|
  {
    n := 0;
    assert forall i | 0 <= i < |text| :: buffer[i] == text[i];
    while buffer[n] != NUL
      invariant n <= |text|
      decreases |text| - n
    {
      n := n + 1;
    }
  }

  /** Writes as much of `s` as fits at `off`, then a NUL. */
  method PrintAt(buffer: array<char>, off: nat, s: string, ghost text: string)
    requires Holds(buffer[..], text) && off == |text| && NUL !in s
    modifies buffer
    ensures Holds(buffer[..], Clip(text + s, buffer.Length))
  {
    var n := 0;
    while n < |s| && off + n + 1 < buffer.Length
      invariant n <= |s| && off + n < buffer.Length
      invariant buffer[..off+n] == text + s[..n]
    {
      buffer[off + n] := s[n];
      n := n + 1;
    }
    buffer[off + n] := NUL;
    assert Clip(text + s, buffer.Length) == text + s[..n];
    assert buffer[..][..off+n] == buffer[..off+n];
  }

  function Separated(text: string, sep: string): string {
    if text == "" then "" else text + sep
  }

  /** Appends `s`, after a separator unless it comes first, as far as it fits. */
  method Append(buffer: array?<char>, sep: string, s: string, ghost text: string)
    requires buffer != null && buffer.Length > 0 ==> Holds(buffer[..], text)
    requires NUL !in sep && NUL !in s
    modifies buffer
    ensures buffer != null && buffer.Length > 0 ==>
      Holds(buffer[..], Clip(Separated(text, sep) + s, buffer.Length))
  {
    hide Holds, Clip;
    if buffer == null || buffer.Length == 0 { return; }
    var off := StringLength(buffer, text);
    HoldsShorter(buffer[..], text);
    ghost var now := Clip(Separated(text, sep), buffer.Length);
    ClipMore(Separated(text, sep), s, buffer.Length);
    if off + 1 >= buffer.Length {
      ClipMore(text, sep + s, buffer.Length);
      ClipShort(text, buffer.Length);
      assert Separated(text, sep) + s == if text == "" then s else text + (sep + s);
      return;
    }
    ClipShort(text, buffer.Length);
    if off > 0 {
      PrintAt(buffer, off, sep, text);
      HoldsShorter(buffer[..], now);
      off := StringLength(buffer, now);
    }
    if off + 1 >= buffer.Length { return; }
    PrintAt(buffer, off, s, now);
  }

  // ---------------------------------------------------------------- lists of labels

  /** The labels as they are appended one by one, in a buffer without end. */
  function Text(labels: seq<string>): string {
    if labels == [] then "" else Separated(Text(labels[..|labels|-1]), "|") + labels[|labels|-1]
  }

  function Joined(labels: seq<string>): string {
    if labels == [] then "" else if |labels| == 1 then labels[0]
    else Joined(labels[..|labels|-1]) + "|" + labels[|labels|-1]
  }

  lemma ClipAppend(text: string, s: string, size: nat)
    requires size > 0
    ensures Clip(Separated(Clip(text, size), "|") + s, size) == Clip(Separated(text, "|") + s, size)
  {
    if |text| >= size && size > 1 {
      ClipMore(text, "|" + s, size);
      assert text + "|" + s == text + ("|" + s);
      assert Clip(text, size) + "|" + s == Clip(text, size) + ("|" + s);
    }
  }

  /** The appended labels are the joined list exactly when no separator is
      missing: the first of several labels is not empty. */
  lemma {:induction false} TextIsJoined(labels: seq<string>)
    ensures |Text(labels)| <= |Joined(labels)|
    ensures |labels| > 1 && labels[0] == "" ==> |Text(labels)| < |Joined(labels)|
    ensures Text(labels) == Joined(labels) <==> (|labels| <= 1 || labels[0] != "")
    ensures labels != [] && labels[0] != "" ==> Text(labels) != ""
  {
    if |labels| > 1 {
      var rest := labels[..|labels|-1];
      TextIsJoined(rest);
    }
  }

  const NONE := "<none>"

  /** What a buffer of `size` characters shows of a list of labels. */
  function Report(labels: seq<string>, size: nat): string
    requires size > 0
  {
    Clip(if Clip(Text(labels), size) == "" then NONE else Text(labels), size)
  }

  /** A list of labels is shown joined and cut to the buffer when there are
      labels, none empty, and room for a character. */
  lemma ReportIsJoined(labels: seq<string>, size: nat)
    requires size > 1 && labels != [] && forall i | 0 <= i < |labels| :: labels[i] != ""
    ensures Report(labels, size) == Clip(Joined(labels), size)
  {
    TextIsJoined(labels);
  }

  /** Nothing is shown although there are labels exactly when all are empty:
      such a violation looks like none. */
  lemma {:induction false} TextEmpty(labels: seq<string>)
    ensures Text(labels) == "" <==> forall i | 0 <= i < |labels| :: labels[i] == ""
  {
    if labels != [] {
      var rest := labels[..|labels|-1];
      TextEmpty(rest);
      assert forall i | 0 <= i < |rest| :: rest[i] == labels[i];
    }
  }

  lemma ReportIsNone(labels: seq<string>, size: nat)
    requires size > 1
    ensures Report(labels, size) == Clip(NONE, size) <==> Text(labels) == "" || Clip(Text(labels), size) == Clip(NONE, size)
  {
    hide Text;
  }

  /** A buffer that shows a report says `<none>` exactly when all labels are
      empty or their text is that very word, cut to the buffer. */
  lemma NoneShown(buffer: seq<char>, labels: seq<string>)
    requires |buffer| > 1 && Holds(buffer, Report(labels, |buffer|))
    ensures Holds(buffer, Clip(NONE, |buffer|)) <==>
      || (forall i | 0 <= i < |labels| :: labels[i] == "")
      || Clip(Text(labels), |buffer|) == Clip(NONE, |buffer|)
  {
    hide Holds, Report, Clip, Text;
    TextEmpty(labels);
    ReportIsNone(labels, |buffer|);
    if Holds(buffer, Clip(NONE, |buffer|)) { HoldsOne(buffer, Report(labels, |buffer|), Clip(NONE, |buffer|)); }
  }

  // ---------------------------------------------------------------- labels as C literals

  predicate Plain(clauses: seq<Clause>) {
    forall i | 0 <= i < |clauses| :: clauses[i].name.Some? ==> NUL !in clauses[i].name.value
  }

  /** No name contains a NUL, which would end the C string. */
  predicate PlainNames(c: Contract) {
    Plain(c.assumptions) && Plain(c.guarantees) && forall m | 0 <= m < |c.modes| :: NUL !in c.modes[m].name
  }

  lemma PlainLabel(clauses: seq<Clause>, stem: string, i: nat)
    requires Plain(clauses) && i < |clauses| && NUL !in stem
    ensures NUL !in LabelOf(clauses[i], stem, i)
  {
    PlainNumeral(i);
  }

  lemma PlainNumeral(n: nat)
    ensures NUL !in Numeral(n)
  {
    assert NUL !in DIGITS;
  }

  lemma PlainSignal(c: Contract, s: Signal)
    requires PlainNames(c) && IsSignal(c, s)
    ensures s.Assumption? || s.Guarantee? ==> NUL !in s.text
    ensures s.Ensure? ==> NUL !in EnsureLabel(c.modes[s.mode].name, s.index)
  {
    match s
    case Assumption(i, _) => PlainLabel(c.assumptions, "assumption", i);
    case Guarantee(i, _) => PlainLabel(c.guarantees, "guarantee", i);
    case Require(_, _) =>
    case Ensure(m, k) => PlainNumeral(k);
  }

  // ---------------------------------------------------------------- the monitor

  function LastActive(modes: seq<Mode>, n: nat, holds: Truth, before: int): int
    requires n <= |modes|
  {
    if n == 0 then before else if Active(modes[n-1], holds) then n - 1 else LastActive(modes, n - 1, holds, before)
  }

  /** A NULL buffer is left alone; another shows the labels appended so far. */
  ghost predicate Appended(buffer: array?<char>, labels: seq<string>)
    reads buffer
  {
    buffer != null ==> buffer.Length > 0 && Holds(buffer[..], Clip(Text(labels), buffer.Length))
  }

  ghost predicate Shows(buffer: array?<char>, labels: seq<string>)
    reads buffer
  {
    buffer != null ==> buffer.Length > 0 && Holds(buffer[..], Report(labels, buffer.Length))
  }

  method Clear(buffer: array?<char>)
    requires buffer != null ==> buffer.Length > 0
    modifies buffer
    ensures Appended(buffer, [])
  {
    if buffer != null { buffer[0] := NUL; }
  }

  method AppendLabel(buffer: array?<char>, s: string, ghost labels: seq<string>)
    requires Appended(buffer, labels) && NUL !in s
    modifies buffer
    ensures Appended(buffer, labels + [s])
  {
    assert (labels + [s])[..|labels|] == labels;
    if buffer != null { ClipAppend(Text(labels), s, buffer.Length); }
    hide Holds, Clip;
    Append(buffer, "|", s, if buffer == null then "" else Clip(Text(labels), buffer.Length));
  }

  /** An empty buffer says so. */
  method Finish(buffer: array?<char>, ghost labels: seq<string>)
    requires Appended(buffer, labels)
    modifies buffer
    ensures Shows(buffer, labels)
  {
    if buffer != null {
      ghost var text := Clip(Text(labels), buffer.Length);
      assert buffer[..][0] == if text == "" then NUL else text[0];
      if buffer[0] == NUL { PrintAt(buffer, 0, NONE, ""); }
    }
  }

  function ListedMode(mode: Mode, holds: Truth): seq<string> {
    if Active(mode, holds) then [mode.name] else []
  }

  function FailedMode(mode: Mode, holds: Truth): seq<string> {
    if Active(mode, holds) then FailingEnsures(mode, |mode.gives|, holds) else []
  }

  /** What the clauses and the first `m` modes report. */
  ghost predicate ReportedBefore(c: Contract, m: nat, holds: Truth, active: seq<string>, violations: seq<string>)
    requires m <= |c.modes|
  {
    && active == ActiveModes(c.modes, m, holds)
    && violations == FailedClauses(c, holds) + FailingModes(c.modes, m, holds)
  }

  lemma BeforeModes(c: Contract, holds: Truth, before: int)
    ensures ReportedBefore(c, 0, holds, [], FailedClauses(c, holds)) && LastActive(c.modes, 0, holds, before) == before
  {
  }

  lemma ModeReported(c: Contract, m: nat, holds: Truth, active: seq<string>, violations: seq<string>, before: int)
    requires m < |c.modes| && ReportedBefore(c, m, holds, active, violations)
    ensures ReportedBefore(c, m + 1, holds, active + ListedMode(c.modes[m], holds), violations + FailedMode(c.modes[m], holds))
    ensures LastActive(c.modes, m + 1, holds, before) ==
      if Active(c.modes[m], holds) then m else LastActive(c.modes, m, holds, before)
  {
    hide Active, FailingEnsures;
  }

  lemma AfterModes(c: Contract, holds: Truth, active: seq<string>, violations: seq<string>)
    requires ReportedBefore(c, |c.modes|, holds, active, violations)
    ensures active == ModeNames(c, holds) && violations == Violations(c, holds)
  {
  }

  class Monitor {
    const c: Contract
    const o: Observer
    var activeMode: int
    var anyViolation: bool
    /** The truth of the contract's formulas in each cycle checked. */
    ghost var history: seq<Truth>

    constructor (contract: Contract)
      ensures c == contract && Valid() && history == []
    {
      var observer := Observe(contract);
      c, o := contract, observer;
      activeMode, anyViolation, history := -1, false, [];
    }

    ghost predicate Valid()
      reads this
    {
      Observes(c, o) && (anyViolation <==> SomeViolated(c, history))
    }

    method Reset()
      requires Observes(c, o)
      modifies this
      ensures Valid() && history == [] && activeMode == -1
    {
      activeMode, anyViolation, history := -1, false, [];
    }

    /** The block of mode `m`: active, it is listed and its ensures are checked. */
    method CheckMode(m: nat, values: seq<bool>, ghost holds: Truth, modeBuffer: array?<char>, violationBuffer: array?<char>,
                     ghost active: seq<string>, ghost violations: seq<string>)
        returns (ghost listed: seq<string>, ghost failed: seq<string>)
      requires Outputs(c, o, holds, values) && PlainNames(c) && m < |c.modes|
      requires modeBuffer != null ==> modeBuffer != violationBuffer
      requires Appended(modeBuffer, active) && Appended(violationBuffer, violations)
      modifies this, modeBuffer, violationBuffer
      ensures history == old(history)
      ensures Appended(modeBuffer, active + listed) && Appended(violationBuffer, violations + failed)
      ensures listed == ListedMode(c.modes[m], holds) && failed == FailedMode(c.modes[m], holds)
      ensures anyViolation <==> old(anyViolation) || failed != []
      ensures activeMode == if Active(c.modes[m], holds) then m else old(activeMode)
    {
      hide Observes, Outputs, FailingEnsures, NeedsBefore, OwedBefore, Active, Appended;
      OutputsOf(c, o, holds, values);
      NothingSeen(c, holds);
      AllSeen(c, o, holds);
      NameIsPlain(c, m);
      hide PlainNames;
      listed, failed := [], [];
      assert active + [] == active && violations + [] == violations;
      var met := IsActive(c, o, values, m, holds);
      if !met { return; }
      activeMode := m;
      AppendLabel(modeBuffer, c.modes[m].name, active);
      listed := [c.modes[m].name];
      for i := 0 to |values|
        invariant failed == OwedBefore(c, m, holds, i)
        invariant Appended(modeBuffer, active + listed) && Appended(violationBuffer, violations + failed)
        invariant history == old(history) && activeMode == m
        invariant anyViolation <==> old(anyViolation) || failed != []
      {
        OwedNext(c, o, holds, values, m, i);
        var s := o.signals[i];
        if s.Ensure? && s.mode == m && !values[i] {
          SignalPlace(c, o, i);
          PlainSignal(c, s);
          anyViolation := true;
          var text := EnsureLabel(c.modes[m].name, s.index);
          AppendLabel(violationBuffer, text, violations + failed);
          assert violations + failed + [text] == violations + (failed + [text]);
          failed := failed + [text];
        }
      }
    }

    /** The assumptions and guarantees, in order. */
    method CheckClauses(values: seq<bool>, ghost holds: Truth, violationBuffer: array?<char>)
        returns (ghost violations: seq<string>)
      requires Outputs(c, o, holds, values) && PlainNames(c) && Appended(violationBuffer, [])
      modifies this, violationBuffer
      ensures history == old(history) && activeMode == old(activeMode)
      ensures violations == FailedClauses(c, holds)
      ensures Appended(violationBuffer, violations)
      ensures anyViolation <==> old(anyViolation) || violations != []
    {
      hide Observes, Outputs, Failing, FailedBefore, PlainNames, Appended;
      OutputsOf(c, o, holds, values);
      NothingSeen(c, holds);
      AllSeen(c, o, holds);
      violations := [];
      for i := 0 to |values|
        invariant violations == FailedBefore(c, holds, i) && Appended(violationBuffer, violations)
        invariant history == old(history) && activeMode == old(activeMode)
        invariant anyViolation <==> old(anyViolation) || violations != []
      {
        FailedNext(c, o, holds, values, i);
        var s := o.signals[i];
        if (s.Assumption? || s.Guarantee?) && !values[i] {
          SignalPlace(c, o, i);
          PlainSignal(c, s);
          anyViolation := true;
          AppendLabel(violationBuffer, s.text, violations);
          violations := violations + [s.text];
        }
      }
    }

    /** Checks one cycle: both buffers show what the reading of the same signals
        lists, and a violation is never forgotten. */
    method Check(values: seq<bool>, ghost holds: Truth, modeBuffer: array?<char>, violationBuffer: array?<char>)
      requires Valid() && Outputs(c, o, holds, values) && PlainNames(c)
      requires modeBuffer != null ==> modeBuffer.Length > 0 && modeBuffer != violationBuffer
      requires violationBuffer != null ==> violationBuffer.Length > 0
      modifies this, modeBuffer, violationBuffer
      ensures Valid() && history == old(history) + [holds]
      ensures Shows(modeBuffer, ModeNames(c, holds)) && Shows(violationBuffer, Violations(c, holds))
      ensures anyViolation <==> old(anyViolation) || !Satisfied(c, holds)
      ensures activeMode == LastActive(c.modes, |c.modes|, holds, old(activeMode))
    {
      hide Observes, Outputs, Satisfied, PlainNames, Appended, Shows, SomeViolated, ModeNames, LastActive, Violations, ReportedBefore;
      BeforeModes(c, holds, activeMode);
      Clear(modeBuffer);
      Clear(violationBuffer);
      ghost var clauses := CheckClauses(values, holds, violationBuffer);
      ghost var active: seq<string>, violations := [], clauses;
      for m := 0 to |c.modes|
        invariant ReportedBefore(c, m, holds, active, violations)
        invariant Appended(modeBuffer, active) && Appended(violationBuffer, violations)
        invariant history == old(history)
        invariant anyViolation <==> old(anyViolation) || violations != []
        invariant activeMode == LastActive(c.modes, m, holds, old(activeMode))
      {
        ModeReported(c, m, holds, active, violations, old(activeMode));
        ghost var listed, failed := CheckMode(m, values, holds, modeBuffer, violationBuffer, active, violations);
        active, violations := active + listed, violations + failed;
      }
      AfterModes(c, holds, active, violations);
      Finish(modeBuffer, active);
      Finish(violationBuffer, violations);
      NoViolations(c, holds);
      Remembered(c, history, holds);
      history := history + [holds];
    }
  }

  lemma NameIsPlain(c: Contract, m: nat)
    requires PlainNames(c) && m < |c.modes|
    ensures NUL !in c.modes[m].name
  {
  }

  ghost predicate SomeViolated(c: Contract, history: seq<Truth>) {
    exists n | 0 <= n < |history| :: Violations(c, history[n]) != []
  }

  lemma Remembered(c: Contract, history: seq<Truth>, holds: Truth)
    ensures SomeViolated(c, history + [holds]) <==> SomeViolated(c, history) || Violations(c, holds) != []
  {
    var more := history + [holds];
    if SomeViolated(c, history) {
      var n :| 0 <= n < |history| && Violations(c, history[n]) != [];
      assert more[n] == history[n];
    }
    assert more[|history|] == holds;
  }
}
