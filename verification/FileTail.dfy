/**
 The file tailer for one source: polls read complete lines from a byte offset,
 enqueue the non-blank ones and save the offset.

 Blankness and event construction are parameters. `enqueued` is what the polls
 have put into the disk queue.
 */
module FileTail {
  import opened Options
  import opened Lines

  const FINGERPRINT_BYTES := 64

  /** Which payloads are blank, which can be made into an event, and the configured limits. */
  datatype Rules = Rules(blank: seq<byte> -> bool, valid: seq<byte> -> bool, maximumEventBytes: nat, maximumLines: nat)

  datatype Checkpoint = Checkpoint(offset: nat, fingerprint: seq<byte>)

  datatype Outcome = Done | QueueFull | Aborted

  /** The fingerprint is a hash of the prefix; as an injective function it is the prefix itself. */
  function Fingerprint(content: seq<byte>): seq<byte> {
    if |content| < FINGERPRINT_BYTES then [] else content[..FINGERPRINT_BYTES]
  }

  /** The saved checkpoint, corrected for truncation and replacement of the file. */
  function Resume(saved: Option<Checkpoint>, content: seq<byte>): (c: Checkpoint)
    ensures c.offset <= |content|
  {
    var base := if saved.Some? then saved.value else Checkpoint(0, []);
    var fingerprint := Fingerprint(content);
    var replaced := base.fingerprint != [] && fingerprint != [] && base.fingerprint != fingerprint;
    Checkpoint(if base.offset > |content| || replaced then 0 else base.offset,
               if base.fingerprint == [] then fingerprint else base.fingerprint)
  }

  /**
   A file is resumed where it was left exactly when it is still that long and, as
   far as both versions are long enough to tell, starts with the same bytes;
   otherwise from its start.
   */
  lemma ResumeExactly(saved: Checkpoint, before: seq<byte>, after: seq<byte>)
    requires saved.fingerprint == Fingerprint(before)
    ensures Resume(Some(saved), after).offset ==
            if saved.offset <= |after| &&
               (|before| >= FINGERPRINT_BYTES && |after| >= FINGERPRINT_BYTES ==>
                  before[..FINGERPRINT_BYTES] == after[..FINGERPRINT_BYTES])
            then saved.offset else 0
  {
  }

  function Offset(c: Option<Checkpoint>): nat {
    if c.Some? then c.value.offset else 0
  }

  // ----- lines and their payloads -----

  /** Either nothing, or complete lines only. */
  predicate Complete(s: seq<byte>) {
    s == [] || s[|s| - 1] == LF
  }

  /** The payloads of the non-blank lines of some text. */
  function Payloads(rules: Rules, s: seq<byte>): seq<seq<byte>>
    decreases |s|
  {
    var i := FirstLF(s);
    if i == |s| then []
    else
      var payload := TrimEnd(s[..i + 1]);
      (if rules.blank(payload) then [] else [payload]) + Payloads(rules, s[i + 1..])
  }

  lemma FirstLFAppend(a: seq<byte>, b: seq<byte>)
    requires a != [] && Complete(a)
    ensures FirstLF(a) < |a| && FirstLF(a + b) == FirstLF(a)
  {
    hide FirstLF;
    var i, j := FirstLF(a), FirstLF(a + b);
    assert (a + b)[i] == a[i] && (a + b)[|a| - 1] == a[|a| - 1];
    assert forall k :: 0 <= k < i ==> (a + b)[k] == a[k];
  }

  lemma {:induction false} PayloadsAppend(rules: Rules, a: seq<byte>, b: seq<byte>)
    requires Complete(a)
    ensures Payloads(rules, a + b) == Payloads(rules, a) + Payloads(rules, b)
    decreases |a|
  {
    hide TrimEnd, FirstLF;
    if a == [] {
      assert a + b == b;
    } else {
      var i := FirstLF(a);
      FirstLFAppend(a, b);
      assert (a + b)[..i + 1] == a[..i + 1] && (a + b)[i + 1..] == a[i + 1..] + b;
      PayloadsAppend(rules, a[i + 1..], b);
    }
  }

  /** Every payload of `part` is in `all`, at least as often. */
  ghost predicate Includes(all: seq<seq<byte>>, part: seq<seq<byte>>) {
    multiset(part) <= multiset(all)
  }

  lemma IncludesMore(all: seq<seq<byte>>, part: seq<seq<byte>>, more: seq<seq<byte>>)
    requires Includes(all, part)
    ensures Includes(all + more, part) && Includes(all + more, part + more)
  {
  }

  /** One line is one payload, unless it is blank. */
  lemma PayloadsOfLine(rules: Rules, s: seq<byte>, buffer: nat)
    requires ReadSlice(s, buffer).Line?
    ensures var line := ReadSlice(s, buffer).line;
            Payloads(rules, line) == if rules.blank(TrimEnd(line)) then [] else [TrimEnd(line)]
  {
    var line := ReadSlice(s, buffer).line;
    assert FirstLF(line) == |line| - 1;
    assert line[..|line|] == line && line[|line|..] == [];
    assert Payloads(rules, []) == [];
  }

  /** Reading one more line extends the consumed text by that line. */
  lemma Advance(rules: Rules, content: seq<byte>, from: nat, reached: nat, buffer: nat)
    requires from <= reached <= |content| && Complete(content[from..reached])
    requires ReadSlice(content[reached..], buffer).Line?
    ensures var line := ReadSlice(content[reached..], buffer).line;
            var payload := TrimEnd(line);
            && 0 < |line| && reached + |line| <= |content|
            && Complete(content[from..reached + |line|])
            && Payloads(rules, content[from..reached + |line|]) ==
                 Payloads(rules, content[from..reached]) + (if rules.blank(payload) then [] else [payload])
  {
    hide Payloads, TrimEnd, FirstLF;
    var line := ReadSlice(content[reached..], buffer).line;
    assert line == content[reached..][..|line|];
    assert content[from..reached + |line|] == content[from..reached] + line;
    PayloadsOfLine(rules, content[reached..], buffer);
    PayloadsAppend(rules, content[from..reached], line);
  }

  /** The poll from `from` does what is left to do from `reached`. */
  ghost predicate Onward(rules: Rules, content: seq<byte>, now: Circumstances, from: nat, reached: nat, linesRead: nat, processed: nat) {
    && from <= reached <= |content|
    && var rest := Run(rules, content[reached..], now, linesRead, processed);
       Run(rules, content[from..], now, 0, 0) == Progress(reached - from + rest.passed, rest.stop)
  }

  lemma StartsOnward(rules: Rules, content: seq<byte>, now: Circumstances, from: nat)
    requires from <= |content|
    ensures Onward(rules, content, now, from, from, 0, 0)
  {
  }

  lemma NextStep(rules: Rules, content: seq<byte>, now: Circumstances, from: nat, reached: nat, linesRead: nat, processed: nat)
    requires Onward(rules, content, now, from, reached, linesRead, processed)
    ensures var whole := Run(rules, content[from..], now, 0, 0);
            if linesRead >= rules.maximumLines then whole == Progress(reached - from, AtLimit)
            else if linesRead == now.cancelledAt then whole == Progress(reached - from, Failed)
            else
              match NextLine(rules, content[reached..])
              case Bad => whole == Progress(reached - from, Failed)
              case End => whole == Progress(reached - from, AtFileEnd)
              case Blank(n) => Onward(rules, content, now, from, reached + n, linesRead + 1, processed)
              case Good(n) =>
                if processed >= now.capacity then whole == Progress(reached - from, AtFullQueue)
                else Onward(rules, content, now, from, reached + n, linesRead + 1, processed + 1)
  {
    hide NextLine;
    var next := NextLine(rules, content[reached..]);
    if next.Blank? || next.Good? {
      assert content[reached..][next.length..] == content[reached + next.length..];
    }
  }

  lemma NothingRead(rules: Rules, content: seq<byte>, from: nat, enqueued: seq<seq<byte>>)
    requires from <= |content|
    ensures Complete(content[from..from]) && enqueued == enqueued + Payloads(rules, content[from..from])
  {
    assert content[from..from] == [];
  }

  // ----- how far a poll gets -----

  /** What the environment does during one poll. */
  datatype Circumstances = Circumstances(
    cancelledAt: nat,  // the context is found cancelled before this line, or the process dies there
    capacity: nat,     // the queue refuses events after this many
    commits: bool)     // the checkpoint can be written

  /** What a poll finds at its position: `length` is that of the whole line. */
  datatype Next = Bad | End | Blank(length: nat) | Good(length: nat)

  /** A line that is too long, or that is not blank and makes no event, is bad. */
  function NextLine(rules: Rules, s: seq<byte>): (r: Next)
    ensures r.Blank? || r.Good? ==> 0 < r.length <= |s|
  {
    match ReadSlice(s, BufferSize(rules.maximumEventBytes))
    case BufferFull => Bad
    case AtEnd(partial) => if |partial| > rules.maximumEventBytes + 2 then Bad else End
    case Line(line) =>
      var payload := TrimEnd(line);
      if |line| > rules.maximumEventBytes + 2 then Bad
      else if rules.blank(payload) then Blank(|line|)
      else if rules.valid(payload) then Good(|line|)
      else Bad
  }

  datatype Stop = AtLimit | AtFileEnd | AtFullQueue | Failed

  /** How many bytes of lines a poll passes and what stops it. */
  datatype Progress = Progress(passed: nat, stop: Stop)

  function Run(rules: Rules, s: seq<byte>, now: Circumstances, linesRead: nat, processed: nat): (p: Progress)
    ensures p.passed <= |s|
    decreases |s|
  {
    if linesRead >= rules.maximumLines then Progress(0, AtLimit)
    else if linesRead == now.cancelledAt then Progress(0, Failed)
    else
      match NextLine(rules, s)
      case Bad => Progress(0, Failed)
      case End => Progress(0, AtFileEnd)
      case Blank(n) => var p := Run(rules, s[n..], now, linesRead + 1, processed); p.(passed := n + p.passed)
      case Good(n) =>
        if processed >= now.capacity then Progress(0, AtFullQueue)
        else var p := Run(rules, s[n..], now, linesRead + 1, processed + 1); p.(passed := n + p.passed)
  }

  /** How far a poll of `s` moves the saved offset: over what it passed, unless it failed there or cannot save it. */
  function Moved(rules: Rules, s: seq<byte>, now: Circumstances): nat {
    var p := Run(rules, s, now, 0, 0);
    if p.stop == Failed || !now.commits then 0 else p.passed
  }

  function OutcomeOf(p: Progress, commits: bool): Outcome {
    if p.stop == Failed || (p.passed > 0 && !commits) then Aborted
    else if p.stop == AtFullQueue then QueueFull
    else Done
  }

  // ----- when a poll can move the offset -----

  /** Behind a line that was passed, a poll can stop without failing: at the end, at a full queue or at its limit. */
  predicate Passable(rules: Rules, s: seq<byte>, lines: nat) {
    lines == 0 ||
    match NextLine(rules, s)
    case Bad => false
    case End => true
    case Good(_) => true
    case Blank(n) => Passable(rules, s[n..], lines - 1)
  }

  /** A bad line comes first, or behind one line and blank lines, within the limit of one poll. */
  predicate Blocked(rules: Rules, s: seq<byte>) {
    var next := NextLine(rules, s);
    rules.maximumLines > 0 && !next.End? && (!next.Bad? ==> !Passable(rules, s[next.length..], rules.maximumLines - 1))
  }

  lemma {:induction false} PassableIsPassed(rules: Rules, s: seq<byte>, now: Circumstances, linesRead: nat, processed: nat)
    requires linesRead <= rules.maximumLines && Passable(rules, s, rules.maximumLines - linesRead)
    requires now.capacity <= processed && rules.maximumLines <= now.cancelledAt
    ensures Run(rules, s, now, linesRead, processed).stop != Failed
    decreases |s|
  {
    hide NextLine;
    if linesRead < rules.maximumLines && NextLine(rules, s).Blank? {
      PassableIsPassed(rules, s[NextLine(rules, s).length..], now, linesRead + 1, processed);
    }
  }

  lemma {:induction false} UnpassableFails(rules: Rules, s: seq<byte>, now: Circumstances, linesRead: nat, processed: nat)
    requires linesRead <= rules.maximumLines && !Passable(rules, s, rules.maximumLines - linesRead)
    ensures Run(rules, s, now, linesRead, processed).stop == Failed
    decreases |s|
  {
    hide NextLine;
    if linesRead < rules.maximumLines && NextLine(rules, s).Blank? {
      UnpassableFails(rules, s[NextLine(rules, s).length..], now, linesRead + 1, processed);
    }
  }

  /**
   Under some circumstances a poll moves the offset, exactly when a complete line
   comes next and the text is not blocked by a bad one.
   */
  lemma MovesExactly(rules: Rules, s: seq<byte>)
    ensures (exists now :: Moved(rules, s, now) > 0) <==>
            rules.maximumLines > 0 && !NextLine(rules, s).End? && !Blocked(rules, s)
  {
    hide NextLine;
    var next := NextLine(rules, s);
    if rules.maximumLines > 0 && (next.Good? || next.Blank?) {
      var first := if next.Good? then 1 else 0;
      var rest := s[next.length..];
      if Passable(rules, rest, rules.maximumLines - 1) {
        var now := Circumstances(rules.maximumLines, first, true);
        PassableIsPassed(rules, rest, now, 1, first);
        assert Moved(rules, s, now) > 0;
      } else {
        forall now
          ensures Moved(rules, s, now) == 0
        {
          UnpassableFails(rules, rest, now, 1, first);
        }
      }
    }
  }

  /** What follows does not change a complete line or a bad one. */
  lemma NextLineStays(rules: Rules, s: seq<byte>, more: seq<byte>)
    requires !NextLine(rules, s).End?
    ensures NextLine(rules, s + more) == NextLine(rules, s)
  {
    hide TrimEnd, FirstLF;
    FirstLFStays(s, more);
    var i := FirstLF(s);
    assert i < |s| ==> (s + more)[..i + 1] == s[..i + 1];
  }

  lemma {:induction false} FirstLFStays(s: seq<byte>, more: seq<byte>)
    ensures if FirstLF(s) < |s| then FirstLF(s + more) == FirstLF(s) else FirstLF(s + more) >= |s|
  {
    if s != [] {
      assert (s + more)[1..] == s[1..] + more;
      FirstLFStays(s[1..], more);
    }
  }

  lemma {:induction false} UnpassableStays(rules: Rules, s: seq<byte>, more: seq<byte>, lines: nat)
    requires !Passable(rules, s, lines)
    ensures !Passable(rules, s + more, lines)
    decreases lines
  {
    hide NextLine;
    NextLineStays(rules, s, more);
    if NextLine(rules, s).Blank? {
      var n := NextLine(rules, s).length;
      assert (s + more)[n..] == s[n..] + more;
      UnpassableStays(rules, s[n..], more, lines - 1);
    }
  }

  /** Text that is appended never unblocks a file, and no poll of it moves the offset. */
  lemma BlockedStays(rules: Rules, s: seq<byte>, more: seq<byte>, now: Circumstances)
    requires Blocked(rules, s)
    ensures Blocked(rules, s + more) && Moved(rules, s + more, now) == 0
  {
    hide NextLine, Moved;
    NextLineStays(rules, s, more);
    var next := NextLine(rules, s);
    if next.Blank? || next.Good? {
      assert (s + more)[next.length..] == s[next.length..] + more;
      UnpassableStays(rules, s[next.length..], more, rules.maximumLines - 1);
    }
    MovesExactly(rules, s + more);
  }

  /** A payload and LF, with anything behind. */
  lemma NextLineIs(rules: Rules, payload: seq<byte>, rest: seq<byte>)
    requires LF !in payload && (payload != [] ==> payload[|payload| - 1] != CR)
    requires |payload| < rules.maximumEventBytes + 2
    ensures NextLine(rules, payload + [LF] + rest) ==
            if rules.blank(payload) then Blank(|payload| + 1)
            else if rules.valid(payload) then Good(|payload| + 1) else Bad
    ensures (payload + [LF] + rest)[|payload| + 1..] == rest
  {
    hide TrimEnd, FirstLF;
    var s, line := payload + [LF] + rest, payload + [LF];
    FirstLFOfLine(payload, rest);
    TrimEndOfLine(payload);
    assert s[..|payload| + 1] == line;
  }

  lemma FirstLFOfLine(payload: seq<byte>, rest: seq<byte>)
    requires LF !in payload
    ensures FirstLF(payload + [LF] + rest) == |payload|
  {
    hide FirstLF;
    var s := payload + [LF] + rest;
    assert s[|payload|] == LF && forall k :: 0 <= k < |payload| ==> s[k] == payload[k];
  }

  lemma TrimEndOfLine(payload: seq<byte>)
    requires payload != [] ==> payload[|payload| - 1] != LF && payload[|payload| - 1] != CR
    ensures TrimEnd(payload + [LF]) == payload
  {
    var line := payload + [LF];
    assert line[..|line| - 1] == payload;
  }

  // ----- the tailer -----

  /**
   The enqueued payloads cover the complete lines between the origin and the
   saved offset; without an aborted poll they are exactly those.
   */
  ghost predicate Sound(
      rules: Rules, startAtEnd: bool, seen: seq<byte>, origin: nat, c: Option<Checkpoint>, enqueued: seq<seq<byte>>,
      undisturbed: bool)
  {
    && origin <= Offset(c) <= |seen|
    && (c.Some? && c.value.fingerprint != [] ==> c.value.fingerprint == Fingerprint(seen))
    && (c.None? || !startAtEnd ==> origin == 0)
    && Complete(seen[origin..Offset(c)])
    && Includes(enqueued, Payloads(rules, seen[origin..Offset(c)]))
    && (undisturbed ==> enqueued == Payloads(rules, seen[origin..Offset(c)]))
  }

  /** A poll of the grown file that stopped at `reached`, with the offset moved there unless it was aborted. */
  lemma PollKeepsSound(
      rules: Rules, startAtEnd: bool, seen: seq<byte>, origin: nat, c: Option<Checkpoint>, enqueued: seq<seq<byte>>,
      undisturbed: bool, content: seq<byte>, reached: nat, d: Option<Checkpoint>, aborted: bool)
    requires Sound(rules, startAtEnd, seen, origin, c, enqueued, undisturbed) && seen <= content
    requires !(c.None? && startAtEnd)
    requires Offset(c) <= reached <= |content| && Complete(content[Offset(c)..reached])
    requires if aborted || reached == Offset(c) then d == c else d == Some(Checkpoint(reached, Fingerprint(content)))
    ensures Sound(rules, startAtEnd, content, origin, d, enqueued + Payloads(rules, content[Offset(c)..reached]), undisturbed && !aborted)
  {
    hide Payloads, Complete, Includes, Resume;
    var consumed, read := seen[origin..Offset(c)], content[Offset(c)..reached];
    ResumeOfGrown(c, seen, content);
    IncludesMore(enqueued, Payloads(rules, consumed), Payloads(rules, read));
    assert content[origin..Offset(c)] == consumed;
    assert content[origin..reached] == consumed + read;
    ConsumedGrows(rules, consumed, read);
    if Offset(d) == Offset(c) && reached == Offset(c) {
      EmptyText(rules);
      assert read == [] && enqueued + [] == enqueued;
    }
  }

  /** A sound tailer resumes a grown file where it stopped, from the origin 0 if it has not started. */
  lemma GrownResumes(
      rules: Rules, startAtEnd: bool, seen: seq<byte>, origin: nat, c: Option<Checkpoint>, enqueued: seq<seq<byte>>,
      undisturbed: bool, content: seq<byte>)
    requires Sound(rules, startAtEnd, seen, origin, c, enqueued, undisturbed) && seen <= content
    ensures Resume(c, content).offset == Offset(c) && (c.None? ==> origin == 0)
  {
    hide Payloads, Complete, Includes;
    ResumeOfGrown(c, seen, content);
  }

  /** The first poll with `startAtEnd` skips what is there. */
  lemma SkipKeepsSound(rules: Rules, seen: seq<byte>, enqueued: seq<seq<byte>>, undisturbed: bool, content: seq<byte>)
    requires Sound(rules, true, seen, 0, None, enqueued, undisturbed)
    ensures Sound(rules, true, content, |content|, Some(Checkpoint(|content|, Fingerprint(content))), enqueued, undisturbed)
    ensures Sound(rules, true, content, 0, None, enqueued, false)
  {
    EmptyText(rules);
    assert seen[0..0] == [] && content[0..0] == [] && content[|content|..|content|] == [];
  }

  class FileTailer {
    const rules: Rules
    const startAtEnd: bool
    var checkpoint: Option<Checkpoint>
    var enqueued: seq<seq<byte>>

    ghost var seen: seq<byte>  // the content at the last poll
    ghost var origin: nat      // where tailing began
    ghost var undisturbed: bool  // no poll was aborted so far

    constructor (rules: Rules, startAtEnd: bool)
      ensures Valid() && checkpoint == None && enqueued == [] && origin == 0 && seen == [] && undisturbed
      ensures this.rules == rules && this.startAtEnd == startAtEnd
    {
      this.rules, this.startAtEnd := rules, startAtEnd;
      checkpoint, enqueued, seen, origin, undisturbed := None, [], [], 0, true;
    }

    /** The lines between the origin and the saved offset. */
    ghost function Consumed(): seq<byte>
      requires origin <= Offset(checkpoint) <= |seen|
      reads this
    {
      seen[origin..Offset(checkpoint)]
    }

    /** Holds between polls of a file that only grows. */
    ghost predicate Valid()
      reads this
    {
      Sound(rules, startAtEnd, seen, origin, checkpoint, enqueued, undisturbed)
    }

    /** Saves the checkpoint: written to a temporary file, renamed, then kept in memory. */
    method CommitCheckpoint(c: Checkpoint, writable: bool) returns (ok: bool)
      modifies this`checkpoint
      ensures ok == writable
      ensures checkpoint == if ok then Some(c) else old(checkpoint)
    {
      if writable {
        checkpoint := Some(c);
      }
      return writable;
    }

    /** One poll of arbitrary content. */
    method PollSource(content: seq<byte>, now: Circumstances) returns (r: Outcome, ghost reached: nat)
      modifies this`checkpoint, this`enqueued
      ensures old(checkpoint).None? && startAtEnd ==>
                && enqueued == old(enqueued) && reached == |content|
                && r == (if now.commits then Done else Aborted)
                && checkpoint == if now.commits then Some(Checkpoint(reached, Fingerprint(content))) else None
      ensures !(old(checkpoint).None? && startAtEnd) ==>
                var from := Resume(old(checkpoint), content).offset;
                var progress := Run(rules, content[from..], now, 0, 0);
                && r == OutcomeOf(progress, now.commits)
                && reached == from + progress.passed <= |content|
                && Complete(content[from..reached])
                && enqueued == old(enqueued) + Payloads(rules, content[from..reached])
                && checkpoint == if r == Aborted || reached == from then old(checkpoint) else Some(Checkpoint(reached, Fingerprint(content)))
    {
      hide Payloads, TrimEnd, FirstLF, Complete, ReadSlice, Run, Onward, Fingerprint, Resume;
      var fingerprint := Fingerprint(content);
      if checkpoint.None? && startAtEnd {
        reached := |content|;
        var ok := CommitCheckpoint(Checkpoint(|content|, fingerprint), now.commits);
        return if ok then Done else Aborted, reached;
      }
      var current := Resume(checkpoint, content);
      ghost var from := current.offset;
      reached := from;
      var dirty, linesRead, processed := false, 0, 0;
      NothingRead(rules, content, from, enqueued);
      StartsOnward(rules, content, now, from);
      while linesRead < rules.maximumLines
        invariant checkpoint == old(checkpoint)
        invariant from <= reached == current.offset <= |content|
        invariant Complete(content[from..reached])
        invariant enqueued == old(enqueued) + Payloads(rules, content[from..reached])
        invariant dirty <==> reached > from
        invariant dirty ==> current.fingerprint == fingerprint
        invariant Onward(rules, content, now, from, reached, linesRead, processed)
        decreases |content| - current.offset
      {
        NextStep(rules, content, now, from, reached, linesRead, processed);
        if linesRead == now.cancelledAt {
          return Aborted, reached;
        }
        var slice := ReadSlice(content[current.offset..], BufferSize(rules.maximumEventBytes));
        if slice.BufferFull? || |(if slice.Line? then slice.line else slice.partial)| > rules.maximumEventBytes + 2 {
          return Aborted, reached;
        }
        if slice.AtEnd? {
          break;
        }
        linesRead := linesRead + 1;
        var line := slice.line;
        var payload := TrimEnd(line);
        Advance(rules, content, from, reached, BufferSize(rules.maximumEventBytes));
        if !rules.blank(payload) {
          if !rules.valid(payload) {
            return Aborted, reached;
          }
          if processed >= now.capacity {
            if dirty {
              var ok := CommitCheckpoint(current, now.commits);
              return if ok then QueueFull else Aborted, reached;
            }
            return QueueFull, reached;
          }
          enqueued := enqueued + [payload];
          processed := processed + 1;
        }
        current := Checkpoint(current.offset + |line|, fingerprint);
        reached := current.offset;
        dirty := true;
      }
      NextStep(rules, content, now, from, reached, linesRead, processed);
      if dirty {
        var ok := CommitCheckpoint(current, now.commits);
        return if ok then Done else Aborted, reached;
      }
      return Done, reached;
    }

    /**
     A poll of a file that has only grown. Polls that end normally or with a
     full queue enqueue exactly the lines they move the offset over; an aborted
     poll may enqueue lines that are enqueued again later, but loses none.
     */
    method Poll(content: seq<byte>, now: Circumstances) returns (r: Outcome)
      requires Valid() && seen <= content
      modifies this
      ensures Valid() && seen == content && Offset(checkpoint) >= old(Offset(checkpoint))
      ensures undisturbed == (old(undisturbed) && r != Aborted)
      ensures origin == if old(checkpoint).None? && startAtEnd && now.commits then |content| else old(origin)
      ensures r == Aborted ==> checkpoint == old(checkpoint)
      ensures old(checkpoint).Some? ==> checkpoint.Some?
      ensures !(old(checkpoint).None? && startAtEnd) ==>
                var from := old(Offset(checkpoint));
                var progress := Run(rules, content[from..], now, 0, 0);
                && r == OutcomeOf(progress, now.commits)
                && Offset(checkpoint) == from + Moved(rules, content[from..], now)
                && enqueued == old(enqueued) + Payloads(rules, content[from..from + progress.passed])
      ensures r != Aborted && !(old(checkpoint).None? && startAtEnd) ==>
                enqueued == old(enqueued) + Payloads(rules, content[old(Offset(checkpoint))..Offset(checkpoint)])
    {
      hide Payloads, Complete, TrimEnd, FirstLF, Sound, Run;
      ghost var from, was, quiet := checkpoint, seen, undisturbed;
      assert Sound(rules, startAtEnd, was, origin, from, enqueued, quiet);
      GrownResumes(rules, startAtEnd, was, origin, from, enqueued, quiet, content);
      ghost var reached;
      r, reached := PollSource(content, now);
      seen := content;
      undisturbed := undisturbed && r != Aborted;
      if from.None? && startAtEnd {
        SkipKeepsSound(rules, was, enqueued, quiet, content);
        if now.commits {
          origin := |content|;
        }
      } else {
        PollKeepsSound(rules, startAtEnd, was, origin, from, old(enqueued), quiet, content, reached, checkpoint, r == Aborted);
      }
    }

    /** The offset is at a line boundary, except before the first line read after starting inside one. */
    ghost predicate AtBoundary()
      reads this
    {
      Offset(checkpoint) == 0 || (Offset(checkpoint) <= |seen| && seen[Offset(checkpoint) - 1] == LF)
    }

    lemma BoundaryExactly()
      requires Valid()
      ensures AtBoundary() <==> Offset(checkpoint) > origin || origin == 0 || seen[origin - 1] == LF
      ensures !startAtEnd ==> AtBoundary()
    {
      if Offset(checkpoint) > origin {
        assert Consumed()[|Consumed()| - 1] == seen[Offset(checkpoint) - 1];
      }
    }
  }

  // ----- runs that make no progress -----

  /** A bad line keeps the tailer from ever moving its offset again. */
  ghost predicate Stuck(tailer: FileTailer)
    requires tailer.Valid()
    reads tailer
  {
    && !(tailer.checkpoint.None? && tailer.startAtEnd)
    && Blocked(tailer.rules, tailer.seen[Offset(tailer.checkpoint)..])
  }

  /** Any number of polls of a file that only grows, under any circumstances, restarts of the loop after failed polls included. */
  method PollRepeatedly(tailer: FileTailer, polls: seq<(seq<byte>, Circumstances)>)
    requires tailer.Valid()
    requires polls != [] ==> tailer.seen <= polls[0].0
    requires forall i, j :: 0 <= i < j < |polls| ==> polls[i].0 <= polls[j].0
    modifies tailer
    ensures tailer.Valid() && Offset(tailer.checkpoint) >= old(Offset(tailer.checkpoint))
    ensures old(Stuck(tailer)) ==> Stuck(tailer) && Offset(tailer.checkpoint) == old(Offset(tailer.checkpoint))
  {
    for i := 0 to |polls|
      invariant tailer.Valid() && Offset(tailer.checkpoint) >= old(Offset(tailer.checkpoint))
      invariant tailer.seen == if i == 0 then old(tailer.seen) else polls[i - 1].0
      invariant old(Stuck(tailer)) ==> Stuck(tailer) && Offset(tailer.checkpoint) == old(Offset(tailer.checkpoint))
    {
      PollOnce(tailer, polls[i].0, polls[i].1);
    }
  }

  method PollOnce(tailer: FileTailer, content: seq<byte>, now: Circumstances)
    requires tailer.Valid() && tailer.seen <= content
    modifies tailer
    ensures tailer.Valid() && tailer.seen == content && Offset(tailer.checkpoint) >= old(Offset(tailer.checkpoint))
    ensures old(Stuck(tailer)) ==> Stuck(tailer) && Offset(tailer.checkpoint) == old(Offset(tailer.checkpoint))
  {
    hide Payloads, Run, Blocked, Moved, Sound;
    assert Offset(tailer.checkpoint) <= |tailer.seen| by {
      OffsetWithin(tailer);
    }
    ghost var from := Offset(tailer.checkpoint);
    ghost var before, more := tailer.seen[from..], content[|tailer.seen|..];
    assert content[from..] == before + more;
    ghost var stuck := Stuck(tailer);
    if stuck {
      BlockedStays(tailer.rules, before, more, now);
    }
    var _ := tailer.Poll(content, now);
  }

  lemma OffsetWithin(tailer: FileTailer)
    requires tailer.Valid()
    ensures Offset(tailer.checkpoint) <= |tailer.seen|
  {
  }

  /**
   One good line in front of a bad one: every poll puts the good line into the
   queue again and fails at the bad one, and the offset stays.
   */
  method RepeatGoodLine(rules: Rules, good: seq<byte>, bad: seq<byte>, polls: nat) returns (tailer: FileTailer)
    requires LF !in good + bad && (good != [] ==> good[|good| - 1] != CR) && (bad != [] ==> bad[|bad| - 1] != CR)
    requires |good| < rules.maximumEventBytes + 2 && |bad| < rules.maximumEventBytes + 2 && rules.maximumLines > 1
    requires !rules.blank(good) && rules.valid(good) && !rules.blank(bad) && !rules.valid(bad)
    ensures fresh(tailer) && tailer.Valid() && Offset(tailer.checkpoint) == 0
    ensures tailer.enqueued == seq(polls, _ => good)
  {
    hide Payloads, Run, NextLine;
    tailer := new FileTailer(rules, false);
    var content := good + [LF] + (bad + [LF]);
    GoodThenBad(rules, good, bad, Circumstances(2, 1, true));
    for i := 0 to polls
      invariant fresh(tailer) && tailer.Valid() && tailer.checkpoint == None && tailer.seen <= content
      invariant tailer.rules == rules && !tailer.startAtEnd
      invariant tailer.enqueued == seq(i, _ => good)
    {
      assert content[0..] == content && seq(i, _ => good) + [good] == seq(i + 1, _ => good);
      var _ := tailer.Poll(content, Circumstances(2, 1, true));
    }
  }

  lemma GoodThenBad(rules: Rules, good: seq<byte>, bad: seq<byte>, now: Circumstances)
    requires LF !in good + bad && (good != [] ==> good[|good| - 1] != CR) && (bad != [] ==> bad[|bad| - 1] != CR)
    requires |good| < rules.maximumEventBytes + 2 && |bad| < rules.maximumEventBytes + 2 && rules.maximumLines > 1
    requires !rules.blank(good) && rules.valid(good) && !rules.blank(bad) && !rules.valid(bad)
    requires now.cancelledAt > 0 && now.capacity > 0
    ensures var content := good + [LF] + (bad + [LF]);
            && Run(rules, content, now, 0, 0) == Progress(|good| + 1, Failed)
            && Payloads(rules, content[0..|good| + 1]) == [good]
  {
    hide Payloads, NextLine, TrimEnd, FirstLF;
    var content := good + [LF] + (bad + [LF]);
    assert forall b :: b in good || b in bad ==> b in good + bad;
    NextLineIs(rules, good, bad + [LF]);
    NextLineIs(rules, bad, []);
    assert bad + [LF] + [] == bad + [LF];
    var rest := content[|good| + 1..];
    assert Run(rules, rest, now, 1, 1) == Progress(0, Failed);
    LinePayload(rules, good);
    assert content[0..|good| + 1] == good + [LF];
  }

  lemma LinePayload(rules: Rules, payload: seq<byte>)
    requires LF !in payload && (payload != [] ==> payload[|payload| - 1] != CR) && !rules.blank(payload)
    ensures Payloads(rules, payload + [LF]) == [payload]
  {
    hide TrimEnd, FirstLF;
    var line := payload + [LF];
    FirstLFOfLine(payload, []);
    TrimEndOfLine(payload);
    assert line + [] == line && line[..|payload| + 1] == line && line[|payload| + 1..] == [];
    EmptyText(rules);
  }

  /** Tailing a file from its end, inside a line: the offset is at no boundary. */
  method StartInsideLine(rules: Rules, content: seq<byte>) returns (tailer: FileTailer)
    requires content != [] && content[|content| - 1] != LF
    ensures fresh(tailer) && tailer.Valid() && tailer.seen == content
    ensures Offset(tailer.checkpoint) == |content| && !tailer.AtBoundary()
  {
    tailer := new FileTailer(rules, true);
    var outcome := tailer.Poll(content, Circumstances(100, 100, true));
    tailer.BoundaryExactly();
  }

  lemma EmptyText(rules: Rules)
    ensures Complete([]) && Payloads(rules, []) == []
  {
  }

  lemma ConsumedGrows(rules: Rules, a: seq<byte>, b: seq<byte>)
    requires Complete(a) && Complete(b)
    ensures Complete(a + b) && Payloads(rules, a + b) == Payloads(rules, a) + Payloads(rules, b)
  {
    PayloadsAppend(rules, a, b);
  }

  /** A grown file resumes where it stopped. */
  lemma ResumeOfGrown(saved: Option<Checkpoint>, before: seq<byte>, after: seq<byte>)
    requires before <= after && Offset(saved) <= |before|
    requires saved.Some? && saved.value.fingerprint != [] ==> saved.value.fingerprint == Fingerprint(before)
    ensures Resume(saved, after).offset == Offset(saved)
    ensures Fingerprint(before) != [] ==> Fingerprint(after) == Fingerprint(before)
  {
    if |before| >= FINGERPRINT_BYTES {
      assert after[..FINGERPRINT_BYTES] == before[..FINGERPRINT_BYTES];
    }
  }
}
