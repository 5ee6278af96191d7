/** `CSVHandler`: the per-channel position buffers, the shared time-stamp list,
    and the cursor that makes each file-change event decode only new rows. */
module Handler {
  import opened Wrappers
  import opened RowDecode

  /** The source's default for `max_points`. */
  const DefaultMaxPoints: int := 100

  /** The attributes of a `CSVHandler`: `data_dict`, `times`, `max_points`
      and `last_processed`. */
  datatype State = State(
    data: map<int, seq<real>>,
    times: seq<int>,
    maxPoints: int,
    lastProcessed: nat)

  /** `CSVHandler(data_dict, times, max_points=100)`: the cursor starts at
      row 0, so the first successful read decodes every row of the log. */
  function Init(data: map<int, seq<real>>, times: seq<int>, maxPoints: int := DefaultMaxPoints): (s: State)
    ensures forall rows :: Unread(s, rows) == rows
  {
    State(data, times, maxPoints, 0)
  }

  /** The position list of channel `c`, empty for a channel not yet seen. */
  function Positions(s: State, c: int): seq<real> {
    if c in s.data then s.data[c] else []
  }

  /** The buffer updates at the end of the row loop of `on_modified`, applied
      to one row's outcome.
      - A rejected or skipped row changes nothing, and neither does a row that
        raises (it never reaches the updates).
      - A row with a position registers its channel if it is new and touches
        no other channel.
      - A position whose time stamp is not hex is appended on its own: no time
        stamp, no eviction.
      - A full sample appends the position and one time stamp. If the
        channel already held `maxPoints` or more, its oldest position and the
        oldest entry of the shared time list are dropped. */
  function Apply(s: State, o: Outcome): (t: State)
    ensures t.maxPoints == s.maxPoints && t.lastProcessed == s.lastProcessed
    ensures s.data.Keys <= t.data.Keys
    ensures o.Rejected? || o.NotMotorReply? || o.Aborted? ==> t == s
  {
    match o
    case Sample(c, p, time) =>
      var grown := Positions(s, c) + [p];
      var stamped := s.times + [time];
      if |grown| > s.maxPoints then
        s.(data := s.data[c := grown[1..]], times := stamped[1..])
      else
        s.(data := s.data[c := grown], times := stamped)
    case PositionOnly(c, p) =>
      s.(data := s.data[c := Positions(s, c) + [p]])
    case _ => s
  }

  /** What one update does to the buffers, case by case. */
  lemma ApplyMeaning(s: State, o: Outcome)
    ensures o.Rejected? || o.NotMotorReply? || o.Aborted? ==> Apply(s, o) == s
    ensures o.Sample? || o.PositionOnly? ==>
              && Apply(s, o).data.Keys == s.data.Keys + {o.channel}
              && forall c :: c in s.data && c != o.channel ==> Apply(s, o).data[c] == s.data[c]
    ensures o.PositionOnly? ==>
              && Apply(s, o).data[o.channel] == Positions(s, o.channel) + [o.position]
              && Apply(s, o).times == s.times
    ensures o.Sample? && |Positions(s, o.channel)| < s.maxPoints ==>
              && Apply(s, o).data[o.channel] == Positions(s, o.channel) + [o.position]
              && Apply(s, o).times == s.times + [o.time]
    ensures o.Sample? && |Positions(s, o.channel)| >= s.maxPoints ==>
              && |Apply(s, o).data[o.channel]| == |Positions(s, o.channel)|
              && Apply(s, o).data[o.channel] == (Positions(s, o.channel) + [o.position])[1..]
              && Apply(s, o).times == (s.times + [o.time])[1..]
  {
  }

  /** The outcome of every row, in order. */
  function Decoded(rows: seq<seq<string>>): (outs: seq<Outcome>)
    ensures |outs| == |rows|
    decreases |rows|
  {
    if rows == [] then []
    else Decoded(rows[..|rows| - 1]) + [DecodeRow(rows[|rows| - 1])]
  }

  /** The `i`-th outcome is the outcome of the `i`-th row. */
  lemma {:induction false} DecodedAt(rows: seq<seq<string>>, i: nat)
    requires i < |rows|
    ensures Decoded(rows)[i] == DecodeRow(rows[i])
    decreases |rows|
  {
    if i < |rows| - 1 {
      var init := rows[..|rows| - 1];
      DecodedAt(init, i);
      assert init[i] == rows[i];
    }
  }

  /** The buffer updates of a run of outcomes, in order. They never change the
      cursor or the capacity and never forget a channel. */
  function Run(s: State, outs: seq<Outcome>): (t: State)
    ensures t.maxPoints == s.maxPoints && t.lastProcessed == s.lastProcessed
    ensures s.data.Keys <= t.data.Keys
    decreases |outs|
  {
    if outs == [] then s
    else Apply(Run(s, outs[..|outs| - 1]), outs[|outs| - 1])
  }

  /** The buffer updates of `rows`, in order: the row loop over rows none of
      which raises. It never changes the cursor or the capacity and never
      forgets a channel. */
  function Process(s: State, rows: seq<seq<string>>): (t: State)
    ensures t.maxPoints == s.maxPoints && t.lastProcessed == s.lastProcessed
    ensures s.data.Keys <= t.data.Keys
  {
    Run(s, Decoded(rows))
  }

  /** The number of outcomes before the first `Aborted`, or all of them. */
  function FirstAbort(outs: seq<Outcome>): (k: nat)
    ensures k <= |outs|
    ensures forall i :: 0 <= i < k ==> !outs[i].Aborted?
    ensures k < |outs| ==> outs[k].Aborted?
    decreases |outs|
  {
    if outs == [] || outs[0].Aborted? then 0 else 1 + FirstAbort(outs[1..])
  }

  /** A pass over `rows` reaches the end. */
  predicate Completes(rows: seq<seq<string>>) {
    FirstAbort(Decoded(rows)) == |rows|
  }

  /** A pass reaches the end exactly when no row makes `parse_position` raise. */
  lemma CompletesMeaning(rows: seq<seq<string>>)
    ensures Completes(rows) <==> forall i :: 0 <= i < |rows| ==> !DecodeRow(rows[i]).Aborted?
  {
    var k := FirstAbort(Decoded(rows));
    if k < |rows| {
      DecodedAt(rows, k);
    } else {
      forall i | 0 <= i < |rows| ensures !DecodeRow(rows[i]).Aborted? {
        DecodedAt(rows, i);
      }
    }
  }

  /** Outcomes none of which is `Aborted` run to the end. */
  lemma FirstAbortAll(outs: seq<Outcome>)
    requires forall i :: 0 <= i < |outs| ==> !outs[i].Aborted?
    ensures FirstAbort(outs) == |outs|
  {
  }

  /** A run that reaches the end of `a + b` reaches the end of each part. */
  lemma FirstAbortSplit(a: seq<Outcome>, b: seq<Outcome>)
    requires FirstAbort(a + b) == |a + b|
    ensures FirstAbort(a) == |a| && FirstAbort(b) == |b|
  {
    forall i | 0 <= i < |a| ensures !a[i].Aborted? {
      assert (a + b)[i] == a[i];
    }
    forall i | 0 <= i < |b| ensures !b[i].Aborted? {
      assert (a + b)[|a| + i] == b[i];
    }
    FirstAbortAll(a);
    FirstAbortAll(b);
  }

  /** The rows a pass looks at: all of them, or those up to and including the
      first that raises. */
  function Attempted(rows: seq<seq<string>>): (a: seq<seq<string>>)
    ensures a <= rows
  {
    var k := FirstAbort(Decoded(rows));
    if k < |rows| then rows[..k + 1] else rows
  }

  /** A diagnostic: the row and why it was not (fully) taken. */
  datatype Report = Report(row: seq<string>, reason: Rejection)

  /** The diagnostics the row loop prints, in row order. */
  function Reports(rows: seq<seq<string>>): (rs: seq<Report>)
    ensures |rs| <= |rows|
    decreases |rows|
  {
    if rows == [] then []
    else
      var last := rows[|rows| - 1];
      Reports(rows[..|rows| - 1]) +
        match Reason(DecodeRow(last))
        case Some(why) => [Report(last, why)]
        case None => []
  }

  /** The result of reading the log: the rows, or a failure to read it. */
  datatype Read = Unreadable | Rows(rows: seq<seq<string>>)

  /** `rows[last_processed:]`: empty when the cursor is past the end. */
  function Unread(s: State, rows: seq<seq<string>>): (u: seq<seq<string>>)
    ensures s.lastProcessed <= |rows| ==> rows == rows[..s.lastProcessed] + u
    ensures s.lastProcessed >= |rows| ==> u == []
  {
    if s.lastProcessed <= |rows| then rows[s.lastProcessed..] else []
  }

  /** `on_modified` for the log file: a failed read changes nothing. Otherwise
      the unread rows are processed in order. When none raises, the cursor is
      set to the number of rows, whatever else happened to them. A row whose
      position overflows `float` raises past the row loop's handler: the
      updates of the rows before it stay, and the cursor does not move. */
  function OnModified(s: State, read: Read): (t: State)
    ensures read.Unreadable? ==> t == s
    ensures read.Rows? ==> t.maxPoints == s.maxPoints && s.data.Keys <= t.data.Keys
    ensures read.Rows? && Completes(Unread(s, read.rows)) ==> t.lastProcessed == |read.rows|
    ensures read.Rows? && !Completes(Unread(s, read.rows)) ==> t.lastProcessed == s.lastProcessed
  {
    match read
    case Unreadable => s
    case Rows(rows) =>
      var pending := Unread(s, rows);
      var k := FirstAbort(Decoded(pending));
      var done := Process(s, pending[..k]);
      if k == |pending| then done.(lastProcessed := |rows|) else done
  }

  /** A pass over unread rows none of which raises: all of them are processed
      and the cursor moves to the end of the log. */
  lemma OnModifiedCompletes(s: State, rows: seq<seq<string>>)
    requires Completes(Unread(s, rows))
    ensures OnModified(s, Rows(rows)) == Process(s, Unread(s, rows)).(lastProcessed := |rows|)
  {
    var pending := Unread(s, rows);
    assert pending[..|pending|] == pending;
  }

  /** A pass that reaches a row that raises: the rows before it are processed
      and the cursor stays. */
  lemma OnModifiedAborts(s: State, rows: seq<seq<string>>)
    requires !Completes(Unread(s, rows))
    ensures var pending := Unread(s, rows);
            OnModified(s, Rows(rows)) == Process(s, pending[..FirstAbort(Decoded(pending))])
  {
  }

  /** One more row extends the run by its outcome and the diagnostics by its
      reason, if any. */
  lemma RowStep(s: State, rows: seq<seq<string>>, i: nat)
    requires i < |rows|
    ensures Run(s, Decoded(rows[..i + 1])) == Apply(Run(s, Decoded(rows[..i])), DecodeRow(rows[i]))
    ensures Reports(rows[..i + 1]) == Reports(rows[..i]) +
              match Reason(DecodeRow(rows[i]))
              case Some(why) => [Report(rows[i], why)]
              case None => []
  {
    var init := rows[..i + 1];
    assert init[..i] == rows[..i];
    assert Decoded(init) == Decoded(rows[..i]) + [DecodeRow(rows[i])];
    assert Decoded(init)[..i] == Decoded(rows[..i]);
  }

  // ---------------------------------------------------------------------------
  // The loop as the source runs it.
  // ---------------------------------------------------------------------------

  /** The body of the row loop for one row: the buffer updates, made step by
      step on local copies of the buffers, and the diagnostic printed for the
      row, if any. A row that raises updates nothing. */
  method IngestRow(s: State, row: seq<string>) returns (t: State, printed: seq<Report>)
    ensures t == Apply(s, DecodeRow(row))
    ensures printed == match Reason(DecodeRow(row))
                       case Some(why) => [Report(row, why)]
                       case None => []
  {
    var data := s.data;
    var times := s.times;
    printed := [];
    match DecodeRow(row) {
      case Aborted =>
        printed := [Report(row, FloatOverflow)];
      case Rejected(why) =>
        printed := [Report(row, why)];
      case NotMotorReply =>
      case PositionOnly(c, p) =>
        data := data[c := (if c in data then data[c] else []) + [p]];
        printed := [Report(row, BadTimestamp)];
      case Sample(c, p, time) =>
        var list := (if c in data then data[c] else []) + [p];
        times := times + [time];
        if |list| > s.maxPoints {
          list := list[1..];
          times := times[1..];
        }
        data := data[c := list];
    }
    t := s.(data := data, times := times);
  }

  /** The body of `on_modified` after a successful read: walks the unread rows,
      collects the diagnostics, and stops at a row that raises. */
  method Ingest(s: State, rows: seq<seq<string>>) returns (t: State, reports: seq<Report>)
    ensures t == OnModified(s, Rows(rows))
    ensures reports == Reports(Attempted(Unread(s, rows)))
  {
    var pending := Unread(s, rows);
    t := s;
    reports := [];
    var i := 0;
    while i < |pending|
      invariant 0 <= i <= |pending|
      invariant i <= FirstAbort(Decoded(pending))
      invariant Run(s, Decoded(pending[..i])) == t
      invariant reports == Reports(pending[..i])
    {
      var row := pending[i];
      RowStep(s, pending, i);
      assert DecodeRow(row).Aborted? <==> FirstAbort(Decoded(pending)) == i by {
        DecodedAt(pending, i);
      }
      var printed;
      t, printed := IngestRow(t, row);
      reports := reports + printed;
      if DecodeRow(row).Aborted? {
        return;
      }
      i := i + 1;
    }
    assert pending[..|pending|] == pending;
    t := t.(lastProcessed := |rows|);
  }

  // ---------------------------------------------------------------------------
  // Properties of the row loop.
  // ---------------------------------------------------------------------------

  /** Decoding distributes over concatenation of row lists. */
  lemma {:induction false} DecodedAppend(a: seq<seq<string>>, b: seq<seq<string>>)
    ensures Decoded(a + b) == Decoded(a) + Decoded(b)
    decreases |b|
  {
    if b == [] {
      assert a + b == a;
    } else {
      var ab := a + b;
      assert ab[..|ab| - 1] == a + b[..|b| - 1];
      assert ab[|ab| - 1] == b[|b| - 1];
      DecodedAppend(a, b[..|b| - 1]);
    }
  }

  /** Running `a + b` is running `a`, then `b`. */
  lemma {:induction false} RunAppend(s: State, a: seq<Outcome>, b: seq<Outcome>)
    ensures Run(s, a + b) == Run(Run(s, a), b)
    decreases |b|
  {
    if b == [] {
      assert a + b == a;
    } else {
      var ab := a + b;
      assert ab[..|ab| - 1] == a + b[..|b| - 1];
      assert ab[|ab| - 1] == b[|b| - 1];
      RunAppend(s, a, b[..|b| - 1]);
    }
  }

  /** The loop over `a + b` is the loop over `a` followed by the loop over `b`. */
  lemma ProcessAppend(s: State, a: seq<seq<string>>, b: seq<seq<string>>)
    ensures Process(s, a + b) == Process(Process(s, a), b)
  {
    DecodedAppend(a, b);
    RunAppend(s, Decoded(a), Decoded(b));
  }

  /** The buffer updates neither read nor write the cursor. */
  lemma {:induction false} RunIgnoresCursor(s: State, outs: seq<Outcome>, n: nat)
    ensures Run(s.(lastProcessed := n), outs) == Run(s, outs).(lastProcessed := n)
    decreases |outs|
  {
    if outs != [] {
      RunIgnoresCursor(s, outs[..|outs| - 1], n);
    }
  }

  /** An outcome that changes nothing can be dropped from a run. */
  lemma RunSkipsInert(s: State, before: seq<Outcome>, o: Outcome, after: seq<Outcome>)
    requires o.Rejected? || o.NotMotorReply?
    ensures Run(s, before + [o] + after) == Run(s, before + after)
  {
    RunAppend(s, before + [o], after);
    RunAppend(s, before, [o]);
    RunAppend(s, before, after);
    assert Run(Run(s, before), [o]) == Run(s, before) by {
      assert [o][..0] == [];
      ApplyMeaning(Run(s, before), o);
    }
  }

  /** A row that is rejected or is not a motor reply can be deleted from the
      log without changing the outcome: it never blocks the rows after it. */
  lemma SkippedRowIsInert(s: State, rows: seq<seq<string>>, i: nat)
    requires i < |rows|
    requires DecodeRow(rows[i]).Rejected? || DecodeRow(rows[i]).NotMotorReply?
    ensures Process(s, rows) == Process(s, rows[..i] + rows[i + 1..])
  {
    assert rows == rows[..i] + [rows[i]] + rows[i + 1..];
    DecodedAppend(rows[..i] + [rows[i]], rows[i + 1..]);
    DecodedAppend(rows[..i], [rows[i]]);
    DecodedAppend(rows[..i], rows[i + 1..]);
    assert Decoded([rows[i]]) == [DecodeRow(rows[i])] by {
      assert [rows[i]][..0] == [];
    }
    RunSkipsInert(s, Decoded(rows[..i]), DecodeRow(rows[i]), Decoded(rows[i + 1..]));
  }

  /** After a pass that raises no error, a second event over the same rows
      changes nothing. */
  lemma ReingestIsIdempotent(s: State, rows: seq<seq<string>>)
    requires Completes(Unread(s, rows))
    ensures OnModified(OnModified(s, Rows(rows)), Rows(rows)) == OnModified(s, Rows(rows))
  {
    var t := OnModified(s, Rows(rows));
    assert Unread(t, rows) == [];
  }

  /** A pass that reaches a row raising `OverflowError` keeps the updates of
      the rows before it but not the cursor, so the next event over the same
      log applies those rows a second time. */
  lemma AbortedEventRepeats(s: State, rows: seq<seq<string>>)
    requires !Completes(Unread(s, rows))
    ensures var pending := Unread(s, rows);
            var done := pending[..FirstAbort(Decoded(pending))];
            && OnModified(s, Rows(rows)) == Process(s, done)
            && OnModified(OnModified(s, Rows(rows)), Rows(rows)) == Process(Process(s, done), done)
  {
    OnModifiedAborts(s, rows);
    var t := OnModified(s, Rows(rows));
    assert Unread(t, rows) == Unread(s, rows);
    OnModifiedAborts(t, rows);
  }

  /** Processing a single row applies its outcome. */
  lemma ProcessOne(s: State, row: seq<string>)
    ensures Process(s, [row]) == Apply(s, DecodeRow(row))
  {
    var o := DecodeRow(row);
    assert Decoded([row]) == [o] by {
      assert [row][..0] == [];
    }
    assert Run(s, [o]) == Apply(s, o) by {
      assert [o][..0] == [];
    }
  }

  /** A new channel's sample applied twice is stored twice. */
  lemma SampleTwice(s: State, o: Outcome)
    requires o.Sample? && o.channel !in s.data && s.maxPoints >= 2
    ensures Positions(Apply(Apply(s, o), o), o.channel) == [o.position, o.position]
    ensures Apply(Apply(s, o), o).times == s.times + [o.time, o.time]
  {
    var once := Apply(s, o);
    ApplyMeaning(s, o);
    assert Positions(once, o.channel) == [o.position];
    ApplyMeaning(once, o);
    assert once.times + [o.time] == s.times + [o.time, o.time];
  }

  /** The outcomes of two rows. */
  lemma DecodedPair(first: seq<string>, second: seq<string>)
    ensures Decoded([first, second]) == [DecodeRow(first), DecodeRow(second)]
  {
    var rows := [first, second];
    assert rows[..1] == [first] && rows[..1][..0] == [];
  }

  /** For instance, a full sample followed by a row that raises: after two
      events the sample's position and its time stamp are stored twice. */
  lemma AbortDuplicatesSample(s: State, good: seq<string>, bad: seq<string>)
    requires s.lastProcessed == 0 && s.maxPoints >= 2
    requires DecodeRow(good).Sample? && DecodeRow(bad).Aborted?
    requires DecodeRow(good).channel !in s.data
    ensures var o := DecodeRow(good);
            var t := OnModified(OnModified(s, Rows([good, bad])), Rows([good, bad]));
            && Positions(t, o.channel) == [o.position, o.position]
            && t.times == s.times + [o.time, o.time]
            && t.lastProcessed == 0
  {
    var rows := [good, bad];
    var o := DecodeRow(good);
    assert Unread(s, rows) == rows;
    assert FirstAbort(Decoded(rows)) == 1 by {
      DecodedPair(good, bad);
      assert [o, DecodeRow(bad)][1..] == [DecodeRow(bad)];
    }
    assert rows[..1] == [good];
    assert OnModified(OnModified(s, Rows(rows)), Rows(rows)) == Apply(Apply(s, o), o) by {
      AbortedEventRepeats(s, rows);
      ProcessOne(s, good);
      ProcessOne(Apply(s, o), good);
    }
    SampleTwice(s, o);
  }

  /** Two events, the second after more rows were appended, give the same
      state as one event over the whole log when no unread row raises: every
      row is decoded exactly once. */
  lemma IncrementalIngest(s: State, seen: seq<seq<string>>, added: seq<seq<string>>)
    requires s.lastProcessed <= |seen|
    requires Completes(Unread(s, seen + added))
    ensures OnModified(OnModified(s, Rows(seen)), Rows(seen + added)) == OnModified(s, Rows(seen + added))
  {
    var u := Unread(s, seen);
    assert Unread(s, seen + added) == u + added;
    assert Completes(u) && Completes(added) by {
      DecodedAppend(u, added);
      FirstAbortSplit(Decoded(u), Decoded(added));
    }
    OnModifiedCompletes(s, seen);
    var mid := Process(s, u).(lastProcessed := |seen|);
    assert Unread(mid, seen + added) == added;
    OnModifiedCompletes(mid, seen + added);
    OnModifiedCompletes(s, seen + added);
    RunIgnoresCursor(Process(s, u), Decoded(added), |seen|);
    ProcessAppend(s, u, added);
  }

  /** Rows before the cursor are never looked at. */
  lemma OnlyUnreadRowsMatter(s: State, rows: seq<seq<string>>, other: seq<seq<string>>)
    requires |rows| == |other| && s.lastProcessed <= |rows|
    requires rows[s.lastProcessed..] == other[s.lastProcessed..]
    ensures OnModified(s, Rows(rows)) == OnModified(s, Rows(other))
  {
  }

  /** When the log has fewer rows than the cursor (the file was truncated), no
      row is decoded and the cursor moves back to the new row count. */
  lemma TruncatedLogRewindsCursor(s: State, rows: seq<seq<string>>)
    requires |rows| < s.lastProcessed
    ensures OnModified(s, Rows(rows)) == s.(lastProcessed := |rows|)
  {
  }

  // ---------------------------------------------------------------------------
  // Capacity.
  // ---------------------------------------------------------------------------

  /** Every channel holds at most `maxPoints` positions. */
  predicate Bounded(s: State) {
    s.maxPoints >= 0 && forall c :: c in s.data ==> |s.data[c]| <= s.maxPoints
  }

  /** No outcome is a position with an unparsable time stamp. */
  predicate NoPartial(outs: seq<Outcome>) {
    forall i :: 0 <= i < |outs| ==> !outs[i].PositionOnly?
  }

  /** No row of `rows` has a position with an unparsable time stamp. */
  predicate NoPartialRows(rows: seq<seq<string>>) {
    forall i :: 0 <= i < |rows| ==> !DecodeRow(rows[i]).PositionOnly?
  }

  lemma NoPartialInit(outs: seq<Outcome>)
    requires outs != [] && NoPartial(outs)
    ensures NoPartial(outs[..|outs| - 1]) && !outs[|outs| - 1].PositionOnly?
  {
    var init := outs[..|outs| - 1];
    forall i | 0 <= i < |init| ensures !init[i].PositionOnly? {
      assert init[i] == outs[i];
    }
  }

  /** The capacity bound survives any run without partial updates. */
  lemma {:induction false} RunKeepsBound(s: State, outs: seq<Outcome>)
    requires Bounded(s) && NoPartial(outs)
    ensures Bounded(Run(s, outs))
    decreases |outs|
  {
    if outs != [] {
      var init := outs[..|outs| - 1];
      NoPartialInit(outs);
      RunKeepsBound(s, init);
    }
  }

  /** The capacity bound survives any rows without partial updates. */
  lemma ProcessKeepsBound(s: State, rows: seq<seq<string>>)
    requires Bounded(s) && NoPartialRows(rows)
    ensures Bounded(Process(s, rows))
  {
    var outs := Decoded(rows);
    forall i | 0 <= i < |outs| ensures !outs[i].PositionOnly? {
      DecodedAt(rows, i);
    }
    RunKeepsBound(s, outs);
  }

  /** A position with an unparsable time stamp on a full channel leaves that
      channel over capacity, since the eviction is skipped. */
  lemma PartialUpdateBreaksBound(s: State, o: Outcome)
    requires Bounded(s) && o.PositionOnly?
    requires |Positions(s, o.channel)| == s.maxPoints
    ensures !Bounded(Apply(s, o))
  {
    ApplyMeaning(s, o);
    assert |Apply(s, o).data[o.channel]| == s.maxPoints + 1;
  }

  // ---------------------------------------------------------------------------
  // Retention: a channel keeps the most recent positions.
  // ---------------------------------------------------------------------------

  /** The last `k` elements of `xs` (all of them when there are fewer). */
  function Recent(xs: seq<real>, k: nat): (r: seq<real>)
    ensures |r| <= k && |r| <= |xs|
    ensures xs == xs[..|xs| - |r|] + r
  {
    if |xs| <= k then xs else xs[|xs| - k..]
  }

  /** The position one outcome delivers to channel `c`, if any. */
  function Arrival(o: Outcome, c: int): seq<real> {
    if (o.Sample? || o.PositionOnly?) && o.channel == c then [o.position] else []
  }

  /** The positions a run delivers to channel `c`, in order. */
  function ArrivalsOf(outs: seq<Outcome>, c: int): seq<real>
    decreases |outs|
  {
    if outs == [] then []
    else ArrivalsOf(outs[..|outs| - 1], c) + Arrival(outs[|outs| - 1], c)
  }

  /** The positions `rows` deliver to channel `c`, in row order. */
  function Arrivals(rows: seq<seq<string>>, c: int): seq<real> {
    ArrivalsOf(Decoded(rows), c)
  }

  /** Keeping the last `k` and then the last `k` after one more arrival is
      keeping the last `k` of everything. */
  lemma RecentPush(xs: seq<real>, p: real, k: nat)
    ensures Recent(Recent(xs, k) + [p], k) == Recent(xs + [p], k)
  {
    if |xs| > k > 0 {
      var kept := xs[|xs| - k..];
      assert Recent(kept + [p], k) == (kept + [p])[1..];
      assert (kept + [p])[1..] == xs[|xs| - k + 1..] + [p];
      assert (xs + [p])[|xs| + 1 - k..] == xs[|xs| - k + 1..] + [p];
    }
  }

  /** One complete update keeps a channel's list equal to the most recent
      `maxPoints` of everything that arrived. */
  lemma ApplyRecent(s: State, o: Outcome, c: int, arrived: seq<real>)
    requires Bounded(s) && !o.PositionOnly?
    requires Positions(s, c) == Recent(arrived, s.maxPoints)
    ensures Positions(Apply(s, o), c) == Recent(arrived + Arrival(o, c), s.maxPoints)
  {
    ApplyMeaning(s, o);
    if o.Sample? && o.channel == c {
      RecentPush(arrived, o.position, s.maxPoints);
    } else {
      assert arrived + Arrival(o, c) == arrived;
    }
  }

  /** Starting within capacity and without partial updates, a channel holds
      exactly the last `maxPoints` of its old positions followed by the ones
      the run delivers to it. */
  lemma {:induction false} RunRetainsMostRecent(s: State, outs: seq<Outcome>, c: int)
    requires Bounded(s) && NoPartial(outs)
    ensures Positions(Run(s, outs), c) == Recent(Positions(s, c) + ArrivalsOf(outs, c), s.maxPoints)
    decreases |outs|
  {
    if outs == [] {
      assert Positions(s, c) + [] == Positions(s, c);
    } else {
      var init := outs[..|outs| - 1];
      var o := outs[|outs| - 1];
      NoPartialInit(outs);
      RunRetainsMostRecent(s, init, c);
      RunKeepsBound(s, init);
      var before := Positions(s, c) + ArrivalsOf(init, c);
      ApplyRecent(Run(s, init), o, c, before);
      assert Run(s, outs) == Apply(Run(s, init), o);
      assert ArrivalsOf(outs, c) == ArrivalsOf(init, c) + Arrival(o, c);
      assert Positions(s, c) + ArrivalsOf(outs, c) == before + Arrival(o, c);
    }
  }

  /** Starting within capacity and without partial rows, a channel holds
      exactly the last `maxPoints` of its old positions followed by the ones
      the rows deliver to it. */
  lemma RetainsMostRecent(s: State, rows: seq<seq<string>>, c: int)
    requires Bounded(s) && NoPartialRows(rows)
    ensures Positions(Process(s, rows), c) == Recent(Positions(s, c) + Arrivals(rows, c), s.maxPoints)
  {
    var outs := Decoded(rows);
    forall i | 0 <= i < |outs| ensures !outs[i].PositionOnly? {
      DecodedAt(rows, i);
    }
    RunRetainsMostRecent(s, outs, c);
  }

  /** Outcomes that deliver nothing to channel `c` leave its list as it was. */
  lemma {:induction false} UntouchedChannel(s: State, outs: seq<Outcome>, c: int)
    requires ArrivalsOf(outs, c) == []
    ensures Positions(Run(s, outs), c) == Positions(s, c)
    ensures c in Run(s, outs).data <==> c in s.data
    decreases |outs|
  {
    if outs != [] {
      var init := outs[..|outs| - 1];
      assert ArrivalsOf(init, c) == [];
      UntouchedChannel(s, init, c);
    }
  }
}
