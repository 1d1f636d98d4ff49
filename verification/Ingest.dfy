/** The telemetry ingester: a consumer loop and a storage worker over one partition of the log, with
    process crashes, failed batch inserts, and failed offset commits. */
module Ingest {

  const CHANNEL_SIZE: nat := 10_000
  const MAX_BATCH_SIZE: nat := 500

  /** A log record, as parsing sees it. */
  datatype Message = Valid(submissionId: string) | Invalid

  /** A stored record: which record it is, and which incarnation of the process stored it. */
  datatype Row = Row(offset: nat, epoch: nat)

  datatype WorkerAt = Selecting | Flushing | Committing

  datatype State = State(
    table: seq<Row>,        // survives crashes
    committed: nat,         // survives crashes
    epoch: nat,
    position: nat,          // next offset to poll
    fetched: seq<nat>,      // offsets handed to the channel by this incarnation
    channel: seq<nat>,
    buffer: seq<nat>,
    at: WorkerAt)

  datatype Action =
    | Fetch                   // one polled record is parsed and handed over, or skipped when invalid
    | PollErrors(drop: nat)   // a poll that reports errors: the records it also brought are skipped
    | Receive
    | Tick
    | FlushNothing
    | Persist
    | PersistFails
    | Commit
    | CommitFails
    | Crash

  const INIT := State([], 0, 0, 0, [], [], [], Selecting)

  predicate Enabled(s: State, a: Action, log: seq<Message>) {
    match a
    case Fetch => s.position < |log| && (log[s.position].Valid? ==> |s.channel| < CHANNEL_SIZE)
    case PollErrors(drop) => s.position + drop <= |log|
    case Receive => s.at.Selecting? && s.channel != []
    case Tick => s.at.Selecting?
    case FlushNothing => s.at.Flushing? && s.buffer == []
    case Persist => s.at.Flushing? && s.buffer != []
    case PersistFails => s.at.Flushing? && s.buffer != []
    case Commit => s.at.Committing? && s.buffer != []
    case CommitFails => s.at.Committing?
    case Crash => true
  }

  function Apply(s: State, a: Action, log: seq<Message>): State
    requires Enabled(s, a, log)
  {
    match a
    case Fetch =>
      if log[s.position].Valid?
      then s.(channel := s.channel + [s.position], fetched := s.fetched + [s.position], position := s.position + 1)
      else s.(position := s.position + 1)
    case PollErrors(drop) => s.(position := s.position + drop)
    case Receive =>
      s.(buffer := s.buffer + [s.channel[0]], channel := s.channel[1..],
         at := if |s.buffer| + 1 >= MAX_BATCH_SIZE then Flushing else Selecting)
    case Tick => s.(at := Flushing)
    case FlushNothing => s.(at := Selecting)
    case Persist => s.(table := s.table + Batch(s.buffer, s.epoch), at := Committing)
    case PersistFails => s.(at := Selecting)
    case Commit => s.(committed := Highest(s.buffer) + 1, buffer := [], at := Selecting)
    case CommitFails => s.(buffer := [], at := Selecting)
    case Crash => State(s.table, s.committed, s.epoch + 1, s.committed, [], [], [], Selecting)
  }

  function Batch(offsets: seq<nat>, epoch: nat): (rows: seq<Row>)
    ensures |rows| == |offsets|
    ensures forall i | 0 <= i < |offsets| :: rows[i] == Row(offsets[i], epoch)
  {
    seq(|offsets|, i requires 0 <= i < |offsets| => Row(offsets[i], epoch))
  }

  /** The commit covers the highest offset of the batch. */
  function Highest(offsets: seq<nat>): (m: nat)
    requires offsets != []
    ensures m in offsets && forall o | o in offsets :: o <= m
  {
    if |offsets| == 1 then offsets[0]
    else
      var m := Highest(offsets[1..]);
      assert offsets == [offsets[0]] + offsets[1..];
      if offsets[0] > m then offsets[0] else m
  }

  // ---------------------------------------------------------------- the invariant

  ghost predicate Stored(table: seq<Row>, o: nat) {
    exists i :: 0 <= i < |table| && table[i].offset == o
  }

  /** What one incarnation stored, in order. */
  ghost function StoredBy(table: seq<Row>, epoch: nat): seq<nat> {
    if table == [] then []
    else
      var n := |table| - 1;
      StoredBy(table[..n], epoch) + (if table[n].epoch == epoch then [table[n].offset] else [])
  }

  ghost predicate Ascending(s: seq<nat>) {
    forall i, j | 0 <= i < j < |s| :: s[i] < s[j]
  }

  /** The buffered records that are not in the table yet. */
  ghost function Unstored(s: State): seq<nat> {
    if s.at.Committing? then [] else s.buffer
  }

  ghost predicate EndsWith(s: seq<nat>, tail: seq<nat>) {
    |tail| <= |s| && s[|s| - |tail|..] == tail
  }

  /** Nothing an incarnation fetched is lost, doubled, or reordered on its way to the table. */
  ghost predicate Flow(s: State) {
    && StoredBy(s.table, s.epoch) + Unstored(s) + s.channel == s.fetched
    && Ascending(s.fetched) && (forall o | o in s.fetched :: o < s.position)
    && s.committed <= s.position
    && (s.at.Committing? ==> s.buffer != [] && EndsWith(StoredBy(s.table, s.epoch), s.buffer))
  }

  /** Every incarnation stored in ascending order, and none of them is from the future. */
  ghost predicate TableOk(table: seq<Row>, epoch: nat) {
    && (forall i | 0 <= i < |table| :: table[i].epoch <= epoch)
    && (forall e :: Ascending(StoredBy(table, e)))
  }

  ghost predicate InOrder(s: State) {
    Flow(s) && TableOk(s.table, s.epoch)
  }

  /** Every valid record below `l` is in the table or on its way there. */
  ghost predicate CoveredTo(s: State, log: seq<Message>, l: nat) {
    forall o | 0 <= o < l && o < |log| && log[o].Valid? :: Stored(s.table, o) || o in s.fetched
  }

  /** Every valid record behind the poll position is in the table or on its way there. */
  ghost predicate Covered(s: State, log: seq<Message>) {
    CoveredTo(s, log, s.position)
  }

  /** Every valid record below the committed offset is in the table. */
  ghost predicate AtLeastOnce(s: State, log: seq<Message>) {
    forall o | 0 <= o < s.committed && o < |log| && log[o].Valid? :: Stored(s.table, o)
  }

  /** No incarnation stores a record twice. */
  ghost predicate AtMostOncePerEpoch(s: State) {
    forall i, j | 0 <= i < j < |s.table| :: s.table[i] != s.table[j]
  }

  /** An error poll skips no valid record that is not in the table already. */
  ghost predicate Harmless(s: State, a: Action, log: seq<Message>) {
    a.PollErrors? ==>
      forall o | s.position <= o < s.position + a.drop && o < |log| && log[o].Valid? :: Stored(s.table, o)
  }

  // ---------------------------------------------------------------- facts about the table

  lemma {:induction false} StoredByAppend(table: seq<Row>, offsets: seq<nat>, epoch: nat, e: nat)
    ensures StoredBy(table + Batch(offsets, epoch), e) == StoredBy(table, e) + (if e == epoch then offsets else [])
  {
    var t := table + Batch(offsets, epoch);
    if offsets == [] {
      assert t == table;
    } else {
      var n := |offsets| - 1;
      StoredByAppend(table, offsets[..n], epoch, e);
      assert t[..|t| - 1] == table + Batch(offsets[..n], epoch);
      assert offsets == offsets[..n] + [offsets[n]];
      var p := StoredBy(table, e);
      assert p + (offsets[..n] + [offsets[n]]) == (p + offsets[..n]) + [offsets[n]];
    }
  }

  lemma StoredStays(table: seq<Row>, more: seq<Row>, o: nat)
    ensures Stored(table, o) ==> Stored(table + more, o)
    ensures (exists i :: 0 <= i < |more| && more[i].offset == o) ==> Stored(table + more, o)
  {
    var t := table + more;
    if Stored(table, o) {
      var i :| 0 <= i < |table| && table[i].offset == o;
      assert t[i].offset == o;
    }
    if i :| 0 <= i < |more| && more[i].offset == o {
      assert t[|table| + i].offset == o;
    }
  }

  lemma {:induction false} StoredByIsStored(table: seq<Row>, e: nat, o: nat)
    requires o in StoredBy(table, e)
    ensures Stored(table, o)
  {
    var n := |table| - 1;
    if table[n].epoch == e && table[n].offset == o {
    } else {
      StoredByIsStored(table[..n], e, o);
      StoredStays(table[..n], [table[n]], o);
      assert table == table[..n] + [table[n]];
    }
  }

  lemma {:induction false} NoneStoredBy(table: seq<Row>, e: nat)
    requires forall i | 0 <= i < |table| :: table[i].epoch < e
    ensures StoredBy(table, e) == []
  {
    if table != [] {
      NoneStoredBy(table[..|table| - 1], e);
    }
  }

  /** Ascending offsets within each incarnation leave no room for doubles. */
  lemma {:induction false} NoDoubles(table: seq<Row>)
    requires forall e :: Ascending(StoredBy(table, e))
    ensures forall i, j | 0 <= i < j < |table| :: table[i] != table[j]
  {
    if table != [] {
      var n := |table| - 1;
      forall e ensures Ascending(StoredBy(table[..n], e)) {
        var s := StoredBy(table, e);
        var t := StoredBy(table[..n], e);
        assert forall i | 0 <= i < |t| :: t[i] == s[i];
      }
      NoDoubles(table[..n]);
      forall i | 0 <= i < n ensures table[i] != table[n] {
        if table[i].epoch == table[n].epoch {
          InStoredBy(table[..n], i);
          var t := StoredBy(table[..n], table[n].epoch);
          var k :| 0 <= k < |t| && t[k] == table[i].offset;
          assert StoredBy(table, table[n].epoch) == t + [table[n].offset];
          var u := t + [table[n].offset];
          assert u[k] == t[k] && u[|t|] == table[n].offset;
        }
      }
    }
  }

  lemma {:induction false} InStoredBy(table: seq<Row>, i: nat)
    requires i < |table|
    ensures table[i].offset in StoredBy(table, table[i].epoch)
  {
    var n := |table| - 1;
    if i < n {
      InStoredBy(table[..n], i);
    }
  }

  // ---------------------------------------------------------------- every step

  /** Fetching, skipping and moving between channel and buffer. */
  lemma FetchFlow(s: State, a: Action, log: seq<Message>)
    requires Flow(s) && Enabled(s, a, log) && (a.Fetch? || a.PollErrors? || a.Receive?)
    ensures Flow(Apply(s, a, log))
  {
    hide StoredBy;
    var p := StoredBy(s.table, s.epoch);
    match a {
      case Fetch =>
        assert forall i | 0 <= i < |s.fetched| :: s.fetched[i] in s.fetched && s.fetched[i] < s.position;
        assert p + Unstored(s) + (s.channel + [s.position]) == (p + Unstored(s) + s.channel) + [s.position];
      case PollErrors(_) =>
      case Receive =>
        assert s.channel == [s.channel[0]] + s.channel[1..];
        assert p + (s.buffer + [s.channel[0]]) + s.channel[1..] == p + s.buffer + s.channel;
    }
  }

  /** A batch insert takes all of the buffer into the table, behind what is there. */
  lemma PersistFlow(s: State, log: seq<Message>)
    requires Flow(s) && Enabled(s, Persist, log)
    ensures Flow(Apply(s, Persist, log))
  {
    hide StoredBy;
    var p := StoredBy(s.table, s.epoch);
    StoredByAppend(s.table, s.buffer, s.epoch, s.epoch);
    assert p + s.buffer + [] + s.channel == p + s.buffer + s.channel;
    assert (p + s.buffer)[|p|..] == s.buffer;
  }

  lemma PersistTable(s: State, log: seq<Message>)
    requires InOrder(s) && Enabled(s, Persist, log)
    ensures TableOk(Apply(s, Persist, log).table, s.epoch)
  {
    hide StoredBy;
    var t := Apply(s, Persist, log).table;
    var p := StoredBy(s.table, s.epoch);
    forall e ensures Ascending(StoredBy(t, e)) {
      StoredByAppend(s.table, s.buffer, s.epoch, e);
      if e == s.epoch {
        assert forall i | 0 <= i < |p + s.buffer| :: (p + s.buffer)[i] == s.fetched[i];
      }
    }
  }

  /** The end of the batch is among what was fetched, in its place. */
  lemma HighestFetched(s: State) returns (at: nat)
    requires Flow(s) && s.at.Committing?
    ensures at < |StoredBy(s.table, s.epoch)| <= |s.fetched| && s.fetched[at] == Highest(s.buffer) < s.position
  {
    hide StoredBy;
    var p := StoredBy(s.table, s.epoch);
    var h := Highest(s.buffer);
    var k :| 0 <= k < |s.buffer| && s.buffer[k] == h;
    at := |p| - |s.buffer| + k;
    assert p[|p| - |s.buffer|..][k] == p[at];
    assert s.fetched[at] in s.fetched;
  }

  /** Forgetting the buffer after the insert, whether or not the offsets were committed. */
  lemma CommitFlow(s: State, a: Action, log: seq<Message>)
    requires Flow(s) && Enabled(s, a, log) && (a.Commit? || a.CommitFails? || a.Tick? || a.FlushNothing? || a.PersistFails?)
    ensures Flow(Apply(s, a, log))
  {
    hide StoredBy;
    if a.Commit? {
      var at := HighestFetched(s);
      hide Ascending;
    }
  }

  lemma CrashInOrder(s: State, log: seq<Message>)
    requires InOrder(s)
    ensures InOrder(Apply(s, Crash, log))
  {
    NoneStoredBy(s.table, s.epoch + 1);
  }

  lemma StepInOrder(s: State, a: Action, log: seq<Message>)
    requires InOrder(s) && Enabled(s, a, log)
    ensures InOrder(Apply(s, a, log))
  {
    hide Flow, TableOk;
    match a {
      case Fetch => FetchFlow(s, a, log);
      case PollErrors(_) => FetchFlow(s, a, log);
      case Receive => FetchFlow(s, a, log);
      case Persist => PersistFlow(s, log); PersistTable(s, log);
      case Crash => CrashInOrder(s, log);
      case _ => CommitFlow(s, a, log);
    }
  }

  /** What the committed offset covers is stored. */
  lemma CommitStored(s: State, log: seq<Message>, l: nat)
    requires InOrder(s) && Enabled(s, Commit, log) && CoveredTo(s, log, l) && Highest(s.buffer) < l
    ensures AtLeastOnce(Apply(s, Commit, log), log)
  {
    var p := StoredBy(s.table, s.epoch);
    var h := Highest(s.buffer);
    var at := HighestFetched(s);
    forall o | 0 <= o <= h && o < |log| && log[o].Valid? ensures Stored(s.table, o) {
      if !Stored(s.table, o) {
        var i :| 0 <= i < |s.fetched| && s.fetched[i] == o;
        assert i <= at;
        assert p[i] == o;
        StoredByIsStored(s.table, s.epoch, o);
      }
    }
  }

  lemma StepCovered(s: State, a: Action, log: seq<Message>)
    requires InOrder(s) && Covered(s, log) && AtLeastOnce(s, log) && Enabled(s, a, log) && Harmless(s, a, log)
    ensures Covered(Apply(s, a, log), log) && AtLeastOnce(Apply(s, a, log), log)
  {
    var t := Apply(s, a, log);
    match a {
      case Fetch =>
        forall o | o in s.fetched || (o == s.position && log[o].Valid?) ensures o in t.fetched {
          if o == s.position { if log[o].Valid? { assert t.fetched[|s.fetched|] == o; } }
        }
      case Persist =>
        forall o ensures Stored(s.table, o) ==> Stored(t.table, o) {
          StoredStays(s.table, Batch(s.buffer, s.epoch), o);
        }
      case Commit =>
        var at := HighestFetched(s);
        CommitStored(s, log, s.position);
      case _ =>
    }
  }

  // ---------------------------------------------------------------- whole runs

  predicate IsRun(s: State, acts: seq<Action>, log: seq<Message>)
    decreases |acts|
  {
    acts != [] ==> Enabled(s, acts[0], log) && IsRun(Apply(s, acts[0], log), acts[1..], log)
  }

  function End(s: State, acts: seq<Action>, log: seq<Message>): State
    requires IsRun(s, acts, log)
    decreases |acts|
  {
    if acts == [] then s else End(Apply(s, acts[0], log), acts[1..], log)
  }

  /** Every error poll of the run is harmless; one that brings no records always is. */
  ghost predicate AllHarmless(s: State, acts: seq<Action>, log: seq<Message>)
    requires IsRun(s, acts, log)
    decreases |acts|
  {
    acts != [] ==> Harmless(s, acts[0], log) && AllHarmless(Apply(s, acts[0], log), acts[1..], log)
  }

  lemma {:induction false} RunInOrder(s: State, acts: seq<Action>, log: seq<Message>)
    requires InOrder(s) && IsRun(s, acts, log)
    ensures InOrder(End(s, acts, log))
    decreases |acts|
  {
    hide InOrder;
    if acts != [] {
      StepInOrder(s, acts[0], log);
      RunInOrder(Apply(s, acts[0], log), acts[1..], log);
    }
  }

  lemma {:induction false} RunCovered(s: State, acts: seq<Action>, log: seq<Message>)
    requires InOrder(s) && Covered(s, log) && AtLeastOnce(s, log) && IsRun(s, acts, log) && AllHarmless(s, acts, log)
    ensures Covered(End(s, acts, log), log) && AtLeastOnce(End(s, acts, log), log)
    decreases |acts|
  {
    hide InOrder, Covered, AtLeastOnce, Harmless;
    if acts != [] {
      StepInOrder(s, acts[0], log);
      StepCovered(s, acts[0], log);
      RunCovered(Apply(s, acts[0], log), acts[1..], log);
    }
  }

  /** Over any run, with any crashes and failures: every valid record below the committed offset is stored,
      provided no error poll skipped a valid record that was not stored yet. */
  lemma StoredAtLeastOnce(acts: seq<Action>, log: seq<Message>)
    requires IsRun(INIT, acts, log) && AllHarmless(INIT, acts, log)
    ensures AtLeastOnce(End(INIT, acts, log), log)
  {
    RunCovered(INIT, acts, log);
  }

  /** Over any run at all, no incarnation stores a record twice, and what it stores is what it fetched, in order. */
  lemma StoredAtMostOncePerEpoch(acts: seq<Action>, log: seq<Message>)
    requires IsRun(INIT, acts, log)
    ensures var s := End(INIT, acts, log);
            && AtMostOncePerEpoch(s)
            && StoredBy(s.table, s.epoch) + Unstored(s) + s.channel == s.fetched
  {
    RunInOrder(INIT, acts, log);
    NoDoubles(End(INIT, acts, log).table);
  }

  /** Only valid records are handed over and stored, and the channel keeps its bound. */
  ghost predicate ValidOk(s: State, log: seq<Message>) {
    && (forall o | o in s.fetched :: o < |log| && log[o].Valid?)
    && (forall i | 0 <= i < |s.table| :: s.table[i].offset < |log| && log[s.table[i].offset].Valid?)
    && |s.channel| <= 10000
  }

  lemma StepValid(s: State, a: Action, log: seq<Message>)
    requires InOrder(s) && ValidOk(s, log) && Enabled(s, a, log)
    ensures ValidOk(Apply(s, a, log), log)
  {
    hide TableOk;
    if a.Persist? {
      forall i | 0 <= i < |s.buffer| ensures s.buffer[i] in s.fetched {
        assert s.buffer[i] in s.buffer;
        BufferFetched(s, s.buffer[i]);
      }
    }
  }

  /** Over any run: stored is only what parses, and a valid record waits to be handed over exactly while 10000 others
      are queued. */
  lemma {:induction false} OnlyValidStored(s: State, acts: seq<Action>, log: seq<Message>)
    requires InOrder(s) && ValidOk(s, log) && IsRun(s, acts, log)
    ensures var e := End(s, acts, log);
            && ValidOk(e, log)
            && (e.position < |log| && log[e.position].Valid? ==> (Enabled(e, Fetch, log) <==> |e.channel| != 10000))
    decreases |acts|
  {
    if acts != [] {
      StepInOrder(s, acts[0], log);
      StepValid(s, acts[0], log);
      hide InOrder, ValidOk;
      OnlyValidStored(Apply(s, acts[0], log), acts[1..], log);
    }
  }

  // ---------------------------------------------------------------- how far a commit reaches

  /** A commit puts the whole batch, and all else that this incarnation stored, below the committed offset. */
  lemma CommitCovers(s: State, log: seq<Message>)
    requires InOrder(s) && Enabled(s, Commit, log)
    ensures var t := Apply(s, Commit, log);
            && (forall o | o in s.buffer :: o < t.committed)
            && (forall o | o in StoredBy(t.table, t.epoch) :: o < t.committed)
            && t.committed - 1 in s.buffer
  {
    var p := StoredBy(s.table, s.epoch);
    var h := Highest(s.buffer);
    var n := |p| - |s.buffer|;
    var last := s.buffer[|s.buffer| - 1];
    assert last in s.buffer;
    assert p[n..] == s.buffer;
    assert p[|p| - 1] == last;
    hide StoredBy;
    forall o | o in p ensures o <= h {
      var k :| 0 <= k < |p| && p[k] == o;
      assert p[k] == s.fetched[k] && p[|p| - 1] == s.fetched[|p| - 1];
    }
  }

  /** What is buffered and not yet committed, queued, or still to be polled lies at or above the committed offset. */
  ghost predicate AheadOk(s: State) {
    && s.committed <= s.position
    && (forall o | o in s.buffer :: o >= s.committed)
    && (forall o | o in s.channel :: o >= s.committed)
  }

  lemma StepAhead(s: State, a: Action, log: seq<Message>)
    requires InOrder(s) && AheadOk(s) && Enabled(s, a, log)
    ensures AheadOk(Apply(s, a, log)) && s.committed <= Apply(s, a, log).committed
  {
    match a {
      case Receive =>
        assert s.channel[0] in s.channel;
        assert forall o | o in s.channel[1..] :: o in s.channel;
      case Commit =>
        var at := HighestFetched(s);
        CommitCovers(s, log);
        assert Highest(s.buffer) in s.buffer;
        QueuedLater(s);
      case _ =>
    }
  }

  /** What is queued was fetched after everything in the batch being committed. */
  lemma QueuedLater(s: State)
    requires Flow(s) && s.at.Committing?
    ensures forall o | o in s.channel :: o > Highest(s.buffer)
  {
    var p := StoredBy(s.table, s.epoch);
    var at := HighestFetched(s);
    hide StoredBy;
    forall o | o in s.channel ensures o > Highest(s.buffer) {
      var k :| 0 <= k < |s.channel| && s.channel[k] == o;
      assert s.fetched == p + [] + s.channel;
      assert s.fetched[|p| + k] == o;
    }
  }

  /** Records that this incarnation stored, but a restart would fetch again. */
  ghost predicate Exposed(s: State) {
    exists o :: o in StoredBy(s.table, s.epoch) && o >= s.committed
  }

  /** The last commit since the last crash was attempted, and failed. */
  ghost predicate LastCommitFailed(acts: seq<Action>) {
    && acts != []
    && var n := |acts| - 1;
       acts[n].CommitFails? || (!acts[n].Commit? && !acts[n].Crash? && LastCommitFailed(acts[..n]))
  }

  /** The first record of a batch that was inserted but not committed is exposed. */
  lemma BatchExposed(s: State)
    requires Flow(s) && AheadOk(s) && s.at.Committing?
    ensures Exposed(s)
  {
    var p := StoredBy(s.table, s.epoch);
    hide StoredBy;
    assert p[|p| - |s.buffer|..][0] == s.buffer[0];
    assert s.buffer[0] in s.buffer && s.buffer[0] in p;
  }

  lemma CommitHides(s: State, log: seq<Message>)
    requires InOrder(s) && Enabled(s, Commit, log)
    ensures !Exposed(Apply(s, Commit, log))
  {
    CommitCovers(s, log);
    hide InOrder, StoredBy;
  }

  lemma CrashHides(s: State, log: seq<Message>)
    requires TableOk(s.table, s.epoch)
    ensures !Exposed(Apply(s, Crash, log))
  {
    NoneStoredBy(s.table, s.epoch + 1);
    hide StoredBy;
  }

  lemma PersistExposes(s: State, log: seq<Message>)
    requires Flow(s) && AheadOk(s) && Enabled(s, Persist, log)
    ensures Exposed(Apply(s, Persist, log))
  {
    PersistFlow(s, log);
    BatchExposed(Apply(s, Persist, log));
  }

  lemma ExposedSame(s: State, t: State)
    requires t.table == s.table && t.epoch == s.epoch && t.committed == s.committed
    ensures Exposed(t) <==> Exposed(s)
  {
  }

  lemma StepExposed(s: State, a: Action, log: seq<Message>)
    requires InOrder(s) && AheadOk(s) && Enabled(s, a, log)
    ensures var t := Apply(s, a, log);
            match a
            case Commit => !Exposed(t)
            case Crash => !Exposed(t)
            case CommitFails => Exposed(t)
            case Persist => Exposed(t)
            case _ => Exposed(t) <==> Exposed(s)
  {
    hide Flow, TableOk, AheadOk, Exposed;
    var t := Apply(s, a, log);
    match a {
      case Commit => CommitHides(s, log);
      case Crash => CrashHides(s, log);
      case Persist => PersistExposes(s, log);
      case CommitFails =>
        BatchExposed(s);
        ExposedSame(s, t);
      case _ => ExposedSame(s, t);
    }
  }

  lemma {:induction false} EndSnoc(s: State, acts: seq<Action>, a: Action, log: seq<Message>)
    requires IsRun(s, acts + [a], log)
    ensures IsRun(s, acts, log) && Enabled(End(s, acts, log), a, log)
    ensures End(s, acts + [a], log) == Apply(End(s, acts, log), a, log)
    decreases |acts|
  {
    if acts == [] {
      assert acts + [a] == [a] && [a][1..] == [];
    } else {
      assert (acts + [a])[0] == acts[0] && (acts + [a])[1..] == acts[1..] + [a];
      EndSnoc(Apply(s, acts[0], log), acts[1..], a, log);
    }
  }

  /** Exactly when a crash would make the next incarnation fetch records again that this one has stored: between the
      insert and the commit, and after a commit that failed until one succeeds. */
  lemma {:induction false} ExposedIff(acts: seq<Action>, log: seq<Message>)
    requires IsRun(INIT, acts, log)
    ensures var s := End(INIT, acts, log);
            InOrder(s) && AheadOk(s) && (Exposed(s) <==> s.at.Committing? || LastCommitFailed(acts))
  {
    if acts == [] {
    } else {
      var n := |acts| - 1;
      var p, a := acts[..n], acts[n];
      assert acts == p + [a];
      EndSnoc(INIT, p, a, log);
      ExposedIff(p, log);
      var s := End(INIT, p, log);
      assert LastCommitFailed(acts) <==> a.CommitFails? || (!a.Commit? && !a.Crash? && LastCommitFailed(p));
      hide InOrder, AheadOk, Exposed, LastCommitFailed, IsRun, End;
      StepInOrder(s, a, log);
      StepAhead(s, a, log);
      StepExposed(s, a, log);
    }
  }

  /** A step adds rows at or above the offset committed so far, or none. */
  lemma StepAdds(s: State, a: Action, log: seq<Message>) returns (more: seq<Row>)
    requires AheadOk(s) && Enabled(s, a, log)
    ensures Apply(s, a, log).table == s.table + more
    ensures forall i | 0 <= i < |more| :: more[i].offset >= s.committed
  {
    more := if a.Persist? then Batch(s.buffer, s.epoch) else [];
    if a.Persist? {
      assert forall i | 0 <= i < |more| :: more[i].offset == s.buffer[i] && s.buffer[i] in s.buffer;
    }
  }

  /** Rows are only added, and only at or above the offset committed so far. */
  lemma {:induction false} AddedAbove(s: State, acts: seq<Action>, log: seq<Message>) returns (more: seq<Row>)
    requires InOrder(s) && AheadOk(s) && IsRun(s, acts, log)
    ensures End(s, acts, log).table == s.table + more
    ensures forall i | 0 <= i < |more| :: more[i].offset >= s.committed
    decreases |acts|
  {
    hide InOrder, AheadOk, Enabled, Apply;
    if acts == [] {
      more := [];
    } else {
      var t := Apply(s, acts[0], log);
      StepInOrder(s, acts[0], log);
      StepAhead(s, acts[0], log);
      var first := StepAdds(s, acts[0], log);
      var rest := AddedAbove(t, acts[1..], log);
      assert s.table + first + rest == s.table + (first + rest);
      more := first + rest;
    }
  }

  /** Once a batch is committed, nobody stores a record of it, or one this incarnation stored before, again - whatever
      happens next, crashes included. */
  lemma CommittedOnce(before: seq<Action>, acts: seq<Action>, log: seq<Message>) returns (more: seq<Row>)
    requires IsRun(INIT, before, log) && Enabled(End(INIT, before, log), Commit, log)
    requires IsRun(Apply(End(INIT, before, log), Commit, log), acts, log)
    ensures var s := End(INIT, before, log);
            var e := End(Apply(s, Commit, log), acts, log);
            && e.table == s.table + more
            && forall i | 0 <= i < |more| :: more[i].offset !in s.buffer && more[i].offset !in StoredBy(s.table, s.epoch)
  {
    var s := End(INIT, before, log);
    ExposedIff(before, log);
    CommitCovers(s, log);
    StepInOrder(s, Commit, log);
    StepAhead(s, Commit, log);
    more := AddedAbove(Apply(s, Commit, log), acts, log);
  }

  // ---------------------------------------------------------------- what an error poll costs

  /** A valid record that this incarnation went past without fetching it, and that nobody stored. */
  ghost predicate Lost(s: State, o: nat, log: seq<Message>) {
    && InOrder(s) && o < |log| && log[o].Valid?
    && o < s.position && o !in s.fetched && !Stored(s.table, o)
  }

  /** While the process stays up, a lost record stays lost. */
  lemma LostStays(s: State, a: Action, o: nat, log: seq<Message>)
    requires Lost(s, o, log) && Enabled(s, a, log) && !a.Crash?
    ensures Lost(Apply(s, a, log), o, log)
  {
    StepInOrder(s, a, log);
    if a.Persist? {
      forall x | x in s.buffer ensures x in s.fetched { BufferFetched(s, x); }
      NotInBatch(s.table, s.buffer, s.epoch, o);
    }
  }

  lemma BufferFetched(s: State, x: nat)
    requires Flow(s) && !s.at.Committing? && x in s.buffer
    ensures x in s.fetched
  {
    var p := StoredBy(s.table, s.epoch);
    assert x in p + s.buffer + s.channel;
  }

  lemma NotInBatch(table: seq<Row>, offsets: seq<nat>, epoch: nat, o: nat)
    requires !Stored(table, o) && o !in offsets
    ensures !Stored(table + Batch(offsets, epoch), o)
  {
  }

  /** `acts` leads from `s` to `e`, and its error polls are harmless. */
  ghost predicate Leads(s: State, acts: seq<Action>, e: State, log: seq<Message>) {
    IsRun(s, acts, log) && End(s, acts, log) == e && AllHarmless(s, acts, log)
  }

  lemma {:induction false} OneMore(s: State, acts: seq<Action>, e: State, a: Action, log: seq<Message>)
    requires Leads(s, acts, e, log) && Enabled(e, a, log) && Harmless(e, a, log)
    ensures Leads(s, acts + [a], Apply(e, a, log), log)
    decreases |acts|
  {
    if acts == [] {
      assert acts + [a] == [a] && [a][1..] == [];
    } else {
      assert (acts + [a])[0] == acts[0] && (acts + [a])[1..] == acts[1..] + [a];
      OneMore(Apply(s, acts[0], log), acts[1..], e, a, log);
    }
  }

  /** One more step of a run that keeps `o` lost. */
  lemma Then(s0: State, acts0: seq<Action>, s: State, a: Action, o: nat, log: seq<Message>)
    returns (acts: seq<Action>, e: State)
    requires Leads(s0, acts0, s, log) && Lost(s, o, log)
    requires Enabled(s, a, log) && !a.Crash? && !a.PollErrors?
    ensures e == Apply(s, a, log) && Leads(s0, acts, e, log) && Lost(e, o, log)
  {
    OneMore(s0, acts0, s, a, log);
    LostStays(s, a, o, log);
    acts, e := acts0 + [a], Apply(s, a, log);
  }

  predicate Idle(s: State) { s.at.Selecting? && s.buffer == [] && s.channel == [] }

  /** The steps the worker still has to take before it is idle, channel aside. */
  function WorkerSteps(s: State): nat {
    match s.at
    case Selecting => if s.buffer == [] then 0 else 3
    case Flushing => if s.buffer == [] then 1 else 2
    case Committing => 1
  }

  /** The worker can always empty channel and buffer. */
  lemma {:induction false} WorkOff(s0: State, acts0: seq<Action>, s: State, o: nat, log: seq<Message>)
    returns (acts: seq<Action>, e: State)
    requires Leads(s0, acts0, s, log) && Lost(s, o, log)
    ensures Leads(s0, acts, e, log) && Lost(e, o, log) && Idle(e) && e.position == s.position
    decreases |s.channel|, WorkerSteps(s)
  {
    hide Leads, Lost;
    if Idle(s) {
      acts, e := acts0, s;
    } else {
      var a := match s.at
               case Committing => CommitFails
               case Flushing => if s.buffer == [] then FlushNothing else Persist
               case Selecting => if s.buffer != [] then Tick else Receive;
      var acts1, s1 := Then(s0, acts0, s, a, o, log);
      acts, e := WorkOff(s0, acts1, s1, o, log);
    }
  }

  /** From an idle worker, fetch up to a valid record and commit it: the lost record is then below the offset. */
  lemma {:induction false} CommitBeyond(s0: State, acts0: seq<Action>, s: State, o: nat, next: nat, log: seq<Message>)
    returns (acts: seq<Action>, e: State)
    requires Leads(s0, acts0, s, log) && Lost(s, o, log) && Idle(s)
    requires s.position <= next < |log| && log[next].Valid?
    ensures Leads(s0, acts, e, log) && Lost(e, o, log) && e.committed == next + 1
    decreases next - s.position
  {
    hide Leads, Lost;
    acts, e := Then(s0, acts0, s, Fetch, o, log);
    if s.position < next {
      acts, e := WorkOff(s0, acts, e, o, log);
      acts, e := CommitBeyond(s0, acts, e, o, next, log);
    } else {
      assert e.channel == [next];
      acts, e := Then(s0, acts, e, Receive, o, log);
      assert e.buffer == [next];
      acts, e := Then(s0, acts, e, Tick, o, log);
      acts, e := Then(s0, acts, e, Persist, o, log);
      acts, e := Then(s0, acts, e, Commit, o, log);
    }
  }

  /** Skipping a valid record that nobody stored, with another valid record to come, has a continuation in which
      the skipped one is below the committed offset and not stored. */
  lemma SkippingLoses(s: State, drop: nat, o: nat, next: nat, log: seq<Message>) returns (acts: seq<Action>)
    requires InOrder(s) && Enabled(s, PollErrors(drop), log)
    requires s.position <= o < s.position + drop && log[o].Valid? && !Stored(s.table, o)
    requires s.position + drop <= next < |log| && log[next].Valid?
    ensures var t := Apply(s, PollErrors(drop), log);
            IsRun(t, acts, log) && AllHarmless(t, acts, log) && !AtLeastOnce(End(t, acts, log), log)
  {
    var t := Apply(s, PollErrors(drop), log);
    StepInOrder(s, PollErrors(drop), log);
    assert Lost(t, o, log);
    assert Leads(t, [], t, log);
    var e;
    acts, e := WorkOff(t, [], t, o, log);
    acts, e := CommitBeyond(t, acts, e, o, next, log);
  }

  /** An error poll went past `l` and no valid record is left: nothing at or behind `l` is fetched any more. */
  ghost predicate CutAt(s: State, log: seq<Message>, l: nat) {
    && CoveredTo(s, log, l) && s.committed <= l && (forall o | o in s.fetched :: o < l)
    && forall n | s.position <= n < |log| :: log[n].Invalid?
  }

  lemma StepCut(s: State, a: Action, log: seq<Message>, l: nat)
    requires InOrder(s) && CutAt(s, log, l) && AtLeastOnce(s, log) && Enabled(s, a, log)
    ensures var t := Apply(s, a, log); AtLeastOnce(t, log) && (CutAt(t, log, l) || Covered(t, log))
  {
    var t := Apply(s, a, log);
    match a {
      case Persist =>
        forall o ensures Stored(s.table, o) ==> Stored(t.table, o) {
          StoredStays(s.table, Batch(s.buffer, s.epoch), o);
        }
      case Commit =>
        var at := HighestFetched(s);
        assert s.fetched[at] in s.fetched;
        CommitStored(s, log, l);
      case _ =>
    }
  }

  lemma {:induction false} RunCut(s: State, acts: seq<Action>, log: seq<Message>, l: nat)
    requires InOrder(s) && CutAt(s, log, l) && AtLeastOnce(s, log) && IsRun(s, acts, log) && AllHarmless(s, acts, log)
    ensures AtLeastOnce(End(s, acts, log), log)
    decreases |acts|
  {
    hide InOrder, Covered, CutAt, AtLeastOnce, Harmless;
    if acts != [] {
      var t := Apply(s, acts[0], log);
      StepInOrder(s, acts[0], log);
      StepCut(s, acts[0], log, l);
      if CutAt(t, log, l) {
        RunCut(t, acts[1..], log, l);
      } else {
        RunCovered(t, acts[1..], log);
      }
    }
  }

  lemma PollHarmlessOrLast(s: State, drop: nat, log: seq<Message>, acts: seq<Action>)
    requires InOrder(s) && Covered(s, log) && AtLeastOnce(s, log) && Enabled(s, PollErrors(drop), log)
    requires Harmless(s, PollErrors(drop), log) || forall n | s.position + drop <= n < |log| :: log[n].Invalid?
    requires var t := Apply(s, PollErrors(drop), log); IsRun(t, acts, log) && AllHarmless(t, acts, log)
    ensures AtLeastOnce(End(Apply(s, PollErrors(drop), log), acts, log), log)
  {
    var t := Apply(s, PollErrors(drop), log);
    StepInOrder(s, PollErrors(drop), log);
    if Harmless(s, PollErrors(drop), log) {
      StepCovered(s, PollErrors(drop), log);
      RunCovered(t, acts, log);
    } else {
      assert CutAt(t, log, s.position);
      RunCut(t, acts, log, s.position);
    }
  }

  /** No valid record comes after the records that the poll skips. */
  ghost predicate NoneAfter(s: State, drop: nat, log: seq<Message>) {
    forall n | s.position + drop <= n < |log| :: log[n].Invalid?
  }

  lemma PollSafe(s: State, drop: nat, log: seq<Message>)
    requires InOrder(s) && Covered(s, log) && AtLeastOnce(s, log) && Enabled(s, PollErrors(drop), log)
    requires Harmless(s, PollErrors(drop), log) || NoneAfter(s, drop, log)
    ensures var t := Apply(s, PollErrors(drop), log);
            forall acts | IsRun(t, acts, log) && AllHarmless(t, acts, log) :: AtLeastOnce(End(t, acts, log), log)
  {
    var t := Apply(s, PollErrors(drop), log);
    assert NoneAfter(s, drop, log) ==> forall n | s.position + drop <= n < |log| :: log[n].Invalid?;
    hide *;
    forall acts | IsRun(t, acts, log) && AllHarmless(t, acts, log) ensures AtLeastOnce(End(t, acts, log), log) {
      PollHarmlessOrLast(s, drop, log, acts);
    }
  }

  lemma PollUnsafe(s: State, drop: nat, log: seq<Message>) returns (acts: seq<Action>)
    requires InOrder(s) && Enabled(s, PollErrors(drop), log)
    requires !Harmless(s, PollErrors(drop), log) && !NoneAfter(s, drop, log)
    ensures var t := Apply(s, PollErrors(drop), log);
            IsRun(t, acts, log) && AllHarmless(t, acts, log) && !AtLeastOnce(End(t, acts, log), log)
  {
    var o :| s.position <= o < s.position + drop && o < |log| && log[o].Valid? && !Stored(s.table, o);
    var next :| s.position + drop <= next < |log| && !log[next].Invalid?;
    acts := SkippingLoses(s, drop, o, next, log);
  }

  /** Exactly what an error poll costs.  After any harmless run, a poll that skips `drop` records leaves every
      harmless continuation - crashes included - storing all valid records below the committed offset, if and only
      if it skipped no valid record that is not stored, or no valid record comes after those it skipped. */
  lemma ErrorPollIff(before: seq<Action>, drop: nat, log: seq<Message>)
    requires IsRun(INIT, before, log) && AllHarmless(INIT, before, log)
    requires Enabled(End(INIT, before, log), PollErrors(drop), log)
    ensures var s := End(INIT, before, log);
            var t := Apply(s, PollErrors(drop), log);
            (forall acts | IsRun(t, acts, log) && AllHarmless(t, acts, log) :: AtLeastOnce(End(t, acts, log), log))
            <==> Harmless(s, PollErrors(drop), log) || NoneAfter(s, drop, log)
  {
    var s := End(INIT, before, log);
    RunInOrder(INIT, before, log);
    RunCovered(INIT, before, log);
    hide *;
    if Harmless(s, PollErrors(drop), log) || NoneAfter(s, drop, log) {
      PollSafe(s, drop, log);
    } else {
      var acts := PollUnsafe(s, drop, log);
    }
  }

  lemma ThenRun(s: State, a: Action, s': State, acts: seq<Action>, log: seq<Message>)
    requires Enabled(s, a, log) && Apply(s, a, log) == s' && IsRun(s', acts, log)
    ensures IsRun(s, [a] + acts, log) && End(s, [a] + acts, log) == End(s', acts, log)
  {
    assert ([a] + acts)[1..] == acts;
  }

  /** One buffered record, here the second of the log, is stored and committed. */
  lemma FlushSecond(s: State, log: seq<Message>) returns (e: State)
    requires s == INIT.(position := 2, fetched := [1], buffer := [1])
    ensures IsRun(s, [Tick] + ([Persist] + ([Commit] + [])), log) && End(s, [Tick] + ([Persist] + ([Commit] + [])), log) == e
    ensures e.committed == 2 && e.table == [Row(1, 0)]
  {
    var s4 := s.(at := Flushing);
    var s5 := s4.(table := [Row(1, 0)], at := Committing);
    e := s5.(committed := 2, buffer := [], at := Selecting);
    assert Apply(s, Tick, log) == s4;
    assert Apply(s4, Persist, log) == s5 by { assert Batch([1], 0) == [Row(1, 0)]; }
    assert Apply(s5, Commit, log) == e;
    hide *;
    NoMore(e, log);
    ThenRun(s5, Commit, e, [], log);
    ThenRun(s4, Persist, s5, [Commit] + [], log);
    ThenRun(s, Tick, s4, [Persist] + ([Commit] + []), log);
  }

  /** A poll that brings a record together with an error loses the record once a later one is committed. */
  lemma ErrorPollLoses(a: string, b: string)
    ensures var log := [Valid(a), Valid(b)];
            var acts := [PollErrors(1)] + ([Fetch] + ([Receive] + ([Tick] + ([Persist] + ([Commit] + [])))));
            IsRun(INIT, acts, log) && !AtLeastOnce(End(INIT, acts, log), log)
  {
    hide IsRun, End;
    var log := [Valid(a), Valid(b)];
    var s1 := INIT.(position := 1);
    var s2 := s1.(channel := [1], fetched := [1], position := 2);
    var s3 := s2.(buffer := [1], channel := []);
    var e := FlushSecond(s3, log);
    assert !AtLeastOnce(e, log) by { assert !Stored(e.table, 0); }
    assert Apply(INIT, PollErrors(1), log) == s1;
    assert Apply(s1, Fetch, log) == s2;
    assert Apply(s2, Receive, log) == s3;
    hide *;
    ThenRun(s2, Receive, s3, [Tick] + ([Persist] + ([Commit] + [])), log);
    ThenRun(s1, Fetch, s2, [Receive] + ([Tick] + ([Persist] + ([Commit] + []))), log);
    ThenRun(INIT, PollErrors(1), s1, [Fetch] + ([Receive] + ([Tick] + ([Persist] + ([Commit] + [])))), log);
  }

  lemma NoMore(s: State, log: seq<Message>)
    ensures IsRun(s, [], log) && End(s, [], log) == s
  {
  }

  // ---------------------------------------------------------------- the storage worker

  /** One uninterrupted flush, as steps of the protocol. */
  ghost function Flushed(s: State, insertFails: bool, commitFails: bool, log: seq<Message>): State
    requires s.at.Flushing?
  {
    if s.buffer == [] then Apply(s, FlushNothing, log)
    else if insertFails then Apply(s, PersistFails, log)
    else Apply(Apply(s, Persist, log), if commitFails then CommitFails else Commit, log)
  }

  class StorageWorker {
    const epoch: nat
    var buffer: seq<nat>
    var table: seq<Row>
    var committed: nat

    ghost predicate Matches(s: State)
      reads this
    {
      epoch == s.epoch && buffer == s.buffer && table == s.table && committed == s.committed
    }

    constructor (epoch: nat, table: seq<Row>, committed: nat)
      ensures this.epoch == epoch && buffer == [] && this.table == table && this.committed == committed
    {
      this.epoch, buffer, this.table, this.committed := epoch, [], table, committed;
    }

    /** Persist, then commit: a failed insert keeps the batch for the next flush, a failed commit does not. */
    method Flush(insertFails: bool, commitFails: bool, ghost s: State, ghost log: seq<Message>)
      requires Matches(s) && s.at.Flushing?
      modifies this
      ensures Matches(Flushed(s, insertFails, commitFails, log))
      ensures !insertFails && !commitFails ==> forall o | o in old(buffer) :: o < committed
      ensures insertFails || commitFails ==> committed == old(committed)
      ensures buffer == if insertFails then old(buffer) else []
      ensures table == if insertFails then old(table) else old(table) + Batch(old(buffer), epoch)
    {
      if buffer == [] {
        return;
      }
      if insertFails {
        return;
      }
      table := table + Batch(buffer, epoch);
      if !commitFails {
        committed := Highest(buffer) + 1;
      }
      buffer := [];
    }

    /** One record from the channel; a full batch is flushed at once. */
    method OnRecord(offset: nat, insertFails: bool, commitFails: bool, ghost s: State, ghost log: seq<Message>)
      requires Matches(s) && Enabled(s, Receive, log) && offset == s.channel[0]
      modifies this
      ensures var t := Apply(s, Receive, log);
              Matches(if t.at.Flushing? then Flushed(t, insertFails, commitFails, log) else t)
      ensures |old(buffer)| < 499 ==> buffer == old(buffer) + [offset] && table == old(table) && committed == old(committed)
      ensures |old(buffer)| >= 499 && !insertFails ==>
                buffer == [] && table == old(table) + Batch(old(buffer) + [offset], epoch)
                && (!commitFails ==> offset < committed)
      ensures |old(buffer)| >= 499 && insertFails ==>
                buffer == old(buffer) + [offset] && table == old(table) && committed == old(committed)
    {
      buffer := buffer + [offset];
      ghost var batch := buffer;
      assert batch[|batch| - 1] == offset && offset in batch;
      if |buffer| >= MAX_BATCH_SIZE {
        Flush(insertFails, commitFails, Apply(s, Receive, log), log);
      }
    }
  }
}
