/**
 The writer of the history database, as the master with traces enabled: messages
 fill insert buffers, buffers are flushed into a transaction, and acknowledging a
 block commits it.
 */
module Writers {
  import opened Json

  // ----- The database -----

  datatype Transaction = Transaction(seqNumber: nat, block: int, trace: string)

  datatype Receipt = Receipt(seqNumber: nat, block: int, contract: string, action: string, receiver: string, recvSequence: int)

  /** The primary key of RECEIPTS. */
  datatype ReceiptKey = ReceiptKey(receiver: string, contract: string, action: string, recvSequence: int, seqNumber: nat)

  function KeyOf(r: Receipt): ReceiptKey {
    ReceiptKey(r.receiver, r.contract, r.action, r.recvSequence, r.seqNumber)
  }

  /** Two receipts have the same key if and only if they differ in their block at most. */
  lemma SameKey(a: Receipt, b: Receipt)
    ensures KeyOf(a) == KeyOf(b) <==> a == b.(block := a.block)
  {
  }

  /** The tables by their primary keys, and the block number of the SYNC row. */
  datatype Tables = Tables(
    transactions: map<nat, Transaction>,
    receipts: map<ReceiptKey, Receipt>,
    recvSequenceMax: map<string, int>,
    syncBlock: int)

  /** INSERT IGNORE: a row whose key is taken is not inserted. */
  function InsertTransaction(t: Tables, x: Transaction): Tables {
    if x.seqNumber in t.transactions then t else t.(transactions := t.transactions[x.seqNumber := x])
  }

  function InsertReceipt(t: Tables, r: Receipt): Tables {
    if KeyOf(r) in t.receipts then t else t.(receipts := t.receipts[KeyOf(r) := r])
  }

  function InsertTransactions(t: Tables, xs: seq<Transaction>): Tables {
    if xs == [] then t else InsertTransaction(InsertTransactions(t, xs[..|xs| - 1]), xs[|xs| - 1])
  }

  function InsertReceipts(t: Tables, rs: seq<Receipt>): Tables {
    if rs == [] then t else InsertReceipt(InsertReceipts(t, rs[..|rs| - 1]), rs[|rs| - 1])
  }

  /** INSERT ... ON DUPLICATE KEY UPDATE. */
  function UpsertMax(t: Tables, m: map<string, int>): Tables {
    t.(recvSequenceMax := t.recvSequenceMax + m)
  }

  /** DELETE ... WHERE block_num >= fork, from RECEIPTS and TRANSACTIONS. */
  function DeleteFrom(t: Tables, fork: int): Tables {
    t.(receipts := map k | k in t.receipts && t.receipts[k].block < fork :: t.receipts[k],
       transactions := map k | k in t.transactions && t.transactions[k].block < fork :: t.transactions[k])
  }

  // ----- The writer -----

  /** A trace message: its action traces are given by their receipts. */
  datatype Message =
    | Fork(block: int)
    | Trace(block: int, executed: bool, seqNumber: nat, trace: string, actions: seq<Receipt>)
    | BlockCompleted(block: int, lastIrreversible: int)
    | Unknown
    | Disconnect

  datatype State = State(
    confirmedBlock: int,
    unconfirmedBlock: int,
    irreversible: int,
    ackEvery: int,
    insertTransactions: seq<Transaction>,
    insertReceipts: seq<Receipt>,
    upsertRecvSeqMax: map<string, int>,
    working: Tables,
    committed: Tables)

  function Commit(s: State): State {
    s.(committed := s.working)
  }

  function Rollback(s: State): State {
    s.(working := s.committed)
  }

  /** The last sequence number of each receiver. */
  function LastOf(rs: seq<Receipt>): map<string, int> {
    if rs == [] then map[] else LastOf(rs[..|rs| - 1])[rs[|rs| - 1].receiver := rs[|rs| - 1].recvSequence]
  }

  /** `saveTrace`. */
  function TraceSaved(s: State, block: int, seqNumber: nat, trace: string, actions: seq<Receipt>): State {
    s.(insertTransactions := s.insertTransactions + [Transaction(seqNumber, block, trace)],
       insertReceipts := s.insertReceipts + actions,
       upsertRecvSeqMax := s.upsertRecvSeqMax + LastOf(actions))
  }

  /** `sendTracesBatch`. */
  function BatchFlushed(s: State): State {
    if s.insertTransactions == [] then s
    else
      s.(working := UpsertMax(InsertReceipts(InsertTransactions(s.working, s.insertTransactions), s.insertReceipts),
                              s.upsertRecvSeqMax),
         insertTransactions := [], insertReceipts := [], upsertRecvSeqMax := map[])
  }

  /** The fork branch past its early return. */
  function ForkBack(s: State, block: int): State {
    Commit(s.(confirmedBlock := block - 1, unconfirmedBlock := block - 1,
              insertTransactions := [], insertReceipts := [], upsertRecvSeqMax := map[],
              working := DeleteFrom(s.working, block).(syncBlock := block - 1)))
  }

  /** `processData` and `onDisconnect`: the new state and the acknowledgement, or -1. */
  function Process(s: State, m: Message): (State, int) {
    match m
    case Fork(block) =>
      var c := Commit(s);
      if s.confirmedBlock <= s.irreversible then (c, block - 1) else (ForkBack(c, block), block - 1)
    case Trace(block, executed, seqNumber, trace, actions) =>
      if block <= s.confirmedBlock || !executed || actions == [] then (s, -1)
      else (TraceSaved(s, block, seqNumber, trace, actions), -1)
    case BlockCompleted(block, lastIrreversible) =>
      var sent := BatchFlushed(s.(ackEvery := if block > lastIrreversible then 1 else s.ackEvery,
                                     irreversible := if lastIrreversible > s.irreversible then lastIrreversible else s.irreversible));
      var t := sent.(unconfirmedBlock := block);
      if block <= t.confirmedBlock then (t, block)
      else if block - t.confirmedBlock < t.ackEvery then (t, -1)
      else (Commit(t).(confirmedBlock := block), block)
    case Unknown => (s, -1)
    case Disconnect => (Rollback(s), -1)
  }

  /** The message completes a block and is answered by the acknowledgement that commits. */
  predicate AcksWithCommit(s: State, m: Message) {
    && m.BlockCompleted?
    && m.block > s.confirmedBlock
    && m.block - s.confirmedBlock >= (if m.block > m.lastIrreversible then 1 else s.ackEvery)
  }

  /** The fork goes past the early return. */
  predicate ForksBack(s: State, m: Message) {
    m.Fork? && s.confirmedBlock > s.irreversible
  }

  /** The message is a trace that is saved. */
  predicate Saves(s: State, m: Message) {
    m.Trace? && m.block > s.confirmedBlock && m.executed && m.actions != []
  }

  /**
   The state and the traces saved since the last fork or disconnect, after the
   messages. Of earlier ones `RowsSinceDisconnect` says what may still appear.
   */
  datatype Tracked = Tracked(state: State, saved: seq<Message>)

  function Track(t: Tracked, m: Message): Tracked {
    Tracked(Process(t.state, m).0,
            if ForksBack(t.state, m) || m.Disconnect? then []
            else if Saves(t.state, m) then t.saved + [m]
            else t.saved)
  }

  function TrackAll(t: Tracked, ms: seq<Message>): Tracked {
    if ms == [] then t else Track(TrackAll(t, ms[..|ms| - 1]), ms[|ms| - 1])
  }

  // ----- What every message keeps -----

  predicate HasTransaction(t: Tables, m: Message)
    requires m.Trace?
  {
    m.seqNumber in t.transactions
  }

  predicate HasReceipts(t: Tables, m: Message)
    requires m.Trace?
  {
    forall k :: 0 <= k < |m.actions| ==> KeyOf(m.actions[k]) in t.receipts
  }

  predicate InTables(t: Tables, m: Message)
    requires m.Trace?
  {
    HasTransaction(t, m) && HasReceipts(t, m)
  }

  predicate InBuffers(s: State, m: Message)
    requires m.Trace?
  {
    && Transaction(m.seqNumber, m.block, m.trace) in s.insertTransactions
    && forall k :: 0 <= k < |m.actions| ==> m.actions[k] in s.insertReceipts
  }

  /** A saved trace is in the buffers or in the open transaction, and receipts are buffered only with their transactions. */
  predicate Inv(t: Tracked) {
    && (t.state.insertTransactions == [] ==> t.state.insertReceipts == [] && t.state.upsertRecvSeqMax == map[])
    && forall k :: 0 <= k < |t.saved| ==> t.saved[k].Trace? && (InBuffers(t.state, t.saved[k]) || InTables(t.state.working, t.saved[k]))
  }

  lemma {:induction false} TransactionsInserted(t: Tables, xs: seq<Transaction>)
    ensures TransactionsAdded(t, InsertTransactions(t, xs), xs)
  {
    if xs != [] {
      hide InsertTransaction, TransactionsAdded;
      var n := |xs| - 1;
      TransactionsInserted(t, xs[..n]);
      LastTransaction(t, InsertTransactions(t, xs[..n]), xs);
    }
  }

  /** `u` is `t` with rows for the transactions `xs`, where there were none for their numbers. */
  predicate TransactionsAdded(t: Tables, u: Tables, xs: seq<Transaction>) {
    && u == t.(transactions := u.transactions)
    && (forall q :: q in t.transactions ==> q in u.transactions && u.transactions[q] == t.transactions[q])
    && (forall k :: 0 <= k < |xs| ==> xs[k].seqNumber in u.transactions)
    && (forall q :: q in u.transactions && q !in t.transactions ==> u.transactions[q] in xs)
  }

  lemma LastTransaction(t: Tables, mid: Tables, xs: seq<Transaction>)
    requires xs != [] && TransactionsAdded(t, mid, xs[..|xs| - 1])
    ensures TransactionsAdded(t, InsertTransaction(mid, xs[|xs| - 1]), xs)
  {
    hide InsertTransaction;
    var n := |xs| - 1;
    var x, u := xs[n], InsertTransaction(mid, xs[n]);
    OneTransaction(mid, x);
    forall k | 0 <= k < |xs|
      ensures xs[k].seqNumber in u.transactions
    {
      assert k < n ==> xs[..n][k] == xs[k];
    }
    forall q | q in u.transactions && q !in t.transactions
      ensures u.transactions[q] in xs
    {
      if q in mid.transactions {
        assert mid.transactions[q] in xs[..n];
      }
    }
  }

  lemma OneTransaction(t: Tables, x: Transaction)
    ensures var u := InsertTransaction(t, x);
            && u == t.(transactions := u.transactions) && x.seqNumber in u.transactions
            && (forall q :: q in t.transactions ==> q in u.transactions && u.transactions[q] == t.transactions[q])
            && (forall q :: q in u.transactions && q !in t.transactions ==> u.transactions[q] == x)
  {
  }

  lemma {:induction false} ReceiptsInserted(t: Tables, rs: seq<Receipt>)
    ensures ReceiptsAdded(t, InsertReceipts(t, rs), rs)
  {
    if rs != [] {
      hide InsertReceipt, ReceiptsAdded;
      var n := |rs| - 1;
      ReceiptsInserted(t, rs[..n]);
      LastReceipt(t, InsertReceipts(t, rs[..n]), rs);
    }
  }

  /** `u` is `t` with rows for the receipts `rs`, where there were none for their keys. */
  predicate ReceiptsAdded(t: Tables, u: Tables, rs: seq<Receipt>) {
    && u == t.(receipts := u.receipts)
    && (forall q :: q in t.receipts ==> q in u.receipts && u.receipts[q] == t.receipts[q])
    && (forall k :: 0 <= k < |rs| ==> KeyOf(rs[k]) in u.receipts)
    && (forall q :: q in u.receipts && q !in t.receipts ==> u.receipts[q] in rs)
  }

  lemma LastReceipt(t: Tables, mid: Tables, rs: seq<Receipt>)
    requires rs != [] && ReceiptsAdded(t, mid, rs[..|rs| - 1])
    ensures ReceiptsAdded(t, InsertReceipt(mid, rs[|rs| - 1]), rs)
  {
    hide InsertReceipt, KeyOf;
    var r := rs[|rs| - 1];
    OneReceipt(mid, r);
    var u := InsertReceipt(mid, r);
    KeysKept(mid, u, rs);
    RowsKept(t, mid, u, rs);
    assert u == t.(receipts := u.receipts);
    assert forall q :: q in t.receipts ==> q in u.receipts && u.receipts[q] == t.receipts[q];
  }

  lemma KeysKept(mid: Tables, u: Tables, rs: seq<Receipt>)
    requires rs != [] && KeyOf(rs[|rs| - 1]) in u.receipts
    requires forall q :: q in mid.receipts ==> q in u.receipts
    requires var prior := rs[..|rs| - 1]; forall k :: 0 <= k < |prior| ==> KeyOf(prior[k]) in mid.receipts
    ensures forall k :: 0 <= k < |rs| ==> KeyOf(rs[k]) in u.receipts
  {
    hide KeyOf;
    forall k | 0 <= k < |rs|
      ensures KeyOf(rs[k]) in u.receipts
    {
      assert k < |rs| - 1 ==> rs[..|rs| - 1][k] == rs[k];
    }
  }

  lemma RowsKept(t: Tables, mid: Tables, u: Tables, rs: seq<Receipt>)
    requires rs != []
    requires forall q :: q in mid.receipts ==> q in u.receipts && u.receipts[q] == mid.receipts[q]
    requires forall q :: q in u.receipts && q !in mid.receipts ==> u.receipts[q] == rs[|rs| - 1]
    requires forall q :: q in mid.receipts && q !in t.receipts ==> mid.receipts[q] in rs[..|rs| - 1]
    ensures forall q :: q in u.receipts && q !in t.receipts ==> u.receipts[q] in rs
  {
  }

  lemma OneReceipt(t: Tables, r: Receipt)
    ensures var u := InsertReceipt(t, r);
            && u == t.(receipts := u.receipts) && KeyOf(r) in u.receipts
            && (forall q :: q in t.receipts ==> q in u.receipts && u.receipts[q] == t.receipts[q])
            && (forall q :: q in u.receipts && q !in t.receipts ==> u.receipts[q] == r)
  {
  }

  /** Flushing moves every buffered trace into the tables and keeps what was there. */
  lemma BatchSent(s: State, m: Message)
    requires m.Trace? && (InBuffers(s, m) || InTables(s.working, m))
    ensures InTables(BatchFlushed(s).working, m)
  {
    if s.insertTransactions != [] {
      hide InsertTransactions, InsertReceipts;
      TransactionsInserted(s.working, s.insertTransactions);
      var mid := InsertTransactions(s.working, s.insertTransactions);
      ReceiptsInserted(mid, s.insertReceipts);
      var done := InsertReceipts(mid, s.insertReceipts);
      assert done.transactions == mid.transactions && mid.receipts == s.working.receipts;
      if InBuffers(s, m) {
        var k :| 0 <= k < |s.insertTransactions| && s.insertTransactions[k] == Transaction(m.seqNumber, m.block, m.trace);
        assert s.insertTransactions[k].seqNumber in mid.transactions;
        forall j | 0 <= j < |m.actions|
          ensures KeyOf(m.actions[j]) in done.receipts
        {
          var i :| 0 <= i < |s.insertReceipts| && s.insertReceipts[i] == m.actions[j];
        }
      } else {
        assert forall j :: 0 <= j < |m.actions| ==> KeyOf(m.actions[j]) in mid.receipts;
      }
      assert HasTransaction(done, m) && HasReceipts(done, m);
    }
  }

  lemma BatchClears(s: State)
    requires s.insertTransactions == [] ==> s.insertReceipts == [] && s.upsertRecvSeqMax == map[]
    ensures var t := BatchFlushed(s); t.insertTransactions == [] && t.insertReceipts == [] && t.upsertRecvSeqMax == map[]
  {
  }

  lemma TrackKeeps(t: Tracked, m: Message)
    requires Inv(t)
    ensures Inv(Track(t, m))
  {
    hide InTables, InsertTransactions, InsertReceipts, LastOf;
    if m.BlockCompleted? {
      CompletedKeeps(t, m);
    } else if Saves(t.state, m) {
      var next := Track(t, m);
      forall k | 0 <= k < |next.saved|
        ensures next.saved[k].Trace? && (InBuffers(next.state, next.saved[k]) || InTables(next.state.working, next.saved[k]))
      {
        if k < |t.saved| {
          assert next.saved[k] == t.saved[k];
        }
      }
    }
  }

  lemma CompletedKeeps(t: Tracked, m: Message)
    requires Inv(t) && m.BlockCompleted?
    ensures var next := Track(t, m);
            && next.saved == t.saved
            && next.state.insertTransactions == [] && next.state.insertReceipts == [] && next.state.upsertRecvSeqMax == map[]
            && forall k :: 0 <= k < |t.saved| ==> t.saved[k].Trace? && InTables(next.state.working, t.saved[k])
  {
    hide InTables, BatchFlushed;
    var s := t.state.(ackEvery := if m.block > m.lastIrreversible then 1 else t.state.ackEvery,
                      irreversible := if m.lastIrreversible > t.state.irreversible then m.lastIrreversible else t.state.irreversible);
    BatchClears(s);
    forall k | 0 <= k < |t.saved|
      ensures InTables(BatchFlushed(s).working, t.saved[k])
    {
      SameBuffers(s, t.state, t.saved[k]);
      BatchSent(s, t.saved[k]);
    }
  }

  lemma SameBuffers(s: State, t: State, m: Message)
    requires m.Trace? && s.insertTransactions == t.insertTransactions && s.insertReceipts == t.insertReceipts
    ensures InBuffers(s, m) == InBuffers(t, m)
  {
  }

  lemma {:induction false} RunKeeps(t: Tracked, ms: seq<Message>)
    requires Inv(t)
    ensures Inv(TrackAll(t, ms))
  {
    if ms != [] {
      RunKeeps(t, ms[..|ms| - 1]);
      TrackKeeps(TrackAll(t, ms[..|ms| - 1]), ms[|ms| - 1]);
    }
  }

  /** A writer that has just read its row of SYNC. */
  function Started(confirmed: int, irreversible: int, ackEvery: int, tables: Tables): Tracked {
    Tracked(State(confirmed, confirmed, irreversible, ackEvery, [], [], map[], tables, tables), [])
  }

  /**
   After any messages, a completed block that is acknowledged with a commit
   leaves the three buffers empty, and every trace saved since the last fork or
   disconnect has its transaction row and all its receipt rows committed.
   */
  lemma AcknowledgedIsCommitted(confirmed: int, irreversible: int, ackEvery: int, tables: Tables, ms: seq<Message>, m: Message)
    requires AcksWithCommit(TrackAll(Started(confirmed, irreversible, ackEvery, tables), ms).state, m)
    ensures var before := TrackAll(Started(confirmed, irreversible, ackEvery, tables), ms);
            var (s, ack) := Process(before.state, m);
            && ack == m.block == s.confirmedBlock == s.unconfirmedBlock
            && s.insertTransactions == [] && s.insertReceipts == [] && s.upsertRecvSeqMax == map[]
            && s.committed == s.working
            && forall k :: 0 <= k < |before.saved| ==> before.saved[k].Trace? && InTables(s.committed, before.saved[k])
  {
    hide InTables;
    var start := Started(confirmed, irreversible, ackEvery, tables);
    RunKeeps(start, ms);
    CompletedKeeps(TrackAll(start, ms), m);
  }

  // ----- Whose row it is -----

  function FirstTransaction(xs: seq<Transaction>, q: nat): Option<Transaction> {
    if xs == [] then None
    else
      var n := |xs| - 1;
      var earlier := FirstTransaction(xs[..n], q);
      if earlier.Some? then earlier else if xs[n].seqNumber == q then Some(xs[n]) else None
  }

  function FirstReceipt(rs: seq<Receipt>, key: ReceiptKey): Option<Receipt> {
    if rs == [] then None
    else
      var n := |rs| - 1;
      var earlier := FirstReceipt(rs[..n], key);
      if earlier.Some? then earlier else if KeyOf(rs[n]) == key then Some(rs[n]) else None
  }

  /** The row that a sequence number has, or will have when the buffers are flushed. */
  function RowFor(s: State, q: nat): Option<Transaction> {
    if q in s.working.transactions then Some(s.working.transactions[q]) else FirstTransaction(s.insertTransactions, q)
  }

  function ReceiptFor(s: State, key: ReceiptKey): Option<Receipt> {
    if key in s.working.receipts then Some(s.working.receipts[key]) else FirstReceipt(s.insertReceipts, key)
  }

  lemma {:induction false} InsertedRow(t: Tables, xs: seq<Transaction>, q: nat)
    ensures var u := InsertTransactions(t, xs);
            && u.receipts == t.receipts
            && (if q in u.transactions then Some(u.transactions[q]) else None)
               == if q in t.transactions then Some(t.transactions[q]) else FirstTransaction(xs, q)
  {
    if xs != [] {
      InsertedRow(t, xs[..|xs| - 1], q);
    }
  }

  lemma {:induction false} InsertedReceipt(t: Tables, rs: seq<Receipt>, key: ReceiptKey)
    ensures var u := InsertReceipts(t, rs);
            && u.transactions == t.transactions
            && (if key in u.receipts then Some(u.receipts[key]) else None)
               == if key in t.receipts then Some(t.receipts[key]) else FirstReceipt(rs, key)
  {
    hide KeyOf;
    if rs != [] {
      InsertedReceipt(t, rs[..|rs| - 1], key);
    }
  }

  lemma {:induction false} FirstOfBoth(a: seq<Receipt>, b: seq<Receipt>, key: ReceiptKey)
    ensures FirstReceipt(a + b, key) == if FirstReceipt(a, key).Some? then FirstReceipt(a, key) else FirstReceipt(b, key)
  {
    hide KeyOf;
    if b == [] {
      assert a + b == a;
    } else {
      assert (a + b)[..|a + b| - 1] == a + b[..|b| - 1];
      FirstOfBoth(a, b[..|b| - 1], key);
    }
  }

  /** Flushing the buffers changes no row that a number or a key has. */
  lemma FlushKeepsRows(s: State, q: nat, key: ReceiptKey)
    ensures RowFor(BatchFlushed(s), q) == RowFor(s, q) && ReceiptFor(BatchFlushed(s), key) == ReceiptFor(s, key)
  {
    hide InsertTransactions, InsertReceipts;
    if s.insertTransactions != [] {
      InsertedRow(s.working, s.insertTransactions, q);
      InsertedReceipt(InsertTransactions(s.working, s.insertTransactions), s.insertReceipts, key);
    }
  }

  /** The message forgets traces: a fork past the early return, or a disconnect. */
  predicate Resets(s: State, m: Message) {
    ForksBack(s, m) || m.Disconnect?
  }

  predicate NoReset(t: Tracked, ms: seq<Message>) {
    forall j :: 0 <= j < |ms| ==> !Resets(TrackAll(t, ms[..j]).state, ms[j])
  }

  /** A number or a key that has a row keeps it. */
  lemma StepKeepsRows(s: State, m: Message, q: nat, key: ReceiptKey)
    requires !Resets(s, m)
    ensures RowFor(s, q).Some? ==> RowFor(Process(s, m).0, q) == RowFor(s, q)
    ensures ReceiptFor(s, key).Some? ==> ReceiptFor(Process(s, m).0, key) == ReceiptFor(s, key)
  {
    hide BatchFlushed;
    if m.BlockCompleted? {
      var u := s.(ackEvery := if m.block > m.lastIrreversible then 1 else s.ackEvery,
                  irreversible := if m.lastIrreversible > s.irreversible then m.lastIrreversible else s.irreversible);
      FlushKeepsRows(u, q, key);
    } else if m.Trace? {
      SavingKeepsRows(s, m, q, key);
    }
  }

  /** Saving a trace gives it the row of its number, if there is none; and likewise its receipts. */
  lemma SavingKeepsRows(s: State, m: Message, q: nat, key: ReceiptKey)
    requires m.Trace?
    ensures var t := TraceSaved(s, m.block, m.seqNumber, m.trace, m.actions);
            && RowFor(t, q) == (if RowFor(s, q).Some? then RowFor(s, q)
                                else if q == m.seqNumber then Some(Transaction(q, m.block, m.trace)) else None)
            && ReceiptFor(t, key) == if ReceiptFor(s, key).Some? then ReceiptFor(s, key) else FirstReceipt(m.actions, key)
  {
    var x := Transaction(m.seqNumber, m.block, m.trace);
    var n := |s.insertTransactions|;
    assert (s.insertTransactions + [x])[..n] == s.insertTransactions;
    FirstOfBoth(s.insertReceipts, m.actions, key);
  }

  lemma {:induction false} RunKeepsRows(t: Tracked, ms: seq<Message>, q: nat, key: ReceiptKey)
    requires NoReset(t, ms)
    ensures RowFor(t.state, q).Some? ==> RowFor(TrackAll(t, ms).state, q) == RowFor(t.state, q)
    ensures ReceiptFor(t.state, key).Some? ==> ReceiptFor(TrackAll(t, ms).state, key) == ReceiptFor(t.state, key)
  {
    hide Process, RowFor, ReceiptFor, Resets;
    if ms != [] {
      var n := |ms| - 1;
      forall j | 0 <= j < n
        ensures !Resets(TrackAll(t, ms[..n][..j]).state, ms[..n][j])
      {
        assert ms[..n][..j] == ms[..j];
      }
      RunKeepsRows(t, ms[..n], q, key);
      StepKeepsRows(TrackAll(t, ms[..n]).state, ms[n], q, key);
    }
  }

  lemma {:induction false} SomeReceipt(rs: seq<Receipt>, k: nat)
    requires k < |rs|
    ensures FirstReceipt(rs, KeyOf(rs[k])).Some?
  {
    hide KeyOf;
    if k < |rs| - 1 {
      SomeReceipt(rs[..|rs| - 1], k);
    }
  }

  /** The acknowledgement commits the rows that numbers and keys have. */
  lemma RowsCommitted(end: Tracked, last: Message, q: nat, key: ReceiptKey)
    requires Inv(end) && AcksWithCommit(end.state, last)
    ensures var now := Process(end.state, last).0.committed;
            && (RowFor(end.state, q).Some? ==> q in now.transactions && now.transactions[q] == RowFor(end.state, q).value)
            && (ReceiptFor(end.state, key).Some? ==>
                  key in now.receipts && now.receipts[key] == ReceiptFor(end.state, key).value)
  {
    hide InsertTransactions, InsertReceipts, Inv;
    StepKeepsRows(end.state, last, q, key);
    CompletedKeeps(end, last);
  }

  /**
   The committed rows of a saved trace. After any messages a trace `m` is saved,
   no fork or disconnect among the messages `after` forgets it, and `last` is
   acknowledged with a commit. The row of its number is its own if and only if,
   when it was saved, no row and no buffered trace had that number, or had it with
   the same contents; and likewise for its receipts, the first of a key counting.
   */
  lemma OwnRowsCommitted(start: Tracked, before: seq<Message>, m: Message, after: seq<Message>, last: Message, k: nat)
    requires start == Started(start.state.confirmedBlock, start.state.irreversible, start.state.ackEvery, start.state.working)
    requires var t := TrackAll(start, before);
             && Saves(t.state, m) && k < |m.actions| && NoReset(Track(t, m), after)
             && AcksWithCommit(TrackAll(Track(t, m), after).state, last)
    ensures var t := TrackAll(start, before);
            var now := Process(TrackAll(Track(t, m), after).state, last).0.committed;
            var own, key := Transaction(m.seqNumber, m.block, m.trace), KeyOf(m.actions[k]);
            && m.seqNumber in now.transactions && key in now.receipts
            && (now.transactions[m.seqNumber] == own <==>
                  RowFor(t.state, m.seqNumber).None? || RowFor(t.state, m.seqNumber) == Some(own))
            && (now.receipts[key] == m.actions[k] <==>
                  (if ReceiptFor(t.state, key).Some? then ReceiptFor(t.state, key) else FirstReceipt(m.actions, key)) == Some(m.actions[k]))
  {
    hide Inv, KeyOf, BatchFlushed, TraceSaved, RowFor, ReceiptFor, FirstReceipt, NoReset, AcksWithCommit, TrackAll;
    var t := TrackAll(start, before);
    var q, key := m.seqNumber, KeyOf(m.actions[k]);
    SavingKeepsRows(t.state, m, q, key);
    SomeReceipt(m.actions, k);
    var next := Track(t, m);
    assert next.state == TraceSaved(t.state, m.block, m.seqNumber, m.trace, m.actions);
    hide Process;
    RunKeepsRows(next, after, q, key);
    StartedInv(start);
    RunKeeps(start, before);
    TrackKeeps(t, m);
    RunKeeps(next, after);
    RowsCommitted(TrackAll(next, after), last, q, key);
  }

  lemma StartedInv(start: Tracked)
    requires start.saved == [] && start.state.insertReceipts == [] && start.state.upsertRecvSeqMax == map[]
    ensures Inv(start)
  {
  }

  /** A trace with one receipt. */
  function Sample(block: int, seqNumber: nat, trace: string): Message {
    Trace(block, true, seqNumber, trace, [Receipt(seqNumber, block, "c", "a", "r", seqNumber)])
  }

  const NO_TABLES := Tables(map[], map[], map[], 10)

  function FourMessages(a: Message, b: Message, c: Message, d: Message): seq<Message> {
    [a] + [b] + [c] + [d]
  }

  lemma LastStep(t: Tracked, ms: seq<Message>, m: Message)
    ensures TrackAll(t, ms + [m]) == Track(TrackAll(t, ms), m)
  {
    assert (ms + [m])[..|ms|] == ms;
  }

  lemma FourSteps(t: Tracked, a: Message, b: Message, c: Message, d: Message)
    ensures TrackAll(t, FourMessages(a, b, c, d)) == Track(Track(Track(Track(t, a), b), c), d)
  {
    hide Track;
    LastStep(t, [], a);
    LastStep(t, [a], b);
    LastStep(t, [a] + [b], c);
    LastStep(t, [a] + [b] + [c], d);
    assert [] + [a] == [a];
  }

  lemma FlushOne(s: State, x: Transaction, r: Receipt)
    requires s.working == NO_TABLES && s.insertTransactions == [x] && s.insertReceipts == [r]
    ensures var t := BatchFlushed(s);
            && t == s.(working := t.working, insertTransactions := [], insertReceipts := [], upsertRecvSeqMax := map[])
            && x.seqNumber in t.working.transactions && t.working.transactions[x.seqNumber] == x
            && KeyOf(r) in t.working.receipts && t.working.receipts[KeyOf(r)] == r
  {
    hide InsertTransactions, InsertReceipts, KeyOf, FirstTransaction, FirstReceipt;
    FirstOne(x);
    FirstOneReceipt(r);
    InsertedRow(NO_TABLES, [x], x.seqNumber);
    InsertedReceipt(InsertTransactions(NO_TABLES, [x]), [r], KeyOf(r));
  }

  /** The writer while it catches up: a trace of block 12 has been flushed but not committed. */
  lemma CatchingUp(m: Message)
    requires m == Sample(12, 7, "old")
    ensures var start := Started(10, 20, 100, NO_TABLES);
            var t := Track(Track(start, m), BlockCompleted(12, 20));
            && t.saved == [m] && t.state.confirmedBlock == 10 && t.state.irreversible == 20 && t.state.insertTransactions == []
            && 7 in t.state.working.transactions && t.state.working.transactions[7] == Transaction(7, 12, "old")
            && KeyOf(m.actions[0]) in t.state.working.receipts && t.state.working.receipts[KeyOf(m.actions[0])] == m.actions[0]
  {
    hide BatchFlushed, KeyOf, NO_TABLES;
    var start := Started(10, 20, 100, NO_TABLES);
    var t := Track(start, m);
    assert [] + m.actions == m.actions && [] + [Transaction(7, 12, "old")] == [Transaction(7, 12, "old")];
    FlushOne(t.state.(irreversible := 20), Transaction(7, 12, "old"), m.actions[0]);
  }

  /**
   A trace that is acknowledged while the rows of its number and of its receipt
   are those of another trace: the number was given out again after a fork that
   was cut short.
   */
  lemma StaleRowIsCommitted()
    ensures var old7, new7 := Sample(12, 7, "old"), Sample(13, 7, "new");
            var t := TrackAll(Started(10, 20, 100, NO_TABLES), FourMessages(old7, BlockCompleted(12, 20), Fork(11), new7));
            var (s, ack) := Process(t.state, BlockCompleted(13, 11));
            var key := KeyOf(new7.actions[0]);
            && new7 in t.saved && ack == 13 == s.confirmedBlock
            && 7 in s.committed.transactions && s.committed.transactions[7] == Transaction(7, 12, "old")
            && key in s.committed.receipts && s.committed.receipts[key] == old7.actions[0] != new7.actions[0]
  {
    hide BatchFlushed;
    var a, b, c, d := Sample(12, 7, "old"), BlockCompleted(12, 20), Fork(11), Sample(13, 7, "new");
    var start := Started(10, 20, 100, NO_TABLES);
    FourSteps(start, a, b, c, d);
    CatchingUp(a);
    var t := Track(Track(Track(Track(start, a), b), c), d);
    StartedInv(start);
    TrackKeeps(start, a);
    TrackKeeps(Track(start, a), b);
    TrackKeeps(Track(Track(start, a), b), c);
    TrackKeeps(Track(Track(Track(start, a), b), c), d);
    RowsCommitted(t, BlockCompleted(13, 11), 7, KeyOf(a.actions[0]));
    assert t.saved[1] == d;
    StepAcks(t.state, BlockCompleted(13, 11));
  }

  lemma StepAcks(s: State, m: Message)
    requires AcksWithCommit(s, m)
    ensures Process(s, m).1 == m.block == Process(s, m).0.confirmedBlock
  {
    hide InsertTransactions, InsertReceipts;
  }

  lemma FirstOne(x: Transaction)
    ensures FirstTransaction([x], x.seqNumber) == Some(x)
  {
    assert [x][..0] == [];
  }

  lemma FirstOneReceipt(r: Receipt)
    ensures FirstReceipt([r], KeyOf(r)) == Some(r)
  {
    assert [r][..0] == [];
  }

  // ----- Forks -----

  /** No row at or above the block. */
  predicate NoneFrom(t: Tables, fork: int) {
    && (forall q :: q in t.transactions ==> t.transactions[q].block < fork)
    && (forall q :: q in t.receipts ==> t.receipts[q].block < fork)
  }

  /**
   A fork that is not cut short empties the buffers, sets both counters to the
   block before the fork and leaves exactly the rows below the fork, committed.
   */
  lemma ForkClears(s: State, m: Message)
    requires ForksBack(s, m)
    ensures var (t, ack) := Process(s, m);
            && ack == t.confirmedBlock == t.unconfirmedBlock == m.block - 1
            && t.insertTransactions == [] && t.insertReceipts == [] && t.upsertRecvSeqMax == map[]
            && t.committed == t.working && NoneFrom(t.committed, m.block)
            && (forall q :: q in s.working.transactions && s.working.transactions[q].block < m.block ==>
                  q in t.committed.transactions && t.committed.transactions[q] == s.working.transactions[q])
            && (forall q :: q in s.working.receipts && s.working.receipts[q].block < m.block ==>
                  q in t.committed.receipts && t.committed.receipts[q] == s.working.receipts[q])
            && t.committed.recvSequenceMax == s.working.recvSequenceMax && t.committed.syncBlock == m.block - 1
  {
  }

  /**
   After a fork message no committed row is at or above the fork if and only if
   the confirmed block is past the irreversible one, or no row was there already.
   */
  lemma ForkRemoves(s: State, fork: int)
    ensures NoneFrom(Process(s, Fork(fork)).0.committed, fork) <==> s.confirmedBlock > s.irreversible || NoneFrom(s.working, fork)
  {
  }

  /**
   While catching up, a fork keeps a row and a buffered trace of an abandoned
   block: a run of four messages.
   */
  lemma ForkWhileCatchingUp()
    ensures var x, y := Sample(12, 7, "old"), Sample(12, 8, "later");
            var t := TrackAll(Started(10, 20, 100, NO_TABLES), FourMessages(x, BlockCompleted(12, 20), y, Fork(11)));
            && !NoneFrom(t.state.committed, 11)
            && t.state.insertTransactions == [Transaction(8, 12, "later")] && t.saved == [x, y]
  {
    hide BatchFlushed;
    var a, b, c, d := Sample(12, 7, "old"), BlockCompleted(12, 20), Sample(12, 8, "later"), Fork(11);
    FourSteps(Started(10, 20, 100, NO_TABLES), a, b, c, d);
    CatchingUp(a);
  }

  // ----- Forks and disconnects over runs -----

  /** Message `j` of the run is a trace that is saved. */
  predicate SavedAt(t: Tracked, ms: seq<Message>, j: nat)
    requires j < |ms|
  {
    Saves(TrackAll(t, ms[..j]).state, ms[j])
  }

  /** The row comes from a trace saved after message `i`. */
  ghost predicate SavedAfter(t: Tracked, ms: seq<Message>, i: nat, x: Transaction) {
    exists j :: i < j < |ms| && SavedAt(t, ms, j) && x == Transaction(ms[j].seqNumber, ms[j].block, ms[j].trace)
  }

  ghost predicate ReceiptSavedAfter(t: Tracked, ms: seq<Message>, i: nat, r: Receipt) {
    exists j :: i < j < |ms| && SavedAt(t, ms, j) && r in ms[j].actions
  }

  /** Where rows and receipts may come from. */
  datatype Origin = Origin(row: Transaction -> bool, receipt: Receipt -> bool)

  ghost predicate TablesFrom(tables: Tables, o: Origin) {
    && (forall q :: q in tables.transactions ==> o.row(tables.transactions[q]))
    && (forall q :: q in tables.receipts ==> o.receipt(tables.receipts[q]))
  }

  ghost predicate BuffersFrom(s: State, o: Origin) {
    (forall x :: x in s.insertTransactions ==> o.row(x)) && (forall r :: r in s.insertReceipts ==> o.receipt(r))
  }

  /** The tables, open and committed, have their rows from `tables`, and the buffers from `buffers`. */
  ghost predicate Comes(s: State, tables: Origin, buffers: Origin) {
    TablesFrom(s.working, tables) && TablesFrom(s.committed, tables) && BuffersFrom(s, buffers)
  }

  ghost predicate Within(a: Origin, b: Origin) {
    (forall x :: a.row(x) ==> b.row(x)) && (forall r :: a.receipt(r) ==> b.receipt(r))
  }

  /** Flushing moves rows from the buffers only. */
  lemma FlushComes(s: State, tables: Origin, buffers: Origin)
    requires Comes(s, tables, buffers) && Within(buffers, tables)
    ensures Comes(BatchFlushed(s), tables, buffers)
  {
    hide InsertTransactions, InsertReceipts;
    if s.insertTransactions != [] {
      var mid := InsertTransactions(s.working, s.insertTransactions);
      TransactionsInserted(s.working, s.insertTransactions);
      ReceiptsInserted(mid, s.insertReceipts);
    }
  }

  /** A message brings no rows but those of a trace that it saves. */
  lemma StepComes(s: State, m: Message, tables: Origin, buffers: Origin)
    requires Comes(s, tables, buffers) && Within(buffers, tables)
    requires Saves(s, m) ==>
               buffers.row(Transaction(m.seqNumber, m.block, m.trace)) && forall r :: r in m.actions ==> buffers.receipt(r)
    ensures Comes(Process(s, m).0, tables, buffers)
  {
    hide BatchFlushed;
    if m.BlockCompleted? {
      FlushComes(s.(ackEvery := if m.block > m.lastIrreversible then 1 else s.ackEvery,
                    irreversible := if m.lastIrreversible > s.irreversible then m.lastIrreversible else s.irreversible),
                 tables, buffers);
    }
  }

  /** What comes from `tables` and `buffers` after message `i` does so at the end, if the traces saved since are in `buffers`. */
  lemma {:induction false} RunComes(t: Tracked, ms: seq<Message>, i: nat, n: nat, tables: Origin, buffers: Origin)
    requires i < n <= |ms| && Within(buffers, tables)
    requires Comes(TrackAll(t, ms[..i + 1]).state, tables, buffers)
    requires forall x :: SavedAfter(t, ms, i, x) ==> buffers.row(x)
    requires forall r :: ReceiptSavedAfter(t, ms, i, r) ==> buffers.receipt(r)
    ensures Comes(TrackAll(t, ms[..n]).state, tables, buffers)
    decreases n
  {
    hide Process, Comes, Within, SavedAfter, ReceiptSavedAfter;
    if i + 1 < n {
      var j := n - 1;
      RunComes(t, ms, i, j, tables, buffers);
      assert ms[..n][..j] == ms[..j] && ms[..n][j] == ms[j];
      var s := TrackAll(t, ms[..j]).state;
      if Saves(s, ms[j]) {
        SavedComes(t, ms, i, j);
      }
      StepComes(s, ms[j], tables, buffers);
    }
  }

  lemma SavedComes(t: Tracked, ms: seq<Message>, i: nat, j: nat)
    requires i < j < |ms| && SavedAt(t, ms, j)
    ensures SavedAfter(t, ms, i, Transaction(ms[j].seqNumber, ms[j].block, ms[j].trace))
    ensures forall r :: r in ms[j].actions ==> ReceiptSavedAfter(t, ms, i, r)
  {
    hide SavedAt;
  }

  /** Rows at or above the block come from traces saved after message `i`. */
  ghost predicate TablesSince(tables: Tables, fork: int, t: Tracked, ms: seq<Message>, i: nat) {
    && (forall q :: q in tables.transactions && tables.transactions[q].block >= fork ==> SavedAfter(t, ms, i, tables.transactions[q]))
    && (forall q :: q in tables.receipts && tables.receipts[q].block >= fork ==> ReceiptSavedAfter(t, ms, i, tables.receipts[q]))
  }

  ghost predicate BuffersSince(xs: seq<Transaction>, rs: seq<Receipt>, t: Tracked, ms: seq<Message>, i: nat) {
    && (forall x :: x in xs ==> SavedAfter(t, ms, i, x))
    && (forall r :: r in rs ==> ReceiptSavedAfter(t, ms, i, r))
  }

  /**
   After any messages, with a fork at message `i` that goes past the early return:
   every row at or above the fork, in the open transaction or committed, comes
   from a trace that was saved after the fork, and so does everything buffered.
   */
  lemma RowsSinceFork(t: Tracked, ms: seq<Message>, i: nat)
    requires i < |ms| && ForksBack(TrackAll(t, ms[..i]).state, ms[i])
    ensures var s := TrackAll(t, ms).state;
            && TablesSince(s.working, ms[i].block, t, ms, i) && TablesSince(s.committed, ms[i].block, t, ms, i)
            && BuffersSince(s.insertTransactions, s.insertReceipts, t, ms, i)
  {
    hide SavedAfter, ReceiptSavedAfter, TrackAll;
    var fork := ms[i].block;
    var buffers := Origin(x => SavedAfter(t, ms, i, x), r => ReceiptSavedAfter(t, ms, i, r));
    var tables := Origin((x: Transaction) => x.block >= fork ==> SavedAfter(t, ms, i, x),
                         (r: Receipt) => r.block >= fork ==> ReceiptSavedAfter(t, ms, i, r));
    AtMessage(t, ms, i);
    RunComes(t, ms, i, |ms|, tables, buffers);
    assert ms[..|ms|] == ms;
  }

  lemma AtMessage(t: Tracked, ms: seq<Message>, i: nat)
    requires i < |ms|
    ensures TrackAll(t, ms[..i + 1]).state == Process(TrackAll(t, ms[..i]).state, ms[i]).0
  {
    hide Process;
    assert ms[..i + 1][..i] == ms[..i] && ms[..i + 1][i] == ms[i];
  }

  /** The rows were committed or buffered in state `d`, or come from traces saved after message `i`. */
  ghost predicate TablesPast(tables: Tables, d: State, t: Tracked, ms: seq<Message>, i: nat) {
    && (forall q :: q in tables.transactions ==>
          var x := tables.transactions[q];
          x in d.committed.transactions.Values || x in d.insertTransactions || SavedAfter(t, ms, i, x))
    && (forall q :: q in tables.receipts ==>
          var r := tables.receipts[q];
          r in d.committed.receipts.Values || r in d.insertReceipts || ReceiptSavedAfter(t, ms, i, r))
  }

  ghost predicate BuffersPast(s: State, d: State, t: Tracked, ms: seq<Message>, i: nat) {
    && (forall x :: x in s.insertTransactions ==> x in d.insertTransactions || SavedAfter(t, ms, i, x))
    && (forall r :: r in s.insertReceipts ==> r in d.insertReceipts || ReceiptSavedAfter(t, ms, i, r))
  }

  /**
   After any messages, with a disconnect at message `i`: every row, in the open
   transaction or committed, was committed when the connection was lost, or was
   buffered then and has survived the roll-back, or comes from a trace saved
   later; what had only been flushed is gone.
   */
  lemma RowsSinceDisconnect(t: Tracked, ms: seq<Message>, i: nat)
    requires i < |ms| && ms[i].Disconnect?
    ensures var d, s := TrackAll(t, ms[..i]).state, TrackAll(t, ms).state;
            TablesPast(s.working, d, t, ms, i) && TablesPast(s.committed, d, t, ms, i) && BuffersPast(s, d, t, ms, i)
  {
    hide SavedAfter, ReceiptSavedAfter, TrackAll;
    var d := TrackAll(t, ms[..i]).state;
    var buffers := Origin(x => x in d.insertTransactions || SavedAfter(t, ms, i, x),
                          r => r in d.insertReceipts || ReceiptSavedAfter(t, ms, i, r));
    var tables := Origin(x => x in d.committed.transactions.Values || buffers.row(x),
                         r => r in d.committed.receipts.Values || buffers.receipt(r));
    AtMessage(t, ms, i);
    RunComes(t, ms, i, |ms|, tables, buffers);
    assert ms[..|ms|] == ms;
  }

  /**
   And those rows do appear: a number or a key that was committed or buffered
   when the connection was lost has its row, or the first buffered one, after the
   next acknowledgement that commits, if no message in between forgets traces.
   */
  lemma BufferedOutlivesDisconnect(start: Tracked, before: seq<Message>, after: seq<Message>, last: Message, q: nat, key: ReceiptKey)
    requires start == Started(start.state.confirmedBlock, start.state.irreversible, start.state.ackEvery, start.state.working)
    requires var gone := Track(TrackAll(start, before), Disconnect);
             NoReset(gone, after) && AcksWithCommit(TrackAll(gone, after).state, last)
    ensures var d := TrackAll(start, before).state;
            var now := Process(TrackAll(Track(TrackAll(start, before), Disconnect), after).state, last).0.committed;
            && (q in d.committed.transactions ==> q in now.transactions && now.transactions[q] == d.committed.transactions[q])
            && (q !in d.committed.transactions && FirstTransaction(d.insertTransactions, q).Some? ==>
                  q in now.transactions && now.transactions[q] == FirstTransaction(d.insertTransactions, q).value)
            && (key in d.committed.receipts ==> key in now.receipts && now.receipts[key] == d.committed.receipts[key])
            && (key !in d.committed.receipts && FirstReceipt(d.insertReceipts, key).Some? ==>
                  key in now.receipts && now.receipts[key] == FirstReceipt(d.insertReceipts, key).value)
  {
    hide Inv, BatchFlushed, FirstReceipt, FirstTransaction, NoReset, AcksWithCommit, TrackAll;
    var t := TrackAll(start, before);
    var gone := Track(t, Disconnect);
    assert gone.state == Rollback(t.state);
    hide Process;
    StartedInv(start);
    RunKeeps(start, before);
    TrackKeeps(t, Disconnect);
    RunKeeps(gone, after);
    RunKeepsRows(gone, after, q, key);
    RowsCommitted(TrackAll(gone, after), last, q, key);
  }

  // ----- The last sequence number of each receiver -----

  /** The last receipt of the receiver has that sequence number. */
  ghost predicate LastIn(rs: seq<Receipt>, receiver: string, number: int) {
    exists k :: 0 <= k < |rs| && rs[k].receiver == receiver && rs[k].recvSequence == number
                && forall j :: k < j < |rs| ==> rs[j].receiver != receiver
  }

  predicate NoneIn(rs: seq<Receipt>, receiver: string) {
    forall k :: 0 <= k < |rs| ==> rs[k].receiver != receiver
  }

  /** The actions of the traces that are saved among the messages, in order. */
  function ActionsSaved(t: Tracked, ms: seq<Message>): seq<Receipt> {
    if ms == [] then []
    else
      var n := |ms| - 1;
      ActionsSaved(t, ms[..n]) + if SavedAt(t, ms, n) then ms[n].actions else []
  }

  /** `now` is `base`, save for the receivers in `rs`, which have the number of their last receipt. */
  ghost predicate Overwrites(now: map<string, int>, base: map<string, int>, rs: seq<Receipt>) {
    forall r ::
      if NoneIn(rs, r) then (r in now <==> r in base) && (r in now ==> now[r] == base[r])
      else r in now && LastIn(rs, r, now[r])
  }

  lemma OverwritesNothing(base: map<string, int>)
    ensures Overwrites(base, base, [])
  {
  }

  lemma LastAppended(rs: seq<Receipt>, x: Receipt, r: string, number: int)
    ensures NoneIn(rs + [x], r) <==> NoneIn(rs, r) && x.receiver != r
    ensures LastIn(rs + [x], r, number) <==> if x.receiver == r then number == x.recvSequence else LastIn(rs, r, number)
  {
    var all := rs + [x];
    assert all[|rs|] == x && forall k :: 0 <= k < |rs| ==> all[k] == rs[k];
  }

  lemma OverwritesOne(now: map<string, int>, base: map<string, int>, rs: seq<Receipt>, x: Receipt)
    requires Overwrites(now, base, rs)
    ensures Overwrites(now[x.receiver := x.recvSequence], base, rs + [x])
  {
    hide LastIn, NoneIn;
    var next := now[x.receiver := x.recvSequence];
    forall r
      ensures if NoneIn(rs + [x], r) then (r in next <==> r in base) && (r in next ==> next[r] == base[r])
              else r in next && LastIn(rs + [x], r, next[r])
    {
      LastAppended(rs, x, r, if r in next then next[r] else 0);
    }
  }

  /** Appending a batch of receipts to what was written. */
  lemma {:induction false} OverwritesMore(now: map<string, int>, base: map<string, int>, rs: seq<Receipt>, xs: seq<Receipt>)
    requires Overwrites(now, base, rs)
    ensures Overwrites(now + LastOf(xs), base, rs + xs)
  {
    hide Overwrites;
    if xs == [] {
      assert now + map[] == now && rs + [] == rs;
    } else {
      var n := |xs| - 1;
      OverwritesMore(now, base, rs, xs[..n]);
      OverwritesOne(now + LastOf(xs[..n]), base, rs + xs[..n], xs[n]);
      assert rs + xs[..n] + [xs[n]] == rs + xs;
      assert (now + LastOf(xs[..n]))[xs[n].receiver := xs[n].recvSequence] == now + LastOf(xs);
    }
  }

  /** What overwrites nothing else than the buffered receipts. */
  lemma OverwritesMerged(now: map<string, int>, base: map<string, int>, done: seq<Receipt>, m: map<string, int>, rs: seq<Receipt>)
    requires Overwrites(now, base, done) && Overwrites(m, map[], rs)
    ensures Overwrites(now + m, base, done + rs)
  {
    var all := now + m;
    forall r
      ensures if NoneIn(done + rs, r) then (r in all <==> r in base) && (r in all ==> all[r] == base[r])
              else r in all && LastIn(done + rs, r, all[r])
    {
      NoneInBoth(done, rs, r);
      if !NoneIn(rs, r) {
        LastInSecond(done, rs, r, m[r]);
      } else if !NoneIn(done, r) {
        LastInFirst(done, rs, r, now[r]);
      }
    }
  }

  lemma NoneInBoth(a: seq<Receipt>, b: seq<Receipt>, r: string)
    ensures NoneIn(a + b, r) <==> NoneIn(a, r) && NoneIn(b, r)
  {
    assert forall k :: 0 <= k < |a| ==> (a + b)[k] == a[k];
    assert forall k :: 0 <= k < |b| ==> (a + b)[|a| + k] == b[k];
  }

  lemma LastInSecond(a: seq<Receipt>, b: seq<Receipt>, r: string, number: int)
    requires LastIn(b, r, number)
    ensures LastIn(a + b, r, number)
  {
    var k :| 0 <= k < |b| && b[k].receiver == r && b[k].recvSequence == number && forall j :: k < j < |b| ==> b[j].receiver != r;
    assert (a + b)[|a| + k] == b[k];
  }

  lemma LastInFirst(a: seq<Receipt>, b: seq<Receipt>, r: string, number: int)
    requires LastIn(a, r, number) && NoneIn(b, r)
    ensures LastIn(a + b, r, number)
  {
    var k :| 0 <= k < |a| && a[k].receiver == r && a[k].recvSequence == number && forall j :: k < j < |a| ==> a[j].receiver != r;
    assert (a + b)[k] == a[k];
  }

  /**
   The numbers in the open transaction come from the first receipts since some
   state, whose numbers were `base`, and the buffered ones from the others.
   */
  ghost predicate NumbersFrom(s: State, base: map<string, int>, done: seq<Receipt>) {
    && Overwrites(s.working.recvSequenceMax, base, done)
    && Overwrites(s.upsertRecvSeqMax, map[], s.insertReceipts)
    && (s.insertTransactions == [] ==> s.insertReceipts == [] && s.upsertRecvSeqMax == map[])
  }


  lemma FlushKeepsNumbers(s: State)
    requires s.insertTransactions != []
    ensures BatchFlushed(s).working.recvSequenceMax == s.working.recvSequenceMax + s.upsertRecvSeqMax
  {
    hide InsertTransactions, InsertReceipts;
    TransactionsInserted(s.working, s.insertTransactions);
    ReceiptsInserted(InsertTransactions(s.working, s.insertTransactions), s.insertReceipts);
  }

  /** Flushing takes what was buffered to what was written. */
  lemma FlushNumbers(s: State, base: map<string, int>, done: seq<Receipt>)
    requires NumbersFrom(s, base, done)
    ensures NumbersFrom(BatchFlushed(s), base, done + s.insertReceipts) && BatchFlushed(s).insertReceipts == []
  {
    hide Overwrites;
    OverwritesNothing(map[]);
    if s.insertTransactions == [] {
      assert done + [] == done;
    } else {
      FlushKeepsNumbers(s);
      OverwritesMerged(s.working.recvSequenceMax, base, done, s.upsertRecvSeqMax, s.insertReceipts);
      hide InsertTransactions, InsertReceipts, UpsertMax;
    }
  }

  /** A message that forgets nothing: what it saves is buffered, and what was buffered is written or stays. */
  lemma StepNumbers(t: Tracked, m: Message, base: map<string, int>, done: seq<Receipt>) returns (more: seq<Receipt>)
    requires NumbersFrom(t.state, base, done) && !Resets(t.state, m)
    ensures var s := Process(t.state, m).0;
            && NumbersFrom(s, base, more)
            && more + s.insertReceipts == done + t.state.insertReceipts + if Saves(t.state, m) then m.actions else []
  {
    hide Overwrites, BatchFlushed, LastOf;
    var s := t.state;
    more := done;
    assert done + s.insertReceipts + [] == done + s.insertReceipts;
    if m.BlockCompleted? {
      FlushNumbers(s.(ackEvery := if m.block > m.lastIrreversible then 1 else s.ackEvery,
                      irreversible := if m.lastIrreversible > s.irreversible then m.lastIrreversible else s.irreversible),
                   base, done);
      more := done + s.insertReceipts;
      assert more + [] == more;
    } else if Saves(s, m) {
      OverwritesMore(s.upsertRecvSeqMax, map[], s.insertReceipts, m.actions);
      assert done + (s.insertReceipts + m.actions) == done + s.insertReceipts + m.actions;
    }
  }

  lemma {:induction false} RunNumbers(t: Tracked, ms: seq<Message>, base: map<string, int>) returns (done: seq<Receipt>)
    requires NoReset(t, ms) && NumbersFrom(t.state, base, [])
    ensures var s := TrackAll(t, ms).state;
            NumbersFrom(s, base, done) && done + s.insertReceipts == t.state.insertReceipts + ActionsSaved(t, ms)
  {
    hide NumbersFrom, Process;
    if ms == [] {
      done := [];
      assert [] + t.state.insertReceipts == t.state.insertReceipts + [];
    } else {
      var n := |ms| - 1;
      NoResetBefore(t, ms);
      var prior := RunNumbers(t, ms[..n], base);
      done := StepNumbers(TrackAll(t, ms[..n]), ms[n], base, prior);
      var saved := if SavedAt(t, ms, n) then ms[n].actions else [];
      assert t.state.insertReceipts + ActionsSaved(t, ms[..n]) + saved == t.state.insertReceipts + ActionsSaved(t, ms);
    }
  }

  lemma NoResetBefore(t: Tracked, ms: seq<Message>)
    requires ms != [] && NoReset(t, ms)
    ensures NoReset(t, ms[..|ms| - 1]) && !Resets(TrackAll(t, ms[..|ms| - 1]).state, ms[|ms| - 1])
  {
    hide Resets, TrackAll;
    var n := |ms| - 1;
    forall j | 0 <= j < n
      ensures !Resets(TrackAll(t, ms[..n][..j]).state, ms[..n][j])
    {
      assert ms[..n][..j] == ms[..j];
    }
  }

  /** Whatever the messages, the buffered numbers are those of the buffered receipts. */
  lemma {:induction false} BuffersMatch(start: Tracked, ms: seq<Message>)
    requires start.state.insertReceipts == [] && start.state.upsertRecvSeqMax == map[]
    ensures var s := TrackAll(start, ms).state; NumbersFrom(s, s.working.recvSequenceMax, [])
  {
    if ms == [] {
      OverwritesNothing(start.state.working.recvSequenceMax);
      OverwritesNothing(map[]);
    } else {
      var n := |ms| - 1;
      var t := TrackAll(start, ms[..n]);
      BuffersMatch(start, ms[..n]);
      if Resets(t.state, ms[n]) {
        hide BatchFlushed, LastOf, Overwrites;
        OverwritesNothing(map[]);
      } else {
        hide Process;
        var more := StepNumbers(t, ms[n], t.state.working.recvSequenceMax, []);
      }
      OverwritesNothing(TrackAll(start, ms).state.working.recvSequenceMax);
    }
  }


  /** After an acknowledgement that commits, nothing having been forgotten since state `t`. */
  lemma NumbersCommitted(start: Tracked, before: seq<Message>, ms: seq<Message>, last: Message)
    requires start.state.insertReceipts == [] && start.state.upsertRecvSeqMax == map[]
    requires NoReset(TrackAll(start, before), ms) && AcksWithCommit(TrackAll(TrackAll(start, before), ms).state, last)
    ensures var t := TrackAll(start, before);
            Overwrites(Process(TrackAll(t, ms).state, last).0.committed.recvSequenceMax,
                       t.state.working.recvSequenceMax, t.state.insertReceipts + ActionsSaved(t, ms))
  {
    hide Overwrites, InsertTransactions, InsertReceipts, UpsertMax, NoReset, TrackAll;
    var t := TrackAll(start, before);
    BuffersMatch(start, before);
    var base := t.state.working.recvSequenceMax;
    var done := RunNumbers(t, ms, base);
    var s := TrackAll(t, ms).state;
    FlushNumbers(s.(ackEvery := if last.block > last.lastIrreversible then 1 else s.ackEvery,
                    irreversible := if last.lastIrreversible > s.irreversible then last.lastIrreversible else s.irreversible),
                 base, done);
  }

  /**
   What a commit leaves as the last sequence number of each receiver. No message
   among `ms` forgets traces, and `last` is acknowledged with a commit. The
   number is that of the receiver's last action among the traces saved since the
   start, or since a fork past the early return; since a disconnect, among those
   that it left in the buffers and those saved later. A receiver without such an
   action keeps what it had: at the start, written before the fork, or committed
   before the disconnect.
   */
  lemma LastNumbersCommitted(start: Tracked, before: seq<Message>, reset: Message, ms: seq<Message>, last: Message)
    requires start == Started(start.state.confirmedBlock, start.state.irreversible, start.state.ackEvery, start.state.working)
    ensures NoReset(start, ms) && AcksWithCommit(TrackAll(start, ms).state, last) ==>
              Overwrites(Process(TrackAll(start, ms).state, last).0.committed.recvSequenceMax,
                         start.state.working.recvSequenceMax, ActionsSaved(start, ms))
    ensures var d := TrackAll(start, before);
            var t := Track(d, reset);
            NoReset(t, ms) && AcksWithCommit(TrackAll(t, ms).state, last) ==>
              var now := Process(TrackAll(t, ms).state, last).0.committed.recvSequenceMax;
              && (ForksBack(d.state, reset) ==> Overwrites(now, d.state.working.recvSequenceMax, ActionsSaved(t, ms)))
              && (reset.Disconnect? ==>
                    Overwrites(now, d.state.committed.recvSequenceMax, d.state.insertReceipts + ActionsSaved(t, ms)))
  {
    hide Overwrites, BatchFlushed, NoReset, AcksWithCommit, TrackAll;
    StartOfRun(start);
    if NoReset(start, ms) && AcksWithCommit(TrackAll(start, ms).state, last) {
      NumbersCommitted(start, [], ms, last);
      assert [] + ActionsSaved(start, ms) == ActionsSaved(start, ms);
    }
    var d := TrackAll(start, before);
    LastStep(start, before, reset);
    var t := Track(d, reset);
    if NoReset(t, ms) && AcksWithCommit(TrackAll(t, ms).state, last) {
      NumbersCommitted(start, before + [reset], ms, last);
      assert [] + ActionsSaved(t, ms) == ActionsSaved(t, ms);
    }
  }

  lemma StartOfRun(start: Tracked)
    ensures TrackAll(start, []) == start
  {
  }

  /** A receiver whose committed number is 5 acts with number 6, and 6 is committed. */
  lemma NumberIsUpdated()
    ensures var tables := NO_TABLES.(recvSequenceMax := map["r" := 5]);
            var start := Started(10, 10, 100, tables);
            var trace, last := Sample(11, 6, "x"), BlockCompleted(11, 10);
            Process(Track(start, trace).state, last).0.committed.recvSequenceMax == map["r" := 6]
  {
    var tables := NO_TABLES.(recvSequenceMax := map["r" := 5]);
    var start := Started(10, 10, 100, tables);
    var trace, last := Sample(11, 6, "x"), BlockCompleted(11, 10);
    OneSaved(start, trace, last);
    hide Process, Track, TrackAll, NoReset, AcksWithCommit, ActionsSaved, Overwrites;
    LastNumbersCommitted(start, [], Unknown, [trace], last);
    OneNumber(Process(Track(start, trace).state, last).0.committed.recvSequenceMax, tables.recvSequenceMax, trace.actions[0]);
  }

  lemma OneSaved(start: Tracked, trace: Message, last: Message)
    requires start == Started(10, 10, 100, start.state.working) && trace == Sample(11, 6, "x") && last == BlockCompleted(11, 10)
    ensures TrackAll(start, [trace]) == Track(start, trace) && NoReset(start, [trace])
    ensures AcksWithCommit(TrackAll(start, [trace]).state, last) && ActionsSaved(start, [trace]) == [trace.actions[0]]
  {
    var r := trace.actions[0];
    StartOfRun(start);
    LastStep(start, [], trace);
    assert [] + [trace] == [trace] && [trace][..0] == [];
    assert Saves(start.state, trace) && SavedAt(start, [trace], 0);
    assert ActionsSaved(start, []) == [] && [] + [r] == [r];
  }

  lemma OneNumber(now: map<string, int>, base: map<string, int>, r: Receipt)
    requires Overwrites(now, base, [r])
    ensures now == base[r.receiver := r.recvSequence]
  {
    forall q
      ensures q in now <==> q in base[r.receiver := r.recvSequence]
      ensures q in now ==> now[q] == base[r.receiver := r.recvSequence][q]
    {
      LastAppended([], r, q, if q in now then now[q] else 0);
      assert [] + [r] == [r];
    }
  }

  // ----- What the acknowledgements follow -----

  /** The known irreversible block is the largest that a message told of, and only advances. */
  lemma {:induction false} IrreversibleAdvances(t: Tracked, ms: seq<Message>)
    ensures var now := TrackAll(t, ms).state.irreversible;
            && now >= t.state.irreversible
            && (forall k :: 0 <= k < |ms| && ms[k].BlockCompleted? ==> ms[k].lastIrreversible <= now)
            && (now == t.state.irreversible || exists k :: 0 <= k < |ms| && ms[k].BlockCompleted? && ms[k].lastIrreversible == now)
  {
    if ms != [] {
      hide BatchFlushed, ForkBack, TraceSaved, Track;
      var n := |ms| - 1;
      IrreversibleAdvances(t, ms[..n]);
      assert forall k :: 0 <= k < n ==> ms[..n][k] == ms[k];
      StepProgress(TrackAll(t, ms[..n]), ms[n]);
    }
  }

  lemma StepProgress(t: Tracked, m: Message)
    ensures var s, u := t.state, Track(t, m).state;
            && u.irreversible == (if m.BlockCompleted? && m.lastIrreversible > s.irreversible then m.lastIrreversible else s.irreversible)
            && u.ackEvery == (if m.BlockCompleted? && m.block > m.lastIrreversible then 1 else s.ackEvery)
            && u.confirmedBlock == (if ForksBack(s, m) then m.block - 1 else if AcksWithCommit(s, m) then m.block else s.confirmedBlock)
  {
    hide InsertTransactions, InsertReceipts, UpsertMax;
  }

  /** From the first completed block that is reversible, every block is acknowledged; until then in steps as set. */
  lemma {:induction false} AcksFollowHead(t: Tracked, ms: seq<Message>)
    ensures TrackAll(t, ms).state.ackEvery ==
            if exists k :: 0 <= k < |ms| && ms[k].BlockCompleted? && ms[k].block > ms[k].lastIrreversible then 1 else t.state.ackEvery
  {
    if ms != [] {
      hide BatchFlushed, ForkBack, TraceSaved, Track;
      var n := |ms| - 1;
      AcksFollowHead(t, ms[..n]);
      assert forall k :: 0 <= k < n ==> ms[..n][k] == ms[k];
      StepProgress(TrackAll(t, ms[..n]), ms[n]);
    }
  }

  /** No block is acknowledged above the confirmed one, except to a fork that is met while catching up; a commit confirms what it acknowledges. */
  lemma AcknowledgedIsConfirmed(t: Tracked, m: Message)
    ensures var ack, u := Process(t.state, m).1, Track(t, m).state;
            && (ack != -1 && !(m.Fork? && t.state.confirmedBlock <= t.state.irreversible) ==> ack <= u.confirmedBlock)
            && (AcksWithCommit(t.state, m) || ForksBack(t.state, m) ==> ack == u.confirmedBlock)
            && (m.BlockCompleted? && m.block >= 0 && ack == -1 ==>
                  u.confirmedBlock == t.state.confirmedBlock < m.block < t.state.confirmedBlock + u.ackEvery)
  {
    hide InsertTransactions, InsertReceipts, UpsertMax;
  }

  // ----- Delivering again -----

  lemma {:induction false} NothingNew(t: Tables, xs: seq<Transaction>)
    requires forall k :: 0 <= k < |xs| ==> xs[k].seqNumber in t.transactions
    ensures InsertTransactions(t, xs) == t
  {
    if xs != [] {
      assert forall k :: 0 <= k < |xs| - 1 ==> xs[..|xs| - 1][k] == xs[k];
      NothingNew(t, xs[..|xs| - 1]);
    }
  }

  lemma {:induction false} NoNewReceipts(t: Tables, rs: seq<Receipt>)
    requires forall k :: 0 <= k < |rs| ==> KeyOf(rs[k]) in t.receipts
    ensures InsertReceipts(t, rs) == t
  {
    if rs != [] {
      assert forall k :: 0 <= k < |rs| - 1 ==> rs[..|rs| - 1][k] == rs[k];
      NoNewReceipts(t, rs[..|rs| - 1]);
    }
  }

  /** A batch that is delivered again after a lost acknowledgement changes no table. */
  lemma DeliveredAgain(s: State)
    ensures var once := BatchFlushed(s).working; BatchFlushed(s.(working := once)).working == once
  {
    hide InsertTransactions, InsertReceipts;
    if s.insertTransactions != [] {
      var xs, rs, m := s.insertTransactions, s.insertReceipts, s.upsertRecvSeqMax;
      var mid := InsertTransactions(s.working, xs);
      var full := InsertReceipts(mid, rs);
      TransactionsInserted(s.working, xs);
      ReceiptsInserted(mid, rs);
      var once := UpsertMax(full, m);
      NothingNew(once, xs);
      NoNewReceipts(once, rs);
      assert s.working.recvSequenceMax + m + m == s.working.recvSequenceMax + m;
    }
  }

  // ----- The class -----

  class Writer {
    var confirmedBlock: int
    var unconfirmedBlock: int
    var irreversible: int
    var ackEvery: int
    var insertTransactions: seq<Transaction>
    var insertReceipts: seq<Receipt>
    var upsertRecvSeqMax: map<string, int>
    /** The tables as the open database transaction sees them, and as they are committed. */
    var working: Tables
    var committed: Tables

    ghost function Now(): State
      reads this
    {
      State(confirmedBlock, unconfirmedBlock, irreversible, ackEvery, insertTransactions, insertReceipts, upsertRecvSeqMax,
            working, committed)
    }

    constructor (confirmed: int, irreversible: int, ackEvery: int, tables: Tables)
      ensures Now() == Started(confirmed, irreversible, ackEvery, tables).state
    {
      confirmedBlock, unconfirmedBlock, this.irreversible, this.ackEvery := confirmed, confirmed, irreversible, ackEvery;
      insertTransactions, insertReceipts, upsertRecvSeqMax := [], [], map[];
      working, committed := tables, tables;
    }

    method CommitTransaction()
      modifies this`committed
      ensures committed == working
    {
      committed := working;
    }

    method OnDisconnect()
      modifies this`working
      ensures Now() == Process(old(Now()), Disconnect).0
    {
      working := committed;
    }

    method SaveTrace(seqNumber: nat, block: int, trace: string, actions: seq<Receipt>)
      modifies this`insertTransactions, this`insertReceipts, this`upsertRecvSeqMax
      ensures Now() == TraceSaved(old(Now()), block, seqNumber, trace, actions)
    {
      insertTransactions := insertTransactions + [Transaction(seqNumber, block, trace)];
      ghost var receipts, maxima := insertReceipts, upsertRecvSeqMax;
      assert maxima + map[] == maxima && receipts + [] == receipts;
      var k := 0;
      while k < |actions|
        invariant 0 <= k <= |actions|
        invariant insertTransactions == old(insertTransactions) + [Transaction(seqNumber, block, trace)]
        invariant insertReceipts == receipts + actions[..k]
        invariant upsertRecvSeqMax == maxima + LastOf(actions[..k])
      {
        insertReceipts := insertReceipts + [actions[k]];
        upsertRecvSeqMax := upsertRecvSeqMax[actions[k].receiver := actions[k].recvSequence];
        assert actions[..k + 1][..k] == actions[..k];
        assert upsertRecvSeqMax == maxima + LastOf(actions[..k + 1]);
        k := k + 1;
      }
      assert actions[..k] == actions;
    }

    method SendTracesBatch()
      modifies this`insertTransactions, this`insertReceipts, this`upsertRecvSeqMax, this`working
      ensures Now() == BatchFlushed(old(Now()))
    {
      if |insertTransactions| == 0 {
        return;
      }
      ghost var was := working;
      var k := 0;
      while k < |insertTransactions|
        invariant 0 <= k <= |insertTransactions|
        invariant working == InsertTransactions(was, insertTransactions[..k])
        invariant insertTransactions == old(insertTransactions) && insertReceipts == old(insertReceipts)
        invariant upsertRecvSeqMax == old(upsertRecvSeqMax)
      {
        assert insertTransactions[..k + 1][..k] == insertTransactions[..k];
        working := InsertTransaction(working, insertTransactions[k]);
        k := k + 1;
      }
      assert insertTransactions[..k] == insertTransactions;
      ghost var mid := working;
      k := 0;
      while k < |insertReceipts|
        invariant 0 <= k <= |insertReceipts|
        invariant working == InsertReceipts(mid, insertReceipts[..k])
        invariant insertTransactions == old(insertTransactions) && insertReceipts == old(insertReceipts)
        invariant upsertRecvSeqMax == old(upsertRecvSeqMax)
      {
        assert insertReceipts[..k + 1][..k] == insertReceipts[..k];
        working := InsertReceipt(working, insertReceipts[k]);
        k := k + 1;
      }
      assert insertReceipts[..k] == insertReceipts;
      working := UpsertMax(working, upsertRecvSeqMax);
      insertTransactions, insertReceipts, upsertRecvSeqMax := [], [], map[];
    }

    method ForkTraces(startBlock: int)
      modifies this`working
      ensures working == DeleteFrom(old(working), startBlock)
    {
      working := DeleteFrom(working, startBlock);
    }

    method ProcessFork(block: int) returns (ack: int)
      modifies this
      ensures (Now(), ack) == Process(old(Now()), Fork(block))
    {
      CommitTransaction();
      if confirmedBlock <= irreversible {
        return block - 1;
      }
      confirmedBlock := block - 1;
      unconfirmedBlock := confirmedBlock;
      insertTransactions, insertReceipts, upsertRecvSeqMax := [], [], map[];
      ForkTraces(block);
      working := working.(syncBlock := confirmedBlock);
      CommitTransaction();
      return confirmedBlock;
    }

    method ProcessCompleted(block: int, lastIrreversible: int) returns (ack: int)
      modifies this
      ensures (Now(), ack) == Process(old(Now()), BlockCompleted(block, lastIrreversible))
    {
      hide BatchFlushed;
      if block > lastIrreversible {
        ackEvery := 1;
      }
      if lastIrreversible > irreversible {
        irreversible := lastIrreversible;
      }
      SendTracesBatch();
      unconfirmedBlock := block;
      if unconfirmedBlock <= confirmedBlock {
        return unconfirmedBlock;
      }
      if unconfirmedBlock - confirmedBlock < ackEvery {
        return -1;
      }
      CommitTransaction();
      confirmedBlock := unconfirmedBlock;
      return confirmedBlock;
    }

    method ProcessData(m: Message) returns (ack: int)
      modifies this
      ensures (Now(), ack) == Process(old(Now()), m)
    {
      hide BatchFlushed, TraceSaved;
      match m
      case Fork(block) => ack := ProcessFork(block);
      case Trace(block, executed, seqNumber, trace, actions) =>
        ack := -1;
        if block <= confirmedBlock || !executed || |actions| == 0 {
          return;
        }
        SaveTrace(seqNumber, block, trace, actions);
      case BlockCompleted(block, lastIrreversible) => ack := ProcessCompleted(block, lastIrreversible);
      case Unknown => ack := -1;
      case Disconnect =>
        OnDisconnect();
        ack := -1;
    }
  }
}
