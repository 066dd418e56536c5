/** What every step of the thread-safe client keeps. */
module ClientInvariants {
  import opened Escape
  import opened Framing
  import opened Helper
  import opened Segments
  import opened ClientModel

  /** The id of the i-th executed command: counting from FIRST_ID in 32-bit two's complement. */
  function IdAt(i: nat): int {
    (FIRST_ID + i + 0x8000_0000) % 0x1_0000_0000 - 0x8000_0000
  }

  /** The promises below n are split, without overlap, into the queued, the awaiting, the fulfilled and
      the overwritten ones; no two keys await the same promise. */
  ghost predicate Partition(q: seq<Promise>, w: map<string, Promise>, f: set<Promise>, o: set<Promise>, n: nat) {
    && (forall i, j :: 0 <= i < j < |q| ==> q[i] != q[j])
    && (forall k, l :: k in w && l in w && k != l ==> w[k] != w[l])
    && (forall p: Promise :: p < n <==> p in q || p in w.Values || p in f || p in o)
    && (forall p :: p in q ==> p !in w.Values && p !in f && p !in o)
    && w.Values !! f && w.Values !! o && f !! o
  }

  ghost predicate Conserved(s: State) {
    && Partition(Promises(s.pendingWrites), s.pendingResponses, s.log.ledger.values.Keys, s.log.overwritten,
                 |s.log.submitted|)
    && !s.log.ledger.caught
  }

  function CommandFrames(commands: seq<Command>): seq<string> {
    seq(|commands|, i requires 0 <= i < |commands| => Number(commands[i].request.message, commands[i].id).frame)
  }

  /** Requests are executed, and wait for the connection, in submission order; ids are handed out in that
      order. */
  ghost predicate InOrder(s: State) {
    var done, waiting, all := |s.log.executed|, |s.pendingWrites|, |s.log.submitted|;
    && done + waiting <= all
    && (!s.io.connectFailed && !s.stopped ==> done + waiting == all)
    && (forall i :: 0 <= i < done ==> s.log.executed[i] == Command(Request(s.log.submitted[i], i), IdAt(i)))
    && (forall j :: 0 <= j < waiting ==>
          s.pendingWrites[j] == Request(s.log.submitted[all - waiting + j], all - waiting + j))
    && s.nextId == IdAt(done)
  }

  /** Frames reach the wire in the order of execution, one write at a time; until a stop the frame being
      written is the head of the queue. */
  ghost predicate Queued(s: State) {
    && (!s.stopped ==> s.log.sent + s.writeMsgs == CommandFrames(s.log.executed))
    && s.log.sent + s.io.inFlight <= CommandFrames(s.log.executed)
    && |s.io.inFlight| <= 1
    && (!s.stopped && s.io.inFlight != [] ==> s.writeMsgs != [] && s.io.inFlight[0] == s.writeMsgs[0])
    && (s.writeMsgs != [] ==> s.io.inFlight != [] || s.io.writeFailed)
  }

  function CommandKeys(commands: seq<Command>): seq<string> {
    seq(|commands|, i requires 0 <= i < |commands| => Number(commands[i].request.message, commands[i].id).key)
  }

  /** `keys` are the keys in the order of execution: promise i belongs to the i-th. A key awaits the promise
      of the last command sent under it; a promise is overwritten only by a later command under its key. */
  ghost predicate Belong(keys: seq<string>, w: map<string, Promise>, o: set<Promise>) {
    && (forall k :: k in w ==> w[k] < |keys| && keys[w[k]] == k)
    && (forall k, i :: k in w && w[k] < i < |keys| ==> keys[i] != k)
    && (forall p :: p in o ==> Superseded(keys, p))
  }

  ghost predicate Superseded(keys: seq<string>, p: Promise) {
    exists i :: p < i < |keys| && keys[i] == keys[p]
  }

  ghost predicate KeysBelong(s: State) {
    Belong(CommandKeys(s.log.executed), s.pendingResponses, s.log.overwritten)
  }

  /** How the flags hang together: a connected client is reading and keeps its heartbeat, or is about to stop,
      a failed write is followed by a stop, and after stop nothing is pending but requests queued later. */
  ghost predicate Phases(s: State) {
    && (s.connected ==> s.io.socketOpen && !s.io.connecting && s.pendingWrites == [] && !s.io.connectFailed)
    && (s.io.connecting ==> !s.io.connectFailed && s.log.executed == [])
    && (s.io.connectFailed ==> s.log.executed == [])
    && (!s.io.started ==> !s.connected && !s.io.connecting && !s.io.connectFailed && s.log.executed == [])
    && (s.connected && !s.io.reading && !s.io.dead ==> s.io.stopCalls > 0)
    && s.io.beats + s.io.rests <= 1
    && (s.connected && s.io.beats + s.io.rests == 0 ==> s.io.stopCalls > 0)
    && (s.io.connecting || !s.io.started ==> s.io.beats + s.io.rests == 0)
    && (s.io.writeFailed && !s.stopped ==> s.io.stopCalls > 0)
    && (s.stopped ==> !s.connected && !s.io.socketOpen && s.pendingResponses == map[] && s.writeMsgs == [])
  }

  /** The lines handed on are those of the bytes consumed, and reads stop at segment boundaries;
      only a segment that throws ends the reading. Trap data, and only trap data, goes to the handler. */
  ghost predicate Consumed(s: State) {
    && Split(s.log.consumed, STOP).rest == []
    && ReadStream(s.log.consumed) == Reading(s.log.lines, false)
    && (s.io.dead ==> FrameReady(s) && BreaksEscape(NextSegment(s)))
    && s.log.traps == TrapLines(s.log.lines)
  }

  /** The lines that go to the trap handler. */
  function TrapLines(lines: seq<string>): seq<string> {
    if lines == [] then []
    else
      var last := lines[|lines| - 1];
      TrapLines(lines[..|lines| - 1]) + if last != [] && last[0] == 'd' then [last] else []
  }

  ghost predicate Inv(s: State) {
    Conserved(s) && InOrder(s) && Queued(s) && KeysBelong(s) && Phases(s) && Consumed(s)
  }

  // ----- promises -----

  /** Completing a promise gives it the value; completing it again leaves the first value, and is noticed. */
  lemma SecondValueCaught(l: Ledger, p: Promise, first: string, second: string)
    requires !l.caught && p !in l.values
    ensures var once := SetValue(l, p, first);
            && once == Ledger(l.values[p := first], false)
            && SetValue(once, p, second) == Ledger(once.values, true)
  {
  }

  lemma {:induction false} SetAllSets(l: Ledger, ps: seq<Promise>, value: string)
    requires !l.caught
    requires forall i :: 0 <= i < |ps| ==> ps[i] !in l.values
    requires forall i, j :: 0 <= i < j < |ps| ==> ps[i] != ps[j]
    ensures var r := SetAll(l, ps, value);
            && !r.caught
            && (forall p :: p in r.values <==> p in l.values || p in ps)
            && (forall p :: p in l.values ==> r.values[p] == l.values[p])
            && (forall p :: p in ps ==> r.values[p] == value)
    decreases |ps|
  {
    if ps != [] {
      SetAllSets(SetValue(l, ps[0], value), ps[1..], value);
    }
  }

  lemma PartitionSubmit(q: seq<Promise>, w: map<string, Promise>, f: set<Promise>, o: set<Promise>, n: nat)
    requires Partition(q, w, f, o, n)
    ensures Partition(q + [n], w, f, o, n + 1)
  {
    forall i | 0 <= i < |q|
      ensures q[i] < n
    {
      assert q[i] in q;
    }
  }

  lemma ValuesAfterUpdate(w: map<string, Promise>, key: string, p: Promise)
    requires forall k, l :: k in w && l in w && k != l ==> w[k] != w[l]
    requires p !in w.Values
    ensures w[key := p].Values == (if key in w then w.Values - {w[key]} else w.Values) + {p}
  {
    var v := w[key := p];
    forall x | x in w.Values && (key in w ==> x != w[key])
      ensures x in v.Values
    {
      var k :| k in w && w[k] == x;
      assert v[k] == x;
    }
    assert v[key] == p;
  }

  lemma ValuesAfterRemoval(w: map<string, Promise>, key: string)
    requires forall k, l :: k in w && l in w && k != l ==> w[k] != w[l]
    requires key in w
    ensures (w - {key}).Values == w.Values - {w[key]}
  {
    var v := w - {key};
    forall x | x in w.Values && x != w[key]
      ensures x in v.Values
    {
      var k :| k in w && w[k] == x;
      assert v[k] == x;
    }
  }

  lemma PartitionExecute(q: seq<Promise>, w: map<string, Promise>, f: set<Promise>, o: set<Promise>, n: nat, key: string)
    requires Partition(q, w, f, o, n) && q != []
    ensures Partition(q[1..], w[key := q[0]], f, o + (if key in w then {w[key]} else {}), n)
  {
    assert q[0] in q;
    ValuesAfterUpdate(w, key, q[0]);
    assert forall p :: p in q <==> p == q[0] || p in q[1..];
  }

  lemma PartitionAnswer(q: seq<Promise>, w: map<string, Promise>, f: set<Promise>, o: set<Promise>, n: nat, key: string)
    requires Partition(q, w, f, o, n) && key in w
    ensures Partition(q, w - {key}, f + {w[key]}, o, n) && w[key] !in f
  {
    assert w[key] in w.Values;
    ValuesAfterRemoval(w, key);
  }

  lemma PartitionDropQueue(q: seq<Promise>, w: map<string, Promise>, f: set<Promise>, f': set<Promise>, o: set<Promise>, n: nat)
    requires Partition(q, w, f, o, n)
    requires forall p :: p in f' <==> p in f || p in q
    ensures Partition([], w, f', o, n)
  {
  }

  lemma PartitionDropKeys(q: seq<Promise>, w: map<string, Promise>, f: set<Promise>, f': set<Promise>, o: set<Promise>, n: nat)
    requires Partition(q, w, f, o, n)
    requires forall p :: p in f' <==> p in f || p in w.Values
    ensures Partition(q, map[], f', o, n)
  {
    var none: map<string, Promise> := map[];
    assert none.Values == {};
  }

  lemma LookupCovers(order: seq<string>, m: map<string, Promise>)
    requires IsOrder(order, m)
    requires forall k, l :: k in m && l in m && k != l ==> m[k] != m[l]
    ensures forall i, j :: 0 <= i < j < |order| ==> Lookup(order, m)[i] != Lookup(order, m)[j]
    ensures forall p :: p in Lookup(order, m) <==> p in m.Values
  {
    var ps := Lookup(order, m);
    forall p | p in m.Values
      ensures p in ps
    {
      var k :| k in m && m[k] == p;
      var i :| 0 <= i < |order| && order[i] == k;
      assert ps[i] == p;
    }
  }

  lemma BelongExecute(keys: seq<string>, w: map<string, Promise>, o: set<Promise>, key: string)
    requires Belong(keys, w, o)
    ensures Belong(keys + [key], w[key := |keys|], o + (if key in w then {w[key]} else {}))
  {
    var keys' := keys + [key];
    forall p | p in o
      ensures Superseded(keys', p)
    {
      var i :| p < i < |keys| && keys[i] == keys[p];
      assert keys'[i] == keys'[p];
    }
    if key in w {
      assert keys'[|keys|] == keys'[w[key]];
    }
  }
}
