/** The keys under which replies are awaited: when two commands get the same one, and which promise is then
    overwritten. */
module ClientKeys {
  import opened Helper
  import opened ClientModel
  import opened ClientInvariants
  import opened ClientRuns

  /** Commands whose ids come before the wrap of the 32-bit counter. */
  const UNWRAPPED := 0x8000_0000 - FIRST_ID

  /** The first commands, whose ids are below the 24-bit limit. */
  const UNREPLACED := INVALID_ID - FIRST_ID

  /** Ids grow strictly for as long as the 32-bit counter does not wrap. */
  lemma IdsGrow(n: nat)
    ensures (forall i, j :: 0 <= i < j < n ==> IdAt(i) < IdAt(j)) <==> n <= UNWRAPPED
  {
    var last := UNWRAPPED - 1;
    if n > last + 1 {
      assert IdAt(last) > IdAt(last + 1);
    }
  }

  lemma IdAtSmall(i: nat)
    requires i < UNWRAPPED
    ensures IdAt(i) == FIRST_ID + i
  {
  }

  lemma TwoKeysDiffer(i: nat, j: nat)
    requires i < j < UNWRAPPED && i < UNREPLACED
    ensures IdText(WireId(IdAt(i))) != IdText(WireId(IdAt(j)))
  {
    IdAtSmall(i);
    IdAtSmall(j);
    SameKeySameId(IdAt(i), IdAt(j));
  }

  lemma LimitKeysCollide()
    ensures IdText(WireId(IdAt(UNREPLACED))) == IdText(WireId(IdAt(UNREPLACED + 1)))
  {
    IdAtSmall(UNREPLACED);
    IdAtSmall(UNREPLACED + 1);
  }

  /** The ids of the first n commands have different keys exactly until the 24-bit limit is passed: every
      id from the limit on is sent as 1. */
  lemma KeysDiffer(n: nat)
    ensures (forall i, j :: 0 <= i < j < n ==> IdText(WireId(IdAt(i))) != IdText(WireId(IdAt(j))))
            <==> n <= UNREPLACED + 1
  {
    if n <= UNREPLACED + 1 {
      forall i, j | 0 <= i < j < n
        ensures IdText(WireId(IdAt(i))) != IdText(WireId(IdAt(j)))
      {
        TwoKeysDiffer(i, j);
      }
    } else {
      LimitKeysCollide();
    }
  }

  /** The key of the i-th command. */
  function KeyAt(messages: seq<string>, i: nat): string
    requires i < |messages|
  {
    if IsTrap(messages[i]) then [] else IdText(WireId(IdAt(i)))
  }

  lemma CommandKeyAt(t: State, i: nat)
    requires InOrder(t) && i < |t.log.executed|
    ensures CommandKeys(t.log.executed)[i] == KeyAt(t.log.submitted, i)
  {
  }

  lemma SupersededIsTrap(t: State, p: Promise)
    requires InOrder(t) && |t.log.submitted| <= UNWRAPPED
    requires Superseded(CommandKeys(t.log.executed), p)
    ensures p + 1 < |t.log.submitted| && (IsTrap(t.log.submitted[p]) || p >= UNREPLACED)
  {
    var keys := CommandKeys(t.log.executed);
    var i :| p < i < |keys| && keys[i] == keys[p];
    CommandKeyAt(t, i);
    CommandKeyAt(t, p);
    if !IsTrap(t.log.submitted[p]) && p < UNREPLACED {
      TwoKeysDiffer(p, i);
    }
  }

  /** Only traps lose their promise, and requests numbered at or above the 24-bit limit; so while no such
      number has been used twice, only traps do. */
  lemma OnlyTrapsOverwritten(events: seq<Event>)
    requires Run(INITIAL, events) && |Submitted(events)| <= UNWRAPPED
    ensures forall p :: p in After(INITIAL, events).log.overwritten ==>
              p + 1 < |Submitted(events)| && (IsTrap(Submitted(events)[p]) || p >= UNREPLACED)
    ensures |Submitted(events)| <= UNREPLACED + 1 ==>
              forall p :: p in After(INITIAL, events).log.overwritten ==> IsTrap(Submitted(events)[p])
  {
    RunReaches(events);
    RunInputs(events);
    var t := After(INITIAL, events);
    forall p | p in t.log.overwritten
      ensures p + 1 < |t.log.submitted| && (IsTrap(t.log.submitted[p]) || p >= UNREPLACED)
    {
      SupersededIsTrap(t, p);
    }
  }

  /** The promise of an executed request is overwritten exactly when a later command went out under its key
      and it had not been answered before. */
  lemma OverwrittenExactly(t: State, p: Promise)
    requires Inv(t) && p < |t.log.executed|
    ensures p in t.log.overwritten
            <==> Superseded(CommandKeys(t.log.executed), p) && p !in t.log.ledger.values
  {
    assert p !in Promises(t.pendingWrites);
    assert p in t.pendingResponses.Values || p in t.log.ledger.values || p in t.log.overwritten;
  }

  lemma NewKey(s: State, m: string)
    requires Inv(s) && s.connected && |s.log.submitted| < UNWRAPPED && !IsTrap(m)
    ensures Number(m, s.nextId).key in s.pendingResponses <==> s.nextId >= INVALID_ID && "1" in s.pendingResponses
  {
    var n := |s.log.executed|;
    var key := Number(m, s.nextId).key;
    IdAtSmall(n);
    if s.nextId >= INVALID_ID {
      assert IdText(1) == "1";
    } else if key in s.pendingResponses {
      var i := s.pendingResponses[key];
      CommandKeyAt(s, i);
      TwoKeysDiffer(i, n);
    }
  }

  /** What a caller can look at before a `write`: on a connected client, a trap command overwrites a promise
      exactly when another trap is awaited, and any other request exactly when the ids have reached the
      24-bit limit and one of those sent as 1 is awaited. */
  lemma WriteOverwritesExactly(s: State, m: string)
    requires Inv(s) && s.connected && |s.log.submitted| < UNWRAPPED
    ensures Write(s, m).log.overwritten != s.log.overwritten
            <==> if IsTrap(m) then "" in s.pendingResponses
                 else s.nextId >= INVALID_ID && "1" in s.pendingResponses
    ensures IsTrap(m) && "" in s.pendingResponses ==>
              Write(s, m).log.overwritten == s.log.overwritten + {s.pendingResponses[""]}
  {
    var key := Number(m, s.nextId).key;
    if !IsTrap(m) {
      NewKey(s, m);
    }
    if key in s.pendingResponses {
      assert s.pendingResponses[key] in s.pendingResponses.Values;
    }
  }
}
