/**
 `discovery/authcache.go`: a cache of eligibility verdicts that is emptied when the configuration
 sequence moves. A call is a chain of separate critical sections, between which other calls and
 configuration changes may happen; here each of them is one step of a state machine.
 */
module AuthCache {
  import opened Wrappers

  /** A verdict and, for the proofs, the configuration sequence under which it was computed. */
  datatype Entry = Entry(verdict: bool, at: nat)

  /** How far a call has come; `s` is the sequence it read on entry. */
  datatype Call =
    | Idle
    | Entered(key: string, s: nat)
    | FoundValid(key: string, s: nat)
    | FoundStale(key: string, s: nat)
    | Missed(key: string, s: nat)
    | PurgeDue(key: string, s: nat)
    | Computing(key: string, s: nat)
    | Computed(key: string, s: nat, result: Entry)
    | Storing(key: string, s: nat, result: Entry)
    | Returned(key: string, s: nat, result: Entry)

  /** `maxCacheSize`, and the number of entries a purge is to evict. */
  datatype Conf = Conf(maxCacheSize: nat, evict: int)

  /** The configuration sequence, the cache, its lock (held only while storing) and the calls. */
  datatype State = State(sequence: nat, lastSequence: nat, entries: map<string, Entry>, storing: Option<nat>, calls: map<nat, Call>)

  datatype Step =
    | ConfigMoves(to: nat)
    | Enter(c: nat, key: string)
    | CheckValid(c: nat)
    | Lookup(c: nat)
    | ConfigChange(c: nat)
    | CheckSize(c: nat)
    | Purge(c: nat, victims: set<string>)
    | Compute(c: nat)
    | CheckSequence(c: nat)
    | Store(c: nat)
    | Leave(c: nat)

  /** The verdict of `acSupport.EligibleForService` for a key under a configuration sequence. */
  type Oracle = (nat, string) -> bool

  function SetCall(st: State, c: nat, call: Call): State {
    st.(calls := st.calls[c := call])
  }

  /** How many of `n` entries go: the counter that runs down from `evict` stops the loop only at zero. */
  function Evicted(evict: int, n: nat): nat {
    if 0 <= evict <= n then evict else n
  }

  predicate At(st: State, c: nat, stage: Call -> bool) {
    c in st.calls && stage(st.calls[c])
  }

  /** The steps that take the lock of the cache wait for a call that is storing. */
  predicate Enabled(conf: Conf, st: State, step: Step) {
    match step
    case ConfigMoves(to) => st.sequence <= to
    case Enter(c, _) => At(st, c, (k: Call) => k.Idle?)
    case CheckValid(c) => At(st, c, (k: Call) => k.Entered?) && st.storing.None?
    case Lookup(c) => At(st, c, (k: Call) => k.FoundValid?) && st.storing.None?
    case ConfigChange(c) => At(st, c, (k: Call) => k.FoundStale?) && st.storing.None?
    case CheckSize(c) => At(st, c, (k: Call) => k.Missed?) && st.storing.None?
    case Purge(c, victims) =>
      && At(st, c, (k: Call) => k.PurgeDue?) && st.storing.None?
      && victims <= st.entries.Keys && |victims| == Evicted(conf.evict, |st.entries|)
    case Compute(c) => At(st, c, (k: Call) => k.Computing?)
    case CheckSequence(c) => At(st, c, (k: Call) => k.Computed?) && st.storing.None?
    case Store(c) => At(st, c, (k: Call) => k.Storing?)
    case Leave(c) => At(st, c, (k: Call) => k.Returned?)
  }

  function Apply(oracle: Oracle, conf: Conf, st: State, step: Step): State
    requires Enabled(conf, st, step)
  {
    match step
    case ConfigMoves(to) => st.(sequence := to)
    case Enter(c, key) => SetCall(st, c, Entered(key, st.sequence))
    case CheckValid(c) =>
      var k := st.calls[c];
      SetCall(st, c, if k.s == st.lastSequence then FoundValid(k.key, k.s) else FoundStale(k.key, k.s))
    case Lookup(c) =>
      var k := st.calls[c];
      SetCall(st, c, if k.key in st.entries then Returned(k.key, k.s, st.entries[k.key]) else Missed(k.key, k.s))
    case ConfigChange(c) =>
      var k := st.calls[c];
      SetCall(st, c, Missed(k.key, k.s)).(lastSequence := k.s, entries := map[])
    case CheckSize(c) =>
      var k := st.calls[c];
      SetCall(st, c, if |st.entries| + 1 > conf.maxCacheSize then PurgeDue(k.key, k.s) else Computing(k.key, k.s))
    case Purge(c, victims) =>
      var k := st.calls[c];
      SetCall(st, c, Computing(k.key, k.s)).(entries := st.entries - victims)
    case Compute(c) =>
      var k := st.calls[c];
      SetCall(st, c, Computed(k.key, k.s, Entry(oracle(st.sequence, k.key), st.sequence)))
    case CheckSequence(c) =>
      var k := st.calls[c];
      if k.s != st.sequence then SetCall(st, c, Returned(k.key, k.s, k.result))
      else SetCall(st, c, Storing(k.key, k.s, k.result)).(storing := Some(c))
    case Store(c) =>
      var k := st.calls[c];
      SetCall(st, c, Returned(k.key, k.s, k.result)).(entries := st.entries[k.key := k.result], storing := None)
    case Leave(c) => SetCall(st, c, Idle)
  }

  predicate Initial(st: State) {
    st.lastSequence == 0 && st.entries == map[] && st.storing == None && forall c | c in st.calls :: st.calls[c] == Idle
  }

  /** The states of an execution, one step apart. */
  ghost predicate Execution(oracle: Oracle, conf: Conf, sts: seq<State>, steps: seq<Step>) {
    && |sts| == |steps| + 1
    && Initial(sts[0])
    && forall i | 0 <= i < |steps| :: Enabled(conf, sts[i], steps[i]) && sts[i + 1] == Apply(oracle, conf, sts[i], steps[i])
  }

  // ---------------------------------------------------------------------------------------------
  // Freshness
  // ---------------------------------------------------------------------------------------------

  /** The entry holds the verdict for the key under a sequence that has been in force. */
  predicate Genuine(oracle: Oracle, st: State, key: string, e: Entry) {
    e.at <= st.sequence && e.verdict == oracle(e.at, key)
  }

  /** What holds of a call, given the cache as it is. */
  predicate CallOk(oracle: Oracle, st: State, call: Call) {
    && (!call.Idle? ==> call.s <= st.sequence)
    && (call.FoundValid? ==> forall key | key in st.entries :: call.s <= st.entries[key].at)
    && (call.Computed? || call.Storing? || call.Returned? ==> call.s <= call.result.at && Genuine(oracle, st, call.key, call.result))
  }

  /** While a call is storing its result, that result is as fresh as anything a reader of the cache may ask for. */
  predicate StoreOk(st: State) {
    match st.storing
    case None => forall c | c in st.calls :: !st.calls[c].Storing?
    case Some(owner) =>
      && owner in st.calls && st.calls[owner].Storing?
      && st.lastSequence <= st.calls[owner].result.at
      && (forall c | c in st.calls && st.calls[c].Storing? :: c == owner)
      && (forall c | c in st.calls && st.calls[c].FoundValid? :: st.calls[c].s <= st.calls[owner].result.at)
  }

  predicate Inv(oracle: Oracle, st: State) {
    && st.lastSequence <= st.sequence
    && (forall key | key in st.entries :: st.lastSequence <= st.entries[key].at && Genuine(oracle, st, key, st.entries[key]))
    && (forall c | c in st.calls :: CallOk(oracle, st, st.calls[c]))
    && StoreOk(st)
  }

  /** A step that only moves one call on, and neither begins nor ends a store. */
  lemma InvSetCall(oracle: Oracle, st: State, c: nat, call: Call)
    requires Inv(oracle, st) && c in st.calls && CallOk(oracle, st, call)
    requires !st.calls[c].Storing? && !call.Storing? && (call.FoundValid? ==> st.storing.None?)
    ensures Inv(oracle, SetCall(st, c, call))
  {
  }

  /** The cache is emptied, or some of its entries are dropped, and the last sequence is one that was read. */
  lemma InvDrop(oracle: Oracle, st: State, last: nat, fewer: map<string, Entry>)
    requires Inv(oracle, st) && st.storing.None? && last <= st.sequence
    requires forall key | key in fewer :: key in st.entries && fewer[key] == st.entries[key] && last <= fewer[key].at
    ensures Inv(oracle, st.(lastSequence := last, entries := fewer))
  {
  }

  lemma InvConfigMoves(oracle: Oracle, st: State, to: nat)
    requires Inv(oracle, st) && st.sequence <= to
    ensures Inv(oracle, st.(sequence := to))
  {
  }

  /** When the sequence is still the one the call read, its result was computed under that very sequence. */
  lemma InvBeginStore(oracle: Oracle, st: State, c: nat)
    requires Inv(oracle, st) && c in st.calls && st.calls[c].Computed? && st.storing.None? && st.calls[c].s == st.sequence
    ensures var k := st.calls[c]; Inv(oracle, SetCall(st, c, Storing(k.key, k.s, k.result)).(storing := Some(c)))
  {
  }

  lemma InvStore(oracle: Oracle, st: State, c: nat)
    requires Inv(oracle, st) && c in st.calls && st.calls[c].Storing?
    ensures var k := st.calls[c];
            Inv(oracle, SetCall(st, c, Returned(k.key, k.s, k.result)).(entries := st.entries[k.key := k.result], storing := None))
  {
  }

  lemma InvStep(oracle: Oracle, conf: Conf, st: State, step: Step)
    requires Inv(oracle, st) && Enabled(conf, st, step)
    ensures Inv(oracle, Apply(oracle, conf, st, step))
  {
    match step
    case ConfigMoves(to) =>
      hide Inv;
      InvConfigMoves(oracle, st, to);
    case ConfigChange(c) =>
      var k := st.calls[c];
      InvSetCall(oracle, st, c, Missed(k.key, k.s));
      InvDrop(oracle, SetCall(st, c, Missed(k.key, k.s)), k.s, map[]);
    case Purge(c, victims) =>
      var k := st.calls[c];
      InvSetCall(oracle, st, c, Computing(k.key, k.s));
      InvDrop(oracle, SetCall(st, c, Computing(k.key, k.s)), st.lastSequence, st.entries - victims);
    case CheckSequence(c) =>
      if st.calls[c].s == st.sequence {
        hide Inv;
        InvBeginStore(oracle, st, c);
      } else {
        InvSetCall(oracle, st, c, Apply(oracle, conf, st, step).calls[c]);
      }
    case Store(c) =>
      hide Inv;
      InvStore(oracle, st, c);
    case Enter(c, _) => InvSetCall(oracle, st, c, Apply(oracle, conf, st, step).calls[c]);
    case CheckValid(c) => InvSetCall(oracle, st, c, Apply(oracle, conf, st, step).calls[c]);
    case Lookup(c) => InvSetCall(oracle, st, c, Apply(oracle, conf, st, step).calls[c]);
    case CheckSize(c) => InvSetCall(oracle, st, c, Apply(oracle, conf, st, step).calls[c]);
    case Compute(c) => InvSetCall(oracle, st, c, Apply(oracle, conf, st, step).calls[c]);
    case Leave(c) => InvSetCall(oracle, st, c, Apply(oracle, conf, st, step).calls[c]);
  }

  lemma {:induction false} InvRun(oracle: Oracle, conf: Conf, sts: seq<State>, steps: seq<Step>, i: nat)
    requires Execution(oracle, conf, sts, steps) && i < |sts|
    ensures Inv(oracle, sts[i])
    decreases i
  {
    if i > 0 {
      hide Inv; hide Enabled; hide Apply;
      InvRun(oracle, conf, sts, steps, i - 1);
      InvStep(oracle, conf, sts[i - 1], steps[i - 1]);
    }
  }

  /**
   Under every interleaving, a call that read sequence s on entry returns the verdict of a sequence
   no older than s and no newer than the present one.
   */
  lemma NeverStale(oracle: Oracle, conf: Conf, sts: seq<State>, steps: seq<Step>, i: nat, c: nat)
    requires Execution(oracle, conf, sts, steps) && i < |sts|
    requires c in sts[i].calls && sts[i].calls[c].Returned?
    ensures var call := sts[i].calls[c];
            && call.s <= call.result.at <= sts[i].sequence
            && call.result.verdict == oracle(call.result.at, call.key)
  {
    hide Execution;
    InvRun(oracle, conf, sts, steps, i);
  }

  // ---------------------------------------------------------------------------------------------
  // Progress
  // ---------------------------------------------------------------------------------------------

  /** The step a call takes next; a purge evicts the given entries, an idle call enters with the given key. */
  function NextStep(c: nat, call: Call, key: string, victims: set<string>): Step {
    match call
    case Idle => Enter(c, key)
    case Entered(_, _) => CheckValid(c)
    case FoundValid(_, _) => Lookup(c)
    case FoundStale(_, _) => ConfigChange(c)
    case Missed(_, _) => CheckSize(c)
    case PurgeDue(_, _) => Purge(c, victims)
    case Computing(_, _) => Compute(c)
    case Computed(_, _, _) => CheckSequence(c)
    case Storing(_, _, _) => Store(c)
    case Returned(_, _, _) => Leave(c)
  }

  /** The steps that take the lock of the cache. */
  predicate TakesLock(call: Call) {
    call.Entered? || call.FoundValid? || call.FoundStale? || call.Missed? || call.PurgeDue? || call.Computed?
  }

  lemma {:induction false} SomeVictims<T>(keys: set<T>, n: nat) returns (victims: set<T>)
    requires n <= |keys|
    ensures victims <= keys && |victims| == n
    decreases |keys|
  {
    victims := keys;
    if n < |keys| {
      var x :| x in keys;
      victims := SomeVictims(keys - {x}, n);
    }
  }

  /**
   No call is ever stuck, and the configuration may move at any time: in every state of every execution
   a call can take its next step, unless that needs the lock of the cache while another call is storing,
   and then that other call can finish storing.
   */
  lemma NoDeadlock(oracle: Oracle, conf: Conf, sts: seq<State>, steps: seq<Step>, i: nat, c: nat, key: string, to: nat) returns (victims: set<string>)
    requires Execution(oracle, conf, sts, steps) && i < |sts| && c in sts[i].calls && sts[i].sequence <= to
    ensures Enabled(conf, sts[i], ConfigMoves(to))
    ensures || Enabled(conf, sts[i], NextStep(c, sts[i].calls[c], key, victims))
            || (TakesLock(sts[i].calls[c]) && sts[i].storing.Some? && sts[i].storing.value != c && Enabled(conf, sts[i], Store(sts[i].storing.value)))
  {
    hide Execution;
    InvRun(oracle, conf, sts, steps, i);
    assert |sts[i].entries.Keys| == |sts[i].entries|;
    victims := SomeVictims(sts[i].entries.Keys, Evicted(conf.evict, |sts[i].entries|));
  }

  // ---------------------------------------------------------------------------------------------
  // Size
  // ---------------------------------------------------------------------------------------------

  /** The call has made room for its result and has not stored it yet. */
  predicate InFlight(call: Call) {
    call.Computing? || call.Computed? || call.Storing?
  }

  function Pending(st: State): set<nat> {
    set c | c in st.calls && InFlight(st.calls[c])
  }

  /** The size the cache is kept below, as long as calls come one at a time. */
  function Room(conf: Conf): nat {
    if conf.maxCacheSize > 0 then conf.maxCacheSize - 1 else 0
  }

  predicate SizeInv(conf: Conf, st: State) {
    |st.entries| + |Pending(st)| <= Room(conf) + |st.calls|
  }

  lemma PendingAfter(st: State, c: nat, call: Call)
    requires c in st.calls
    ensures SetCall(st, c, call).calls.Keys == st.calls.Keys && |SetCall(st, c, call).calls| == |st.calls|
    ensures Pending(SetCall(st, c, call)) == if InFlight(call) then Pending(st) + {c} else Pending(st) - {c}
    ensures |Pending(SetCall(st, c, call))| ==
            |Pending(st)| - (if InFlight(st.calls[c]) then 1 else 0) + (if InFlight(call) then 1 else 0)
    ensures |Pending(SetCall(st, c, call))| <= |st.calls|
  {
    var after := SetCall(st, c, call);
    assert after.calls.Keys == st.calls.Keys;
    assert Pending(after) == if InFlight(call) then Pending(st) + {c} else Pending(st) - {c};
    assert c in Pending(st) <==> InFlight(st.calls[c]);
    SubsetSize(Pending(after), st.calls.Keys);
    hide Pending; hide InFlight;
    MapSize(st.calls);
    MapSize(after.calls);
    AddOrDrop(Pending(st), c);
  }

  lemma MapSize<K, V>(m: map<K, V>)
    ensures |m| == |m.Keys|
  {
  }

  lemma AddOrDrop<T>(s: set<T>, x: T)
    ensures |s + {x}| == |s| + (if x in s then 0 else 1)
    ensures |s - {x}| == |s| - (if x in s then 1 else 0)
  {
    if x in s {
      assert s + {x} == s;
    } else {
      assert s - {x} == s;
    }
  }

  lemma KeysSize<T>(m: map<string, T>, victims: set<string>)
    requires victims <= m.Keys
    ensures |m - victims| == |m| - |victims|
  {
    assert (m - victims).Keys == m.Keys - victims;
    assert m.Keys == (m.Keys - victims) + victims;
  }

  lemma StoreSize<T>(m: map<string, T>, key: string, v: T)
    ensures |m[key := v]| <= |m| + 1
  {
    assert m[key := v].Keys == m.Keys + {key};
  }

  /** The entries have grown by no more than the move of a call in or out of flight leaves room for. */
  predicate LeavesRoom(conf: Conf, st: State, after: State, wasInFlight: bool, inFlight: bool) {
    || (wasInFlight == inFlight && |after.entries| <= |st.entries|)
    || (wasInFlight && !inFlight && |after.entries| <= |st.entries| + 1)
    || (!wasInFlight && inFlight && (|after.entries| < |st.entries| || |after.entries| <= Room(conf)))
  }

  /** One call moves on and the entries change, within what the move leaves room for. */
  lemma SizeMove(conf: Conf, st: State, c: nat, call: Call, after: State)
    requires SizeInv(conf, st) && c in st.calls
    requires after.calls == st.calls[c := call] && LeavesRoom(conf, st, after, InFlight(st.calls[c]), InFlight(call))
    ensures SizeInv(conf, after) && |after.calls| == |st.calls|
  {
    hide Pending; hide InFlight;
    PendingAfter(st, c, call);
    SamePending(SetCall(st, c, call), after);
  }

  lemma SizeStep(oracle: Oracle, conf: Conf, st: State, step: Step)
    requires conf.evict != 0 && SizeInv(conf, st) && Enabled(conf, st, step)
    ensures SizeInv(conf, Apply(oracle, conf, st, step))
    ensures |Apply(oracle, conf, st, step).calls| == |st.calls|
  {
    hide SizeInv;
    var after := Apply(oracle, conf, st, step);
    if step.ConfigMoves? {
      SizeKeeps(conf, st, after);
    } else {
      MoveLeavesRoom(oracle, conf, st, step);
      hide Apply; hide InFlight;
      SizeMove(conf, st, step.c, after.calls[step.c], after);
    }
  }

  lemma MoveLeavesRoom(oracle: Oracle, conf: Conf, st: State, step: Step)
    requires conf.evict != 0 && Enabled(conf, st, step) && !step.ConfigMoves?
    ensures step.c in st.calls
    ensures var after := Apply(oracle, conf, st, step);
            && step.c in after.calls && after.calls == st.calls[step.c := after.calls[step.c]]
            && LeavesRoom(conf, st, after, InFlight(st.calls[step.c]), InFlight(after.calls[step.c]))
  {
    if step.Purge? {
      KeysSize(st.entries, step.victims);
    } else if step.Store? {
      StoreSize(st.entries, st.calls[step.c].key, st.calls[step.c].result);
    }
  }

  lemma SizeKeeps(conf: Conf, st: State, after: State)
    requires SizeInv(conf, st) && after.calls == st.calls && after.entries == st.entries
    ensures SizeInv(conf, after)
  {
    SamePending(st, after);
  }

  lemma SamePending(st: State, st': State)
    requires st.calls == st'.calls
    ensures Pending(st) == Pending(st')
  {
  }

  /** The cache outgrows its maximum by less than the number of concurrent calls, if purging evicts anything at all. */
  lemma {:induction false} SizeBounded(oracle: Oracle, conf: Conf, sts: seq<State>, steps: seq<Step>, i: nat)
    requires conf.evict != 0 && Execution(oracle, conf, sts, steps) && i < |sts|
    ensures SizeInv(conf, sts[i]) && |sts[i].calls| == |sts[0].calls|
    ensures |sts[i].entries| <= Room(conf) + |sts[0].calls|
    decreases i
  {
    if i > 0 {
      hide SizeInv; hide Enabled; hide Apply;
      SizeBounded(oracle, conf, sts, steps, i - 1);
      SizeStep(oracle, conf, sts[i - 1], steps[i - 1]);
      BoundOfInv(conf, sts[i]);
    } else {
      assert Pending(sts[0]) == {};
    }
  }

  lemma BoundOfInv(conf: Conf, st: State)
    requires SizeInv(conf, st)
    ensures |st.entries| <= Room(conf) + |st.calls|
  {
  }

  // Without eviction there is no bound: a single caller that asks for ever new keys fills the cache.

  function Name(k: nat): string {
    seq(k, _ => 'a')
  }

  function Filled(oracle: Oracle, n: nat): map<string, Entry> {
    if n == 0 then map[] else Filled(oracle, n - 1)[Name(n - 1) := Entry(oracle(0, Name(n - 1)), 0)]
  }

  lemma {:induction false} FilledSize(oracle: Oracle, n: nat)
    ensures |Filled(oracle, n)| == n && forall key | key in Filled(oracle, n) :: |key| < n
  {
    if n > 0 {
      FilledSize(oracle, n - 1);
      assert |Name(n - 1)| == n - 1 && Name(n - 1) !in Filled(oracle, n - 1);
      NewKeySize(Filled(oracle, n - 1), Name(n - 1), Entry(oracle(0, Name(n - 1)), 0));
    }
  }

  lemma NewKeySize<T>(m: map<string, T>, key: string, v: T)
    requires key !in m
    ensures |m[key := v]| == |m| + 1
  {
    assert m[key := v].Keys == m.Keys + {key};
  }

  /** One caller, at rest or on its way, at configuration sequence 0. */
  function Solo(entries: map<string, Entry>, call: Call): State {
    State(0, 0, entries, None, map[0 := call])
  }

  lemma Extend(oracle: Oracle, conf: Conf, sts: seq<State>, steps: seq<Step>, step: Step, next: State) returns (sts': seq<State>, steps': seq<Step>)
    requires Execution(oracle, conf, sts, steps)
    requires Enabled(conf, sts[|steps|], step) && next == Apply(oracle, conf, sts[|steps|], step)
    ensures Execution(oracle, conf, sts', steps') && sts'[0] == sts[0] && sts'[|steps'|] == next
  {
    hide Enabled; hide Apply;
    sts', steps' := sts + [next], steps + [step];
  }

  lemma SetSolo(m: map<string, Entry>, before: Call, after: Call)
    ensures SetCall(Solo(m, before), 0, after) == Solo(m, after)
  {
  }

  /** A call for a new key, up to the computation of its verdict, when nothing is evicted. */
  lemma MissAlone(oracle: Oracle, conf: Conf, sts: seq<State>, steps: seq<Step>, m: map<string, Entry>, key: string)
    returns (sts': seq<State>, steps': seq<Step>)
    requires conf.evict == 0 && Execution(oracle, conf, sts, steps) && sts[|steps|] == Solo(m, Idle) && key !in m
    ensures Execution(oracle, conf, sts', steps') && sts'[0] == sts[0]
    ensures sts'[|steps'|] == Solo(m, Computing(key, 0))
  {
    hide Execution; hide SetCall;
    SetSolo(m, Idle, Entered(key, 0));
    sts', steps' := Extend(oracle, conf, sts, steps, Enter(0, key), Solo(m, Entered(key, 0)));
    SetSolo(m, Entered(key, 0), FoundValid(key, 0));
    sts', steps' := Extend(oracle, conf, sts', steps', CheckValid(0), Solo(m, FoundValid(key, 0)));
    SetSolo(m, FoundValid(key, 0), Missed(key, 0));
    sts', steps' := Extend(oracle, conf, sts', steps', Lookup(0), Solo(m, Missed(key, 0)));
    if |m| + 1 > conf.maxCacheSize {
      SetSolo(m, Missed(key, 0), PurgeDue(key, 0));
      sts', steps' := Extend(oracle, conf, sts', steps', CheckSize(0), Solo(m, PurgeDue(key, 0)));
      SetSolo(m, PurgeDue(key, 0), Computing(key, 0));
      assert m - {} == m;
      sts', steps' := Extend(oracle, conf, sts', steps', Purge(0, {}), Solo(m, Computing(key, 0)));
    } else {
      SetSolo(m, Missed(key, 0), Computing(key, 0));
      sts', steps' := Extend(oracle, conf, sts', steps', CheckSize(0), Solo(m, Computing(key, 0)));
    }
  }

  /** One call for a new key, from entering to leaving, when nothing is evicted. */
  lemma OneMoreEntry(oracle: Oracle, conf: Conf, sts: seq<State>, steps: seq<Step>, m: map<string, Entry>, key: string)
    returns (sts': seq<State>, steps': seq<Step>)
    requires conf.evict == 0 && Execution(oracle, conf, sts, steps) && sts[|steps|] == Solo(m, Idle) && key !in m
    ensures Execution(oracle, conf, sts', steps') && sts'[0] == sts[0]
    ensures sts'[|steps'|] == Solo(m[key := Entry(oracle(0, key), 0)], Idle)
  {
    hide Execution; hide SetCall;
    var result := Entry(oracle(0, key), 0);
    sts', steps' := MissAlone(oracle, conf, sts, steps, m, key);
    SetSolo(m, Computing(key, 0), Computed(key, 0, result));
    sts', steps' := Extend(oracle, conf, sts', steps', Compute(0), Solo(m, Computed(key, 0, result)));
    SetSolo(m, Computed(key, 0, result), Storing(key, 0, result));
    var storing := Solo(m, Storing(key, 0, result)).(storing := Some(0));
    sts', steps' := Extend(oracle, conf, sts', steps', CheckSequence(0), storing);
    sts', steps' := FinishAlone(oracle, conf, sts', steps', m, key, result);
  }

  lemma FinishAlone(oracle: Oracle, conf: Conf, sts: seq<State>, steps: seq<Step>, m: map<string, Entry>, key: string, result: Entry)
    returns (sts': seq<State>, steps': seq<Step>)
    requires Execution(oracle, conf, sts, steps)
    requires sts[|steps|] == Solo(m, Storing(key, 0, result)).(storing := Some(0))
    ensures Execution(oracle, conf, sts', steps') && sts'[0] == sts[0]
    ensures sts'[|steps'|] == Solo(m[key := result], Idle)
  {
    hide Execution; hide SetCall;
    var m' := m[key := result];
    StoreAlone(m, key, result);
    sts', steps' := Extend(oracle, conf, sts, steps, Store(0), Solo(m', Returned(key, 0, result)));
    SetSolo(m', Returned(key, 0, result), Idle);
    sts', steps' := Extend(oracle, conf, sts', steps', Leave(0), Solo(m', Idle));
  }

  lemma StoreAlone(m: map<string, Entry>, key: string, result: Entry)
    ensures var storing := Solo(m, Storing(key, 0, result)).(storing := Some(0));
            SetCall(storing, 0, Returned(key, 0, result)).(entries := m[key := result], storing := None)
            == Solo(m[key := result], Returned(key, 0, result))
  {
  }

  /** With nothing evicted, one caller alone can make the cache as large as one likes. */
  lemma {:induction false} UnboundedWithoutEviction(oracle: Oracle, conf: Conf, n: nat) returns (sts: seq<State>, steps: seq<Step>)
    requires conf.evict == 0
    ensures Execution(oracle, conf, sts, steps) && |sts[0].calls| == 1
    ensures sts[|steps|] == Solo(Filled(oracle, n), Idle) && |sts[|steps|].entries| == n
    decreases n
  {
    FilledSize(oracle, n);
    if n == 0 {
      sts, steps := [Solo(map[], Idle)], [];
    } else {
      FilledSize(oracle, n - 1);
      hide Enabled; hide Apply;
      sts, steps := UnboundedWithoutEviction(oracle, conf, n - 1);
      sts, steps := OneMoreEntry(oracle, conf, sts, steps, Filled(oracle, n - 1), Name(n - 1));
    }
  }

  // ---------------------------------------------------------------------------------------------
  // The critical sections
  // ---------------------------------------------------------------------------------------------

  lemma RemoveNone<T>(m: map<string, T>)
    ensures m - {} == m && m.Keys - {} == m.Keys && |m.Keys| == |m|
  {
  }

  lemma RemoveOneMore<T>(m: map<string, T>, victims: set<string>, key: string)
    ensures m - victims - {key} == m - (victims + {key})
    ensures m.Keys - victims - {key} == m.Keys - (victims + {key})
  {
  }

  /** The purge loop: entries go, in no particular order, until enough are gone or none are left. */
  method Evict(entries: map<string, Entry>, evict: int) returns (rest: map<string, Entry>)
    ensures rest.Keys <= entries.Keys && forall key | key in rest :: rest[key] == entries[key]
    ensures 0 <= evict <= |entries| ==> |rest| == |entries| - evict
    ensures evict < 0 || evict > |entries| ==> rest == map[]
  {
    rest := entries;
    ghost var victims := {};
    var entries2evict := evict;
    var keys := entries.Keys;
    RemoveNone(entries);
    while keys != {}
      invariant keys == entries.Keys - victims && victims <= entries.Keys
      invariant rest == entries - victims
      invariant entries2evict + |victims| == evict && (evict >= 0 ==> entries2evict >= 0)
    {
      if entries2evict == 0 {
        SubsetSize(victims, entries.Keys);
        KeysSize(entries, victims);
        return;
      }
      entries2evict := entries2evict - 1;
      var key :| key in keys;
      RemoveOneMore(entries, victims, key);
      rest := rest - {key};
      keys := keys - {key};
      victims := victims + {key};
    }
    assert victims == entries.Keys;
    assert rest == map[];
  }

  /** What is left of the entries tells which are gone. */
  lemma GoneAre<T>(entries: map<string, T>, rest: map<string, T>)
    requires rest.Keys <= entries.Keys && forall key | key in rest :: rest[key] == entries[key]
    ensures var victims := entries.Keys - rest.Keys;
            victims <= entries.Keys && rest == entries - victims && |victims| == |entries| - |rest|
  {
    var victims := entries.Keys - rest.Keys;
    assert rest == entries - victims;
    KeysSize(entries, victims);
  }

  /** The state after the given steps, if each is enabled in its turn. */
  function StateAfter(oracle: Oracle, conf: Conf, st: State, steps: seq<Step>): Option<State> {
    if steps == [] then Some(st)
    else
      var now, step := StateAfter(oracle, conf, st, steps[..|steps| - 1]), steps[|steps| - 1];
      if now.Some? && Enabled(conf, now.value, step) then Some(Apply(oracle, conf, now.value, step)) else None
  }

  lemma Take(oracle: Oracle, conf: Conf, st: State, steps: seq<Step>, now: State, step: Step) returns (more: seq<Step>, after: State)
    requires StateAfter(oracle, conf, st, steps) == Some(now) && Enabled(conf, now, step)
    ensures StateAfter(oracle, conf, st, more) == Some(after) && after == Apply(oracle, conf, now, step)
  {
    hide Enabled; hide Apply;
    more, after := steps + [step], Apply(oracle, conf, now, step);
    assert more[..|more| - 1] == steps;
  }

  function Stored(entries: map<string, Entry>, key: string, e: Entry): map<string, Entry> {
    entries[key := e]
  }

  /** `accessCache`, whose methods are the critical sections behind the steps. */
  class AccessCache {
    const conf: Conf
    var lastSequence: nat
    var entries: map<string, Entry>

    constructor (conf: Conf)
      ensures this.conf == conf && lastSequence == 0 && entries == map[] && NoneStale()
    {
      this.conf := conf;
      lastSequence, entries := 0, map[];
    }

    /** No entry is older than the sequence the cache was last emptied for. */
    ghost predicate NoneStale()
      reads this
    {
      forall key | key in entries :: lastSequence <= entries[key].at
    }

    /** `isValid`: then every entry is fresh enough for the caller. */
    method IsValid(currSeq: nat) returns (valid: bool)
      requires NoneStale()
      ensures valid == (currSeq == lastSequence)
      ensures valid ==> forall key | key in entries :: currSeq <= entries[key].at
    {
      valid := currSeq == lastSequence;
    }

    /** `configChange` */
    method ConfigChange(currSeq: nat)
      modifies this
      ensures lastSequence == currSeq && entries == map[] && NoneStale()
    {
      lastSequence := currSeq;
      entries := map[];
    }

    /** `lookup` */
    method LookupKey(key: string) returns (hit: Option<Entry>)
      requires NoneStale()
      ensures hit == if key in entries then Some(entries[key]) else None
      ensures hit.Some? ==> lastSequence <= hit.value.at
    {
      if key in entries {
        return Some(entries[key]);
      }
      return None;
    }

    /** `isPurgeNeeded`: if not, any one entry may be added. */
    method IsPurgeNeeded() returns (needed: bool)
      ensures needed == (|entries| + 1 > conf.maxCacheSize)
      ensures !needed ==> forall key, e :: |Stored(entries, key, e)| <= conf.maxCacheSize
    {
      needed := |entries| + 1 > conf.maxCacheSize;
      forall key, e ensures |Stored(entries, key, e)| <= |entries| + 1 {
        StoreSize(entries, key, e);
      }
    }

    /** The purge, once it has been found to be needed. */
    method PurgeEntries() returns (ghost victims: set<string>)
      requires NoneStale()
      modifies this
      ensures NoneStale() && victims <= old(entries).Keys && |victims| == Evicted(conf.evict, |old(entries)|)
      ensures entries == old(entries) - victims && lastSequence == old(lastSequence)
      ensures 0 <= conf.evict <= |old(entries)| ==> |entries| == |old(entries)| - conf.evict
      ensures conf.evict < 0 || conf.evict > |old(entries)| ==> entries == map[]
    {
      ghost var before := entries;
      entries := Evict(entries, conf.evict);
      victims := before.Keys - entries.Keys;
      GoneAre(before, entries);
    }

    /** The last critical section of `EligibleForService`, once the sequence has been found unchanged. */
    method StoreResult(key: string, result: Entry)
      requires NoneStale() && lastSequence <= result.at
      modifies this
      ensures NoneStale() && entries == old(entries)[key := result] && lastSequence == old(lastSequence)
    {
      entries := entries[key := result];
    }

    /** The cache is as the state machine has it, and no call is storing. */
    ghost predicate Matches(st: State)
      reads this
    {
      st.lastSequence == lastSequence && st.entries == entries && st.storing.None?
    }

    /** `purgeEntriesIfNeeded` */
    method PurgeEntriesIfNeeded(oracle: Oracle, ghost st: State, ghost steps: seq<Step>, ghost now: State, ghost c: nat)
      returns (ghost more: seq<Step>, ghost after: State)
      requires StateAfter(oracle, conf, st, steps) == Some(now) && Matches(now) && At(now, c, (k: Call) => k.Missed?) && NoneStale()
      modifies this
      ensures StateAfter(oracle, conf, st, more) == Some(after) && Matches(after) && after.sequence == now.sequence
      ensures c in after.calls && after.calls[c] == Computing(now.calls[c].key, now.calls[c].s)
      ensures NoneStale() && lastSequence == old(lastSequence)
      ensures entries.Items <= old(entries).Items && (|old(entries)| < conf.maxCacheSize ==> entries == old(entries))
    {
      hide StateAfter;
      var needed := IsPurgeNeeded();
      more, after := Take(oracle, conf, st, steps, now, CheckSize(c));
      if needed {
        ghost var victims := PurgeEntries();
        more, after := Take(oracle, conf, st, more, after, Purge(c, victims));
      }
    }

    /** The first part of `EligibleForService`, up to a hit or a miss. */
    method Seek(key: string, currSeq: nat, oracle: Oracle, ghost st: State, ghost c: nat)
      returns (hit: Option<Entry>, ghost steps: seq<Step>, ghost after: State)
      requires Matches(st) && st.sequence == currSeq && At(st, c, (k: Call) => k.Idle?) && NoneStale()
      modifies this
      ensures StateAfter(oracle, conf, st, steps) == Some(after) && Matches(after) && after.sequence == currSeq
      ensures c in after.calls && after.calls[c] == if hit.Some? then Returned(key, currSeq, hit.value) else Missed(key, currSeq)
      ensures NoneStale() && lastSequence == currSeq && (hit.Some? ==> currSeq <= hit.value.at)
      ensures entries == if currSeq == old(lastSequence) then old(entries) else map[]
      ensures hit == if key in entries then Some(entries[key]) else None
    {
      assert StateAfter(oracle, conf, st, []) == Some(st);
      hide StateAfter;
      steps, after := Take(oracle, conf, st, [], st, Enter(c, key));
      var valid := IsValid(currSeq);
      steps, after := Take(oracle, conf, st, steps, after, CheckValid(c));
      if valid {
        hit := LookupKey(key);
        steps, after := Take(oracle, conf, st, steps, after, Lookup(c));
      } else {
        ConfigChange(currSeq);
        steps, after := Take(oracle, conf, st, steps, after, Step.ConfigChange(c));
        hit := None;
      }
    }

    /** The last part of `EligibleForService`: the verdict is computed and, if the sequence has not moved, stored. */
    method ComputeAndStore(key: string, currSeq: nat, computedAt: nat, checkedAt: nat, oracle: Oracle,
                           ghost st: State, ghost start: seq<Step>, ghost now: State, ghost c: nat)
      returns (result: Entry, ghost steps: seq<Step>, ghost after: State)
      requires StateAfter(oracle, conf, st, start) == Some(now) && Matches(now) && now.sequence == currSeq <= computedAt <= checkedAt
      requires c in now.calls && now.calls[c] == Computing(key, currSeq) && NoneStale() && lastSequence == currSeq
      modifies this
      ensures StateAfter(oracle, conf, st, steps) == Some(after) && Matches(after)
      ensures c in after.calls && after.calls[c] == Returned(key, currSeq, result)
      ensures NoneStale() && currSeq <= result.at && lastSequence == currSeq
      ensures result == Entry(oracle(computedAt, key), computedAt)
      ensures entries == if currSeq == checkedAt then old(entries)[key := result] else old(entries)
    {
      hide StateAfter;
      result := Entry(oracle(computedAt, key), computedAt);
      steps, after := Take(oracle, conf, st, start, now, ConfigMoves(computedAt));
      steps, after := Take(oracle, conf, st, steps, after, Compute(c));
      steps, after := Take(oracle, conf, st, steps, after, ConfigMoves(checkedAt));
      steps, after := Take(oracle, conf, st, steps, after, CheckSequence(c));
      if currSeq != checkedAt {
        return;
      }
      StoreResult(key, result);
      steps, after := Take(oracle, conf, st, steps, after, Store(c));
    }

    /**
     `EligibleForService`, when no other call comes in between: its critical sections, one after the
     other, are steps of the state machine. The sequence may move before the verdict is computed and
     again before it is stored. An entry of the same sequence is served and nothing is computed; otherwise
     the verdict is computed, and kept exactly if the sequence has not moved.
     */
    method EligibleForService(key: string, currSeq: nat, computedAt: nat, checkedAt: nat, oracle: Oracle, ghost st: State, ghost c: nat)
      returns (result: Entry, ghost steps: seq<Step>, ghost after: State)
      requires Matches(st) && st.sequence == currSeq <= computedAt <= checkedAt && At(st, c, (k: Call) => k.Idle?) && NoneStale()
      modifies this
      ensures StateAfter(oracle, conf, st, steps) == Some(after) && Matches(after)
      ensures c in after.calls && after.calls[c] == Returned(key, currSeq, result)
      ensures NoneStale() && currSeq <= result.at && lastSequence == currSeq
      ensures currSeq == old(lastSequence) && key in old(entries) ==> result == old(entries)[key] && entries == old(entries)
      ensures currSeq != old(lastSequence) || key !in old(entries) ==> result == Entry(oracle(computedAt, key), computedAt)
      ensures currSeq != old(lastSequence) ==> entries == if currSeq == checkedAt then map[key := result] else map[]
      ensures currSeq == old(lastSequence) && key !in old(entries) ==>
                && (currSeq == checkedAt ==> key in entries && entries[key] == result)
                && (entries - {key}).Items <= old(entries).Items
                && (|old(entries)| < conf.maxCacheSize ==>
                      entries == if currSeq == checkedAt then old(entries)[key := result] else old(entries))
    {
      hide StateAfter;
      var hit;
      hit, steps, after := Seek(key, currSeq, oracle, st, c);
      if hit.Some? {
        return hit.value, steps, after;
      }
      steps, after := PurgeEntriesIfNeeded(oracle, st, steps, after, c);
      result, steps, after := ComputeAndStore(key, currSeq, computedAt, checkedAt, oracle, st, steps, after, c);
    }
  }
}
