/**
 The lock-free part of `atomic::dictionary_t`: any number of threads run insert, emplace, find
 and contains, and each atomic load, store, compare-exchange and fetch_add is one step.

 A node is private to the inserter that built it until its compare-exchange succeeds; from then
 on it is published. `Log` is the abstract dictionary: every successful compare-exchange, newest
 first. Looking a key up means taking the newest entry that carries it.
 */
module ConcurrentDictionary {
  import opened DictionaryKeys
  import opened Options

  type Address = nat
  type Thread = nat

  datatype Node = Node(key: Key, value: Value, next: Option<Address>)

  /** Where a thread stands inside the call it is running. */
  datatype Program =
    | Idle
    | Made(node: Address)                               // node built, head not loaded yet
    | Loaded(node: Address, expected: Option<Address>)  // head loaded into `expected`
    | Linked(node: Address, expected: Option<Address>)  // `expected` stored in the node's next
    | Published(node: Address)                          // head exchanged, count not bumped yet
    | Asked(key: Key)                                   // find or contains, head not loaded yet
    | Walking(key: Key, current: Option<Address>)       // walking the chain

  datatype State = State(
    heads: seq<Option<Address>>,
    nodes: map<Address, Node>,
    count: nat,
    threads: map<Thread, Program>)

  datatype Event =
    | Make(t: Thread, at: Address, key: Key, value: Value)
    | Load(t: Thread)
    | Link(t: Thread)
    | Push(t: Thread, at: Address, key: Key, value: Value)  // compare-exchange succeeds
    | Retry(t: Thread)                                      // compare-exchange fails
    | Bump(t: Thread)
    | Ask(t: Thread, key: Key)
    | LoadHead(t: Thread, key: Key)
    | Advance(t: Thread)
    | Answer(t: Thread, key: Key, result: Option<Value>)    // contains answers result.Some?

  datatype Entry = Entry(at: Address, key: Key, value: Value)

  function Pc(s: State, t: Thread): Program {
    if t in s.threads then s.threads[t] else Idle
  }

  ghost predicate Init(s: State) {
    && |s.heads| > 0
    && (forall b | 0 <= b < |s.heads| :: s.heads[b] == None)
    && s.nodes == map[] && s.count == 0 && s.threads == map[]
  }

  ghost predicate Enabled(h: Key -> nat, s: State, e: Event)
    requires |s.heads| > 0
  {
    match e
    case Make(t, at, _, _) => Pc(s, t).Idle? && at !in s.nodes
    case Load(t) => Pc(s, t).Made? && Pc(s, t).node in s.nodes
    case Link(t) => Pc(s, t).Loaded? && Pc(s, t).node in s.nodes
    case Push(t, at, key, value) =>
      && Pc(s, t).Linked? && Pc(s, t).node == at && at in s.nodes
      && s.nodes[at].key == key && s.nodes[at].value == value
      && s.heads[Index(h, |s.heads|, key)] == Pc(s, t).expected
    // a weak exchange may also fail when the head still is the expected one
    case Retry(t) => Pc(s, t).Linked?
    case Bump(t) => Pc(s, t).Published?
    case Ask(t, _) => Pc(s, t).Idle?
    case LoadHead(t, key) => Pc(s, t) == Asked(key)
    case Advance(t) =>
      && Pc(s, t).Walking? && Pc(s, t).current.Some? && Pc(s, t).current.value in s.nodes
      && s.nodes[Pc(s, t).current.value].key != Pc(s, t).key
    case Answer(t, key, result) =>
      && Pc(s, t).Walking? && Pc(s, t).key == key
      && match Pc(s, t).current {
           case None => result == None
           case Some(a) => a in s.nodes && s.nodes[a].key == key && result == Some(s.nodes[a].value)
         }
  }

  ghost function Step(h: Key -> nat, s: State, e: Event): State
    requires |s.heads| > 0 && Enabled(h, s, e)
  {
    match e
    case Make(t, at, key, value) =>
      s.(nodes := s.nodes[at := Node(key, value, None)], threads := s.threads[t := Made(at)])
    case Load(t) =>
      var n := Pc(s, t).node;
      s.(threads := s.threads[t := Loaded(n, s.heads[Index(h, |s.heads|, s.nodes[n].key)])])
    case Link(t) =>
      var Loaded(n, expected) := Pc(s, t);
      s.(nodes := s.nodes[n := s.nodes[n].(next := expected)],
         threads := s.threads[t := Linked(n, expected)])
    case Push(t, at, key, _) =>
      s.(heads := s.heads[Index(h, |s.heads|, key) := Some(at)], threads := s.threads[t := Published(at)])
    case Retry(t) => s.(threads := s.threads[t := Made(Pc(s, t).node)])
    case Bump(t) => s.(count := s.count + 1, threads := s.threads[t := Idle])
    case Ask(t, key) => s.(threads := s.threads[t := Asked(key)])
    case LoadHead(t, key) =>
      s.(threads := s.threads[t := Walking(key, s.heads[Index(h, |s.heads|, key)])])
    case Advance(t) =>
      var Walking(key, current) := Pc(s, t);
      s.(threads := s.threads[t := Walking(key, s.nodes[current.value].next)])
    case Answer(t, _, _) => s.(threads := s.threads[t := Idle])
  }

  ghost predicate Next(h: Key -> nat, s: State, e: Event, s': State) {
    |s.heads| > 0 && Enabled(h, s, e) && s' == Step(h, s, e)
  }

  /** A run: `es[i]` takes `ss[i]` to `ss[i + 1]`, starting with an empty dictionary. */
  ghost predicate IsRun(h: Key -> nat, ss: seq<State>, es: seq<Event>) {
    && |ss| == |es| + 1
    && Init(ss[0])
    && forall i | 0 <= i < |es| :: Next(h, ss[i], es[i], ss[i + 1])
  }

  // ----- the abstract dictionary

  /** Every successful compare-exchange of `es`, newest first. */
  function Log(es: seq<Event>): seq<Entry> {
    if es == [] then []
    else
      var older := Log(es[..|es| - 1]);
      match es[|es| - 1]
      case Push(_, at, key, value) => [Entry(at, key, value)] + older
      case _ => older
  }

  function Lookup(log: seq<Entry>, key: Key): Option<Value> {
    if log == [] then None
    else if log[0].key == key then Some(log[0].value)
    else Lookup(log[1..], key)
  }

  /** The entries of `log` that belong to bucket `b`, in the same order. */
  function InBucket(h: Key -> nat, size: nat, log: seq<Entry>, b: nat): (r: seq<Entry>)
    requires size > 0
    ensures forall e | e in r :: e in log
  {
    if log == [] then []
    else if Index(h, size, log[0].key) == b then [log[0]] + InBucket(h, size, log[1..], b)
    else InBucket(h, size, log[1..], b)
  }

  /** Following next pointers from `p` meets exactly `entries` and then ends. */
  ghost predicate IsChain(nodes: map<Address, Node>, p: Option<Address>, entries: seq<Entry>)
    decreases entries
  {
    if entries == [] then p == None
    else
      && p == Some(entries[0].at) && p.value in nodes
      && nodes[p.value].key == entries[0].key && nodes[p.value].value == entries[0].value
      && IsChain(nodes, nodes[p.value].next, entries[1..])
  }

  ghost predicate IsPublished(log: seq<Entry>, a: Address) {
    exists i :: 0 <= i < |log| && log[i].at == a
  }

  ghost predicate HoldsPrivate(p: Program, a: Address) {
    (p.Made? || p.Loaded? || p.Linked?) && p.node == a
  }

  /** The inserters standing between their exchange and their fetch_add. */
  ghost function Pending(s: State): set<Thread> {
    PendingIn(s.threads)
  }

  ghost function PendingIn(threads: map<Thread, Program>): set<Thread> {
    set t | t in threads && threads[t].Published?
  }

  // ----- what every step keeps

  ghost predicate Inv(h: Key -> nat, s: State, log: seq<Entry>) {
    && |s.heads| > 0
    && (forall b | 0 <= b < |s.heads| :: IsChain(s.nodes, s.heads[b], InBucket(h, |s.heads|, log, b)))
    && (forall i | 0 <= i < |log| :: log[i].at in s.nodes)
    && (forall i, j | 0 <= i < j < |log| :: log[i].at != log[j].at)
    && (forall t, a | HoldsPrivate(Pc(s, t), a) :: a in s.nodes && !IsPublished(log, a))
    && (forall t, u, a | HoldsPrivate(Pc(s, t), a) && HoldsPrivate(Pc(s, u), a) :: t == u)
    && (forall t | Pc(s, t).Linked? :: Pc(s, t).node in s.nodes && s.nodes[Pc(s, t).node].next == Pc(s, t).expected)
    && s.count + |Pending(s)| == |log|
  }

  /** A chain does not depend on nodes outside its entries. */
  lemma {:induction false} ChainFrame(
      nodes: map<Address, Node>, nodes': map<Address, Node>, p: Option<Address>, entries: seq<Entry>)
    requires IsChain(nodes, p, entries)
    requires forall e | e in entries :: e.at in nodes ==> e.at in nodes' && nodes'[e.at] == nodes[e.at]
    ensures IsChain(nodes', p, entries)
    decreases entries
  {
    if entries != [] {
      assert entries[0] in entries;
      ChainFrame(nodes, nodes', nodes[p.value].next, entries[1..]);
    }
  }

  lemma {:induction false} LogExtends(es: seq<Event>, i: nat)
    requires i < |es|
    ensures Log(es[..i + 1]) == match es[i] { case Push(_, at, key, value) => [Entry(at, key, value)] + Log(es[..i]) case _ => Log(es[..i]) }
  {
    assert es[..i + 1][..i] == es[..i];
  }

  ghost function LogAfter(log: seq<Entry>, e: Event): seq<Entry> {
    match e case Push(_, at, key, value) => [Entry(at, key, value)] + log case _ => log
  }

  /** The nodes an event does not own keep their contents. */
  lemma StepKeepsPublished(h: Key -> nat, s: State, e: Event, s': State, log: seq<Entry>)
    requires Inv(h, s, log) && Next(h, s, e, s')
    ensures forall i | 0 <= i < |log| :: log[i].at in s'.nodes && s'.nodes[log[i].at] == s.nodes[log[i].at]
  {
    if e.Link? {
      assert HoldsPrivate(Pc(s, e.t), Pc(s, e.t).node);
    }
  }

  lemma StepKeepsChains(h: Key -> nat, s: State, e: Event, s': State, log: seq<Entry>, b: nat)
    requires Inv(h, s, log) && Next(h, s, e, s') && b < |s.heads|
    ensures IsChain(s'.nodes, s'.heads[b], InBucket(h, |s.heads|, LogAfter(log, e), b))
  {
    StepKeepsPublished(h, s, e, s', log);
    var chain := InBucket(h, |s.heads|, log, b);
    ChainFrame(s.nodes, s'.nodes, s.heads[b], chain);
    if e.Push? {
      var entry := Entry(e.at, e.key, e.value);
      assert ([entry] + log)[1..] == log;
      if Index(h, |s.heads|, e.key) == b {
        assert ([entry] + chain)[1..] == chain;
      }
    }
  }

  lemma PendingAfterUpdate(threads: map<Thread, Program>, t: Thread, p: Program)
    ensures PendingIn(threads[t := p]) == if p.Published? then PendingIn(threads) + {t} else PendingIn(threads) - {t}
  {}

  lemma StepKeepsCount(h: Key -> nat, s: State, e: Event, s': State, log: seq<Entry>)
    requires Inv(h, s, log) && Next(h, s, e, s')
    ensures s'.count + |Pending(s')| == |LogAfter(log, e)|
  {
    PendingAfterUpdate(s.threads, e.t, Pc(s', e.t));
    assert s'.threads == s.threads[e.t := Pc(s', e.t)];
    if e.Push? {
      assert e.t !in Pending(s);
    } else if e.Bump? {
      assert e.t in Pending(s);
    } else {
      assert Pending(s) - {e.t} == Pending(s);
    }
  }

  /** Only inserters own private nodes, and an event makes none private but its own Make. */
  lemma StepKeepsPrivate(h: Key -> nat, s: State, e: Event, s': State, t: Thread, a: Address)
    requires |s.heads| > 0 && Next(h, s, e, s') && HoldsPrivate(Pc(s', t), a)
    ensures HoldsPrivate(Pc(s, t), a) || (e.Make? && e.t == t && e.at == a && a !in s.nodes)
    ensures forall b | b in s.nodes :: b in s'.nodes
    ensures e.Push? && e.t == t ==> false
  {
    assert Pc(s', t) == if t == e.t then s'.threads[e.t] else Pc(s, t);
  }

  lemma PublishedAfter(log: seq<Entry>, entry: Entry, a: Address)
    requires IsPublished([entry] + log, a)
    ensures a == entry.at || IsPublished(log, a)
  {
    var i :| 0 <= i < |[entry] + log| && ([entry] + log)[i].at == a;
    if i > 0 {
      assert log[i - 1].at == a;
    }
  }

  lemma StepKeepsUnpublished(h: Key -> nat, s: State, e: Event, s': State, log: seq<Entry>, t: Thread, a: Address)
    requires Inv(h, s, log) && Next(h, s, e, s') && HoldsPrivate(Pc(s', t), a)
    ensures a in s'.nodes && !IsPublished(LogAfter(log, e), a)
  {
    StepKeepsPrivate(h, s, e, s', t, a);
    if e.Push? && IsPublished(LogAfter(log, e), a) {
      PublishedAfter(log, Entry(e.at, e.key, e.value), a);
      assert HoldsPrivate(Pc(s, e.t), e.at);
    }
  }

  lemma StepKeepsOneOwner(h: Key -> nat, s: State, e: Event, s': State, log: seq<Entry>, t: Thread, u: Thread, a: Address)
    requires Inv(h, s, log) && Next(h, s, e, s') && HoldsPrivate(Pc(s', t), a) && HoldsPrivate(Pc(s', u), a)
    ensures t == u
  {
    StepKeepsPrivate(h, s, e, s', t, a);
    StepKeepsPrivate(h, s, e, s', u, a);
  }

  lemma StepKeepsOwnership(h: Key -> nat, s: State, e: Event, s': State, log: seq<Entry>)
    requires Inv(h, s, log) && Next(h, s, e, s')
    ensures forall t, a | HoldsPrivate(Pc(s', t), a) :: a in s'.nodes && !IsPublished(LogAfter(log, e), a)
    ensures forall t, u, a | HoldsPrivate(Pc(s', t), a) && HoldsPrivate(Pc(s', u), a) :: t == u
  {
    forall t, a | HoldsPrivate(Pc(s', t), a) ensures a in s'.nodes && !IsPublished(LogAfter(log, e), a) {
      StepKeepsUnpublished(h, s, e, s', log, t, a);
    }
    forall t, u, a | HoldsPrivate(Pc(s', t), a) && HoldsPrivate(Pc(s', u), a) ensures t == u {
      StepKeepsOneOwner(h, s, e, s', log, t, u, a);
    }
  }

  lemma StepKeepsLinks(h: Key -> nat, s: State, e: Event, s': State, log: seq<Entry>, t: Thread)
    requires Inv(h, s, log) && Next(h, s, e, s') && Pc(s', t).Linked?
    ensures Pc(s', t).node in s'.nodes && s'.nodes[Pc(s', t).node].next == Pc(s', t).expected
  {
    if t != e.t {
      assert HoldsPrivate(Pc(s, t), Pc(s, t).node);
      if e.Link? {
        assert HoldsPrivate(Pc(s, e.t), Pc(s, e.t).node);
      }
    }
  }

  lemma StepKeepsLog(h: Key -> nat, s: State, e: Event, s': State, log: seq<Entry>)
    requires Inv(h, s, log) && Next(h, s, e, s')
    ensures var log' := LogAfter(log, e);
      && (forall i | 0 <= i < |log'| :: log'[i].at in s'.nodes)
      && (forall i, j | 0 <= i < j < |log'| :: log'[i].at != log'[j].at)
  {
    StepKeepsPublished(h, s, e, s', log);
    var log' := LogAfter(log, e);
    if e.Push? {
      assert HoldsPrivate(Pc(s, e.t), e.at);
      forall i | 0 <= i < |log'| ensures log'[i].at in s'.nodes {
        if i > 0 { assert log'[i] == log[i - 1]; }
      }
      forall i, j | 0 <= i < j < |log'| ensures log'[i].at != log'[j].at {
        assert log'[j] == log[j - 1];
        if i > 0 { assert log'[i] == log[i - 1]; }
      }
    } else {
      assert log' == log;
    }
  }

  lemma StepKeepsInv(h: Key -> nat, s: State, e: Event, s': State, log: seq<Entry>)
    requires Inv(h, s, log) && Next(h, s, e, s')
    ensures Inv(h, s', LogAfter(log, e))
  {
    forall b | 0 <= b < |s'.heads|
      ensures IsChain(s'.nodes, s'.heads[b], InBucket(h, |s'.heads|, LogAfter(log, e), b))
    {
      StepKeepsChains(h, s, e, s', log, b);
    }
    StepKeepsLog(h, s, e, s', log);
    StepKeepsOwnership(h, s, e, s', log);
    StepKeepsCount(h, s, e, s', log);
    forall t | Pc(s', t).Linked?
      ensures Pc(s', t).node in s'.nodes && s'.nodes[Pc(s', t).node].next == Pc(s', t).expected
    {
      StepKeepsLinks(h, s, e, s', log, t);
    }
  }

  lemma {:induction false} RunKeepsInv(h: Key -> nat, ss: seq<State>, es: seq<Event>, i: nat)
    requires IsRun(h, ss, es) && i <= |es|
    ensures Inv(h, ss[i], Log(es[..i]))
  {
    if i == 0 {
      assert Pending(ss[0]) == {};
    } else {
      RunKeepsInv(h, ss, es, i - 1);
      LogExtends(es, i - 1);
      StepKeepsInv(h, ss[i - 1], es[i - 1], ss[i], Log(es[..i - 1]));
    }
  }

  // ----- main results

  /** A head pointer determines the entries reachable from it. */
  lemma {:induction false} ChainIsUnique(nodes: map<Address, Node>, p: Option<Address>, e1: seq<Entry>, e2: seq<Entry>)
    requires IsChain(nodes, p, e1) && IsChain(nodes, p, e2)
    ensures e1 == e2
    decreases e1
  {
    if e1 != [] {
      ChainIsUnique(nodes, nodes[p.value].next, e1[1..], e2[1..]);
    }
  }

  /** In every interleaving, walking a bucket meets exactly its successful exchanges, newest first. */
  lemma BucketsAreTheirPushes(h: Key -> nat, ss: seq<State>, es: seq<Event>, i: nat, b: nat, entries: seq<Entry>)
    requires IsRun(h, ss, es) && i <= |es| && b < |ss[i].heads|
    ensures IsChain(ss[i].nodes, ss[i].heads[b], entries)
            <==> entries == InBucket(h, |ss[i].heads|, Log(es[..i]), b)
  {
    RunKeepsInv(h, ss, es, i);
    var pushed := InBucket(h, |ss[i].heads|, Log(es[..i]), b);
    if IsChain(ss[i].nodes, ss[i].heads[b], entries) {
      ChainIsUnique(ss[i].nodes, ss[i].heads[b], entries, pushed);
    }
  }

  /** `older` is what `log` was before some number of pushes. */
  ghost predicate IsOlder(older: seq<Entry>, log: seq<Entry>) {
    older == log || (log != [] && IsOlder(older, log[1..]))
  }

  lemma {:induction false} OlderEntriesRemain(older: seq<Entry>, log: seq<Entry>, e: Entry)
    requires IsOlder(older, log) && e in older
    ensures e in log
  {
    if older != log {
      OlderEntriesRemain(older, log[1..], e);
    }
  }

  lemma {:induction false} LogGrows(es: seq<Event>, i: nat, j: nat)
    requires i <= j <= |es|
    ensures IsOlder(Log(es[..i]), Log(es[..j]))
    decreases j - i
  {
    if i < j {
      LogGrows(es, i, j - 1);
      LogExtends(es, j - 1);
      var log := Log(es[..j]);
      assert es[j - 1].Push? ==> log[1..] == Log(es[..j - 1]);
    }
  }

  /** The log only grows at its newest end, and no node it lists ever changes in memory. */
  lemma {:induction false} PublishedNodesNeverChange(
      h: Key -> nat, ss: seq<State>, es: seq<Event>, i: nat, j: nat, e: Entry)
    requires IsRun(h, ss, es) && i <= j <= |es| && e in Log(es[..i])
    ensures IsOlder(Log(es[..i]), Log(es[..j]))
    ensures e.at in ss[i].nodes && e.at in ss[j].nodes && ss[j].nodes[e.at] == ss[i].nodes[e.at]
    decreases j - i
  {
    LogGrows(es, i, j);
    if i == j {
      RunKeepsInv(h, ss, es, i);
    } else {
      PublishedNodesNeverChange(h, ss, es, i, j - 1, e);
      RunKeepsInv(h, ss, es, j - 1);
      var log := Log(es[..j - 1]);
      LogGrows(es, i, j - 1);
      OlderEntriesRemain(Log(es[..i]), log, e);
      StepKeepsPublished(h, ss[j - 1], es[j - 1], ss[j], log);
    }
  }

  ghost function BucketTotal(h: Key -> nat, size: nat, log: seq<Entry>, n: nat): nat
    requires size > 0
  {
    if n == 0 then 0 else BucketTotal(h, size, log, n - 1) + |InBucket(h, size, log, n - 1)|
  }

  lemma {:induction false} BucketTotalSplits(h: Key -> nat, size: nat, log: seq<Entry>, n: nat)
    requires size > 0 && log != [] && n <= size
    ensures BucketTotal(h, size, log, n)
            == BucketTotal(h, size, log[1..], n) + if Index(h, size, log[0].key) < n then 1 else 0
  {
    if n > 0 {
      BucketTotalSplits(h, size, log, n - 1);
    }
  }

  lemma {:induction false} BucketsOfNothing(h: Key -> nat, size: nat, n: nat)
    requires size > 0
    ensures BucketTotal(h, size, [], n) == 0
  {
    if n > 0 {
      BucketsOfNothing(h, size, n - 1);
    }
  }

  lemma {:induction false} BucketsPartitionTheLog(h: Key -> nat, size: nat, log: seq<Entry>)
    requires size > 0
    ensures BucketTotal(h, size, log, size) == |log|
  {
    if log == [] {
      BucketsOfNothing(h, size, size);
    } else {
      BucketTotalSplits(h, size, log, size);
      BucketsPartitionTheLog(h, size, log[1..]);
    }
  }

  /**
   size() lags the reachable nodes by exactly the inserters standing between their exchange and
   their fetch_add; with none of those it is exact.
   */
  lemma CountLagsByPendingInserters(h: Key -> nat, ss: seq<State>, es: seq<Event>, i: nat)
    requires IsRun(h, ss, es) && i <= |es|
    ensures ss[i].count + |Pending(ss[i])|
            == BucketTotal(h, |ss[i].heads|, Log(es[..i]), |ss[i].heads|) == |Log(es[..i])|
  {
    RunKeepsInv(h, ss, es, i);
    BucketsPartitionTheLog(h, |ss[i].heads|, Log(es[..i]));
  }

  lemma {:induction false} LookupInBucket(h: Key -> nat, size: nat, log: seq<Entry>, key: Key)
    requires size > 0
    ensures Lookup(InBucket(h, size, log, Index(h, size, key)), key) == Lookup(log, key)
  {
    if log != [] {
      LookupInBucket(h, size, log[1..], key);
      var rest := InBucket(h, size, log[1..], Index(h, size, key));
      assert ([log[0]] + rest)[1..] == rest;
    }
  }

  lemma ChainOutlivesStep(
      h: Key -> nat, ss: seq<State>, es: seq<Event>, i: nat, j: nat, p: Option<Address>, rest: seq<Entry>)
    requires IsRun(h, ss, es) && i < j <= |es|
    requires IsChain(ss[j - 1].nodes, p, rest) && forall e | e in rest :: e in Log(es[..i])
    ensures IsChain(ss[j].nodes, p, rest)
  {
    forall e | e in rest
      ensures e.at in ss[j].nodes && e.at in ss[j - 1].nodes && ss[j].nodes[e.at] == ss[j - 1].nodes[e.at]
    {
      PublishedNodesNeverChange(h, ss, es, i, j - 1, e);
      PublishedNodesNeverChange(h, ss, es, i, j, e);
    }
    ChainFrame(ss[j - 1].nodes, ss[j].nodes, p, rest);
  }

  /** How many entries lie before the first that carries `key`, or at all. */
  function Depth(entries: seq<Entry>, key: Key): (d: nat)
    ensures d <= |entries|
  {
    if entries == [] || entries[0].key == key then 0 else 1 + Depth(entries[1..], key)
  }

  /** The entries a search for `key` that starts on `s` has in its bucket. */
  ghost function SearchedBucket(h: Key -> nat, s: State, log: seq<Entry>, key: Key): seq<Entry> {
    if |s.heads| > 0 then InBucket(h, |s.heads|, log, Index(h, |s.heads|, key)) else []
  }

  /** How many steps along the chain a thread makes from `i` on, up to `j`. */
  function Advances(es: seq<Event>, i: nat, j: nat, t: Thread): nat
    requires j <= |es|
    decreases j
  {
    if j <= i then 0 else Advances(es, i, j - 1, t) + if es[j - 1] == Advance(t) then 1 else 0
  }

  /**
   A thread between the head load at `i` and the state `j` is walking the very chain it loaded:
   the entries it has still to meet decide the same lookup as the whole log did at `i`, and each
   step along the chain takes it one entry closer to the key.
   */
  lemma {:induction false} WalkStaysOnLoadedChain(
      h: Key -> nat, ss: seq<State>, es: seq<Event>, i: nat, j: nat, t: Thread, key: Key)
      returns (rest: seq<Entry>)
    requires IsRun(h, ss, es) && i < j <= |es|
    requires es[i] == LoadHead(t, key)
    requires forall m | i < m < j :: es[m].t == t ==> es[m].Advance?
    ensures Pc(ss[j], t).Walking? && Pc(ss[j], t).key == key
    ensures IsChain(ss[j].nodes, Pc(ss[j], t).current, rest)
    ensures Lookup(rest, key) == Lookup(Log(es[..i]), key)
    ensures forall e | e in rest :: e in Log(es[..i])
    ensures Advances(es, i, j, t) + Depth(rest, key) == Depth(SearchedBucket(h, ss[i], Log(es[..i]), key), key)
    decreases j - i
  {
    if j == i + 1 {
      var size := |ss[i].heads|;
      RunKeepsInv(h, ss, es, i);
      assert Next(h, ss[i], es[i], ss[j]);
      rest := InBucket(h, size, Log(es[..i]), Index(h, size, key));
      LookupInBucket(h, size, Log(es[..i]), key);
    } else {
      rest := WalkStaysOnLoadedChain(h, ss, es, i, j - 1, t, key);
      ChainOutlivesStep(h, ss, es, i, j, Pc(ss[j - 1], t).current, rest);
      assert Next(h, ss[j - 1], es[j - 1], ss[j]);
      if es[j - 1].t == t {
        rest := rest[1..];
      }
    }
  }

  /**
   Linearizability of find and contains: the answer is the lookup in the abstract dictionary at
   the moment the thread loaded the bucket head, which lies inside the call, whatever the other
   threads did before, meanwhile or since.
   */
  lemma SearchAnswersAsOfItsLoad(
      h: Key -> nat, ss: seq<State>, es: seq<Event>, i: nat, j: nat, t: Thread, key: Key, result: Option<Value>)
    requires IsRun(h, ss, es) && i < j < |es|
    requires es[i] == LoadHead(t, key) && es[j] == Answer(t, key, result)
    requires forall m | i < m < j :: es[m].t == t ==> es[m].Advance?
    ensures result == Lookup(Log(es[..i]), key)
  {
    var rest := WalkStaysOnLoadedChain(h, ss, es, i, j, t, key);
    assert Next(h, ss[j], es[j], ss[j + 1]);
    assert rest != [] ==> ss[j].nodes[rest[0].at].key == rest[0].key;
  }

  /** A walker whose chain ahead is `rest` may answer at the key or the end, and may step on anywhere else. */
  lemma WalkerMay(h: Key -> nat, s: State, t: Thread, key: Key, rest: seq<Entry>)
    requires |s.heads| > 0 && Pc(s, t).Walking? && Pc(s, t).key == key && IsChain(s.nodes, Pc(s, t).current, rest)
    ensures Depth(rest, key) == 0 <==> exists r :: Enabled(h, s, Answer(t, key, r))
    ensures Depth(rest, key) > 0 <==> Enabled(h, s, Advance(t))
  {
    if rest == [] {
      assert Enabled(h, s, Answer(t, key, None));
    } else if rest[0].key == key {
      assert Enabled(h, s, Answer(t, key, Some(rest[0].value)));
    }
  }

  /** The walk never meets a missing node, so a search that has begun can always take its next step. */
  lemma SearchIsNeverStuck(h: Key -> nat, ss: seq<State>, es: seq<Event>, i: nat, j: nat, t: Thread, key: Key)
    requires IsRun(h, ss, es) && i < j <= |es|
    requires es[i] == LoadHead(t, key)
    requires forall m | i < m < j :: es[m].t == t ==> es[m].Advance?
    ensures |ss[j].heads| > 0
    ensures Enabled(h, ss[j], Advance(t)) || exists r :: Enabled(h, ss[j], Answer(t, key, r))
  {
    var rest := WalkStaysOnLoadedChain(h, ss, es, i, j, t, key);
    RunKeepsInv(h, ss, es, j);
    WalkerMay(h, ss[j], t, key, rest);
  }

  /**
   The walk is bounded whatever the inserters do: it can answer exactly when it has made as many
   steps as entries lay before its key in its bucket at the load, and it never makes more.
   */
  lemma SearchTakesItsDepth(h: Key -> nat, ss: seq<State>, es: seq<Event>, i: nat, j: nat, t: Thread, key: Key)
    requires IsRun(h, ss, es) && i < j <= |es|
    requires es[i] == LoadHead(t, key)
    requires forall m | i < m < j :: es[m].t == t ==> es[m].Advance?
    ensures |ss[j].heads| > 0
    ensures var d := Depth(SearchedBucket(h, ss[i], Log(es[..i]), key), key);
      && Advances(es, i, j, t) <= d <= |SearchedBucket(h, ss[i], Log(es[..i]), key)|
      && (Advances(es, i, j, t) == d <==> exists r :: Enabled(h, ss[j], Answer(t, key, r)))
      && (Advances(es, i, j, t) < d <==> Enabled(h, ss[j], Advance(t)))
  {
    var rest := WalkStaysOnLoadedChain(h, ss, es, i, j, t, key);
    RunKeepsInv(h, ss, es, j);
    WalkerMay(h, ss[j], t, key, rest);
  }

  // ----- whole calls

  lemma StepKeepsContents(h: Key -> nat, s: State, e: Event, s': State, a: Address)
    requires Next(h, s, e, s') && a in s.nodes
    ensures a in s'.nodes && s'.nodes[a].key == s.nodes[a].key && s'.nodes[a].value == s.nodes[a].value
  {}

  /** A thread with a private node is inside an insert: since its Make it has only loaded, linked and retried. */
  lemma {:induction false} InserterMadeItsNode(
      h: Key -> nat, ss: seq<State>, es: seq<Event>, j: nat, t: Thread, a: Address)
    returns (m: nat)
    requires IsRun(h, ss, es) && j <= |es| && HoldsPrivate(Pc(ss[j], t), a)
    ensures a in ss[j].nodes && m < j
    ensures es[m] == Make(t, a, ss[j].nodes[a].key, ss[j].nodes[a].value)
    ensures forall k | m < k < j && es[k].t == t :: es[k].Load? || es[k].Link? || es[k].Retry?
  {
    if j == 0 {
      assert false;
    }
    var s, e, s' := ss[j - 1], es[j - 1], ss[j];
    assert Next(h, s, e, s');
    StepKeepsPrivate(h, s, e, s', t, a);
    if e.Make? && e.t == t {
      m := j - 1;
    } else {
      m := InserterMadeItsNode(h, ss, es, j - 1, t, a);
      StepKeepsContents(h, s, e, s', a);
    }
  }

  /**
   Every exchange publishes, under the node its thread made, the key and value its insert was called
   with, and no insert has more than one exchange: the log is exactly the pairs the inserts were given.
   */
  lemma PushIsItsMake(h: Key -> nat, ss: seq<State>, es: seq<Event>, p: nat) returns (m: nat)
    requires IsRun(h, ss, es) && p < |es| && es[p].Push?
    ensures m < p && es[m] == Make(es[p].t, es[p].at, es[p].key, es[p].value)
    ensures forall k | m < k < p && es[k].t == es[p].t :: es[k].Load? || es[k].Link? || es[k].Retry?
  {
    assert Next(h, ss[p], es[p], ss[p + 1]);
    m := InserterMadeItsNode(h, ss, es, p, es[p].t, es[p].at);
  }

  /**
   A thread inside an insert can always take its next step, and at its exchange it publishes its own
   pair exactly if its bucket's head is still the one its node points to.
   */
  lemma InserterIsNeverStuck(h: Key -> nat, ss: seq<State>, es: seq<Event>, j: nat, t: Thread, a: Address)
    returns (m: nat)
    requires IsRun(h, ss, es) && j <= |es| && HoldsPrivate(Pc(ss[j], t), a)
    ensures m < j && es[m].Make? && es[m].t == t && es[m].at == a && a in ss[j].nodes && |ss[j].heads| > 0
    ensures Enabled(h, ss[j], Load(t)) || Enabled(h, ss[j], Link(t)) || Enabled(h, ss[j], Retry(t))
    ensures Pc(ss[j], t).Linked? ==>
      (Enabled(h, ss[j], Push(t, a, es[m].key, es[m].value))
       <==> ss[j].heads[Index(h, |ss[j].heads|, es[m].key)] == ss[j].nodes[a].next)
  {
    RunKeepsInv(h, ss, es, j);
    m := InserterMadeItsNode(h, ss, es, j, t, a);
  }

  /** A thread that has not loaded its head yet searches for the key it was asked for. */
  lemma {:induction false} AskerWasAsked(h: Key -> nat, ss: seq<State>, es: seq<Event>, i: nat, t: Thread, key: Key)
    returns (a: nat)
    requires IsRun(h, ss, es) && i <= |es| && Pc(ss[i], t) == Asked(key)
    ensures a < i && es[a] == Ask(t, key) && forall k | a < k < i :: es[k].t != t
  {
    if i == 0 {
      assert false;
    }
    assert Next(h, ss[i - 1], es[i - 1], ss[i]);
    if es[i - 1].t == t {
      a := i - 1;
    } else {
      a := AskerWasAsked(h, ss, es, i - 1, t, key);
    }
  }

  /** A thread that walks a chain has loaded its head for that key, and since then only advanced. */
  lemma {:induction false} WalkerHasLoaded(h: Key -> nat, ss: seq<State>, es: seq<Event>, j: nat, t: Thread)
    returns (i: nat)
    requires IsRun(h, ss, es) && j <= |es| && Pc(ss[j], t).Walking?
    ensures i < j && es[i] == LoadHead(t, Pc(ss[j], t).key)
    ensures forall k | i < k < j :: es[k].t == t ==> es[k].Advance?
  {
    if j == 0 {
      assert false;
    }
    assert Next(h, ss[j - 1], es[j - 1], ss[j]);
    if es[j - 1].t == t && es[j - 1].LoadHead? {
      i := j - 1;
    } else {
      i := WalkerHasLoaded(h, ss, es, j - 1, t);
    }
  }

  ghost predicate Pushes(e: Event, key: Key) {
    e.Push? && e.key == key
  }

  /** Looking a key up in the log gives the value of its newest exchange, or nothing if there is none. */
  lemma {:induction false} LookupIsNewestPush(es: seq<Event>, i: nat, key: Key) returns (p: nat)
    requires i <= |es|
    ensures Lookup(Log(es[..i]), key).Some? ==>
      p < i && Pushes(es[p], key) && Lookup(Log(es[..i]), key) == Some(es[p].value)
      && forall k | p < k < i :: !Pushes(es[k], key)
    ensures Lookup(Log(es[..i]), key).None? ==> forall k | 0 <= k < i :: !Pushes(es[k], key)
  {
    p := 0;
    if i > 0 {
      LogExtends(es, i - 1);
      var older := Log(es[..i - 1]);
      if es[i - 1].Push? {
        var entry := Entry(es[i - 1].at, es[i - 1].key, es[i - 1].value);
        assert ([entry] + older)[1..] == older && ([entry] + older)[0] == entry;
      }
      if Pushes(es[i - 1], key) {
        p := i - 1;
      } else {
        p := LookupIsNewestPush(es, i - 1, key);
      }
    }
  }

  /** What a search for `key` that loads its head at `i` is to answer: the value of the newest exchange so far. */
  ghost predicate AnswersAsOf(es: seq<Event>, i: nat, key: Key, result: Option<Value>)
    requires i <= |es|
  {
    match result
    case None => forall k | 0 <= k < i :: !Pushes(es[k], key)
    case Some(value) =>
      exists p | 0 <= p < i ::
        Pushes(es[p], key) && es[p].value == value && forall k | p < k < i :: !Pushes(es[k], key)
  }

  /**
   Every answer belongs to one call: the thread was asked for that key, then loaded the head, then
   walked; and the answer is the value given to the newest insert of the key that was published by
   the time of that load, or nothing exactly if there was none.
   */
  lemma EveryAnswerIsNewestInsert(h: Key -> nat, ss: seq<State>, es: seq<Event>, j: nat) returns (a: nat, i: nat)
    requires IsRun(h, ss, es) && j < |es| && es[j].Answer?
    ensures a < i < j && es[a] == Ask(es[j].t, es[j].key) && es[i] == LoadHead(es[j].t, es[j].key)
    ensures forall k | a < k < j && es[k].t == es[j].t :: k == i || (i < k && es[k].Advance?)
    ensures AnswersAsOf(es, i, es[j].key, es[j].result)
  {
    var t, key := es[j].t, es[j].key;
    assert Next(h, ss[j], es[j], ss[j + 1]);
    i := WalkerHasLoaded(h, ss, es, j, t);
    assert Next(h, ss[i], es[i], ss[i + 1]);
    a := AskerWasAsked(h, ss, es, i, t, key);
    SearchAnswersAsOfItsLoad(h, ss, es, i, j, t, key, es[j].result);
    var p := LookupIsNewestPush(es, i, key);
  }

  /** No lost insert: a search that loads its head after a key's exchange finds that value, or a newer one. */
  lemma InsertedKeyIsFound(
      h: Key -> nat, ss: seq<State>, es: seq<Event>, p: nat, i: nat, j: nat, t: Thread, key: Key, result: Option<Value>)
    returns (m: nat, q: nat)
    requires IsRun(h, ss, es) && p < i < j < |es|
    requires es[p].Push? && es[p].key == key
    requires es[i] == LoadHead(t, key) && es[j] == Answer(t, key, result)
    requires forall m | i < m < j :: es[m].t == t ==> es[m].Advance?
    ensures p <= q < i && m < q && Pushes(es[q], key) && forall k | q < k < i :: !Pushes(es[k], key)
    ensures es[m] == Make(es[q].t, es[q].at, key, es[q].value) && result == Some(es[q].value)
  {
    SearchAnswersAsOfItsLoad(h, ss, es, i, j, t, key, result);
    q := LookupIsNewestPush(es, i, key);
    assert Pushes(es[p], key);
    m := PushIsItsMake(h, ss, es, q);
  }

  /** A bucket head changes only by a successful exchange on that bucket. */
  lemma {:induction false} HeadChangesOnlyByPush(
      h: Key -> nat, ss: seq<State>, es: seq<Event>, i: nat, j: nat, b: nat)
    returns (m: nat)
    requires IsRun(h, ss, es) && i <= j <= |es| && b < |ss[i].heads|
    ensures |ss[j].heads| == |ss[i].heads|
    ensures ss[j].heads[b] != ss[i].heads[b] ==>
      i <= m < j && es[m].Push? && Index(h, |ss[i].heads|, es[m].key) == b
    decreases j - i
  {
    m := i;
    if i < j {
      m := HeadChangesOnlyByPush(h, ss, es, i, j - 1, b);
      if ss[j].heads[b] != ss[j - 1].heads[b] {
        m := j - 1;
      }
    }
  }

  /** From its load on, an inserter keeps its node, its key and the head it loaded. */
  lemma {:induction false} InserterKeepsItsLoad(
      h: Key -> nat, ss: seq<State>, es: seq<Event>, i: nat, j: nat, t: Thread)
    requires IsRun(h, ss, es) && i < j <= |es|
    requires es[i] == Load(t)
    requires forall k | i < k < j :: es[k].t == t ==> es[k] == Link(t)
    ensures |ss[j].heads| == |ss[i].heads| > 0
    ensures Pc(ss[j], t).Loaded? || Pc(ss[j], t).Linked?
    ensures Pc(ss[i], t) == Made(Pc(ss[j], t).node) && Pc(ss[j], t).node in ss[i].nodes && Pc(ss[j], t).node in ss[j].nodes
    ensures ss[j].nodes[Pc(ss[j], t).node].key == ss[i].nodes[Pc(ss[j], t).node].key
    ensures Pc(ss[j], t).expected == ss[i].heads[Index(h, |ss[i].heads|, ss[i].nodes[Pc(ss[j], t).node].key)]
    decreases j - i
  {
    assert Next(h, ss[j - 1], es[j - 1], ss[j]);
    if i + 1 < j {
      InserterKeepsItsLoad(h, ss, es, i, j - 1, t);
    }
  }

  /**
   Lock-freedom of the push loop: when an inserter that loaded its head at `i` reaches its
   exchange at `j` and the head has changed, another thread has completed an insert into that
   bucket in between, so some call made progress.
   */
  lemma FailedExchangeMeansProgress(
      h: Key -> nat, ss: seq<State>, es: seq<Event>, i: nat, j: nat, t: Thread, key: Key)
    returns (m: nat)
    requires IsRun(h, ss, es) && i < j <= |es| && |ss[j].heads| > 0
    requires es[i] == Load(t) && Pc(ss[j], t).Linked?
    requires forall k | i < k < j :: es[k].t == t ==> es[k] == Link(t)
    requires Pc(ss[j], t).node in ss[j].nodes && ss[j].nodes[Pc(ss[j], t).node].key == key
    requires ss[j].heads[Index(h, |ss[j].heads|, key)] != Pc(ss[j], t).expected
    ensures i < m < j && es[m].Push? && es[m].t != t
    ensures Index(h, |ss[j].heads|, es[m].key) == Index(h, |ss[j].heads|, key)
  {
    InserterKeepsItsLoad(h, ss, es, i, j, t);
    m := HeadChangesOnlyByPush(h, ss, es, i, j, Index(h, |ss[j].heads|, key));
  }
}
