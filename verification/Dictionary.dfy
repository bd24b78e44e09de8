/** The template parameters of `atomic::dictionary_t` and how a key selects its bucket. */
module DictionaryKeys {
  type Key(==, !new)
  type Value(!new)

  function Index(h: Key -> nat, size: nat, key: Key): (b: nat)
    requires size > 0
    ensures b < size
  {
    h(key) % size
  }

  /** Keys share a bucket exactly if their hashes differ by a multiple of the number of buckets. */
  lemma SameBucketIff(h: Key -> nat, size: nat, a: Key, b: Key)
    requires size > 0
    ensures Index(h, size, a) == Index(h, size, b) <==> exists q: int :: h(a) == h(b) + q * size
    ensures h(a) < size ==> Index(h, size, a) == h(a)
  {
    var p, r, s, t := h(a) / size, h(a) % size, h(b) / size, h(b) % size;
    assert h(a) == p * size + r && h(b) == s * size + t;
    if r == t {
      assert p * size == s * size + (p - s) * size;
      assert h(a) == h(b) + (p - s) * size;
    }
    if q: int :| h(a) == h(b) + q * size {
      ResiduesAgree(r, t, s + q - p, size);
    }
    if h(a) < size {
      ResiduesAgree(r, h(a), -p, size);
    }
  }

  lemma ResiduesAgree(r: nat, t: nat, k: int, size: nat)
    requires r < size && t < size && r == t + k * size
    ensures r == t
  {
    Multiples(k, size);
  }

  lemma Multiples(k: int, size: nat)
    ensures k >= 1 ==> k * size >= size
    ensures k <= -1 ==> k * size + size <= 0
  {}
}

/**
 What `atomic::dictionary_t` means when one thread at a time uses it. A table is a sequence of
 chains, each a sequence of key/value pairs, newest first; a key lives in the chain its hash
 selects. The functions below say what each operation does to the table; the lemmas say what that
 means per key (a stack of values) and, when keys are unique, as a finite map.
 */
module DictionaryTable {
  import opened DictionaryKeys
  import opened Options

  datatype Pair = Pair(key: Key, value: Value)
  type Chain = seq<Pair>
  type Table = cs: seq<Chain> | |cs| > 0 witness [[]]

  // ----- one chain

  /** The position of the newest pair that carries `key`, or the length of the chain. */
  function Position(c: Chain, key: Key): (i: nat)
    ensures i <= |c| && (i < |c| ==> c[i].key == key) && forall j | 0 <= j < i :: c[j].key != key
  {
    if c == [] || c[0].key == key then 0 else 1 + Position(c[1..], key)
  }

  /** The values `key` carries in a chain, newest first. */
  function Values(c: Chain, key: Key): seq<Value> {
    if c == [] then []
    else if c[0].key == key then [c[0].value] + Values(c[1..], key)
    else Values(c[1..], key)
  }

  function AssignAt(c: Chain, i: nat, value: Value): Chain
    requires i < |c|
  {
    c[i := Pair(c[i].key, value)]
  }

  function DropAt(c: Chain, i: nat): Chain
    requires i < |c|
  {
    c[..i] + c[i + 1..]
  }

  // ----- the operations

  function Insert(h: Key -> nat, t: Table, key: Key, value: Value): Table {
    var b := Index(h, |t|, key);
    t[b := [Pair(key, value)] + t[b]]
  }

  function InsertOrAssign(h: Key -> nat, t: Table, key: Key, value: Value): Table {
    var b := Index(h, |t|, key);
    var i := Position(t[b], key);
    if i < |t[b]| then t[b := AssignAt(t[b], i, value)] else Insert(h, t, key, value)
  }

  /**
   The arguments are moved into the new node before the chain is searched, and the search compares
   with the argument: `left` is what moving leaves behind in it.
   */
  function TryEmplace(h: Key -> nat, t: Table, key: Key, value: Value, left: Key): (Table, bool) {
    var b := Index(h, |t|, key);
    if Position(t[b], left) < |t[b]| then (t, false) else (Insert(h, t, key, value), true)
  }

  function Remove(h: Key -> nat, t: Table, key: Key): (Table, bool) {
    var b := Index(h, |t|, key);
    var i := Position(t[b], key);
    if i < |t[b]| then (t[b := DropAt(t[b], i)], true) else (t, false)
  }

  function Clear(t: Table): Table {
    seq(|t|, _ => [])
  }

  function Find(h: Key -> nat, t: Table, key: Key): Option<Value> {
    var c := t[Index(h, |t|, key)];
    var i := Position(c, key);
    if i < |c| then Some(c[i].value) else None
  }

  function Total(cs: seq<Chain>): nat {
    if cs == [] then 0 else |cs[0]| + Total(cs[1..])
  }

  function ChainKeys(c: Chain): (ks: seq<Key>)
    ensures |ks| == |c| && forall i | 0 <= i < |c| :: ks[i] == c[i].key
  {
    seq(|c|, i requires 0 <= i < |c| => c[i].key)
  }

  function Keys(cs: seq<Chain>): seq<Key> {
    if cs == [] then [] else ChainKeys(cs[0]) + Keys(cs[1..])
  }

  // ----- what a table means

  /** The stack of values of a key: find sees its top. */
  function Stack(h: Key -> nat, t: Table, key: Key): seq<Value> {
    Values(t[Index(h, |t|, key)], key)
  }

  /** Every pair lies in the chain its key selects. */
  ghost predicate Placed(h: Key -> nat, t: Table) {
    forall b, i | 0 <= b < |t| && 0 <= i < |t[b]| :: Index(h, |t|, t[b][i].key) == b
  }

  ghost predicate UniqueKeys(h: Key -> nat, t: Table) {
    Placed(h, t) && forall key :: |Stack(h, t, key)| <= 1
  }

  ghost predicate Represents(h: Key -> nat, t: Table, m: map<Key, Value>) {
    forall key :: (key in m <==> Stack(h, t, key) != []) && (key in m ==> Stack(h, t, key)[0] == m[key])
  }

  lemma {:induction false} ValuesAtPosition(c: Chain, key: Key)
    ensures Position(c, key) < |c| <==> Values(c, key) != []
    ensures Position(c, key) < |c| ==> Values(c, key)[0] == c[Position(c, key)].value
  {
    if c != [] && c[0].key != key {
      ValuesAtPosition(c[1..], key);
    }
  }

  lemma {:induction false} ValuesAfterDrop(c: Chain, i: nat, key: Key)
    requires i < |c| && forall j | 0 <= j < i :: c[j].key != c[i].key
    ensures key == c[i].key ==> Values(c, key) != [] && Values(DropAt(c, i), key) == Values(c, key)[1..]
    ensures key != c[i].key ==> Values(DropAt(c, i), key) == Values(c, key)
  {
    if i == 0 {
      assert DropAt(c, 0) == c[1..];
    } else {
      ValuesAfterDrop(c[1..], i - 1, key);
      assert DropAt(c, i) == [c[0]] + DropAt(c[1..], i - 1);
      assert DropAt(c, i)[1..] == DropAt(c[1..], i - 1);
    }
  }

  lemma {:induction false} ValuesAfterAssign(c: Chain, i: nat, value: Value, key: Key)
    requires i < |c| && forall j | 0 <= j < i :: c[j].key != c[i].key
    ensures key != c[i].key ==> Values(AssignAt(c, i, value), key) == Values(c, key)
    ensures key == c[i].key ==>
      Values(c, key) != [] && Values(AssignAt(c, i, value), key) == [value] + Values(c, key)[1..]
  {
    if i == 0 {
      assert AssignAt(c, 0, value)[1..] == c[1..];
    } else {
      ValuesAfterAssign(c[1..], i - 1, value, key);
      assert AssignAt(c, i, value)[1..] == AssignAt(c[1..], i - 1, value);
    }
  }

  /** insert and emplace push on the key's stack and touch no other key. */
  lemma InsertPushes(h: Key -> nat, t: Table, key: Key, value: Value, other: Key)
    ensures Stack(h, Insert(h, t, key, value), other)
            == if other == key then [value] + Stack(h, t, key) else Stack(h, t, other)
    ensures Placed(h, t) ==> Placed(h, Insert(h, t, key, value))
  {
    var c := t[Index(h, |t|, key)];
    assert ([Pair(key, value)] + c)[1..] == c;
  }

  /** remove pops the key's stack, uncovering the value inserted before; it reports whether there was one. */
  lemma RemovePops(h: Key -> nat, t: Table, key: Key, other: Key)
    ensures Remove(h, t, key).1 <==> Stack(h, t, key) != []
    ensures Stack(h, Remove(h, t, key).0, other)
            == if other == key && Stack(h, t, key) != [] then Stack(h, t, key)[1..] else Stack(h, t, other)
    ensures Placed(h, t) ==> Placed(h, Remove(h, t, key).0)
  {
    var c := t[Index(h, |t|, key)];
    ValuesAtPosition(c, key);
    if Position(c, key) < |c| {
      ValuesAfterDrop(c, Position(c, key), other);
    }
  }

  /** insert_or_assign replaces the top of the key's stack, or starts one. */
  lemma AssignReplacesTop(h: Key -> nat, t: Table, key: Key, value: Value, other: Key)
    ensures Stack(h, InsertOrAssign(h, t, key, value), other)
            == if other != key then Stack(h, t, other)
               else if Stack(h, t, key) == [] then [value]
               else [value] + Stack(h, t, key)[1..]
    ensures Placed(h, t) ==> Placed(h, InsertOrAssign(h, t, key, value))
  {
    var c := t[Index(h, |t|, key)];
    ValuesAtPosition(c, key);
    if Position(c, key) < |c| {
      ValuesAfterAssign(c, Position(c, key), value, other);
    } else {
      InsertPushes(h, t, key, value, other);
    }
  }

  lemma FindSeesTop(h: Key -> nat, t: Table, key: Key)
    ensures Find(h, t, key) == if Stack(h, t, key) == [] then None else Some(Stack(h, t, key)[0])
  {
    ValuesAtPosition(t[Index(h, |t|, key)], key);
  }

  // ----- unique keys

  /**
   try_emplace keeps keys unique exactly when the key is new, or moving it left behind some key
   that the search does find in its chain. Copy-like keys (`left == key`) always qualify.
   */
  lemma TryEmplaceKeepsUniqueIff(h: Key -> nat, t: Table, key: Key, value: Value, left: Key)
    requires UniqueKeys(h, t)
    ensures UniqueKeys(h, TryEmplace(h, t, key, value, left).0)
            <==> Find(h, t, key) == None || Position(t[Index(h, |t|, key)], left) < |t[Index(h, |t|, key)]|
    ensures left == key ==> UniqueKeys(h, TryEmplace(h, t, key, value, left).0)
  {
    FindSeesTop(h, t, key);
    ValuesAtPosition(t[Index(h, |t|, key)], key);
    forall other ensures
      Stack(h, Insert(h, t, key, value), other) == (if other == key then [value] + Stack(h, t, key) else Stack(h, t, other))
      && Placed(h, Insert(h, t, key, value))
    {
      InsertPushes(h, t, key, value, other);
    }
    assert |Stack(h, Insert(h, t, key, value), key)| == 1 + |Stack(h, t, key)|;
  }

  /** A key whose move leaves a different, absent key behind is inserted a second time. */
  lemma TryEmplaceCanDuplicate(h: Key -> nat, key: Key, value: Value, left: Key)
    requires left != key
    ensures var once := TryEmplace(h, [[]], key, value, left);
            var twice := TryEmplace(h, once.0, key, value, left);
            once.1 && twice.1 && Stack(h, twice.0, key) == [value, value]
  {
    var t: Table := [[]];
    var once := Insert(h, t, key, value);
    assert Index(h, 1, key) == 0 && [Pair(key, value)] + t[0] == [Pair(key, value)];
    assert once[0] == [Pair(key, value)];
    assert Position([Pair(key, value)], left) == 1;
    InsertPushes(h, t, key, value, key);
    InsertPushes(h, once, key, value, key);
  }

  /** A new key is dropped, unheard of, when what its move leaves behind is found in its chain. */
  lemma TryEmplaceCanDrop(h: Key -> nat, key: Key, value: Value, left: Key, there: Value)
    requires left != key
    ensures var t: Table := [[Pair(left, there)]];
            UniqueKeys(h, t) && Find(h, t, key) == None
            && TryEmplace(h, t, key, value, left) == (t, false)
  {
    var t: Table := [[Pair(left, there)]];
    forall other ensures |Stack(h, t, other)| <= 1 {
      var c := t[0];
      assert Index(h, 1, other) == 0 && Values(c[1..], other) == [];
    }
  }

  datatype Operation =
    | OpInsert(key: Key, value: Value)
    | OpInsertOrAssign(key: Key, value: Value)
    | OpTryEmplace(key: Key, value: Value, left: Key)
    | OpRemove(key: Key)
    | OpClear

  /** The table after an operation, and what the operation answers; clear answers nothing. */
  function Apply(h: Key -> nat, t: Table, op: Operation): (Table, bool) {
    match op
    case OpInsert(key, value) => (Insert(h, t, key, value), true)
    case OpInsertOrAssign(key, value) => (InsertOrAssign(h, t, key, value), true)
    case OpTryEmplace(key, value, left) => TryEmplace(h, t, key, value, left)
    case OpRemove(key) => Remove(h, t, key)
    case OpClear => (Clear(t), true)
  }

  /** The map a caller expects, and the answer. */
  function ApplyToMap(m: map<Key, Value>, op: Operation): (map<Key, Value>, bool) {
    match op
    case OpInsert(key, value) => (m[key := value], true)
    case OpInsertOrAssign(key, value) => (m[key := value], true)
    case OpTryEmplace(key, value, _) => (if key in m then m else m[key := value], key !in m)
    case OpRemove(key) => (m - {key}, key in m)
    case OpClear => (map[], true)
  }

  /** A table with unique keys that has the pairs of the map. */
  ghost predicate IsMap(h: Key -> nat, t: Table, m: map<Key, Value>) {
    UniqueKeys(h, t) && Represents(h, t, m)
  }

  /**
   insert wants a new key; try_emplace wants what the move leaves behind to be found in the chain
   exactly if the key itself is.
   */
  predicate Suits(h: Key -> nat, t: Table, op: Operation) {
    match op
    case OpInsert(key, _) => Find(h, t, key) == None
    case OpTryEmplace(key, _, left) =>
      var c := t[Index(h, |t|, key)];
      Find(h, t, key) == None <==> Position(c, left) == |c|
    case _ => true
  }

  /** The operation does to the table what it does to the map, and answers the same, exactly if it suits. */
  lemma ApplyRefinesMapIff(h: Key -> nat, t: Table, m: map<Key, Value>, op: Operation)
    requires IsMap(h, t, m)
    ensures var (t', answer) := Apply(h, t, op);
            var (m', expected) := ApplyToMap(m, op);
            IsMap(h, t', m') && answer == expected <==> Suits(h, t, op)
  {
    match op {
      case OpInsert(key, value) => InsertMapsIff(h, t, m, key, value);
      case OpInsertOrAssign(key, value) => AssignMaps(h, t, m, key, value);
      case OpTryEmplace(key, value, left) =>
        InsertMapsIff(h, t, m, key, value);
        FindSeesTop(h, t, key);
      case OpRemove(key) => RemoveMaps(h, t, m, key);
      case OpClear =>
    }
  }

  lemma InsertMapsIff(h: Key -> nat, t: Table, m: map<Key, Value>, key: Key, value: Value)
    requires IsMap(h, t, m)
    ensures IsMap(h, Insert(h, t, key, value), m[key := value]) <==> Find(h, t, key) == None
    ensures key in m <==> Find(h, t, key) != None
  {
    FindSeesTop(h, t, key);
    forall other
      ensures Stack(h, Insert(h, t, key, value), other)
              == if other == key then [value] + Stack(h, t, key) else Stack(h, t, other)
      ensures Placed(h, Insert(h, t, key, value))
    {
      InsertPushes(h, t, key, value, other);
    }
    assert |Stack(h, Insert(h, t, key, value), key)| == 1 + |Stack(h, t, key)|;
  }

  lemma AssignMaps(h: Key -> nat, t: Table, m: map<Key, Value>, key: Key, value: Value)
    requires IsMap(h, t, m)
    ensures IsMap(h, InsertOrAssign(h, t, key, value), m[key := value])
  {
    forall other
      ensures Stack(h, InsertOrAssign(h, t, key, value), other) == if other == key then [value] else Stack(h, t, other)
      ensures Placed(h, InsertOrAssign(h, t, key, value))
    {
      AssignReplacesTop(h, t, key, value, other);
    }
  }

  lemma RemoveMaps(h: Key -> nat, t: Table, m: map<Key, Value>, key: Key)
    requires IsMap(h, t, m)
    ensures IsMap(h, Remove(h, t, key).0, m - {key}) && (Remove(h, t, key).1 <==> key in m)
  {
    forall other
      ensures Stack(h, Remove(h, t, key).0, other) == if other == key then [] else Stack(h, t, other)
      ensures Placed(h, Remove(h, t, key).0) && (Remove(h, t, key).1 <==> key in m)
    {
      RemovePops(h, t, key, other);
    }
  }

  function Run(h: Key -> nat, t: Table, ops: seq<Operation>): Table
    decreases |ops|
  {
    if ops == [] then t else Run(h, Apply(h, t, ops[0]).0, ops[1..])
  }

  function RunOnMap(m: map<Key, Value>, ops: seq<Operation>): map<Key, Value>
    decreases |ops|
  {
    if ops == [] then m else RunOnMap(ApplyToMap(m, ops[0]).0, ops[1..])
  }

  /** Every operation of the run suits the table it meets. */
  predicate AllSuit(h: Key -> nat, t: Table, ops: seq<Operation>)
    decreases |ops|
  {
    ops == [] || (Suits(h, t, ops[0]) && AllSuit(h, Apply(h, t, ops[0]).0, ops[1..]))
  }

  /** After every operation of the run the table is the map, and every answer is the map's. */
  ghost predicate Follows(h: Key -> nat, t: Table, m: map<Key, Value>, ops: seq<Operation>)
    decreases |ops|
  {
    IsMap(h, t, m) && (ops != [] ==>
      && Apply(h, t, ops[0]).1 == ApplyToMap(m, ops[0]).1
      && Follows(h, Apply(h, t, ops[0]).0, ApplyToMap(m, ops[0]).0, ops[1..]))
  }

  /** A run follows a finite map throughout exactly if every operation suits. */
  lemma {:induction false} RunRefinesMapIff(h: Key -> nat, t: Table, m: map<Key, Value>, ops: seq<Operation>)
    requires IsMap(h, t, m)
    ensures Follows(h, t, m, ops) <==> AllSuit(h, t, ops)
    ensures AllSuit(h, t, ops) ==> IsMap(h, Run(h, t, ops), RunOnMap(m, ops))
    decreases |ops|
  {
    if ops != [] {
      ApplyRefinesMapIff(h, t, m, ops[0]);
      var t', m' := Apply(h, t, ops[0]).0, ApplyToMap(m, ops[0]).0;
      if IsMap(h, t', m') {
        RunRefinesMapIff(h, t', m', ops[1..]);
      }
    }
  }

  /** try_emplace suits whatever it meets if moving leaves keys as they are, and so does all else but insert. */
  lemma {:induction false} CopiedKeysSuit(h: Key -> nat, t: Table, ops: seq<Operation>)
    requires forall op | op in ops :: !op.OpInsert? && (op.OpTryEmplace? ==> op.left == op.key)
    ensures AllSuit(h, t, ops)
    decreases |ops|
  {
    if ops != [] {
      assert ops[0] in ops;
      CopiedKeysSuit(h, Apply(h, t, ops[0]).0, ops[1..]);
    }
  }

  // ----- size() and keys()

  lemma {:induction false} TotalAfterUpdate(cs: seq<Chain>, b: nat, c: Chain)
    requires b < |cs|
    ensures Total(cs[b := c]) == Total(cs) - |cs[b]| + |c|
  {
    if b == 0 {
      assert cs[0 := c][1..] == cs[1..];
    } else {
      TotalAfterUpdate(cs[1..], b - 1, c);
      assert cs[b := c][1..] == cs[1..][b - 1 := c];
    }
  }

  lemma {:induction false} KeysAreTotal(cs: seq<Chain>)
    ensures |Keys(cs)| == Total(cs)
  {
    if cs != [] {
      KeysAreTotal(cs[1..]);
    }
  }

  function Count(ks: seq<Key>, key: Key): nat {
    if ks == [] then 0 else (if ks[0] == key then 1 else 0) + Count(ks[1..], key)
  }

  lemma {:induction false} CountDistributes(a: seq<Key>, b: seq<Key>, key: Key)
    ensures Count(a + b, key) == Count(a, key) + Count(b, key)
  {
    if a == [] {
      assert a + b == b;
    } else {
      CountDistributes(a[1..], b, key);
      assert (a + b)[1..] == a[1..] + b;
    }
  }

  lemma {:induction false} CountInChain(c: Chain, key: Key)
    ensures Count(ChainKeys(c), key) == |Values(c, key)|
  {
    if c != [] {
      CountInChain(c[1..], key);
      assert ChainKeys(c)[1..] == ChainKeys(c[1..]);
    }
  }

  lemma {:induction false} CountInKeys(h: Key -> nat, cs: seq<Chain>, size: nat, from: nat, key: Key)
    requires size > 0 && size == from + |cs|
    requires forall b, i | 0 <= b < |cs| && 0 <= i < |cs[b]| :: Index(h, size, cs[b][i].key) == from + b
    ensures Count(Keys(cs), key)
            == if Index(h, size, key) < from then 0 else |Values(cs[Index(h, size, key) - from], key)|
    decreases |cs|
  {
    if cs != [] {
      forall b, i | 0 <= b < |cs[1..]| && 0 <= i < |cs[1..][b]| ensures Index(h, size, cs[1..][b][i].key) == from + 1 + b {
        assert cs[1..][b] == cs[b + 1];
      }
      CountInKeys(h, cs[1..], size, from + 1, key);
      CountDistributes(ChainKeys(cs[0]), Keys(cs[1..]), key);
      CountInChain(cs[0], key);
      if Index(h, size, key) != from {
        assert Position(cs[0], key) == |cs[0]|;
        ValuesAtPosition(cs[0], key);
      }
    }
  }

  /** keys() lists every key once for each value on its stack. */
  lemma KeysListStacks(h: Key -> nat, t: Table, key: Key)
    requires Placed(h, t)
    ensures Count(Keys(t), key) == |Stack(h, t, key)|
  {
    CountInKeys(h, t, |t|, 0, key);
  }

  lemma {:induction false} DistinctCount(ks: seq<Key>, m: map<Key, Value>)
    requires forall key :: Count(ks, key) == if key in m then 1 else 0
    ensures |ks| == |m|
    decreases |ks|
  {
    if ks == [] {
      forall key ensures key !in m {
        assert Count(ks, key) == 0;
      }
      assert m == map[];
    } else {
      assert Count(ks, ks[0]) > 0;
      var m' := m - {ks[0]};
      forall key ensures Count(ks[1..], key) == if key in m' then 1 else 0 {
        assert Count(ks, key) == if key in m then 1 else 0;
      }
      DistinctCount(ks[1..], m');
      assert m.Keys == m'.Keys + {ks[0]};
      assert |m| == |m.Keys| && |m'| == |m'.Keys|;
    }
  }

  /** After any run that suits, the table's size is the map's, and keys() lists each of its keys exactly once. */
  lemma RunAgreesOnSizeAndKeys(h: Key -> nat, size: nat, ops: seq<Operation>)
    requires size > 0 && AllSuit(h, seq(size, _ => []), ops)
    ensures var t := Run(h, seq(size, _ => []), ops);
            var m := RunOnMap(map[], ops);
            && Total(t) == |m|
            && |Keys(t)| == |m|
            && forall key :: Count(Keys(t), key) == if key in m then 1 else 0
  {
    var empty: Table := seq(size, _ => []);
    RunRefinesMapIff(h, empty, map[], ops);
    var t := Run(h, empty, ops);
    var m := RunOnMap(map[], ops);
    forall key ensures Count(Keys(t), key) == if key in m then 1 else 0 {
      KeysListStacks(h, t, key);
    }
    KeysAreTotal(t);
    DistinctCount(Keys(t), m);
  }
}

/**
 The heap form: an array of bucket heads and nodes linked through `next`. Every method is tied to
 the table function of the same name.
 */
module Dictionary {
  import opened DictionaryKeys
  import opened Options
  import opened DictionaryTable

  class Node {
    const key: Key
    var value: Value
    var next: Node?

    constructor (key: Key, value: Value)
      ensures this.key == key && this.value == value && next == null
    {
      this.key, this.value, next := key, value, null;
    }
  }

  /** The pointer to the `i`-th node of a chain; past the end it is null. */
  ghost function NodeAt(ns: seq<Node>, i: nat): Node? {
    if i < |ns| then ns[i] else null
  }

  /** `head` starts a null-terminated list of the distinct nodes `ns`, which hold the pairs `c`. */
  ghost predicate IsBucket(head: Node?, ns: seq<Node>, c: Chain)
    reads ns
  {
    && |c| == |ns|
    && head == NodeAt(ns, 0)
    && (forall i {:trigger ns[i].next} | 0 <= i < |ns| :: ns[i].next == NodeAt(ns, i + 1))
    && (forall i {:trigger c[i]} | 0 <= i < |ns| :: c[i] == Pair(ns[i].key, ns[i].value))
    && (forall i, j | 0 <= i < j < |ns| :: ns[i] != ns[j])
  }

  lemma PushedBucket(made: Node, ns: seq<Node>, c: Chain)
    requires IsBucket(made.next, ns, c) && made !in ns
    ensures IsBucket(made, [made] + ns, [Pair(made.key, made.value)] + c)
  {}

  lemma AssignedBucket(head: Node?, ns: seq<Node>, c: Chain, c': Chain, i: nat)
    requires |c| == |ns| && i < |ns| && c'== AssignAt(c, i, ns[i].value) && c[i].key == ns[i].key
    requires head == NodeAt(ns, 0)
    requires forall j {:trigger ns[j].next} | 0 <= j < |ns| :: ns[j].next == NodeAt(ns, j + 1)
    requires forall j {:trigger c[j]} | 0 <= j < |ns| && j != i :: c[j] == Pair(ns[j].key, ns[j].value)
    requires forall j, k | 0 <= j < k < |ns| :: ns[j] != ns[k]
    ensures IsBucket(head, ns, c')
  {}

  /** Unlinking node `i` by redirecting whatever pointed to it. */
  lemma DroppedBucket(head: Node?, ns: seq<Node>, c: Chain, i: nat)
    requires |c| == |ns| && i < |ns|
    requires head == if i == 0 then NodeAt(ns, 1) else NodeAt(ns, 0)
    requires forall j {:trigger ns[j].next} | 0 <= j < |ns| && j + 1 != i :: ns[j].next == NodeAt(ns, j + 1)
    requires i > 0 ==> ns[i - 1].next == NodeAt(ns, i + 1)
    requires forall j {:trigger c[j]} | 0 <= j < |ns| :: c[j] == Pair(ns[j].key, ns[j].value)
    requires forall j, k | 0 <= j < k < |ns| :: ns[j] != ns[k]
    ensures IsBucket(head, ns[..i] + ns[i + 1..], DropAt(c, i))
  {
    var ns', c' := ns[..i] + ns[i + 1..], DropAt(c, i);
    forall j {:trigger ns'[j].next} | 0 <= j < |ns'| ensures ns'[j].next == NodeAt(ns', j + 1) {
      var k := if j < i then j else j + 1;
      assert ns'[j] == ns[k] && ns[k].next == NodeAt(ns, if j + 1 == i then i + 1 else k + 1);
    }
    forall j {:trigger c'[j]} | 0 <= j < |ns'| ensures c'[j] == Pair(ns'[j].key, ns'[j].value) {
      var k := if j < i then j else j + 1;
      assert ns'[j] == ns[k] && c'[j] == c[k];
    }
  }

  class Dictionary {
    const hash: Key -> nat
    const table: array<Node?>
    var count: nat
    ghost var chains: seq<seq<Node>>
    ghost var contents: seq<Chain>

    ghost function Nodes(): set<Node>
      reads this
    {
      set b, i | 0 <= b < |chains| && 0 <= i < |chains[b]| :: chains[b][i]
    }

    ghost predicate Valid()
      reads this, table, Nodes()
    {
      && table.Length == |chains| == |contents| > 0
      && (forall b | 0 <= b < |chains| :: IsBucket(table[b], chains[b], contents[b]))
      && Placed(hash, contents)
      && count == Total(contents)
    }

    constructor (size: nat, hash: Key -> nat)
      requires size > 0
      ensures Valid() && fresh(table) && Nodes() == {}
      ensures this.hash == hash && contents == seq(size, _ => [])
    {
      this.hash := hash;
      table := new Node?[size](_ => null);
      count := 0;
      chains := seq(size, _ => []);
      contents := seq(size, _ => []);
      EmptyTotal(size);
    }

    method Insert(key: Key, value: Value)
      requires Valid()
      modifies this, table
      ensures Valid() && fresh(Nodes() - old(Nodes()))
      ensures contents == DictionaryTable.Insert(hash, old(contents), key, value)
    {
      var index := Index(hash, table.Length, key);
      var made := new Node(key, value);
      made.next := table[index];
      Publish(index, made);
    }

    /** Exchange the bucket head for `made`, whose next is the current head, and count it. */
    method Publish(index: nat, made: Node)
      requires Valid() && made !in Nodes() && index == Index(hash, table.Length, made.key)
      requires made.next == table[index]
      modifies this, table
      ensures Valid() && Nodes() <= old(Nodes()) + {made}
      ensures contents == DictionaryTable.Insert(hash, old(contents), made.key, made.value)
    {
      ghost var ns, c := chains[index], contents[index];
      assert IsBucket(table[index], ns, c);
      PushedBucket(made, ns, c);
      InsertPushes(hash, contents, made.key, made.value, made.key);
      TotalAfterUpdate(contents, index, [Pair(made.key, made.value)] + c);
      table[index] := made;
      count := count + 1;
      chains := chains[index := [made] + ns];
      contents := contents[index := [Pair(made.key, made.value)] + c];
      forall b | 0 <= b < |chains| ensures IsBucket(table[b], chains[b], contents[b]) {
        assert b != index ==> old(IsBucket(table[b], chains[b], contents[b]));
      }
    }

    /** Nodes of different buckets carry keys of different buckets, so they are different nodes. */
    lemma BucketsApartFrom(d: nat, i: nat)
      requires Valid() && d < |chains| && i < |chains[d]|
      ensures forall b | 0 <= b < |chains| && b != d :: chains[d][i] !in chains[b]
    {
      forall b | 0 <= b < |chains| && b != d ensures chains[d][i] !in chains[b] {
        assert IsBucket(table[b], chains[b], contents[b]) && IsBucket(table[d], chains[d], contents[d]);
        assert contents[d][i].key == chains[d][i].key;
        assert forall j | 0 <= j < |chains[b]| :: contents[b][j].key == chains[b][j].key;
      }
    }

    /** The chain walk every operation starts with: the newest node of `key` and its predecessor. */
    method Locate(index: nat, key: Key) returns (prev: Node?, current: Node?, ghost i: nat)
      requires Valid() && index < table.Length
      ensures i == Position(contents[index], key) && |chains[index]| == |contents[index]|
      ensures current == NodeAt(chains[index], Position(contents[index], key))
      ensures i > 0 ==> prev == chains[index][i - 1]
      ensures i == 0 ==> prev == null
    {
      ghost var ns, c := chains[index], contents[index];
      assert IsBucket(table[index], ns, c);
      prev, current, i := null, table[index], 0;
      while current != null && current.key != key
        invariant i <= |ns| && current == NodeAt(ns, i)
        invariant if i > 0 then prev == ns[i - 1] else prev == null
        invariant Position(c, key) == i + Position(c[i..], key)
        decreases |ns| - i
      {
        assert c[i..][0] == c[i] && c[i..][1..] == c[i + 1..];
        prev, current, i := current, current.next, i + 1;
      }
      assert current != null ==> c[i..][0] == c[i];
    }

    method Find(key: Key) returns (r: Option<Value>)
      requires Valid()
      ensures r == DictionaryTable.Find(hash, contents, key)
    {
      var index := Index(hash, table.Length, key);
      assert IsBucket(table[index], chains[index], contents[index]);
      var _, current, i := Locate(index, key);
      assert current != null ==> contents[index][i] == Pair(current.key, current.value);
      r := if current != null then Some(current.value) else None;
    }

    method Contains(key: Key) returns (r: bool)
      requires Valid()
      ensures r == DictionaryTable.Find(hash, contents, key).Some?
    {
      var _, current, _ := Locate(Index(hash, table.Length, key), key);
      r := current != null;
    }

    method InsertOrAssign(key: Key, value: Value)
      requires Valid()
      modifies this, table, Nodes()
      ensures Valid() && fresh(Nodes() - old(Nodes()))
      ensures contents == DictionaryTable.InsertOrAssign(hash, old(contents), key, value)
    {
      var index := Index(hash, table.Length, key);
      var _, current, i := Locate(index, key);
      if current != null {
        Assign(index, i, current, value);
      } else {
        Insert(key, value);
      }
    }

    method Assign(ghost index: nat, ghost i: nat, current: Node, value: Value)
      requires Valid() && index < |chains| && i < |chains[index]| && current == chains[index][i]
      modifies `contents, current`value
      ensures Valid() && chains == old(chains) && i < |old(contents)[index]|
      ensures contents == old(contents)[index := AssignAt(old(contents)[index], i, value)]
    {
      ghost var ns, c := chains[index], contents[index];
      assert IsBucket(table[index], ns, c);
      BucketsApartFrom(index, i);
      TotalAfterUpdate(contents, index, AssignAt(c, i, value));
      assert c[i] == Pair(current.key, current.value);
      current.value := value;
      AssignedBucket(table[index], ns, c, AssignAt(c, i, value), i);
      contents := contents[index := AssignAt(c, i, value)];
      forall b | 0 <= b < |chains| ensures IsBucket(table[b], chains[b], contents[b]) {
        assert b != index ==> old(IsBucket(table[b], chains[b], contents[b]));
      }
    }

    method TryEmplace(key: Key, value: Value, left: Key) returns (placed: bool)
      requires Valid()
      modifies this, table
      ensures Valid() && fresh(Nodes() - old(Nodes()))
      ensures (contents, placed) == DictionaryTable.TryEmplace(hash, old(contents), key, value, left)
    {
      var _, current, _ := Locate(Index(hash, table.Length, key), left);
      if current != null {
        return false;
      }
      Insert(key, value);
      placed := true;
    }

    method Remove(key: Key) returns (removed: bool)
      requires Valid()
      modifies this, table, Nodes()
      ensures Valid() && Nodes() <= old(Nodes())
      ensures (contents, removed) == DictionaryTable.Remove(hash, old(contents), key)
    {
      var index := Index(hash, table.Length, key);
      var prev, current, i := Locate(index, key);
      removed := current != null;
      if removed {
        RemovePops(hash, contents, key, key);
        if prev != null {
          UnlinkAfter(index, i, prev, current);
        } else {
          UnlinkFirst(index, current);
        }
      }
    }

    method UnlinkFirst(index: nat, current: Node)
      requires Valid() && index < |chains| && 0 < |chains[index]| && current == chains[index][0]
      requires 0 < |contents[index]| && Placed(hash, contents[index := DropAt(contents[index], 0)])
      modifies this, table
      ensures Valid() && Nodes() <= old(Nodes())
      ensures contents == old(contents)[index := DropAt(old(contents)[index], 0)]
    {
      ghost var ns, c := chains[index], contents[index];
      assert IsBucket(table[index], ns, c);
      TotalAfterUpdate(contents, index, DropAt(c, 0));
      table[index] := current.next;
      count := count - 1;
      DroppedBucket(table[index], ns, c, 0);
      chains := chains[index := ns[..0] + ns[1..]];
      contents := contents[index := DropAt(c, 0)];
      forall b | 0 <= b < |chains| ensures IsBucket(table[b], chains[b], contents[b]) {
        assert b != index ==> old(IsBucket(table[b], chains[b], contents[b]));
      }
    }

    method UnlinkAfter(ghost index: nat, ghost i: nat, prev: Node, current: Node)
      requires Valid() && index < |chains| && 0 < i < |chains[index]|
      requires prev == chains[index][i - 1] && current == chains[index][i]
      requires i < |contents[index]| && Placed(hash, contents[index := DropAt(contents[index], i)])
      modifies this, prev`next
      ensures Valid() && Nodes() <= old(Nodes())
      ensures contents == old(contents)[index := DropAt(old(contents)[index], i)]
    {
      ghost var ns, c := chains[index], contents[index];
      assert IsBucket(table[index], ns, c);
      TotalAfterUpdate(contents, index, DropAt(c, i));
      BucketsApartFrom(index, i - 1);
      prev.next := current.next;
      count := count - 1;
      DroppedBucket(table[index], ns, c, i);
      chains := chains[index := ns[..i] + ns[i + 1..]];
      contents := contents[index := DropAt(c, i)];
      forall b | 0 <= b < |chains| ensures IsBucket(table[b], chains[b], contents[b]) {
        assert b != index ==> old(IsBucket(table[b], chains[b], contents[b]));
      }
    }

    method Clear()
      requires Valid()
      modifies this, table
      ensures Valid() && Nodes() == {}
      ensures contents == DictionaryTable.Clear(old(contents))
    {
      for b := 0 to table.Length
        invariant |chains| == |contents| == table.Length
        invariant forall d | 0 <= d < b :: table[d] == null
      {
        table[b] := null;
      }
      count := 0;
      chains := seq(|chains|, _ => []);
      contents := seq(|contents|, _ => []);
      EmptyTotal(|contents|);
    }

    method Size() returns (n: nat)
      requires Valid()
      ensures n == Total(contents)
    {
      n := count;
    }

    method ListKeys() returns (ks: seq<Key>)
      requires Valid()
      ensures ks == Keys(contents)
    {
      ks := [];
      for b := 0 to table.Length
        invariant Keys(contents) == ks + Keys(contents[b..])
      {
        ghost var ns, c, before := chains[b], contents[b], ks;
        assert IsBucket(table[b], ns, c);
        assert contents[b..][0] == c && contents[b..][1..] == contents[b + 1..];
        var current := table[b];
        ghost var i := 0;
        while current != null
          invariant i <= |ns| && current == NodeAt(ns, i)
          invariant ks == before + ChainKeys(c)[..i]
          decreases |ns| - i
        {
          assert c[i] == Pair(current.key, current.value);
          ks := ks + [current.key];
          current, i := current.next, i + 1;
        }
        assert ChainKeys(c)[..i] == ChainKeys(c);
      }
    }
  }

  lemma {:induction false} EmptyTotal(size: nat)
    ensures Total(seq(size, _ => [])) == 0
  {
    if size > 0 {
      EmptyTotal(size - 1);
      assert seq<Chain>(size, _ => [])[1..] == seq<Chain>(size - 1, _ => []);
    }
  }
}
