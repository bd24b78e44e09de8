/**
 When a parse succeeds, and which error a line that fails gives: read off the options a line names,
 in their order, without following the values it sets.
 */
module CommandLineFaults {
  import opened Options
  import opened CommandLine

  /** One naming of an option: in full or by letter, with the value given inline and the argument that comes next. */
  datatype Mention = Mention(name: string, op: Option<nat>, long: bool, given: Option<string>, next: Option<string>)

  function First(after: seq<string>): Option<string> {
    if after == [] then None else Some(after[0])
  }

  function Drop(after: seq<string>, n: nat): (rest: seq<string>)
    ensures |rest| <= |after|
  {
    if n <= |after| then after[n..] else []
  }

  function LetterMentions(opts: seq<Spec>, body: string, after: seq<string>): (ms: seq<Mention>)
    ensures forall m | m in ms && m.op.Some? :: m.op.value < |opts|
    decreases |body|
  {
    if body == [] then []
    else
      var op := FindCode(opts, body[0]);
      [Mention([body[0]], if op < |opts| then Some(op) else None, false, None, First(after))]
      + LetterMentions(opts, body[1..], if op < |opts| && TakesNext(opts[op]) then Drop(after, 1) else after)
  }

  function ArgumentMentions(opts: seq<Spec>, arg: string, after: seq<string>): (ms: seq<Mention>)
    requires arg != []
    ensures forall m | m in ms && m.op.Some? :: m.op.value < |opts|
  {
    var op, body := FindId(opts, Name(Body(arg))), Body(arg);
    if op < |opts| then [Mention(Name(body), Some(op), true, Inline(body), First(after))]
    else if !HasShort(arg) then [Mention(Name(body), None, true, None, None)]
    else LetterMentions(opts, body, after)
  }

  /** The options a line names, up to the terminator or the first positional. */
  function LineMentions(opts: seq<Spec>, args: seq<string>): (ms: seq<Mention>)
    ensures forall m | m in ms && m.op.Some? :: m.op.value < |opts|
    decreases |args|
  {
    if args == [] || !IsOption(args[0]) then []
    else
      ArgumentMentions(opts, args[0], args[1..])
      + LineMentions(opts, Drop(args[1..], |WantingOps(opts, args[0])|))
  }

  // ----- faults

  /** What is wrong with naming an option, when those in `used` are in use already. */
  function Fault(opts: seq<Spec>, used: set<nat>, m: Mention): Option<Error>
    requires m.op.Some? ==> m.op.value < |opts|
  {
    if m.op == None then Some(if m.long then UnknownArgument(m.name) else UnknownOption(m.name))
    else
      var spec := opts[m.op.value];
      if spec.counter then None
      else if m.op.value in used then Some(AlreadyUsed(m.name))
      else if m.given.Some? && !spec.takesValue then Some(InvalidValue(m.name))
      else if m.given == m.next == None && spec.takesValue then Some(MissingValue(m.name))
      else None
  }

  function OpsOf(ms: seq<Mention>): set<nat> {
    set m | m in ms && m.op.Some? :: m.op.value
  }

  function UsedSet(opts: seq<Spec>, vs: seq<Value>): set<nat>
    requires |vs| == |opts|
  {
    set op | 0 <= op < |opts| && Used(vs[op])
  }

  function FirstFault(opts: seq<Spec>, used: set<nat>, ms: seq<Mention>): Option<Error>
    requires forall m | m in ms && m.op.Some? :: m.op.value < |opts|
    decreases |ms|
  {
    if ms == [] then None
    else if Fault(opts, used, ms[0]).Some? then Fault(opts, used, ms[0])
    else FirstFault(opts, used + OpsOf([ms[0]]), ms[1..])
  }

  lemma OpsSplit(a: seq<Mention>, b: seq<Mention>)
    ensures OpsOf(a + b) == OpsOf(a) + OpsOf(b)
  {}

  lemma {:induction false} FirstFaultSplits(opts: seq<Spec>, used: set<nat>, a: seq<Mention>, b: seq<Mention>)
    requires forall m | m in a + b && m.op.Some? :: m.op.value < |opts|
    ensures FirstFault(opts, used, a + b)
            == if FirstFault(opts, used, a).Some? then FirstFault(opts, used, a) else FirstFault(opts, used + OpsOf(a), b)
    decreases |a|
  {
    if a == [] {
      assert a + b == b && used + OpsOf(a) == used;
    } else {
      assert (a + b)[1..] == a[1..] + b;
      OpsSplit([a[0]], a[1..]);
      assert a == [a[0]] + a[1..];
      assert used + OpsOf(a) == (used + OpsOf([a[0]])) + OpsOf(a[1..]);
      FirstFaultSplits(opts, used + OpsOf([a[0]]), a[1..], b);
    }
  }

  // ----- the parse meets the first fault

  lemma UseFaults(opts: seq<Spec>, vs: seq<Value>, op: nat, name: string, long: bool, given: Option<string>, after: seq<string>)
    requires |vs| == |opts| && op < |opts|
    ensures var t, m := Use(opts, vs, op, name, given, after), Mention(name, Some(op), long, given, First(after));
      && t.error == Fault(opts, UsedSet(opts, vs), m)
      && |t.values| == |opts|
      && (t.error == None ==> UsedSet(opts, t.values) == UsedSet(opts, vs) + {op})
      && (t.error == None ==> t.ops == if given == None && TakesNext(opts[op]) then [op] else [])
  {}

  lemma {:induction false} LettersFault(opts: seq<Spec>, vs: seq<Value>, body: string, after: seq<string>)
    requires |vs| == |opts|
    ensures var t, ms := Letters(opts, vs, body, after), LetterMentions(opts, body, after);
      && t.error == FirstFault(opts, UsedSet(opts, vs), ms)
      && (t.error == None ==> UsedSet(opts, t.values) == UsedSet(opts, vs) + OpsOf(ms))
    decreases |body|
  {
    if body != [] && FindCode(opts, body[0]) < |opts| {
      var op := FindCode(opts, body[0]);
      var t := Use(opts, vs, op, [body[0]], None, after);
      var m := Mention([body[0]], Some(op), false, None, First(after));
      UseFaults(opts, vs, op, [body[0]], false, None, after);
      if t.error == None {
        var rest := after[|t.ops|..];
        assert rest == if TakesNext(opts[op]) then Drop(after, 1) else after;
        LettersFault(opts, t.values, body[1..], rest);
        var more := LetterMentions(opts, body[1..], rest);
        assert LetterMentions(opts, body, after) == [m] + more;
        assert OpsOf([m]) == {op};
        OpsSplit([m], more);
        FirstFaultSplits(opts, UsedSet(opts, vs), [m], more);
      }
    }
  }

  lemma TakeFaults(opts: seq<Spec>, vs: seq<Value>, arg: string, after: seq<string>)
    requires |vs| == |opts| && arg != []
    ensures var t, ms := Take(opts, vs, arg, after), ArgumentMentions(opts, arg, after);
      && t.error == FirstFault(opts, UsedSet(opts, vs), ms)
      && (t.error == None ==> UsedSet(opts, t.values) == UsedSet(opts, vs) + OpsOf(ms))
  {
    var op, body := FindId(opts, Name(Body(arg))), Body(arg);
    if op < |opts| {
      UseFaults(opts, vs, op, Name(body), true, Inline(body), after);
      assert OpsOf(ArgumentMentions(opts, arg, after)) == {op};
    } else {
      LettersFault(opts, vs, body, after);
    }
  }

  lemma {:induction false} ParseFaults(opts: seq<Spec>, vs: seq<Value>, args: seq<string>)
    requires |vs| == |opts|
    ensures Parse(opts, vs, args).error == FirstFault(opts, UsedSet(opts, vs), LineMentions(opts, args))
    decreases |args|
  {
    if args != [] && IsOption(args[0]) {
      var t := Take(opts, vs, args[0], args[1..]);
      var ms := ArgumentMentions(opts, args[0], args[1..]);
      var rest := Drop(args[1..], |WantingOps(opts, args[0])|);
      TakeFaults(opts, vs, args[0], args[1..]);
      FirstFaultSplits(opts, UsedSet(opts, vs), ms, LineMentions(opts, rest));
      if t.error == None {
        TakesWanted(opts, vs, args[0], args[1..]);
        assert rest == args[1 + |t.ops|..];
        ParseFaults(opts, t.values, rest);
      }
    }
  }

  // ----- main results

  /** What is wrong with the `i`-th naming on a line, given the options used before the line and the namings before it. */
  function FaultAt(opts: seq<Spec>, used: set<nat>, ms: seq<Mention>, i: nat): Option<Error>
    requires i < |ms| && forall m | m in ms && m.op.Some? :: m.op.value < |opts|
  {
    Fault(opts, used + OpsOf(ms[..i]), ms[i])
  }

  lemma OneMoreMention(opts: seq<Spec>, used: set<nat>, ms: seq<Mention>, n: nat)
    requires n < |ms| && forall m | m in ms && m.op.Some? :: m.op.value < |opts|
    ensures FirstFault(opts, used, ms[..n + 1])
            == if FirstFault(opts, used, ms[..n]).Some? then FirstFault(opts, used, ms[..n]) else FaultAt(opts, used, ms, n)
  {
    assert ms[..n + 1] == ms[..n] + [ms[n]];
    FirstFaultSplits(opts, used, ms[..n], [ms[n]]);
  }

  /** The namings before the `n`-th are in order. */
  ghost predicate NoFaultBefore(opts: seq<Spec>, used: set<nat>, ms: seq<Mention>, n: nat)
    requires n <= |ms| && forall m | m in ms && m.op.Some? :: m.op.value < |opts|
  {
    forall j | 0 <= j < n :: FaultAt(opts, used, ms, j) == None
  }

  lemma {:induction false} NoFaultSoFar(opts: seq<Spec>, used: set<nat>, ms: seq<Mention>, n: nat)
    requires n <= |ms| && (forall m | m in ms && m.op.Some? :: m.op.value < |opts|) && NoFaultBefore(opts, used, ms, n)
    ensures FirstFault(opts, used, ms[..n]) == None
  {
    if n > 0 {
      NoFaultSoFar(opts, used, ms, n - 1);
      OneMoreMention(opts, used, ms, n - 1);
    }
  }

  lemma FaultStays(opts: seq<Spec>, used: set<nat>, ms: seq<Mention>, i: nat)
    requires i < |ms| && (forall m | m in ms && m.op.Some? :: m.op.value < |opts|)
    requires NoFaultBefore(opts, used, ms, i) && FaultAt(opts, used, ms, i).Some?
    ensures FirstFault(opts, used, ms) == FaultAt(opts, used, ms, i)
  {
    NoFaultSoFar(opts, used, ms, i);
    OneMoreMention(opts, used, ms, i);
    assert ms == ms[..i + 1] + ms[i + 1..];
    FirstFaultSplits(opts, used, ms[..i + 1], ms[i + 1..]);
  }

  /** The first of the first `n` namings that is at fault, or `n`. */
  lemma {:induction false} FirstFaultAt(opts: seq<Spec>, used: set<nat>, ms: seq<Mention>, n: nat) returns (i: nat)
    requires n <= |ms| && forall m | m in ms && m.op.Some? :: m.op.value < |opts|
    ensures i <= n && NoFaultBefore(opts, used, ms, i)
    ensures i < n ==> FaultAt(opts, used, ms, i).Some?
  {
    i := 0;
    if n > 0 {
      i := FirstFaultAt(opts, used, ms, n - 1);
      if i == n - 1 && FaultAt(opts, used, ms, i) == None {
        i := n;
      }
    }
  }

  lemma FirstFaultOf(opts: seq<Spec>, used: set<nat>, ms: seq<Mention>) returns (i: nat)
    requires forall m | m in ms && m.op.Some? :: m.op.value < |opts|
    ensures i <= |ms| && NoFaultBefore(opts, used, ms, i)
    ensures i < |ms| ==> FaultAt(opts, used, ms, i).Some?
    ensures FirstFault(opts, used, ms) == if i < |ms| then FaultAt(opts, used, ms, i) else None
  {
    i := FirstFaultAt(opts, used, ms, |ms|);
    if i < |ms| {
      FaultStays(opts, used, ms, i);
    } else {
      NoFaultSoFar(opts, used, ms, |ms|);
      assert ms[..|ms|] == ms;
    }
  }

  /** A parse ends with an error exactly if that is what is wrong with the first naming at fault. */
  lemma ParseFailsIff(opts: seq<Spec>, vs: seq<Value>, args: seq<string>, e: Error)
    requires |vs| == |opts|
    ensures var ms, used := LineMentions(opts, args), UsedSet(opts, vs);
      Parse(opts, vs, args).error == Some(e)
      <==> exists i | 0 <= i < |ms| :: NoFaultBefore(opts, used, ms, i) && FaultAt(opts, used, ms, i) == Some(e)
  {
    var ms, used := LineMentions(opts, args), UsedSet(opts, vs);
    ParseFaults(opts, vs, args);
    var i := FirstFaultOf(opts, used, ms);
    if k :| 0 <= k < |ms| && NoFaultBefore(opts, used, ms, k) && FaultAt(opts, used, ms, k) == Some(e) {
      assert k == i;
    }
  }

  /** The option is registered; it counts, or is used for the first time, a flag without a value and another with one. */
  ghost predicate IsInOrder(opts: seq<Spec>, vs: seq<Value>, ms: seq<Mention>, i: nat)
    requires |vs| == |opts| && i < |ms| && (forall m | m in ms && m.op.Some? :: m.op.value < |opts|)
  {
    && ms[i].op.Some?
    && var op := ms[i].op.value;
       || opts[op].counter
       || (&& !Used(vs[op])
           && (forall j | 0 <= j < i :: ms[j].op != Some(op))
           && if opts[op].takesValue then ms[i].given.Some? || ms[i].next.Some? else ms[i].given == None)
  }

  /** A parse succeeds exactly if everything the line names is in order. */
  lemma ParseSucceedsIff(opts: seq<Spec>, vs: seq<Value>, args: seq<string>)
    requires |vs| == |opts|
    ensures var ms := LineMentions(opts, args);
      Parse(opts, vs, args).error == None <==> forall i | 0 <= i < |ms| :: IsInOrder(opts, vs, ms, i)
  {
    var ms := LineMentions(opts, args);
    ParseFaults(opts, vs, args);
    var k := FirstFaultOf(opts, UsedSet(opts, vs), ms);
    forall i | 0 <= i < |ms| ensures IsInOrder(opts, vs, ms, i) <==> FaultAt(opts, UsedSet(opts, vs), ms, i) == None {
      InOrderIff(opts, vs, ms, i);
    }
    if k < |ms| {
      assert FaultAt(opts, UsedSet(opts, vs), ms, k) != None;
    }
  }

  lemma InOrderIff(opts: seq<Spec>, vs: seq<Value>, ms: seq<Mention>, i: nat)
    requires |vs| == |opts| && i < |ms| && (forall m | m in ms && m.op.Some? :: m.op.value < |opts|)
    ensures IsInOrder(opts, vs, ms, i) <==> FaultAt(opts, UsedSet(opts, vs), ms, i) == None
  {
    assert ms[i] in ms;
    if ms[i].op.Some? {
      var op := ms[i].op.value;
      if op in OpsOf(ms[..i]) {
        var m :| m in ms[..i] && m.op == Some(op);
        var j :| 0 <= j < i && ms[..i][j] == m;
        assert ms[j].op == Some(op);
      } else {
        forall j | 0 <= j < i ensures ms[j].op != Some(op) {
          assert ms[j] in ms[..i];
        }
      }
    }
  }

  // ----- the values a successful parse leaves

  /** What naming an option that does not count sets it to. */
  function Meant(opts: seq<Spec>, m: Mention): Value
    requires m.op.Some? && m.op.value < |opts|
  {
    if !opts[m.op.value].takesValue then Flag(true)
    else if m.given.Some? then Text(m.given.value)
    else if m.next.Some? then Text(m.next.value)
    else Text("")
  }

  /** The options named hold what their namings mean, counters apart, and the others what they held. */
  ghost predicate Sets(opts: seq<Spec>, vs: seq<Value>, ws: seq<Value>, ms: seq<Mention>)
    requires |vs| == |ws| == |opts| && (forall m | m in ms && m.op.Some? :: m.op.value < |opts|)
  {
    && (forall m | m in ms && m.op.Some? && !opts[m.op.value].counter :: ws[m.op.value] == Meant(opts, m))
    && (forall op | 0 <= op < |opts| && op !in OpsOf(ms) :: ws[op] == vs[op])
  }

  lemma SetsAppend(opts: seq<Spec>, vs: seq<Value>, us: seq<Value>, ws: seq<Value>, a: seq<Mention>, b: seq<Mention>)
    requires |vs| == |us| == |ws| == |opts| && (forall m | m in a + b && m.op.Some? :: m.op.value < |opts|)
    requires Sets(opts, vs, us, a) && Sets(opts, us, ws, b) && Keeps(opts, us, ws)
    ensures Sets(opts, vs, ws, a + b)
  {
    OpsSplit(a, b);
    forall m | m in a + b && m.op.Some? && !opts[m.op.value].counter ensures ws[m.op.value] == Meant(opts, m) {
      if m in a {
        assert us[m.op.value] == Meant(opts, m);
      }
    }
  }

  lemma UseSets(opts: seq<Spec>, vs: seq<Value>, op: nat, name: string, long: bool, given: Option<string>, after: seq<string>)
    requires |vs| == |opts| && op < |opts| && Use(opts, vs, op, name, given, after).error == None
    ensures Sets(opts, vs, Use(opts, vs, op, name, given, after).values, [Mention(name, Some(op), long, given, First(after))])
  {
    var m := Mention(name, Some(op), long, given, First(after));
    assert m in [m] && OpsOf([m]) == {op};
  }

  lemma {:induction false} LettersSet(opts: seq<Spec>, vs: seq<Value>, body: string, after: seq<string>)
    requires |vs| == |opts| && Letters(opts, vs, body, after).error == None
    ensures Sets(opts, vs, Letters(opts, vs, body, after).values, LetterMentions(opts, body, after))
    decreases |body|
  {
    if body != [] {
      var op := FindCode(opts, body[0]);
      var t := Use(opts, vs, op, [body[0]], None, after);
      var rest := after[|t.ops|..];
      var u := Letters(opts, t.values, body[1..], rest);
      UseFaults(opts, vs, op, [body[0]], false, None, after);
      assert rest == if TakesNext(opts[op]) then Drop(after, 1) else after;
      UseSets(opts, vs, op, [body[0]], false, None, after);
      LettersSet(opts, t.values, body[1..], rest);
      LettersKeepAndFit(opts, t.values, body[1..], rest);
      SetsAppend(opts, vs, t.values, u.values, [Mention([body[0]], Some(op), false, None, First(after))],
                 LetterMentions(opts, body[1..], rest));
    }
  }

  lemma TakeSets(opts: seq<Spec>, vs: seq<Value>, arg: string, after: seq<string>)
    requires |vs| == |opts| && arg != [] && Take(opts, vs, arg, after).error == None
    ensures Sets(opts, vs, Take(opts, vs, arg, after).values, ArgumentMentions(opts, arg, after))
  {
    var op, body := FindId(opts, Name(Body(arg))), Body(arg);
    if op < |opts| {
      UseSets(opts, vs, op, Name(body), true, Inline(body), after);
    } else {
      LettersSet(opts, vs, body, after);
    }
  }

  /** A parse that succeeds sets every flag it names, gives every other option its text, and touches nothing else. */
  lemma {:induction false} ParseSets(opts: seq<Spec>, vs: seq<Value>, args: seq<string>)
    requires |vs| == |opts| && Parse(opts, vs, args).error == None
    ensures Sets(opts, vs, Parse(opts, vs, args).values, LineMentions(opts, args))
    decreases |args|
  {
    if args != [] && IsOption(args[0]) {
      var t := Take(opts, vs, args[0], args[1..]);
      var rest := args[1 + |t.ops|..];
      TakesWanted(opts, vs, args[0], args[1..]);
      assert rest == Drop(args[1..], |WantingOps(opts, args[0])|);
      TakeSets(opts, vs, args[0], args[1..]);
      ParseSets(opts, t.values, rest);
      ParseKeeps(opts, t.values, rest);
      SetsAppend(opts, vs, t.values, Parse(opts, t.values, rest).values, ArgumentMentions(opts, args[0], args[1..]),
                 LineMentions(opts, rest));
    }
  }
}
