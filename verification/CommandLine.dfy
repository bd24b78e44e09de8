/** What a command line means for a registered list of options. */
module CommandLine {
  import opened Options

  const WORD: int := 0x1_0000_0000

  /** A registered option: its long name, its letter, and whether it counts or takes a value. */
  datatype Spec = Spec(id: Option<string>, code: Option<char>, counter: bool, takesValue: bool)

  datatype Value = Flag(on: bool) | Count(n: nat) | Text(text: string)

  datatype Error =
    | ArgumentsMissing
    | UnknownArgument(name: string)
    | UnknownOption(name: string)
    | AlreadyUsed(name: string)
    | InvalidValue(name: string)
    | MissingValue(name: string)

  /** What an argument was taken for; a value is taken by option number `op`. */
  datatype Role = Opt | Val(op: nat) | Terminator | Positional

  predicate Used(v: Value) {
    !v.Flag? || v.on
  }

  function CountOf(v: Value): nat {
    if v.Count? then v.n else 0
  }

  // ----- finding options

  /** The first option with that name, or the number of options. */
  function FindId(opts: seq<Spec>, name: string): (k: nat)
    ensures k <= |opts| && (k < |opts| ==> opts[k].id == Some(name))
  {
    if opts == [] || opts[0].id == Some(name) then 0 else 1 + FindId(opts[1..], name)
  }

  function FindCode(opts: seq<Spec>, c: char): (k: nat)
    ensures k <= |opts| && (k < |opts| ==> opts[k].code == Some(c))
  {
    if opts == [] || opts[0].code == Some(c) then 0 else 1 + FindCode(opts[1..], c)
  }

  /** Where `c` first occurs in `s`, or the length of `s`. */
  function Find(s: string, c: char): (i: nat)
    ensures i <= |s|
  {
    if s == [] || s[0] == c then 0 else 1 + Find(s[1..], c)
  }

  /** The searches find the first place, and fail only if there is none. */
  lemma {:induction false} FindsFirst(opts: seq<Spec>, name: string, c: char)
    ensures forall j | 0 <= j < FindId(opts, name) :: opts[j].id != Some(name)
    ensures forall j | 0 <= j < FindCode(opts, c) :: opts[j].code != Some(c)
  {
    if opts != [] {
      FindsFirst(opts[1..], name, c);
      assert forall j | 0 < j < |opts| :: opts[j] == opts[1..][j - 1];
    }
  }

  lemma {:induction false} FindsFirstChar(s: string, c: char)
    ensures c !in s[..Find(s, c)] && (Find(s, c) < |s| ==> s[Find(s, c)] == c)
  {
    if s != [] && s[0] != c {
      FindsFirstChar(s[1..], c);
      assert s[..Find(s, c)] == [s[0]] + s[1..][..Find(s[1..], c)];
    }
  }

  // ----- one argument

  /** An argument's effect: the values it leaves, the options that took the next arguments, an error. */
  datatype Taken = Taken(values: seq<Value>, ops: seq<nat>, error: Option<Error>)

  function Fail(vs: seq<Value>, e: Error): Taken {
    Taken(vs, [], Some(e))
  }

  /** One use of option `op`, called `name`, with the value given inline if any. */
  function Use(opts: seq<Spec>, vs: seq<Value>, op: nat, name: string, given: Option<string>, after: seq<string>): Taken
    requires |vs| == |opts| && op < |opts|
  {
    if opts[op].counter then
      Taken(vs[op := Count(if vs[op].Flag? then 1 else Wrapped(CountOf(vs[op]) + 1))], [], None)
    else if Used(vs[op]) then Fail(vs, AlreadyUsed(name))
    else if !opts[op].takesValue then
      if given.Some? then Fail(vs, InvalidValue(name)) else Taken(vs[op := Flag(true)], [], None)
    else if given.Some? then Taken(vs[op := Text(given.value)], [], None)
    else if after == [] then Fail(vs, MissingValue(name))
    else Taken(vs[op := Text(after[0])], [op], None)
  }

  /** The letters of an argument, one after the other. */
  function Letters(opts: seq<Spec>, vs: seq<Value>, body: string, after: seq<string>): (t: Taken)
    requires |vs| == |opts|
    ensures |t.values| == |opts| && |t.ops| <= |after| && forall op | op in t.ops :: op < |opts|
    decreases |body|
  {
    if body == [] then Taken(vs, [], None)
    else
      var op := FindCode(opts, body[0]);
      if op == |opts| then Fail(vs, UnknownOption([body[0]]))
      else
        var t := Use(opts, vs, op, [body[0]], None, after);
        if t.error.Some? then t
        else
          var u := Letters(opts, t.values, body[1..], after[|t.ops|..]);
          u.(ops := t.ops + u.ops)
  }

  function Body(arg: string): string
    requires arg != []
  {
    if |arg| > 1 && arg[1] == '-' then arg[2..] else arg[1..]
  }

  predicate HasShort(arg: string) {
    !(|arg| > 1 && arg[1] == '-')
  }

  function Name(body: string): string {
    body[..Find(body, '=')]
  }

  function Inline(body: string): Option<string> {
    if Find(body, '=') < |body| then Some(body[Find(body, '=') + 1..]) else None
  }

  function Take(opts: seq<Spec>, vs: seq<Value>, arg: string, after: seq<string>): (t: Taken)
    requires |vs| == |opts| && arg != []
    ensures |t.values| == |opts| && |t.ops| <= |after| && forall op | op in t.ops :: op < |opts|
  {
    var body := Body(arg);
    var op := FindId(opts, Name(body));
    if op < |opts| then Use(opts, vs, op, Name(body), Inline(body), after)
    else if !HasShort(arg) then Fail(vs, UnknownArgument(Name(body)))
    else Letters(opts, vs, body, after)
  }

  // ----- the whole line

  datatype Outcome = Outcome(values: seq<Value>, positionals: seq<string>, error: Option<Error>)

  predicate IsTerminator(arg: string) {
    arg == "--" || arg == "-"
  }

  predicate IsOption(arg: string) {
    !IsTerminator(arg) && arg != [] && arg[0] == '-'
  }

  function Parse(opts: seq<Spec>, vs: seq<Value>, args: seq<string>): (o: Outcome)
    requires |vs| == |opts|
    ensures |o.values| == |opts|
    decreases |args|
  {
    if args == [] then Outcome(vs, [], None)
    else if IsTerminator(args[0]) then Outcome(vs, args[1..], None)
    else if !IsOption(args[0]) then Outcome(vs, args, None)
    else
      var t := Take(opts, vs, args[0], args[1..]);
      if t.error.Some? then Outcome(t.values, [], t.error)
      else Parse(opts, t.values, args[1 + |t.ops|..])
  }

  // ----- the roles of the arguments

  function Vals(ops: seq<nat>): seq<Role> {
    if ops == [] then [] else [Val(ops[0])] + Vals(ops[1..])
  }

  function Rest(n: nat): seq<Role> {
    if n == 0 then [] else [Positional] + Rest(n - 1)
  }

  /** What each argument of a line is taken for; an error ends the list. */
  function Roles(opts: seq<Spec>, vs: seq<Value>, args: seq<string>): seq<Role>
    requires |vs| == |opts|
    decreases |args|
  {
    if args == [] then []
    else if IsTerminator(args[0]) then [Terminator] + Rest(|args| - 1)
    else if !IsOption(args[0]) then Rest(|args|)
    else
      var t := Take(opts, vs, args[0], args[1..]);
      [Opt] + if t.error.Some? then [] else Vals(t.ops) + Roles(opts, t.values, args[1 + |t.ops|..])
  }

  // ----- what a use leaves alone

  /** No option is taken back, and one that is no counter keeps the value it has. */
  predicate Keeps(opts: seq<Spec>, vs: seq<Value>, ws: seq<Value>)
    requires |vs| == |ws| == |opts|
  {
    forall op | 0 <= op < |opts| && Used(vs[op]) :: Used(ws[op]) && (!opts[op].counter ==> ws[op] == vs[op])
  }

  /** Every letter names a registered option that is in use. */
  predicate LettersFit(opts: seq<Spec>, ws: seq<Value>, body: string)
    requires |ws| == |opts|
    decreases |body|
  {
    body == []
    || (FindCode(opts, body[0]) < |opts| && Used(ws[FindCode(opts, body[0])]) && LettersFit(opts, ws, body[1..]))
  }

  /**
   An argument read as an option: it names a registered option, or with one dash the letters of some;
   each is in use, and a value given inline is the value of an option that takes one, or a counter's.
   */
  predicate Fits(opts: seq<Spec>, ws: seq<Value>, arg: string)
    requires |ws| == |opts| && arg != []
  {
    var op := FindId(opts, Name(Body(arg)));
    if op == |opts| then HasShort(arg) && LettersFit(opts, ws, Body(arg))
    else
      Used(ws[op])
      && (Inline(Body(arg)).Some? && !opts[op].counter ==>
            opts[op].takesValue && ws[op] == Text(Inline(Body(arg)).value))
  }

  lemma {:induction false} LettersStillFit(opts: seq<Spec>, vs: seq<Value>, ws: seq<Value>, body: string)
    requires |vs| == |ws| == |opts| && Keeps(opts, vs, ws) && LettersFit(opts, vs, body)
    ensures LettersFit(opts, ws, body)
  {
    if body != [] {
      LettersStillFit(opts, vs, ws, body[1..]);
    }
  }

  lemma StillFits(opts: seq<Spec>, vs: seq<Value>, ws: seq<Value>, arg: string)
    requires |vs| == |ws| == |opts| && Keeps(opts, vs, ws) && arg != [] && Fits(opts, vs, arg)
    ensures Fits(opts, ws, arg)
  {
    if FindId(opts, Name(Body(arg))) == |opts| {
      LettersStillFit(opts, vs, ws, Body(arg));
    }
  }

  lemma {:induction false} LettersKeepAndFit(opts: seq<Spec>, vs: seq<Value>, body: string, after: seq<string>)
    requires |vs| == |opts|
    ensures var t := Letters(opts, vs, body, after);
      Keeps(opts, vs, t.values) && (t.error.None? ==> LettersFit(opts, t.values, body))
    decreases |body|
  {
    if body != [] && FindCode(opts, body[0]) < |opts| {
      var t := Use(opts, vs, FindCode(opts, body[0]), [body[0]], None, after);
      if t.error.None? {
        LettersKeepAndFit(opts, t.values, body[1..], after[|t.ops|..]);
      }
    }
  }

  lemma TakeFits(opts: seq<Spec>, vs: seq<Value>, arg: string, after: seq<string>)
    requires |vs| == |opts| && arg != [] && Take(opts, vs, arg, after).error.None?
    ensures Fits(opts, Take(opts, vs, arg, after).values, arg)
  {
    LettersKeepAndFit(opts, vs, Body(arg), after);
  }

  /** Whether one use of an option without an inline value takes the next argument. */
  predicate TakesNext(spec: Spec) {
    spec.takesValue && !spec.counter
  }

  function LetterOps(opts: seq<Spec>, body: string): seq<nat> {
    if body == [] then []
    else
      var op := FindCode(opts, body[0]);
      (if op < |opts| && TakesNext(opts[op]) then [op] else []) + LetterOps(opts, body[1..])
  }

  /** The options an argument names that want the next arguments for values, in the order of their naming. */
  function WantingOps(opts: seq<Spec>, arg: string): seq<nat>
    requires arg != []
  {
    var op := FindId(opts, Name(Body(arg)));
    if op == |opts| then LetterOps(opts, Body(arg))
    else if TakesNext(opts[op]) && Inline(Body(arg)).None? then [op]
    else []
  }

  lemma {:induction false} LettersTakeWanted(opts: seq<Spec>, vs: seq<Value>, body: string, after: seq<string>)
    requires |vs| == |opts| && Letters(opts, vs, body, after).error.None?
    ensures Letters(opts, vs, body, after).ops == LetterOps(opts, body)
    decreases |body|
  {
    if body != [] {
      var t := Use(opts, vs, FindCode(opts, body[0]), [body[0]], None, after);
      LettersTakeWanted(opts, t.values, body[1..], after[|t.ops|..]);
    }
  }

  lemma TakesWanted(opts: seq<Spec>, vs: seq<Value>, arg: string, after: seq<string>)
    requires |vs| == |opts| && arg != [] && Take(opts, vs, arg, after).error.None?
    ensures Take(opts, vs, arg, after).ops == WantingOps(opts, arg)
  {
    if FindId(opts, Name(Body(arg))) == |opts| {
      LettersTakeWanted(opts, vs, Body(arg), after);
    }
  }

  predicate Landed(opts: seq<Spec>, ws: seq<Value>, ops: seq<nat>, after: seq<string>)
    requires |ws| == |opts| && |ops| <= |after|
  {
    forall i | 0 <= i < |ops| ::
      ops[i] < |opts| && opts[ops[i]].takesValue && !opts[ops[i]].counter && ws[ops[i]] == Text(after[i])
  }

  lemma {:induction false} LettersLand(opts: seq<Spec>, vs: seq<Value>, body: string, after: seq<string>)
    requires |vs| == |opts|
    ensures var t := Letters(opts, vs, body, after);
      Keeps(opts, vs, t.values) && (t.error.None? ==> Landed(opts, t.values, t.ops, after))
    decreases |body|
  {
    if body != [] && FindCode(opts, body[0]) < |opts| {
      var t := Use(opts, vs, FindCode(opts, body[0]), [body[0]], None, after);
      LettersKeepAndFit(opts, vs, body, after);
      if t.error.None? {
        LettersLand(opts, t.values, body[1..], after[|t.ops|..]);
      }
    }
  }

  lemma TakeLands(opts: seq<Spec>, vs: seq<Value>, arg: string, after: seq<string>)
    requires |vs| == |opts| && arg != []
    ensures var t := Take(opts, vs, arg, after);
      Keeps(opts, vs, t.values) && (t.error.None? ==> Landed(opts, t.values, t.ops, after))
  {
    LettersLand(opts, vs, Body(arg), after);
  }

  lemma {:induction false} ParseKeeps(opts: seq<Spec>, vs: seq<Value>, args: seq<string>)
    requires |vs| == |opts|
    ensures Keeps(opts, vs, Parse(opts, vs, args).values)
    decreases |args|
  {
    if args != [] && IsOption(args[0]) {
      var t := Take(opts, vs, args[0], args[1..]);
      TakeLands(opts, vs, args[0], args[1..]);
      if t.error.None? {
        ParseKeeps(opts, t.values, args[1 + |t.ops|..]);
      }
    }
  }

  // ----- main result: every argument has one role

  /**
   The roles fit the arguments: options first, each followed by the values of the options it names that
   want one, then perhaps a terminator, then the positionals.
   */
  ghost predicate Explained(
      opts: seq<Spec>, ws: seq<Value>, args: seq<string>, roles: seq<Role>, positionals: seq<string>)
    requires |ws| == |opts|
    decreases |args|
  {
    if args == [] || roles == [] then args == [] && roles == [] && positionals == []
    else
      match roles[0]
      case Opt =>
        IsOption(args[0]) && Fits(opts, ws, args[0])
        && var ops := WantingOps(opts, args[0]);
           && |ops| < |args| && 1 + |ops| <= |roles| && roles[1..1 + |ops|] == Vals(ops)
           && Landed(opts, ws, ops, args[1..])
           && Explained(opts, ws, args[1 + |ops|..], roles[1 + |ops|..], positionals)
      case Val(_) => false
      case Terminator => IsTerminator(args[0]) && roles[1..] == Rest(|args| - 1) && positionals == args[1..]
      case Positional => !IsOption(args[0]) && !IsTerminator(args[0]) && roles == Rest(|args|) && positionals == args
  }

  lemma {:induction false} ValsIsLong(ops: seq<nat>)
    ensures |Vals(ops)| == |ops|
  {
    if ops != [] {
      ValsIsLong(ops[1..]);
    }
  }

  lemma OptionIsExplained(
      opts: seq<Spec>, ws: seq<Value>, args: seq<string>, ops: seq<nat>, roles: seq<Role>, positionals: seq<string>)
    requires |ws| == |opts| && args != [] && IsOption(args[0]) && Fits(opts, ws, args[0])
    requires ops == WantingOps(opts, args[0]) && |ops| < |args| && Landed(opts, ws, ops, args[1..])
    requires Explained(opts, ws, args[1 + |ops|..], roles, positionals)
    ensures Explained(opts, ws, args, [Opt] + (Vals(ops) + roles), positionals)
  {
    var all := [Opt] + (Vals(ops) + roles);
    ValsIsLong(ops);
    assert all[1..1 + |ops|] == Vals(ops) && all[1 + |ops|..] == roles;
  }

  /**
   A parse that succeeds takes every argument once: as an option that is registered and now in use, as
   the value of an option named just before that ends up with it, as the terminator, or as a positional.
   */
  lemma {:induction false} EveryArgumentHasOneRole(opts: seq<Spec>, vs: seq<Value>, args: seq<string>)
    requires |vs| == |opts| && Parse(opts, vs, args).error.None?
    ensures var o := Parse(opts, vs, args); Explained(opts, o.values, args, Roles(opts, vs, args), o.positionals)
    decreases |args|
  {
    if args != [] && IsOption(args[0]) {
      var after := args[1..];
      var t := Take(opts, vs, args[0], after);
      var rest := args[1 + |t.ops|..];
      var o := Parse(opts, t.values, rest);
      TakeLands(opts, vs, args[0], after);
      TakesWanted(opts, vs, args[0], after);
      ParseKeeps(opts, t.values, rest);
      TakeFits(opts, vs, args[0], after);
      StillFits(opts, t.values, o.values, args[0]);
      EveryArgumentHasOneRole(opts, t.values, rest);
      OptionIsExplained(opts, o.values, args, t.ops, Roles(opts, t.values, rest), o.positionals);
    }
  }

  lemma {:induction false} ExplainedIsOneToOne(
      opts: seq<Spec>, ws: seq<Value>, args: seq<string>, roles: seq<Role>, positionals: seq<string>)
    requires |ws| == |opts| && Explained(opts, ws, args, roles, positionals)
    ensures |roles| == |args|
    decreases |args|
  {
    if args != [] && roles != [] {
      if roles[0].Opt? {
        var ops := WantingOps(opts, args[0]);
        ExplainedIsOneToOne(opts, ws, args[1 + |ops|..], roles[1 + |ops|..], positionals);
      } else {
        RestIsLong(|args|);
        RestIsLong(|args| - 1);
      }
    }
  }

  lemma {:induction false} RestIsLong(n: nat)
    ensures |Rest(n)| == n && forall r | r in Rest(n) :: r == Positional
  {
    if n > 0 {
      RestIsLong(n - 1);
    }
  }

  // ----- main result: counting

  /** How often the letters of an argument name option `op`. */
  function LetterMentions(opts: seq<Spec>, op: nat, body: string): nat {
    if body == [] then 0
    else (if FindCode(opts, body[0]) == op then 1 else 0) + LetterMentions(opts, op, body[1..])
  }

  function Mentions(opts: seq<Spec>, op: nat, arg: string): nat {
    if arg == [] then 0 else
    var k := FindId(opts, Name(Body(arg)));
    if k < |opts| then (if k == op then 1 else 0) else LetterMentions(opts, op, Body(arg))
  }

  /** How often the arguments read as options name option `op`, in full or by letter. */
  function Occurrences(opts: seq<Spec>, op: nat, args: seq<string>, roles: seq<Role>): nat {
    if args == [] || roles == [] then 0
    else (if roles[0] == Opt then Mentions(opts, op, args[0]) else 0) + Occurrences(opts, op, args[1..], roles[1..])
  }

  /** What `n` uses of an option make of its value: counted for a counter, at most one otherwise. */
  predicate Tally(spec: Spec, before: Value, after: Value, n: nat) {
    if spec.counter then
      after == if n == 0 then before else Count(Wrapped(CountOf(before) + n))
    else
      (n == 0 && after == before) || (n == 1 && !Used(before) && Used(after))
  }

  function Wrapped(n: nat): nat {
    if n < WORD then n else n % WORD
  }

  lemma WrapTwice(a: nat, m: nat, n: nat)
    ensures Wrapped(Wrapped(a + m) + n) == Wrapped(a + m + n)
  {
    var q, r := (a + m) / WORD, (a + m) % WORD;
    var p, s := (r + n) / WORD, (r + n) % WORD;
    assert a + m + n == (q + p) * WORD + s;
  }

  lemma TallyAdds(spec: Spec, a: Value, b: Value, c: Value, m: nat, n: nat, total: nat)
    requires Tally(spec, a, b, m) && Tally(spec, b, c, n) && total == m + n
    ensures Tally(spec, a, c, total)
  {
    WrapTwice(CountOf(a), m, n);
  }

  lemma UseTallies(
      opts: seq<Spec>, vs: seq<Value>, k: nat, name: string, given: Option<string>, after: seq<string>, op: nat)
    requires |vs| == |opts| && k < |opts| && op < |opts|
    requires Use(opts, vs, k, name, given, after).error.None?
    ensures Tally(opts[op], vs[op], Use(opts, vs, k, name, given, after).values[op], if k == op then 1 else 0)
  {}

  lemma {:induction false} LettersTally(opts: seq<Spec>, vs: seq<Value>, body: string, after: seq<string>, op: nat)
    requires |vs| == |opts| && op < |opts| && Letters(opts, vs, body, after).error.None?
    ensures Tally(opts[op], vs[op], Letters(opts, vs, body, after).values[op], LetterMentions(opts, op, body))
    decreases |body|
  {
    if body != [] {
      var k := FindCode(opts, body[0]);
      var t := Use(opts, vs, k, [body[0]], None, after);
      var u := Letters(opts, t.values, body[1..], after[|t.ops|..]);
      UseTallies(opts, vs, k, [body[0]], None, after, op);
      LettersTally(opts, t.values, body[1..], after[|t.ops|..], op);
      TallyAdds(opts[op], vs[op], t.values[op], u.values[op], if k == op then 1 else 0,
                LetterMentions(opts, op, body[1..]), LetterMentions(opts, op, body));
    }
  }

  lemma TakeTallies(opts: seq<Spec>, vs: seq<Value>, arg: string, after: seq<string>, op: nat)
    requires |vs| == |opts| && op < |opts| && arg != [] && Take(opts, vs, arg, after).error.None?
    ensures Tally(opts[op], vs[op], Take(opts, vs, arg, after).values[op], Mentions(opts, op, arg))
  {
    var k := FindId(opts, Name(Body(arg)));
    if k < |opts| {
      UseTallies(opts, vs, k, Name(Body(arg)), Inline(Body(arg)), after, op);
    } else {
      LettersTally(opts, vs, Body(arg), after, op);
    }
  }

  lemma {:induction false} NoMentions(opts: seq<Spec>, op: nat, args: seq<string>, n: nat)
    ensures Occurrences(opts, op, args, Rest(n)) == 0
    decreases n
  {
    if n > 0 && args != [] {
      assert Rest(n)[1..] == Rest(n - 1);
      NoMentions(opts, op, args[1..], n - 1);
    }
  }

  lemma {:induction false} OccurrencesAfterValues(
      opts: seq<Spec>, op: nat, args: seq<string>, ops: seq<nat>, roles: seq<Role>)
    requires |ops| <= |args|
    ensures Occurrences(opts, op, args, Vals(ops) + roles) == Occurrences(opts, op, args[|ops|..], roles)
    decreases |ops|
  {
    if ops == [] {
      assert Vals(ops) + roles == roles && args[|ops|..] == args;
    } else {
      assert args[1..][|ops[1..]|..] == args[|ops|..];
      OccurrencesAfterValues(opts, op, args[1..], ops[1..], roles);
      assert Vals(ops) + roles == [Val(ops[0])] + (Vals(ops[1..]) + roles);
      assert (Vals(ops) + roles)[1..] == Vals(ops[1..]) + roles;
    }
  }

  lemma OccurrencesOfNoOption(opts: seq<Spec>, op: nat, vs: seq<Value>, args: seq<string>)
    requires |vs| == |opts| && (args == [] || !IsOption(args[0]))
    ensures Occurrences(opts, op, args, Roles(opts, vs, args)) == 0
  {
    NoMentions(opts, op, args, |args|);
    if args != [] {
      NoMentions(opts, op, args[1..], |args| - 1);
      assert ([Terminator] + Rest(|args| - 1))[1..] == Rest(|args| - 1);
    }
  }

  lemma OccurrencesOfOption(opts: seq<Spec>, op: nat, vs: seq<Value>, args: seq<string>)
    requires |vs| == |opts| && args != [] && IsOption(args[0])
    requires Take(opts, vs, args[0], args[1..]).error.None?
    ensures var t := Take(opts, vs, args[0], args[1..]);
      var rest := args[1 + |t.ops|..];
      Occurrences(opts, op, args, Roles(opts, vs, args))
      == Mentions(opts, op, args[0]) + Occurrences(opts, op, rest, Roles(opts, t.values, rest))
  {
    var t := Take(opts, vs, args[0], args[1..]);
    var rest := args[1 + |t.ops|..];
    assert args[1..][|t.ops|..] == rest;
    OccurrencesAfterValues(opts, op, args[1..], t.ops, Roles(opts, t.values, rest));
    assert Roles(opts, vs, args)[1..] == Vals(t.ops) + Roles(opts, t.values, rest);
  }

  /**
   Each counter is at its earlier count plus its occurrences in long and short spellings, modulo the
   width, and each other option was used at most once in all.
   */
  ghost predicate Counted(opts: seq<Spec>, vs: seq<Value>, args: seq<string>, op: nat)
    requires |vs| == |opts| && op < |opts|
  {
    Tally(opts[op], vs[op], Parse(opts, vs, args).values[op], Occurrences(opts, op, args, Roles(opts, vs, args)))
  }

  lemma ParseGoesOn(opts: seq<Spec>, vs: seq<Value>, args: seq<string>)
    requires |vs| == |opts| && args != [] && IsOption(args[0])
    requires Take(opts, vs, args[0], args[1..]).error.None?
    ensures var t := Take(opts, vs, args[0], args[1..]);
      Parse(opts, vs, args) == Parse(opts, t.values, args[1 + |t.ops|..])
  {}

  lemma CountedAfterOption(opts: seq<Spec>, vs: seq<Value>, args: seq<string>, op: nat)
    requires |vs| == |opts| && op < |opts| && args != [] && IsOption(args[0])
    requires Take(opts, vs, args[0], args[1..]).error.None?
    requires var t := Take(opts, vs, args[0], args[1..]); Counted(opts, t.values, args[1 + |t.ops|..], op)
    ensures Counted(opts, vs, args, op)
  {
    var t := Take(opts, vs, args[0], args[1..]);
    var rest := args[1 + |t.ops|..];
    var m, n := Mentions(opts, op, args[0]), Occurrences(opts, op, rest, Roles(opts, t.values, rest));
    TakeTallies(opts, vs, args[0], args[1..], op);
    OccurrencesOfOption(opts, op, vs, args);
    ParseGoesOn(opts, vs, args);
    TallyAdds(opts[op], vs[op], t.values[op], Parse(opts, vs, args).values[op], m, n,
              Occurrences(opts, op, args, Roles(opts, vs, args)));
  }

  lemma {:induction false} OccurrencesAreCounted(opts: seq<Spec>, vs: seq<Value>, args: seq<string>, op: nat)
    requires |vs| == |opts| && op < |opts| && Parse(opts, vs, args).error.None?
    ensures Counted(opts, vs, args, op)
    decreases |args|
  {
    if args == [] || !IsOption(args[0]) {
      OccurrencesOfNoOption(opts, op, vs, args);
    } else {
      var t := Take(opts, vs, args[0], args[1..]);
      OccurrencesAreCounted(opts, t.values, args[1 + |t.ops|..], op);
      CountedAfterOption(opts, vs, args, op);
    }
  }

  // ----- main result: two ways to give a value

  lemma {:induction false} FindNone(s: string, c: char)
    requires c !in s
    ensures Find(s, c) == |s|
  {
    if s != [] {
      FindNone(s[1..], c);
    }
  }

  lemma {:induction false} FindPast(a: string, b: string, c: char)
    requires c !in a
    ensures Find(a + [c] + b, c) == |a|
  {
    if a != [] {
      assert (a + [c] + b)[1..] == a[1..] + [c] + b;
      FindPast(a[1..], b, c);
    }
  }

  predicate IsDashes(dashes: string, id: string) {
    id != [] && (dashes == "--" || (dashes == "-" && id[0] != '-'))
  }

  lemma BodyOf(dashes: string, id: string, more: string)
    requires IsDashes(dashes, id)
    ensures IsOption(dashes + (id + more)) && Body(dashes + (id + more)) == id + more
  {
    var arg := dashes + (id + more);
    assert arg[|dashes|..] == id + more;
    assert dashes == "-" ==> arg[1] == id[0];
    assert dashes == "--" ==> arg[1] == '-';
  }

  /** The two spellings do the same, but for where the value came from. */
  lemma SpellingsTakeTheSame(opts: seq<Spec>, vs: seq<Value>, dashes: string, id: string, v: string, after: seq<string>)
    requires |vs| == |opts| && IsDashes(dashes, id) && '=' !in id
    requires var op := FindId(opts, id); op < |opts| && opts[op].takesValue && !opts[op].counter
    ensures var t, u := Take(opts, vs, dashes + (id + ("=" + v)), after), Take(opts, vs, dashes + (id + ""), [v] + after);
      && t.values == u.values && t.error == u.error && t.ops == []
      && (u.error.None? ==> |u.ops| == 1)
  {
    BodyOf(dashes, id, "=" + v);
    BodyOf(dashes, id, "");
    assert id + "" == id && id + ("=" + v) == id + ['='] + v;
    FindNone(id, '=');
    FindPast(id, v, '=');
    assert (id + ['='] + v)[..|id|] == id && (id + ['='] + v)[|id| + 1..] == v;
    assert id[..|id|] == id;
  }

  /** All of `pre` is read as options and their values. */
  predicate AllOptions(opts: seq<Spec>, vs: seq<Value>, pre: seq<string>)
    requires |vs| == |opts|
    decreases |pre|
  {
    pre == []
    || (IsOption(pre[0])
        && var t := Take(opts, vs, pre[0], pre[1..]);
           t.error.None? && AllOptions(opts, t.values, pre[1 + |t.ops|..]))
  }

  lemma {:induction false} LettersIgnoreMore(
      opts: seq<Spec>, vs: seq<Value>, body: string, after: seq<string>, more: seq<string>)
    requires |vs| == |opts| && Letters(opts, vs, body, after).error.None?
    ensures Letters(opts, vs, body, after + more) == Letters(opts, vs, body, after)
    decreases |body|
  {
    if body != [] {
      var t := Use(opts, vs, FindCode(opts, body[0]), [body[0]], None, after);
      assert (after + more)[|t.ops|..] == after[|t.ops|..] + more;
      LettersIgnoreMore(opts, t.values, body[1..], after[|t.ops|..], more);
    }
  }

  lemma {:induction false} ParseAppends(opts: seq<Spec>, vs: seq<Value>, pre: seq<string>, post: seq<string>)
    requires |vs| == |opts| && AllOptions(opts, vs, pre)
    ensures Parse(opts, vs, pre + post) == Parse(opts, Parse(opts, vs, pre).values, post)
    decreases |pre|
  {
    if pre == [] {
      assert pre + post == post;
    } else {
      var t := Take(opts, vs, pre[0], pre[1..]);
      var rest := pre[1 + |t.ops|..];
      assert (pre + post)[1..] == pre[1..] + post;
      assert (pre + post)[1 + |t.ops|..] == rest + post;
      TakeIgnoresMore(opts, vs, pre[0], pre[1..], post);
      ParseAppends(opts, t.values, rest, post);
    }
  }

  lemma TakeIgnoresMore(opts: seq<Spec>, vs: seq<Value>, arg: string, after: seq<string>, more: seq<string>)
    requires |vs| == |opts| && arg != [] && Take(opts, vs, arg, after).error.None?
    ensures Take(opts, vs, arg, after + more) == Take(opts, vs, arg, after)
  {
    if FindId(opts, Name(Body(arg))) == |opts| {
      LettersIgnoreMore(opts, vs, Body(arg), after, more);
    }
  }

  /**
   Where an option is read, giving its value after an equals sign or as the next argument leaves the
   same values, the same positionals and the same error.
   */
  lemma EqualsOrNextArgument(
      opts: seq<Spec>, vs: seq<Value>, pre: seq<string>, dashes: string, id: string, v: string, post: seq<string>)
    requires |vs| == |opts| && AllOptions(opts, vs, pre) && IsDashes(dashes, id) && '=' !in id
    requires var op := FindId(opts, id); op < |opts| && opts[op].takesValue && !opts[op].counter
    ensures Parse(opts, vs, pre + ([dashes + (id + ("=" + v))] + post)) == Parse(opts, vs, pre + ([dashes + id, v] + post))
  {
    var ws := Parse(opts, vs, pre).values;
    ParseAppends(opts, vs, pre, [dashes + (id + ("=" + v))] + post);
    ParseAppends(opts, vs, pre, [dashes + id, v] + post);
    SpellingsParseTheSame(opts, ws, dashes, id, v, post);
  }

  lemma ParseOption(opts: seq<Spec>, vs: seq<Value>, arg: string, rest: seq<string>)
    requires |vs| == |opts| && IsOption(arg)
    ensures var t := Take(opts, vs, arg, rest);
      Parse(opts, vs, [arg] + rest)
      == if t.error.Some? then Outcome(t.values, [], t.error) else Parse(opts, t.values, rest[|t.ops|..])
  {
    var args := [arg] + rest;
    assert args[1..] == rest;
    assert forall n: nat | n <= |rest| :: args[1 + n..] == rest[n..];
  }

  lemma SameTakeSameParse(opts: seq<Spec>, vs: seq<Value>, one: string, two: string, v: string, post: seq<string>)
    requires |vs| == |opts| && IsOption(one) && IsOption(two)
    requires var t, u := Take(opts, vs, one, post), Take(opts, vs, two, [v] + post);
      t.values == u.values && t.error == u.error && t.ops == [] && (u.error.None? ==> |u.ops| == 1)
    ensures Parse(opts, vs, [one] + post) == Parse(opts, vs, [two, v] + post)
  {
    ParseOption(opts, vs, one, post);
    ParseOption(opts, vs, two, [v] + post);
    assert [two, v] + post == [two] + ([v] + post);
    assert post[0..] == post && ([v] + post)[1..] == post;
  }

  lemma SpellingsParseTheSame(opts: seq<Spec>, vs: seq<Value>, dashes: string, id: string, v: string, post: seq<string>)
    requires |vs| == |opts| && IsDashes(dashes, id) && '=' !in id
    requires var op := FindId(opts, id); op < |opts| && opts[op].takesValue && !opts[op].counter
    ensures Parse(opts, vs, [dashes + (id + ("=" + v))] + post) == Parse(opts, vs, [dashes + id, v] + post)
  {
    BodyOf(dashes, id, "=" + v);
    BodyOf(dashes, id, "");
    assert id + "" == id;
    SpellingsTakeTheSame(opts, vs, dashes, id, v, post);
    SameTakeSameParse(opts, vs, dashes + (id + ("=" + v)), dashes + id, v, post);
  }
}
