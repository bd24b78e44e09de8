/** The parser's own state: the options' values, the program name and the arguments gathered. */
module Args {
  import opened Options
  import opened CommandLine

  class Args {
    const opts: seq<Spec>
    var values: seq<Value>
    var argv0: Option<string>
    var argv: seq<string>

    predicate Valid()
      reads this
    {
      |values| == |opts|
    }

    constructor (opts: seq<Spec>)
      ensures Valid() && this.opts == opts && argv == [] && forall v | v in values :: !Used(v)
    {
      this.opts := opts;
      values := seq(|opts|, _ => Flag(false));
      argv0, argv := None, [];
    }

    /** One use of an option; whether it took the next argument, or the error it ended with. */
    method Apply(
        op: nat, name: string, given: Option<string>, after: seq<string>)
      returns (took: bool, error: Option<Error>)
      requires Valid() && op < |opts|
      modifies this`values
      ensures Valid()
      ensures Taken(values, if took then [op] else [], error) == Use(opts, old(values), op, name, given, after)
    {
      took, error := false, None;
      if opts[op].counter {
        values := values[op := Count(if values[op].Flag? then 1 else Wrapped(CountOf(values[op]) + 1))];
        return;
      }
      if Used(values[op]) {
        return false, Some(AlreadyUsed(name));
      }
      if !opts[op].takesValue {
        if given.Some? {
          return false, Some(InvalidValue(name));
        }
        values := values[op := Flag(true)];
        return;
      }
      if given.Some? {
        values := values[op := Text(given.value)];
        return;
      }
      if after == [] {
        return false, Some(MissingValue(name));
      }
      values := values[op := Text(after[0])];
      took := true;
    }

    /** The letters of an argument; returns the arguments left after those taken as values. */
    method ApplyLetters(body: string, after: seq<string>) returns (left: seq<string>, error: Option<Error>)
      requires Valid()
      modifies this`values
      ensures Valid()
      ensures var t := Letters(opts, old(values), body, after);
        && values == t.values && error == t.error
        && (error.None? ==> left == after[|t.ops|..])
    {
      left, error := after, None;
      var letters := body;
      ghost var whole, n := Letters(opts, values, body, after), 0;
      while letters != []
        invariant Valid() && n <= |after| && left == after[n..] && error == None
        invariant var t := Letters(opts, values, letters, left);
                  whole.values == t.values && whole.error == t.error && (whole.error.None? ==> |whole.ops| == n + |t.ops|)
        decreases |letters|
      {
        var op := FindCode(opts, letters[0]);
        if op == |opts| {
          error := Some(UnknownOption([letters[0]]));
          return;
        }
        var took;
        took, error := Apply(op, [letters[0]], None, left);
        if error.Some? {
          return;
        }
        assert left[0..] == left;
        if took {
          assert left[1..] == after[n + 1..];
          left, n := left[1..], n + 1;
        }
        letters := letters[1..];
      }
    }

    method Parse(list: seq<string>) returns (error: Option<Error>)
      requires Valid()
      modifies this
      ensures Valid()
      ensures list == [] ==> error == Some(ArgumentsMissing) && values == old(values) && argv == old(argv) && argv0 == old(argv0)
      ensures list != [] ==>
                var o := CommandLine.Parse(opts, old(values), list[1..]);
                && argv0 == Some(list[0]) && values == o.values && error == o.error
                && argv == if error.Some? then old(argv) else old(argv) + o.positionals
    {
      if list == [] {
        return Some(ArgumentsMissing);
      }
      argv0 := Some(list[0]);
      var rest := list[1..];
      ghost var whole := CommandLine.Parse(opts, values, rest);
      while rest != []
        invariant Valid() && argv == old(argv) && argv0 == Some(list[0])
        invariant CommandLine.Parse(opts, values, rest) == whole
        decreases |rest|
      {
        var arg := rest[0];
        if IsTerminator(arg) {
          rest := rest[1..];
          break;
        }
        if arg == [] || arg[0] != '-' {
          break;
        }
        var body := Body(arg);
        var op := FindId(opts, Name(body));
        rest := rest[1..];
        if op < |opts| {
          var took;
          took, error := Apply(op, Name(body), Inline(body), rest);
          if error.Some? {
            return;
          }
          if took {
            rest := rest[1..];
          }
        } else {
          if !HasShort(arg) {
            return Some(UnknownArgument(Name(body)));
          }
          rest, error := ApplyLetters(body, rest);
          if error.Some? {
            return;
          }
        }
      }
      argv := argv + rest;
      error := None;
    }
  }
}
