/** Exactly which lines of a keyfile are read as what, whatever blanks they hold. */
module KeyfileLines {
  import opened KeyfileText

  predicate Blank(s: string) {
    forall c | c in s :: IsSpace(c)
  }

  /** A key and a value with an equals sign between them, and blanks around all three. */
  ghost predicate IsEntryLine(line: string, key: string, value: string) {
    exists a, b, c, d ::
      Blank(a) && Blank(b) && Blank(c) && Blank(d) && line == a + ((key + b) + "=" + (c + value)) + d
  }

  ghost predicate IsHeaderLine(line: string, id: string) {
    exists a, d :: Blank(a) && Blank(d) && line == a + HeaderLine(id) + d
  }

  // ----- trimming

  lemma {:induction false} TrimLeftPast(a: string, s: string)
    requires Blank(a)
    ensures TrimLeft(a + s) == TrimLeft(s)
  {
    if a == [] {
      assert a + s == s;
    } else {
      assert (a + s)[1..] == a[1..] + s;
      TrimLeftPast(a[1..], s);
    }
  }

  lemma {:induction false} TrimRightPast(s: string, d: string)
    requires Blank(d)
    ensures TrimRight(s + d) == TrimRight(s)
    decreases |d|
  {
    if d == [] {
      assert s + d == s;
    } else {
      var n := |d| - 1;
      assert (s + d)[..|s + d| - 1] == s + d[..n];
      assert (s + d)[|s + d| - 1] == d[n];
      TrimRightPast(s, d[..n]);
      PastLastIsPrefix(s + d);
    }
  }

  lemma PastLastIsPrefix(s: string)
    requires s != [] && IsSpace(s[|s| - 1])
    ensures TrimRight(s) == TrimRight(s[..|s| - 1])
  {}

  lemma TrimmedAlready(s: string)
    ensures s != [] && !IsSpace(s[0]) ==> TrimLeft(s) == s
    ensures s == [] || !IsSpace(s[|s| - 1]) ==> TrimRight(s) == s
  {}

  lemma {:induction false} LeftIsBlank(s: string)
    ensures Blank(s[..FirstNotSpace(s)]) && s == s[..FirstNotSpace(s)] + TrimLeft(s)
  {
    if s != [] && IsSpace(s[0]) {
      LeftIsBlank(s[1..]);
      var i := FirstNotSpace(s[1..]);
      assert s[..1 + i] == [s[0]] + s[1..][..i];
    }
  }

  lemma {:induction false} RightIsBlank(s: string)
    ensures Blank(s[PastLastNotSpace(s)..]) && s == TrimRight(s) + s[PastLastNotSpace(s)..]
    decreases |s|
  {
    if s != [] && IsSpace(s[|s| - 1]) {
      var n := |s| - 1;
      RightIsBlank(s[..n]);
      var i := PastLastNotSpace(s[..n]);
      assert s[i..] == s[..n][i..] + [s[n]];
    }
  }

  // ----- entries

  lemma KeyBeforeEquals(key: string, b: string)
    requires GoodKey(key) && Blank(b)
    ensures TrimRight(key + b) == key && '=' !in key + b
  {
    TrimRightPast(key, b);
    TrimmedAlready(key);
  }

  /** What is left of an entry line when its ends are trimmed is read as key and value. */
  lemma TrimmedEntryReads(key: string, b: string, tail: string)
    requires GoodKey(key) && Blank(b)
    ensures ReadTrimmed((key + b) + "=" + tail) == Entry(key, TrimLeft(tail))
  {
    var input := (key + b) + "=" + tail;
    KeyBeforeEquals(key, b);
    FindPast(key + b, tail, '=');
    assert input == (key + b) + ['='] + tail && input[0] == key[0];
    assert input[..|key + b|] == key + b && input[|key + b| + 1..] == tail;
  }

  lemma EntryEnds(key: string, b: string, c: string, value: string)
    requires GoodKey(key) && GoodValue(value) && Blank(b) && Blank(c)
    ensures TrimRight((key + b) + "=" + (c + value)) == (key + b) + "=" + (if value == "" then "" else c + value)
  {
    var head := (key + b) + "=";
    TrimmedAlready(head);
    if value == "" {
      TrimRightPast(head, c);
      assert c + value == c && head + "" == head;
    } else {
      assert (head + (c + value))[|head + (c + value)| - 1] == value[|value| - 1];
      TrimmedAlready(head + (c + value));
    }
  }

  lemma ReadsEntry(a: string, b: string, c: string, d: string, key: string, value: string)
    requires GoodKey(key) && GoodValue(value) && Blank(a) && Blank(b) && Blank(c) && Blank(d)
    ensures ReadLine(a + ((key + b) + "=" + (c + value)) + d) == Entry(key, value)
  {
    var core := (key + b) + "=" + (c + value);
    assert a + core + d == a + (core + d);
    TrimLeftPast(a, core + d);
    assert (core + d)[0] == key[0];
    TrimmedAlready(core + d);
    TrimRightPast(core, d);
    EntryEnds(key, b, c, value);
    TrimmedEntryReads(key, b, if value == "" then "" else c + value);
    TrimLeftPast(c, value);
    if value != "" {
      TrimmedAlready(value);
    }
  }

  /** Every line is its trimmed form between blanks. */
  lemma LineParts(line: string) returns (a: string, d: string)
    ensures Blank(a) && Blank(d) && line == a + TrimRight(TrimLeft(line)) + d
  {
    var rest := TrimLeft(line);
    LeftIsBlank(line);
    RightIsBlank(rest);
    a, d := line[..FirstNotSpace(line)], rest[PastLastNotSpace(rest)..];
    assert a + (TrimRight(rest) + d) == a + TrimRight(rest) + d;
  }

  lemma TrimmedHasParts(input: string, key: string, value: string) returns (b: string, c: string)
    requires ReadTrimmed(input) == Entry(key, value)
    ensures Blank(b) && Blank(c) && input == (key + b) + "=" + (c + value)
  {
    var pos := Find(input, '=');
    var left, right := input[..pos], input[pos + 1..];
    RightIsBlank(left);
    LeftIsBlank(right);
    b, c := left[PastLastNotSpace(left)..], right[..FirstNotSpace(right)];
    SplitAt(input, pos);
  }

  lemma SplitAt(s: string, i: nat)
    requires i < |s| && s[i] == '='
    ensures s == s[..i] + "=" + s[i + 1..]
  {}

  lemma EntryHasParts(line: string, key: string, value: string)
    requires ReadLine(line) == Entry(key, value)
    ensures IsEntryLine(line, key, value)
  {
    var a, d := LineParts(line);
    var b, c := TrimmedHasParts(TrimRight(TrimLeft(line)), key, value);
  }

  /**
   A line is read as an entry exactly if it consists of that key and value, both well-formed, around an
   equals sign, with any blanks before, between and after; the value may be empty.
   */
  lemma ReadsAsEntryIff(line: string, key: string, value: string)
    requires '\n' !in line
    ensures ReadLine(line) == Entry(key, value) <==> GoodKey(key) && GoodValue(value) && IsEntryLine(line, key, value)
  {
    if ReadLine(line) == Entry(key, value) {
      ReadLineIsGood(line);
      EntryHasParts(line, key, value);
    } else if GoodKey(key) && GoodValue(value) && IsEntryLine(line, key, value) {
      var a, b, c, d :|
        Blank(a) && Blank(b) && Blank(c) && Blank(d) && line == a + ((key + b) + "=" + (c + value)) + d;
      ReadsEntry(a, b, c, d, key, value);
    }
  }

  // ----- headers and the rest

  lemma TrimmedBetween(a: string, core: string, d: string)
    requires Blank(a) && Blank(d) && core != [] && !IsSpace(core[0]) && !IsSpace(core[|core| - 1])
    ensures TrimRight(TrimLeft(a + core + d)) == core
  {
    assert a + core + d == a + (core + d);
    TrimLeftPast(a, core + d);
    TrimmedAlready(core + d);
    TrimRightPast(core, d);
    TrimmedAlready(core);
  }

  lemma ReadsHeader(a: string, d: string, id: string)
    requires Blank(a) && Blank(d)
    ensures ReadLine(a + HeaderLine(id) + d) == Header(id)
  {
    HeaderReadsBack(id);
    TrimmedBetween("", HeaderLine(id), "");
    assert "" + HeaderLine(id) + "" == HeaderLine(id);
    TrimmedBetween(a, HeaderLine(id), d);
  }

  /** A line is read as a header exactly if it is that id in brackets, with any blanks around. */
  lemma ReadsAsHeaderIff(line: string, id: string)
    ensures ReadLine(line) == Header(id) <==> IsHeaderLine(line, id)
  {
    if ReadLine(line) == Header(id) {
      var input := TrimRight(TrimLeft(line));
      var a, d := LineParts(line);
      assert input == HeaderLine(id);
      assert line == a + HeaderLine(id) + d;
    } else if a, d :| Blank(a) && Blank(d) && line == a + HeaderLine(id) + d {
      ReadsHeader(a, d, id);
    }
  }

  lemma TrimmedFirst(line: string)
    requires FirstNotSpace(line) < |line|
    ensures TrimRight(TrimLeft(line)) != [] && TrimRight(TrimLeft(line))[0] == line[FirstNotSpace(line)]
  {
    TrimRightKeepsFirst(TrimLeft(line));
  }

  lemma EqualsStays(line: string)
    ensures '=' in line <==> '=' in TrimRight(TrimLeft(line))
  {
    var a, d := LineParts(line);
  }

  lemma FindsIff(s: string, c: char)
    ensures Find(s, c) < |s| <==> c in s
  {
    assert s[..|s|] == s;
  }

  /** The first character that is no blank is a letter or digit. */
  predicate BeginsAlnum(line: string) {
    FirstNotSpace(line) < |line| && IsAlnum(line[FirstNotSpace(line)])
  }

  /** A line is skipped exactly if it is no header, and does not begin with a letter or digit or has no equals sign. */
  lemma SkippedIff(line: string)
    ensures ReadLine(line) == Skip
            <==> (forall id :: !IsHeaderLine(line, id)) && (!BeginsAlnum(line) || '=' !in line)
  {
    var input := TrimRight(TrimLeft(line));
    EqualsStays(line);
    FindsIff(input, '=');
    if FirstNotSpace(line) < |line| {
      TrimmedFirst(line);
    } else {
      assert TrimLeft(line) == [];
    }
    forall id ensures ReadLine(line) == Header(id) <==> IsHeaderLine(line, id) {
      ReadsAsHeaderIff(line, id);
    }
    if ReadLine(line).Header? {
      assert IsHeaderLine(line, ReadLine(line).id);
    }
  }

  // ----- a text is its lines

  /** The lines of a text with a line break between any two; the last one may be empty. */
  function Lines(lines: seq<string>): string {
    if lines == [] then "" else if |lines| == 1 then lines[0] else lines[0] + ("\n" + Lines(lines[1..]))
  }

  function TakeAll(r: Reader, lines: seq<string>): Reader
    decreases |lines|
  {
    if lines == [] then r else TakeAll(r.Take(ReadLine(lines[0])), lines[1..])
  }

  lemma FirstLine(line: string, more: string)
    requires '\n' !in line
    ensures var text := line + ("\n" + more); text[..Find(text, '\n')] == line && Rest(text) == more
  {
    FindPast(line, more, '\n');
    assert line + ("\n" + more) == line + ['\n'] + more;
    assert (line + ['\n'] + more)[..|line|] == line && (line + ['\n'] + more)[|line| + 1..] == more;
  }

  lemma OnlyLine(r: Reader, line: string)
    requires '\n' !in line
    ensures Read(r, line) == r.Take(ReadLine(line))
  {
    FindsIff(line, '\n');
    assert line[..|line|] == line;
  }

  /** Loading a text takes each of its lines in turn, the last one also without a line break. */
  lemma {:induction false} ReadsLineByLine(r: Reader, lines: seq<string>)
    requires forall line | line in lines :: '\n' !in line
    ensures Read(r, Lines(lines)) == TakeAll(r, lines)
    decreases |lines|
  {
    if |lines| == 1 {
      OnlyLine(r, lines[0]);
      assert TakeAll(r.Take(ReadLine(lines[0])), []) == r.Take(ReadLine(lines[0]));
    } else if lines != [] {
      FirstLine(lines[0], Lines(lines[1..]));
      ReadsLineByLine(r.Take(ReadLine(lines[0])), lines[1..]);
    }
  }

  // ----- the form that is saved

  lemma {:induction false} OrderLength(xs: seq<string>, s: set<string>)
    requires IsOrder(xs, s)
    ensures |xs| == |s|
  {
    if xs == [] {
      assert forall x | x in s :: x in xs;
      assert s == {};
    } else {
      assert xs[0] in xs;
      forall x ensures x in xs[1..] <==> x in s - {xs[0]} {
        if x in xs[1..] {
          var i :| 0 <= i < |xs[1..]| && xs[1..][i] == x;
          assert xs[i + 1] == x && x in xs;
        }
        assert x in xs <==> x == xs[0] || x in xs[1..];
      }
      OrderLength(xs[1..], s - {xs[0]});
    }
  }

  lemma SmallOrder(xs: seq<string>, s: set<string>, x: string, y: string)
    requires IsOrder(xs, s)
    ensures s == {} ==> xs == []
    ensures s == {x} ==> xs == [x]
    ensures s == {x, y} && x != y ==> xs == [x, y] || xs == [y, x]
  {
    OrderLength(xs, s);
    assert forall i | 0 <= i < |xs| :: xs[i] in s;
  }

  /** One key with a value in one section is saved as the bracketed id, the entry and an empty line. */
  lemma SavedForm(w: Walk, id: string, key: string, value: string)
    requires id != DEFAULT && value != ""
    requires IsWalk(w, map[DEFAULT := map[], id := map[key := value]])
    ensures Printed(w, map[DEFAULT := map[], id := map[key := value]])
            == "[" + id + "]" + "\n" + ((key + " = " + value + "\n") + "\n")
  {
    var keys: Keys := map[key := value];
    var m: Sections := map[DEFAULT := map[], id := keys];
    assert m.Keys == {DEFAULT, id} && keys.Keys == {key};
    SmallOrder(w.keys[id], keys.Keys, key, key);
    SmallOrder(w.ids, m.Keys, DEFAULT, id);
    SmallOrder(w.keys[DEFAULT], {}, key, key);
    assert EntriesText(keys, [key]) == (EntryLine(key, value) + "\n") + EntriesText(keys, []);
    var text := SectionText(id, keys, [key]);
    assert text == HeaderLine(id) + "\n" + ((EntryLine(key, value) + "\n") + "\n");
    OneSection(w.keys, m, w.ids, id);
  }

  lemma OneSection(orders: Orders, m: Sections, ids: seq<string>, id: string)
    requires id != DEFAULT && DEFAULT in m && id in m && (ids == [DEFAULT, id] || ids == [id, DEFAULT])
    requires Covers(orders, m, ids)
    ensures SectionsText(orders, m, ids) == SectionText(id, m[id], orders[id])
  {
    assert ids[1..] == [ids[1]] && ids[1..][1..] == [];
    assert SectionsText(orders, m, []) == "";
    assert SectionsText(orders, m, ids[1..]) == SectionText(ids[1], m[ids[1]], orders[ids[1]]) + "";
  }
}
