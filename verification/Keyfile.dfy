/**
 The text form of a keyfile: how a line is read, how a section is printed, and why reading back
 what was printed gives the keys that had a value, whatever order the maps are walked in.
 */
module KeyfileText {

  type Keys = map<string, string>

  type Sections = map<string, Keys>

  const DEFAULT: string := "_"

  predicate IsSpace(c: char) {
    c == ' ' || c == '\t' || c == '\n' || c == '\r'
  }

  /** isalnum in the C locale. */
  predicate IsAlnum(c: char) {
    '0' <= c <= '9' || 'A' <= c <= 'Z' || 'a' <= c <= 'z'
  }

  // ----- searching a line

  /** Where `c` first occurs in `s`, or the length of `s`. */
  function Find(s: string, c: char): (i: nat)
    ensures i <= |s| && c !in s[..i] && (i < |s| ==> s[i] == c)
  {
    if s == [] || s[0] == c then 0 else
      var i := 1 + Find(s[1..], c);
      assert s[..i] == [s[0]] + s[1..][..i - 1];
      i
  }

  /** Where the first character of `s` that is no space lies, or the length of `s`. */
  function FirstNotSpace(s: string): (i: nat)
    ensures i <= |s|
    ensures i < |s| ==> !IsSpace(s[i])
  {
    if s == [] || !IsSpace(s[0]) then 0 else 1 + FirstNotSpace(s[1..])
  }

  /** One more than the place of the last character of `s` that is no space, or zero. */
  function PastLastNotSpace(s: string): (i: nat)
    ensures i <= |s|
    ensures i > 0 ==> !IsSpace(s[i - 1])
  {
    if s == [] || !IsSpace(s[|s| - 1]) then |s| else PastLastNotSpace(s[..|s| - 1])
  }

  function TrimLeft(s: string): (t: string)
    ensures t == [] || !IsSpace(t[0])
  {
    s[FirstNotSpace(s)..]
  }

  function TrimRight(s: string): (t: string)
    ensures t == [] || !IsSpace(t[|t| - 1])
  {
    s[..PastLastNotSpace(s)]
  }

  // ----- reading

  datatype Line = Skip | Header(id: string) | Entry(key: string, value: string)

  function ReadTrimmed(input: string): Line {
    if input == [] then Skip
    else if input[0] == '[' && input[|input| - 1] == ']' then Header(input[1..|input| - 1])
    else if !IsAlnum(input[0]) then Skip
    else
      var pos := Find(input, '=');
      if pos == |input| then Skip
      else Entry(TrimRight(input[..pos]), TrimLeft(input[pos + 1..]))
  }

  function ReadLine(line: string): Line {
    ReadTrimmed(TrimRight(TrimLeft(line)))
  }

  function KeysOf(m: Sections, id: string): Keys {
    if id in m then m[id] else map[]
  }

  /** Where the reader stands: the section it fills and what it has gathered. */
  datatype Reader = Reader(section: string, sections: Sections)
  {
    function Take(line: Line): Reader {
      match line
      case Skip => this
      case Header(id) => this.(section := id)
      case Entry(key, value) => this.(sections := sections[section := KeysOf(sections, section)[key := value]])
    }
  }

  /** The text after its first line. */
  function Rest(text: string): string {
    var end := Find(text, '\n');
    if end < |text| then text[end + 1..] else []
  }

  function Read(r: Reader, text: string): Reader
    decreases |text|
  {
    if text == [] then r else Read(r.Take(ReadLine(text[..Find(text, '\n')])), Rest(text))
  }

  function Loaded(m: Sections, text: string): Sections {
    Read(Reader(DEFAULT, m), text).sections
  }

  // ----- printing

  function EntryLine(key: string, value: string): string {
    key + " = " + value
  }

  /** The entries of a section in the order `ks`; keys without a value are left out. */
  function EntriesText(keys: Keys, ks: seq<string>): string
    requires forall k | k in ks :: k in keys
  {
    if ks == [] then ""
    else (if keys[ks[0]] == "" then "" else EntryLine(ks[0], keys[ks[0]]) + "\n") + EntriesText(keys, ks[1..])
  }

  ghost predicate Visits(xs: seq<string>, s: set<string>) {
    forall x :: x in xs <==> x in s
  }

  ghost predicate Distinct(xs: seq<string>) {
    forall i, j | 0 <= i < j < |xs| :: xs[i] != xs[j]
  }

  /** An order in which a set may be walked. */
  ghost predicate IsOrder(xs: seq<string>, s: set<string>) {
    Visits(xs, s) && Distinct(xs)
  }

  type Orders = map<string, seq<string>>

  /** One order for the sections, and one for the keys of each. */
  datatype Walk = Walk(ids: seq<string>, keys: Orders)

  ghost predicate IsWalk(w: Walk, m: Sections) {
    && IsOrder(w.ids, m.Keys)
    && forall id | id in m :: id in w.keys && IsOrder(w.keys[id], m[id].Keys)
  }

  ghost predicate Covers(orders: Orders, m: Sections, ids: seq<string>) {
    forall id | id in ids :: id in m && id in orders && Visits(orders[id], m[id].Keys)
  }

  function HeaderLine(id: string): string {
    "[" + id + "]"
  }

  function SectionText(id: string, keys: Keys, ks: seq<string>): string
    requires forall k | k in ks :: k in keys
  {
    if id == DEFAULT || keys == map[] then ""
    else HeaderLine(id) + "\n" + (EntriesText(keys, ks) + "\n")
  }

  ghost function SectionsText(orders: Orders, m: Sections, ids: seq<string>): string
    requires Covers(orders, m, ids)
    decreases |ids|
  {
    if ids == [] then ""
    else SectionText(ids[0], m[ids[0]], orders[ids[0]]) + SectionsText(orders, m, ids[1..])
  }

  ghost function Printed(w: Walk, m: Sections): string
    requires DEFAULT in m && IsWalk(w, m)
  {
    EntriesText(m[DEFAULT], w.keys[DEFAULT]) + (if m[DEFAULT] == map[] then "" else "\n") + SectionsText(w.keys, m, w.ids)
  }

  // ----- what survives

  function Filled(keys: Keys): Keys {
    map k | k in keys && keys[k] != "" :: keys[k]
  }

  /** Empty values dropped, then sections without keys. */
  function Normal(m: Sections): Sections {
    map id | id in m && Filled(m[id]) != map[] :: Filled(m[id])
  }

  /** `n` loaded on top of `m`: its values replace those of the same section and key. */
  function Merged(m: Sections, n: Sections): Sections {
    map id | id in m.Keys + n.Keys :: KeysOf(m, id) + KeysOf(n, id)
  }

  predicate GoodKey(k: string) {
    k != "" && IsAlnum(k[0]) && !IsSpace(k[|k| - 1]) && '=' !in k && '\n' !in k
  }

  predicate GoodValue(v: string) {
    '\n' !in v && (v == "" || (!IsSpace(v[0]) && !IsSpace(v[|v| - 1])))
  }

  predicate GoodKeys(keys: Keys) {
    forall k | k in keys :: GoodKey(k) && GoodValue(keys[k])
  }

  predicate WellFormed(m: Sections) {
    forall id | id in m :: '\n' !in id && GoodKeys(m[id])
  }

  // ----- what is read is well-formed

  lemma TrimmedIsPart(s: string)
    ensures forall c | c in TrimLeft(s) :: c in s
    ensures forall c | c in TrimRight(s) :: c in s
  {}

  lemma {:induction false} TrimRightKeepsFirst(s: string)
    requires s != [] && !IsSpace(s[0])
    ensures TrimRight(s) != [] && TrimRight(s)[0] == s[0]
    decreases |s|
  {
    if IsSpace(s[|s| - 1]) {
      TrimRightKeepsFirst(s[..|s| - 1]);
    }
  }

  ghost predicate GoodLine(l: Line) {
    match l
    case Skip => true
    case Header(id) => '\n' !in id
    case Entry(key, value) => GoodKey(key) && GoodValue(value)
  }

  lemma ReadTrimmedIsGood(input: string)
    requires '\n' !in input && (input == [] || !IsSpace(input[|input| - 1]))
    ensures GoodLine(ReadTrimmed(input))
  {
    if ReadTrimmed(input).Entry? {
      var pos := Find(input, '=');
      TrimmedIsPart(input[..pos]);
      TrimmedIsPart(input[pos + 1..]);
      TrimRightKeepsFirst(input[..pos]);
    }
  }

  lemma ReadLineIsGood(line: string)
    requires '\n' !in line
    ensures GoodLine(ReadLine(line))
  {
    TrimmedIsPart(line);
    TrimmedIsPart(TrimLeft(line));
    ReadTrimmedIsGood(TrimRight(TrimLeft(line)));
  }

  lemma {:induction false} ReadKeepsWellFormed(r: Reader, text: string)
    requires WellFormed(r.sections) && '\n' !in r.section
    ensures WellFormed(Read(r, text).sections)
    decreases |text|
  {
    if text != [] {
      var line := text[..Find(text, '\n')];
      ReadLineIsGood(line);
      ReadKeepsWellFormed(r.Take(ReadLine(line)), Rest(text));
    }
  }

  // ----- reading a printed line

  lemma NothingToTrim(s: string)
    requires s != [] && !IsSpace(s[0]) && !IsSpace(s[|s| - 1])
    ensures TrimRight(TrimLeft(s)) == s
  {}

  lemma HeaderReadsBack(id: string)
    ensures ReadLine(HeaderLine(id)) == Header(id)
  {
    NothingToTrim(HeaderLine(id));
  }

  lemma {:induction false} FindPast(a: string, b: string, c: char)
    requires c !in a
    ensures Find(a + [c] + b, c) == |a|
  {
    if a != [] {
      assert (a + [c] + b)[1..] == a[1..] + [c] + b;
      FindPast(a[1..], b, c);
    }
  }

  lemma KeyPart(key: string)
    requires GoodKey(key)
    ensures TrimRight(key + " ") == key && '=' !in key + " "
  {
    assert (key + " ")[..|key|] == key;
    assert PastLastNotSpace(key + " ") == PastLastNotSpace(key);
  }

  lemma ValuePart(value: string)
    requires GoodValue(value) && value != ""
    ensures TrimLeft(" " + value) == value
  {
    assert (" " + value)[1..] == value;
    assert FirstNotSpace(" " + value) == 1 + FirstNotSpace(value);
  }

  lemma EntryParts(key: string, value: string)
    requires GoodKey(key)
    ensures var line := EntryLine(key, value);
      && Find(line, '=') == |key| + 1
      && line[..|key| + 1] == key + " "
      && line[|key| + 2..] == " " + value
  {
    KeyPart(key);
    assert EntryLine(key, value) == (key + " ") + ['='] + (" " + value);
    FindPast(key + " ", " " + value, '=');
  }

  lemma GoodEntryReadsBack(key: string, value: string)
    requires GoodKey(key) && GoodValue(value) && value != ""
    ensures ReadLine(EntryLine(key, value)) == Entry(key, value)
  {
    var line := EntryLine(key, value);
    assert line[0] == key[0] && line[|line| - 1] == value[|value| - 1];
    NothingToTrim(line);
    EntryParts(key, value);
    KeyPart(key);
    ValuePart(value);
  }

  /** With a value and on one line, an entry reads back as itself exactly when key and value are well-formed. */
  lemma EntryReadsBackIff(key: string, value: string)
    requires value != "" && '\n' !in key && '\n' !in value
    ensures ReadLine(EntryLine(key, value)) == Entry(key, value) <==> GoodKey(key) && GoodValue(value)
  {
    if GoodKey(key) && GoodValue(value) {
      GoodEntryReadsBack(key, value);
    } else {
      ReadLineIsGood(EntryLine(key, value));
    }
  }

  // ----- reading a printed text

  lemma ReadOneLine(r: Reader, line: string, text: string)
    requires '\n' !in line
    ensures Read(r, line + "\n" + text) == Read(r.Take(ReadLine(line)), text)
  {
    var all := line + "\n" + text;
    FindPast(line, text, '\n');
    assert all[..|line|] == line && all[|line| + 1..] == text;
  }

  lemma ReadBlankLine(r: Reader, text: string)
    ensures Read(r, "\n" + text) == Read(r, text)
  {
    assert "\n" + text == "" + "\n" + text;
    ReadOneLine(r, "", text);
  }

  /** `r` after the entries of `keys` in the order `ks`. */
  function Taking(r: Reader, keys: Keys, ks: seq<string>): Reader
    requires forall k | k in ks :: k in keys
    decreases |ks|
  {
    if ks == [] then r
    else Taking(if keys[ks[0]] == "" then r else r.Take(Entry(ks[0], keys[ks[0]])), keys, ks[1..])
  }

  lemma {:induction false} ReadEntries(r: Reader, keys: Keys, ks: seq<string>, text: string)
    requires forall k | k in ks :: k in keys
    requires GoodKeys(keys)
    ensures Read(r, EntriesText(keys, ks) + text) == Read(Taking(r, keys, ks), text)
    decreases |ks|
  {
    if ks == [] {
      assert EntriesText(keys, ks) + text == text;
    } else {
      var k, v, tail := ks[0], keys[ks[0]], EntriesText(keys, ks[1..]) + text;
      if v == "" {
        assert EntriesText(keys, ks) + text == tail;
        ReadEntries(r, keys, ks[1..], text);
      } else {
        assert EntriesText(keys, ks) + text == EntryLine(k, v) + "\n" + tail;
        ReadOneLine(r, EntryLine(k, v), tail);
        GoodEntryReadsBack(k, v);
        ReadEntries(r.Take(Entry(k, v)), keys, ks[1..], text);
      }
    }
  }

  /** The keys `ks` that have a value, with those values. */
  function Picked(keys: Keys, ks: seq<string>): Keys {
    map k | k in ks && k in keys && keys[k] != "" :: keys[k]
  }

  /** `r` after the entries `keys` went to its section. */
  function Filling(r: Reader, keys: Keys): Reader {
    if keys == map[] then r
    else r.(sections := r.sections[r.section := KeysOf(r.sections, r.section) + keys])
  }

  lemma SetTwice(m: Sections, id: string, a: Keys, b: Keys)
    ensures m[id := a][id := b] == m[id := b]
  {}

  lemma FillingMore(r: Reader, k: string, v: string, keys: Keys, more: Keys)
    requires k in more && more[k] == v && (keys == more - {k} || keys == more)
    ensures Filling(r.Take(Entry(k, v)), keys) == Filling(r, more)
  {
    var was := KeysOf(r.sections, r.section);
    assert was[k := v] + keys == was + more;
    assert was[k := v] + map[] == was[k := v];
    SetTwice(r.sections, r.section, was[k := v], was + more);
  }

  lemma {:induction false} TakingFills(r: Reader, keys: Keys, ks: seq<string>)
    requires forall k | k in ks :: k in keys
    ensures Taking(r, keys, ks) == Filling(r, Picked(keys, ks))
    decreases |ks|
  {
    if ks != [] {
      var k, v := ks[0], keys[ks[0]];
      var few, more := Picked(keys, ks[1..]), Picked(keys, ks);
      if v == "" {
        TakingFills(r, keys, ks[1..]);
        assert few == more;
      } else {
        TakingFills(r.Take(Entry(k, v)), keys, ks[1..]);
        assert few == if k in ks[1..] then more else more - {k};
        FillingMore(r, k, v, few, more);
      }
    }
  }

  lemma TakingAll(r: Reader, keys: Keys, ks: seq<string>)
    requires Visits(ks, keys.Keys)
    ensures Taking(r, keys, ks) == Filling(r, Filled(keys))
  {
    TakingFills(r, keys, ks);
    assert Picked(keys, ks) == Filled(keys);
  }

  function FilledIn(r: Reader, id: string, keys: Keys): Reader {
    if id == DEFAULT || keys == map[] then r else Filling(r.(section := id), Filled(keys))
  }

  lemma Regroup(a: string, b: string, c: string, d: string)
    ensures a + (b + c) + d == a + (b + (c + d))
  {}

  lemma ReadSection(r: Reader, id: string, keys: Keys, ks: seq<string>, text: string)
    requires Visits(ks, keys.Keys) && GoodKeys(keys) && '\n' !in id
    ensures Read(r, SectionText(id, keys, ks) + text) == Read(FilledIn(r, id, keys), text)
  {
    if id == DEFAULT || keys == map[] {
      assert SectionText(id, keys, ks) + text == text;
    } else {
      var tail := EntriesText(keys, ks) + ("\n" + text);
      Regroup(HeaderLine(id) + "\n", EntriesText(keys, ks), "\n", text);
      ReadOneLine(r, HeaderLine(id), tail);
      HeaderReadsBack(id);
      ReadEntries(r.(section := id), keys, ks, "\n" + text);
      TakingAll(r.(section := id), keys, ks);
      ReadBlankLine(FilledIn(r, id, keys), text);
    }
  }

  function AllFilledIn(r: Reader, m: Sections, ids: seq<string>): Reader
    requires forall id | id in ids :: id in m
    decreases |ids|
  {
    if ids == [] then r else AllFilledIn(FilledIn(r, ids[0], m[ids[0]]), m, ids[1..])
  }

  lemma {:induction false} ReadSections(r: Reader, orders: Orders, m: Sections, ids: seq<string>)
    requires Covers(orders, m, ids) && WellFormed(m)
    ensures Read(r, SectionsText(orders, m, ids)) == AllFilledIn(r, m, ids)
    decreases |ids|
  {
    if ids != [] {
      var id := ids[0];
      ReadSection(r, id, m[id], orders[id], SectionsText(orders, m, ids[1..]));
      ReadSections(FilledIn(r, id, m[id]), orders, m, ids[1..]);
    }
  }

  /** What filling in the sections `ids` leaves under each section. */
  lemma {:induction false} FilledInOne(r: Reader, m: Sections, ids: seq<string>, x: string)
    requires forall id | id in ids :: id in m
    ensures var s := AllFilledIn(r, m, ids).sections;
      var more := if x in ids && x != DEFAULT then Filled(m[x]) else map[];
      && (x in s <==> x in r.sections || more != map[])
      && KeysOf(s, x) == KeysOf(r.sections, x) + more
    decreases |ids|
  {
    if ids != [] {
      FilledInOne(FilledIn(r, ids[0], m[ids[0]]), m, ids[1..], x);
    }
  }

  lemma ReadPrinted(w: Walk, m: Sections, r: Reader)
    requires DEFAULT in m && IsWalk(w, m) && WellFormed(m) && r.section == DEFAULT
    ensures Read(r, Printed(w, m)) == AllFilledIn(Filling(r, Filled(m[DEFAULT])), m, w.ids)
  {
    var blank := if m[DEFAULT] == map[] then "" else "\n";
    var sections := SectionsText(w.keys, m, w.ids);
    assert Printed(w, m) == EntriesText(m[DEFAULT], w.keys[DEFAULT]) + (blank + sections);
    ReadEntries(r, m[DEFAULT], w.keys[DEFAULT], blank + sections);
    TakingAll(r, m[DEFAULT], w.keys[DEFAULT]);
    var r' := Filling(r, Filled(m[DEFAULT]));
    if m[DEFAULT] == map[] {
      assert blank + sections == sections;
    } else {
      ReadBlankLine(r', sections);
    }
    ReadSections(r', w.keys, m, w.ids);
  }

  // ----- main results

  lemma MergedOne(m: Sections, n: Sections, x: string)
    ensures x in Merged(m, n) <==> x in m || x in n
    ensures KeysOf(Merged(m, n), x) == KeysOf(m, x) + KeysOf(n, x)
  {
    assert x !in m && x !in n ==> KeysOf(m, x) + KeysOf(n, x) == map[];
  }

  lemma NormalOne(m: Sections, x: string)
    ensures x in Normal(m) <==> x in m && Filled(m[x]) != map[]
    ensures KeysOf(Normal(m), x) == Filled(KeysOf(m, x))
  {}

  lemma FillingOne(r: Reader, keys: Keys, x: string)
    ensures var s := Filling(r, keys).sections;
      && (x in s <==> x in r.sections || (x == r.section && keys != map[]))
      && KeysOf(s, x) == if x == r.section then KeysOf(r.sections, x) + keys else KeysOf(r.sections, x)
  {
    assert KeysOf(r.sections, x) + map[] == KeysOf(r.sections, x);
  }

  lemma SameSections(a: Sections, b: Sections)
    requires forall x :: x in a <==> x in b
    requires forall x :: KeysOf(a, x) == KeysOf(b, x)
    ensures a == b
  {
    forall x | x in a ensures a[x] == b[x] {
      assert KeysOf(a, x) == KeysOf(b, x);
    }
  }

  lemma NothingMore(a: Keys)
    ensures a + map[] == a
  {}

  lemma LoadPrintedOne(r: Reader, m: Sections, ids: seq<string>, x: string)
    requires DEFAULT in m && Visits(ids, m.Keys) && r.section == DEFAULT
    ensures var got, want := AllFilledIn(Filling(r, Filled(m[DEFAULT])), m, ids).sections, Merged(r.sections, Normal(m));
      (x in got <==> x in want) && KeysOf(got, x) == KeysOf(want, x)
  {
    FillingOne(r, Filled(m[DEFAULT]), x);
    FilledInOne(Filling(r, Filled(m[DEFAULT])), m, ids, x);
    MergedOne(r.sections, Normal(m), x);
    NormalOne(m, x);
    NothingMore(KeysOf(r.sections, x));
    NothingMore(KeysOf(r.sections, x) + Filled(m[DEFAULT]));
  }

  /** Whatever order the maps are walked in, loading a printed keyfile merges its normal form in. */
  lemma LoadPrinted(w: Walk, m: Sections, into: Sections)
    requires DEFAULT in m && IsWalk(w, m) && WellFormed(m)
    ensures Loaded(into, Printed(w, m)) == Merged(into, Normal(m))
  {
    var r := Reader(DEFAULT, into);
    ReadPrinted(w, m, r);
    var got, want := AllFilledIn(Filling(r, Filled(m[DEFAULT])), m, w.ids).sections, Merged(into, Normal(m));
    forall x ensures (x in got <==> x in want) && KeysOf(got, x) == KeysOf(want, x) {
      LoadPrintedOne(r, m, w.ids, x);
    }
    SameSections(got, want);
  }

  /** `m` as save leaves it: looking the default section up creates it. */
  function Touched(m: Sections, id: string): Sections {
    if id in m then m else m[id := map[]]
  }

  /** Everything load gathers from any text is well-formed. */
  lemma LoadedIsWellFormed(text: string)
    ensures WellFormed(Loaded(map[], text))
  {
    ReadKeepsWellFormed(Reader(DEFAULT, map[]), text);
  }

  lemma NormalTouched(m: Sections)
    ensures Normal(Touched(m, DEFAULT)) == Normal(m)
  {}

  lemma MergedIntoNothing(m: Sections)
    ensures Merged(map[], m) == m
  {
    forall x ensures (x in Merged(map[], m) <==> x in m) && KeysOf(Merged(map[], m), x) == KeysOf(m, x) {
      MergedOne(map[], m, x);
      assert map[] + KeysOf(m, x) == KeysOf(m, x);
    }
    SameSections(Merged(map[], m), m);
  }

  /** Printing and loading again drops empty values, then sections without keys, and nothing else. */
  lemma RoundTrip(w: Walk, m: Sections)
    requires WellFormed(m) && IsWalk(w, Touched(m, DEFAULT))
    ensures Loaded(map[], Printed(w, Touched(m, DEFAULT))) == Normal(m)
  {
    var t := Touched(m, DEFAULT);
    LoadPrinted(w, t, map[]);
    NormalTouched(m);
    MergedIntoNothing(Normal(m));
  }

  lemma LoadSaveLoad(text: string, w: Walk)
    requires IsWalk(w, Touched(Loaded(map[], text), DEFAULT))
    ensures var m := Loaded(map[], text);
      Loaded(map[], Printed(w, Touched(m, DEFAULT))) == Normal(m)
  {
    LoadedIsWellFormed(text);
    RoundTrip(w, Loaded(map[], text));
  }

  /** From the first reload on, saving and loading change nothing. */
  lemma ReloadIsStable(text: string, w: Walk)
    requires var n := Normal(Loaded(map[], text)); IsWalk(w, Touched(n, DEFAULT))
    ensures var n := Normal(Loaded(map[], text));
      Loaded(map[], Printed(w, Touched(n, DEFAULT))) == n
  {
    var m := Loaded(map[], text);
    LoadedIsWellFormed(text);
    RoundTrip(w, Normal(m));
    NormalTwice(m);
  }

  lemma NormalTwice(m: Sections)
    ensures Normal(Normal(m)) == Normal(m)
  {
    forall keys: Keys ensures Filled(Filled(keys)) == Filled(keys) {}
  }
}

/** The sections of a keyfile and the files they are loaded from and saved to. */
module Keyfile {
  import opened KeyfileText
  import opened Options

  class Data {
    var sections: Sections

    constructor ()
      ensures sections == map[]
    {
      sections := map[];
    }

    predicate Empty()
      reads this
    {
      sections == map[]
    }

    predicate Exists(id: string)
      reads this
    {
      id in sections
    }

    method Remove(id: string)
      modifies this
      ensures !Exists(id)
      ensures forall x | x != id :: (x in sections <==> x in old(sections)) && KeysOf(sections, x) == KeysOf(old(sections), x)
    {
      sections := sections - {id};
    }

    /** Looking a section up creates it. */
    method Fetch(id: string) returns (keys: Keys)
      modifies this
      ensures sections == Touched(old(sections), id) && keys == KeysOf(old(sections), id)
    {
      if !Exists(id) {
        sections := sections[id := map[]];
      }
      keys := sections[id];
    }

    /** Adds a list of entries to one section; of two entries for a key the later one stays. */
    method LoadList(id: string, list: seq<(string, string)>)
      modifies this
      ensures id in sections
      ensures forall x | x != id :: (x in sections <==> x in old(sections)) && KeysOf(sections, x) == KeysOf(old(sections), x)
      ensures forall k | k !in sections[id] :: k !in KeysOf(old(sections), id)
      ensures forall i | 0 <= i < |list| && (forall j | i < j < |list| :: list[j].0 != list[i].0) ::
                list[i].0 in sections[id] && sections[id][list[i].0] == list[i].1
      ensures forall k | k in sections[id] && (forall i | 0 <= i < |list| :: list[i].0 != k) ::
                k in KeysOf(old(sections), id) && sections[id][k] == KeysOf(old(sections), id)[k]
    {
      var group := Fetch(id);
      for n := 0 to |list|
        invariant id in sections
        invariant forall x | x != id ::
                    (x in sections <==> x in old(sections)) && KeysOf(sections, x) == KeysOf(old(sections), x)
        invariant forall k | k !in sections[id] :: k !in KeysOf(old(sections), id)
        invariant forall i | 0 <= i < n && (forall j | i < j < n :: list[j].0 != list[i].0) ::
                    list[i].0 in sections[id] && sections[id][list[i].0] == list[i].1
        invariant forall k | k in sections[id] && (forall i | 0 <= i < n :: list[i].0 != k) ::
                    k in KeysOf(old(sections), id) && sections[id][k] == KeysOf(old(sections), id)[k]
      {
        sections := sections[id := sections[id][list[n].0 := list[n].1]];
      }
    }

    /** Reads a file line by line into the sections; fails when there is no file. */
    method Load(file: Option<string>) returns (ok: bool)
      modifies this
      ensures ok == file.Some?
      ensures sections == if ok then Loaded(old(sections), file.value) else old(sections)
    {
      if file.None? {
        return false;
      }
      var rest, section := file.value, DEFAULT;
      while rest != []
        invariant Read(Reader(section, sections), rest) == Read(Reader(DEFAULT, old(sections)), file.value)
        decreases |rest|
      {
        var end := Find(rest, '\n');
        var buffer := rest[..end];
        rest := if end < |rest| then rest[end + 1..] else [];
        section := Take(section, buffer);
      }
      return true;
    }

    /** One turn of the loop in Load: what a line does to the sections, and the section it leaves open. */
    method Take(section: string, buffer: string) returns (next: string)
      modifies this
      ensures Reader(next, sections) == Reader(section, old(sections)).Take(ReadLine(buffer))
    {
      next := section;
      var first := FirstNotSpace(buffer);
      if first == |buffer| {
        assert TrimLeft(buffer) == [] && TrimRight([]) == [];
        return;
      }
      var input := buffer[first..];
      input := input[..PastLastNotSpace(input)];
      if input != [] && input[0] == '[' && input[|input| - 1] == ']' {
        next := input[1..|input| - 1];
        return;
      }
      if input == [] || !IsAlnum(input[0]) {
        return;
      }
      var pos := Find(input, '=');
      if pos < 1 || pos == |input| {
        return;
      }
      var key, value := input[..pos], input[pos + 1..];
      key := key[..PastLastNotSpace(key)];
      value := value[FirstNotSpace(value)..];
      sections := sections[section := KeysOf(sections, section)[key := value]];
    }

    /** Writes the entries of a section that have a value, in some order. */
    method SaveEntries(keys: Keys) returns (out: string, ghost order: seq<string>)
      ensures IsOrder(order, keys.Keys) && out == EntriesText(keys, order)
    {
      out, order := "", [];
      var pending := keys.Keys;
      while pending != {}
        invariant forall k :: k in keys <==> k in order || k in pending
        invariant forall k | k in order :: k !in pending
        invariant Distinct(order) && out == EntriesText(keys, order)
        decreases pending
      {
        var key :| key in pending;
        OneMoreEntry(keys, order, key);
        pending, order := pending - {key}, order + [key];
        if keys[key] != "" {
          out := out + key + " = " + keys[key] + "\n";
        }
      }
    }

    /** Writes the sections that have keys, the default one excepted, in some order. */
    method SaveSections(m: Sections) returns (out: string, ghost walk: Walk)
      ensures IsWalk(walk, m) && out == SectionsText(walk.keys, m, walk.ids)
    {
      out := "";
      ghost var ids: seq<string>, orders: Orders := [], map[];
      var pending := m.Keys;
      while pending != {}
        invariant forall id :: id in m <==> id in ids || id in pending
        invariant forall id | id in ids :: id !in pending && id in orders && IsOrder(orders[id], m[id].Keys)
        invariant Distinct(ids)
        invariant out == SectionsText(orders, m, ids)
        decreases pending
      {
        var id :| id in pending;
        var text, here := SaveEntries(m[id]);
        OneMoreSection(orders, m, ids, id, here);
        if id != DEFAULT && m[id] != map[] {
          out := out + ("[" + id + "]" + "\n" + (text + "\n"));
        }
        assert out == SectionsText(orders[id := here], m, ids + [id]);
        pending, ids, orders := pending - {id}, ids + [id], orders[id := here];
      }
      walk := Walk(ids, orders);
    }

    /** Writes the keyfile out; the file holds it printed in some order. */
    method Save(writable: bool) returns (ok: bool, out: string, ghost walk: Walk)
      modifies this
      ensures ok == writable
      ensures sections == if ok then Touched(old(sections), DEFAULT) else old(sections)
      ensures ok ==> IsWalk(walk, sections) && out == Printed(walk, sections)
    {
      if !writable {
        return false, "", Walk([], map[]);
      }
      var keys := Fetch(DEFAULT);
      var head, order := SaveEntries(keys);
      if keys != map[] {
        head := head + "\n";
      }
      var tail;
      tail, walk := SaveSections(sections);
      OtherOrders(walk.keys, sections, walk.ids, DEFAULT, order);
      walk := walk.(keys := walk.keys[DEFAULT := order]);
      return true, head + tail, walk;
    }
  }

  lemma {:induction false} OneMoreEntry(keys: Keys, ks: seq<string>, k: string)
    requires k in keys && forall x | x in ks :: x in keys
    ensures EntriesText(keys, ks + [k])
            == EntriesText(keys, ks) + if keys[k] == "" then "" else EntryLine(k, keys[k]) + "\n"
  {
    if ks == [] {
      assert ks + [k] == [k];
    } else {
      assert (ks + [k])[1..] == ks[1..] + [k] && (ks + [k])[0] == ks[0];
      OneMoreEntry(keys, ks[1..], k);
      Associates(if keys[ks[0]] == "" then "" else EntryLine(ks[0], keys[ks[0]]) + "\n", EntriesText(keys, ks[1..]),
                 if keys[k] == "" then "" else EntryLine(k, keys[k]) + "\n");
    }
  }

  /** The order of a section outside `ids`, or of the default one, does not show in their text. */
  lemma {:induction false} OtherOrders(orders: Orders, m: Sections, ids: seq<string>, id: string, order: seq<string>)
    requires Covers(orders, m, ids) && id in m && Visits(order, m[id].Keys) && (id !in ids || id == DEFAULT)
    ensures Covers(orders[id := order], m, ids)
    ensures SectionsText(orders[id := order], m, ids) == SectionsText(orders, m, ids)
    decreases |ids|
  {
    if ids != [] {
      OtherOrders(orders, m, ids[1..], id, order);
    }
  }

  lemma {:induction false} SectionAtEnd(orders: Orders, m: Sections, ids: seq<string>, id: string)
    requires Covers(orders, m, ids + [id])
    ensures id in m && id in orders && Covers(orders, m, ids)
    ensures SectionsText(orders, m, ids + [id])
            == SectionsText(orders, m, ids) + SectionText(id, m[id], orders[id])
    decreases |ids|
  {
    assert id in ids + [id];
    assert forall x | x in ids :: x in ids + [id];
    if ids == [] {
      assert ids + [id] == [id];
    } else {
      assert (ids + [id])[1..] == ids[1..] + [id] && (ids + [id])[0] == ids[0];
      SectionAtEnd(orders, m, ids[1..], id);
      Associates(SectionText(ids[0], m[ids[0]], orders[ids[0]]), SectionsText(orders, m, ids[1..]),
                 SectionText(id, m[id], orders[id]));
    }
  }

  lemma Associates(a: string, b: string, c: string)
    ensures (a + b) + c == a + (b + c)
  {}

  lemma OneMoreSection(orders: Orders, m: Sections, ids: seq<string>, id: string, order: seq<string>)
    requires Covers(orders, m, ids) && id in m && Visits(order, m[id].Keys) && id !in ids
    ensures Covers(orders[id := order], m, ids + [id])
    ensures SectionsText(orders[id := order], m, ids + [id])
            == SectionsText(orders, m, ids) + SectionText(id, m[id], order)
  {
    OtherOrders(orders, m, ids, id, order);
    SectionAtEnd(orders[id := order], m, ids, id);
  }
}
