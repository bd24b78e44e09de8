/** Splitting a text at delimiters and joining it again. */
module SplitJoin {

  /** Where the first character of `s` that `delim` holds lies, or the length of `s`. */
  function FindAny(s: string, delim: string): (i: nat)
    ensures i <= |s| && (i < |s| ==> s[i] in delim)
  {
    if s == [] || s[0] in delim then 0 else 1 + FindAny(s[1..], delim)
  }

  lemma {:induction false} FindAnyIsFirst(s: string, delim: string, c: char)
    requires c in delim
    ensures c !in s[..FindAny(s, delim)]
    ensures c !in s && |delim| == 1 ==> FindAny(s, delim) == |s|
  {
    var i := FindAny(s, delim);
    if i > 0 {
      FindAnyIsFirst(s[1..], delim, c);
      assert s[..i] == [s[0]] + s[1..][..i - 1];
    }
  }

  function FindFrom(s: string, delim: string, from: nat): (i: nat)
    requires from <= |s|
    ensures from <= i <= |s|
  {
    from + FindAny(s[from..], delim)
  }

  /** The pieces between delimiters; when limited, at most `cuts` cuts are made. */
  function Pieces(s: string, delim: string, limited: bool, cuts: nat): seq<string>
    decreases |s|
  {
    var at := FindAny(s, delim);
    if at == |s| || (limited && cuts == 0) then [s]
    else [s[..at]] + Pieces(s[at + 1..], delim, limited, if limited then cuts - 1 else 0)
  }

  /** At most `max` pieces, zero meaning any number. */
  function Split(s: string, delim: string, max: nat): seq<string> {
    Pieces(s, delim, max > 0, if max > 0 then max - 1 else 0)
  }

  function Join(list: seq<string>, delim: string): string {
    if list == [] then "" else if |list| == 1 then list[0]
    else list[0] + (delim + Join(list[1..], delim))
  }

  // ----- the loops

  lemma CutOnce(str: string, delim: string, prev: nat, at: nat, limited: bool, cuts: nat)
    requires prev <= at < |str| && at == FindFrom(str, delim, prev) && !(limited && cuts == 0)
    ensures Pieces(str[prev..], delim, limited, cuts)
            == [str[prev..at]] + Pieces(str[at + 1..], delim, limited, if limited then cuts - 1 else 0)
  {
    var tail := str[prev..];
    assert str[prev..at] == tail[..at - prev] && tail[at - prev + 1..] == str[at + 1..];
  }

  lemma Associates<T>(a: seq<T>, b: seq<T>, c: seq<T>)
    ensures (a + b) + c == a + (b + c)
  {}

  method DoSplit(str: string, delim: string, max: nat) returns (result: seq<string>)
    ensures result == Split(str, delim, max)
  {
    result := [];
    var count: nat, prev: nat := 0, 0;
    var current := FindFrom(str, delim, 0);
    assert str[0..] == str;
    if max > 0 {
      count := count + 1;
    }
    ghost var left: nat, whole := if max > 0 then max - 1 else 0, Split(str, delim, max);
    ghost var rest := whole;
    while (max == 0 || count < max) && current != |str|
      invariant prev <= current <= |str| && current == FindFrom(str, delim, prev)
      invariant max > 0 ==> 1 <= count && left == max - count
      invariant rest == Pieces(str[prev..], delim, max > 0, left) && result + rest == whole
      decreases |str| - prev
    {
      CutOnce(str, delim, prev, current, max > 0, left);
      left := if max > 0 then left - 1 else 0;
      rest := Pieces(str[current + 1..], delim, max > 0, left);
      Associates(result, [str[prev..current]], rest);
      result := result + [str[prev..current]];
      prev := current + 1;
      current := FindFrom(str, delim, prev);
      if max > 0 {
        count := count + 1;
      }
    }
    assert rest == [str[prev..]];
    result := result + [str[prev..]];
  }

  method DoJoin(list: seq<string>, delim: string) returns (result: string)
    ensures result == Join(list, delim)
  {
    var separator := "";
    result := "";
    for i := 0 to |list|
      invariant separator == if i == 0 then "" else delim
      invariant result == Join(list[..i], delim)
    {
      JoinOneMore(list[..i], list[i], delim);
      assert list[..i + 1] == list[..i] + [list[i]];
      result := result + separator + list[i];
      separator := delim;
    }
    assert list[..|list|] == list;
  }

  lemma Regroup<T>(a: seq<T>, b: seq<T>, c: seq<T>, d: seq<T>, e: seq<T>)
    ensures a + (b + ((c + d) + e)) == ((a + (b + c)) + d) + e
  {
    Associates(b, c + d, e);
    Associates(b, c, d);
    Associates(a, (b + c) + d, e);
    Associates(a, b + c, d);
  }

  lemma {:induction false} JoinOneMore(list: seq<string>, s: string, delim: string)
    ensures Join(list + [s], delim) == if list == [] then s else Join(list, delim) + delim + s
  {
    if list == [] {
      assert [] + [s] == [s];
    } else if |list| == 1 {
      assert (list + [s])[1..] == [s];
    } else {
      assert (list + [s])[1..] == list[1..] + [s] && (list + [s])[0] == list[0];
      JoinOneMore(list[1..], s, delim);
      Regroup(list[0], delim, Join(list[1..], delim), delim, s);
    }
  }

  // ----- main results

  lemma {:induction false} JoinOfPieces(s: string, d: char, limited: bool, cuts: nat)
    ensures Join(Pieces(s, [d], limited, cuts), [d]) == s && Pieces(s, [d], limited, cuts) != []
    decreases |s|
  {
    var at := FindAny(s, [d]);
    if at < |s| && !(limited && cuts == 0) {
      var left := if limited then cuts - 1 else 0;
      JoinOfPieces(s[at + 1..], d, limited, left);
      var pieces := Pieces(s[at + 1..], [d], limited, left);
      assert ([s[..at]] + pieces)[1..] == pieces;
      assert s == s[..at] + ([d] + s[at + 1..]);
    }
  }

  /** Joining what was split at one character gives the text back, whatever the limit. */
  lemma JoinUndoesSplit(s: string, d: char, max: nat)
    ensures Join(Split(s, [d], max), [d]) == s
  {
    JoinOfPieces(s, d, max > 0, if max > 0 then max - 1 else 0);
  }

  lemma {:induction false} FindAnyPast(a: string, b: string, d: char)
    requires d !in a
    ensures FindAny(a + [d] + b, [d]) == |a|
  {
    if a != [] {
      assert (a + [d] + b)[1..] == a[1..] + [d] + b;
      FindAnyPast(a[1..], b, d);
    }
  }

  ghost predicate Lack(list: seq<string>, d: char) {
    forall s | s in list :: d !in s
  }

  /** No more elements than pieces are allowed, and no delimiter, but for the last element allowed. */
  ghost predicate Splits(list: seq<string>, d: char, limited: bool, cuts: nat) {
    && list != []
    && (limited ==> |list| <= cuts + 1)
    && Lack(list[..|list| - 1], d)
    && (!(limited && |list| == cuts + 1) ==> d !in list[|list| - 1])
  }

  lemma {:induction false} SplitOfJoinIff(list: seq<string>, d: char, limited: bool, cuts: nat)
    requires list != []
    ensures Pieces(Join(list, [d]), [d], limited, cuts) == list <==> Splits(list, d, limited, cuts)
  {
    var s := Join(list, [d]);
    if |list| == 1 {
      OnePieceIff(s, d);
    } else if !(limited && cuts == 0) {
      var first, tail := list[0], Join(list[1..], [d]);
      var left := if limited then cuts - 1 else 0;
      Associates(first, [d], tail);
      SplitOfJoinIff(list[1..], d, limited, left);
      FirstPieceIff(first, tail, d, limited, cuts);
      LackSplits(list, d);
      assert list == [first] + list[1..];
    }
  }

  lemma OnePieceIff(s: string, d: char)
    ensures FindAny(s, [d]) == |s| <==> d !in s
  {
    FindAnyIsFirst(s, [d], d);
    assert s[..|s|] == s;
  }

  lemma LackSplits(list: seq<string>, d: char)
    requires |list| > 1
    ensures Lack(list[..|list| - 1], d) <==> d !in list[0] && Lack(list[1..][..|list| - 2], d)
  {
    assert list[..|list| - 1] == [list[0]] + list[1..][..|list| - 2];
  }

  lemma FirstPieceIff(first: string, tail: string, d: char, limited: bool, cuts: nat)
    requires !(limited && cuts == 0)
    ensures var left := if limited then cuts - 1 else 0;
      var pieces := Pieces(first + [d] + tail, [d], limited, cuts);
      && (d !in first ==> pieces == [first] + Pieces(tail, [d], limited, left))
      && (pieces[0] == first <==> d !in first)
  {
    var s := first + [d] + tail;
    var at := FindAny(s, [d]);
    FindAnyIsFirst(s, [d], d);
    assert s[..|first|] == first && s[|first| + 1..] == tail && s[|first|] == d;
    if d !in first {
      FindAnyPast(first, tail, d);
    } else {
      assert s[..|s|] == s && at < |s|;
    }
  }

  /**
   Splitting what was joined gives the list back exactly when it has elements and none holds the
   delimiter; when limited, it has no more elements than that, and only the last one allowed may.
   */
  lemma SplitUndoesJoinIff(list: seq<string>, d: char, max: nat)
    ensures Split(Join(list, [d]), [d], max) == list
            <==> list != [] && Lack(list[..|list| - 1], d)
                 && (d !in list[|list| - 1] || |list| == max) && (max > 0 ==> |list| <= max)
  {
    JoinOfPieces(Join(list, [d]), d, max > 0, if max > 0 then max - 1 else 0);
    if list != [] {
      SplitOfJoinIff(list, d, max > 0, if max > 0 then max - 1 else 0);
    }
  }

  /** The pieces with the delimiters that were cut out between them. */
  function Weave(pieces: seq<string>, cut: string): string
    requires |pieces| == |cut| + 1
    decreases |pieces|
  {
    if cut == "" then pieces[0] else pieces[0] + ([cut[0]] + Weave(pieces[1..], cut[1..]))
  }

  ghost predicate LackAny(s: string, delim: string) {
    forall c | c in s :: c !in delim
  }

  /** Every piece but the last is free of delimiters, and the text is the pieces with one delimiter between any two. */
  ghost predicate IsCut(s: string, delim: string, pieces: seq<string>, cut: string) {
    && |pieces| == |cut| + 1 && s == Weave(pieces, cut)
    && (forall c | c in cut :: c in delim)
    && (forall i | 0 <= i < |cut| :: LackAny(pieces[i], delim))
  }

  lemma {:induction false} FindAnyLacks(s: string, delim: string)
    ensures LackAny(s[..FindAny(s, delim)], delim)
  {
    if s != [] && s[0] !in delim {
      FindAnyLacks(s[1..], delim);
      assert s[..FindAny(s, delim)] == [s[0]] + s[1..][..FindAny(s[1..], delim)];
    }
  }

  lemma OneMoreCut(first: string, d: char, more: string, delim: string, pieces: seq<string>, cut: string)
    requires LackAny(first, delim) && d in delim && IsCut(more, delim, pieces, cut)
    ensures IsCut(first + ([d] + more), delim, [first] + pieces, [d] + cut)
  {
    assert ([first] + pieces)[1..] == pieces && ([d] + cut)[1..] == cut;
  }

  /** For any set of delimiters and any limit, the text is cut at delimiters, each time at the first one left. */
  lemma {:induction false} PiecesAreCut(s: string, delim: string, limited: bool, cuts: nat) returns (cut: string)
    ensures IsCut(s, delim, Pieces(s, delim, limited, cuts), cut)
    decreases |s|
  {
    var at := FindAny(s, delim);
    cut := "";
    if at < |s| && !(limited && cuts == 0) {
      var left := if limited then cuts - 1 else 0;
      var more := PiecesAreCut(s[at + 1..], delim, limited, left);
      cut := [s[at]] + more;
      FindAnyLacks(s, delim);
      OneMoreCut(s[..at], s[at], s[at + 1..], delim, Pieces(s[at + 1..], delim, limited, left), more);
      AroundAt(s, at);
    } else {
      assert Weave([s], "") == s;
    }
  }

  lemma AroundAt(s: string, at: nat)
    requires at < |s|
    ensures s == s[..at] + ([s[at]] + s[at + 1..])
  {}

  lemma SplitIsCut(s: string, delim: string, max: nat) returns (cut: string)
    ensures IsCut(s, delim, Split(s, delim, max), cut)
  {
    cut := PiecesAreCut(s, delim, max > 0, if max > 0 then max - 1 else 0);
  }

  /** How many characters of `s` are delimiters. */
  function Delimiters(s: string, delim: string): nat {
    if s == [] then 0 else (if s[0] in delim then 1 else 0) + Delimiters(s[1..], delim)
  }

  lemma {:induction false} DelimitersPast(s: string, delim: string, at: nat)
    requires at == FindAny(s, delim) < |s|
    ensures Delimiters(s, delim) == 1 + Delimiters(s[at + 1..], delim)
  {
    if at > 0 {
      DelimitersPast(s[1..], delim, at - 1);
      assert s[1..][at..] == s[at + 1..];
    }
  }

  lemma {:induction false} NoDelimiters(s: string, delim: string)
    requires FindAny(s, delim) == |s|
    ensures Delimiters(s, delim) == 0
  {
    if s != [] {
      NoDelimiters(s[1..], delim);
    }
  }

  lemma {:induction false} PiecesAreAsMany(s: string, delim: string, limited: bool, cuts: nat)
    ensures var n := Delimiters(s, delim);
      |Pieces(s, delim, limited, cuts)| == 1 + if limited && cuts < n then cuts else n
    decreases |s|
  {
    var at := FindAny(s, delim);
    if at == |s| {
      NoDelimiters(s, delim);
    } else {
      DelimitersPast(s, delim, at);
      if !(limited && cuts == 0) {
        PiecesAreAsMany(s[at + 1..], delim, limited, if limited then cuts - 1 else 0);
      }
    }
  }

  /** One piece more than there are delimiters, up to the limit. */
  lemma SplitIsAsLong(s: string, delim: string, max: nat)
    ensures var n := Delimiters(s, delim) + 1;
      |Split(s, delim, max)| == if 0 < max < n then max else n
  {
    PiecesAreAsMany(s, delim, max > 0, if max > 0 then max - 1 else 0);
  }
}

/** The check of UTF-8 text, against the lead and continuation bytes of section 3 of RFC 3629. */
module Utf8 {

  type Byte = n: nat | n < 256

  type Character = n: nat | n <= 0x10FFFF && !(0xD800 <= n <= 0xDFFF)

  // ----- the grammar

  predicate IsTail(b: Byte) {
    0x80 <= b <= 0xBF
  }

  /** How many bytes a unit with this lead has; zero for a byte that leads none. */
  function Length(lead: Byte): nat {
    if lead <= 0x7F then 1
    else if 0xC0 <= lead <= 0xDF then 2
    else if 0xE0 <= lead <= 0xEF then 3
    else if 0xF0 <= lead <= 0xF7 then 4
    else 0
  }

  predicate IsUnit(u: seq<Byte>) {
    |u| > 0 && |u| == Length(u[0]) && forall i | 1 <= i < |u| :: IsTail(u[i])
  }

  function Flatten(us: seq<seq<Byte>>): seq<Byte> {
    if us == [] then [] else us[0] + Flatten(us[1..])
  }

  ghost predicate IsText(s: seq<Byte>) {
    exists us :: Flatten(us) == s && forall u | u in us :: IsUnit(u)
  }

  /** The bytes before the first zero. */
  function BeforeZero(s: seq<Byte>): seq<Byte> {
    if s == [] || s[0] == 0 then [] else [s[0]] + BeforeZero(s[1..])
  }

  // ----- the check

  predicate TailsFollow(s: seq<Byte>, n: nat)
    requires n > 0
  {
    n <= |s| && forall i | 1 <= i < n :: IsTail(s[i])
  }

  predicate Checks(s: seq<Byte>)
    decreases |s|
  {
    s == [] || s[0] == 0
    || (Length(s[0]) > 0 && TailsFollow(s, Length(s[0])) && Checks(s[Length(s[0])..]))
  }

  /** One bit of a byte, as the masks of the loop test it. */
  predicate Bit(b: Byte, weight: nat)
    requires weight > 0
  {
    b / weight % 2 == 1
  }

  /** Steps to the next byte of a unit, which must be there and be a continuation. */
  method NextIsTail(u8: seq<Byte>, str: nat, len: nat) returns (ok: bool, str': nat, len': nat)
    requires len > 0 && str + len == |u8|
    ensures ok <==> str + 1 < |u8| && IsTail(u8[str + 1])
    ensures ok ==> str' == str + 1 && len' == len - 1 && len' > 0
  {
    str', len' := str + 1, len - 1;
    ok := len' > 0 && u8[str'] / 64 == 2;
  }

  /** Steps over one unit. */
  method Unit(u8: seq<Byte>, start: nat, size: nat) returns (ok: bool, str: nat, len: nat)
    requires size > 0 && start + size == |u8|
    ensures ok <==> Length(u8[start]) > 0 && TailsFollow(u8[start..], Length(u8[start]))
    ensures ok ==> str == start + Length(u8[start]) && str + len == |u8|
  {
    ok, str, len := true, start, size;
    if Bit(u8[str], 128) {
      if !Bit(u8[str], 64) {
        return false, str, len;
      }
      if Bit(u8[str], 32) {
        if Bit(u8[str], 16) {
          if Bit(u8[str], 8) {
            return false, str, len;
          }
          ok, str, len := NextIsTail(u8, str, len);
          if !ok {
            return;
          }
        }
        ok, str, len := NextIsTail(u8, str, len);
        if !ok {
          return;
        }
      }
      ok, str, len := NextIsTail(u8, str, len);
      if !ok {
        return;
      }
    }
    len, str := len - 1, str + 1;
  }

  method Verify(u8: seq<Byte>) returns (ok: bool)
    ensures ok <==> Checks(u8)
  {
    var str: nat, len: nat := 0, |u8|;
    assert u8[0..] == u8;
    while len > 0 && u8[str] != 0
      invariant str + len == |u8| && Checks(u8) == Checks(u8[str..])
      decreases len
    {
      ghost var rest, n := u8[str..], Length(u8[str]);
      ok, str, len := Unit(u8, str, len);
      if !ok {
        return;
      }
      assert rest[n..] == u8[str..];
    }
    return true;
  }

  // ----- main results

  lemma {:induction false} BeforeZeroPast(u: seq<Byte>, s: seq<Byte>)
    requires 0 !in u
    ensures BeforeZero(u + s) == u + BeforeZero(s)
  {
    if u == [] {
      assert u + s == s;
    } else {
      assert (u + s)[1..] == u[1..] + s;
      BeforeZeroPast(u[1..], s);
    }
  }

  lemma UnitAhead(s: seq<Byte>)
    requires s != [] && s[0] != 0 && Length(s[0]) > 0 && TailsFollow(s, Length(s[0]))
    ensures var n := Length(s[0]); IsUnit(s[..n]) && BeforeZero(s) == s[..n] + BeforeZero(s[n..])
  {
    var n := Length(s[0]);
    assert s == s[..n] + s[n..];
    assert forall i | 0 <= i < n :: s[..n][i] == s[i];
    BeforeZeroPast(s[..n], s[n..]);
  }

  lemma {:induction false} CheckedIsText(s: seq<Byte>) returns (us: seq<seq<Byte>>)
    requires Checks(s)
    ensures Flatten(us) == BeforeZero(s) && forall u | u in us :: IsUnit(u)
    decreases |s|
  {
    if s == [] || s[0] == 0 {
      us := [];
    } else {
      var n := Length(s[0]);
      UnitAhead(s);
      var more := CheckedIsText(s[n..]);
      us := [s[..n]] + more;
      assert us[1..] == more;
    }
  }

  lemma {:induction false} BeforeZeroIsPrefix(s: seq<Byte>)
    ensures var b := BeforeZero(s);
      |b| <= |s| && s[..|b|] == b && 0 !in b && (|b| < |s| ==> s[|b|] == 0)
  {
    if s != [] && s[0] != 0 {
      BeforeZeroIsPrefix(s[1..]);
      var b := BeforeZero(s[1..]);
      assert s[..1 + |b|] == [s[0]] + s[1..][..|b|];
    }
  }

  lemma {:induction false} UnitsCheck(us: seq<seq<Byte>>, more: seq<Byte>)
    requires (forall u | u in us :: IsUnit(u)) && Checks(more)
    ensures Checks(Flatten(us) + more)
  {
    if us == [] {
      assert Flatten(us) + more == more;
    } else {
      assert us[0] in us;
      var u, tail := us[0], Flatten(us[1..]) + more;
      var s := Flatten(us) + more;
      assert s == u + tail;
      assert s[0] == u[0] && s[|u|..] == tail;
      assert forall i | 1 <= i < |u| :: s[i] == u[i];
      UnitsCheck(us[1..], more);
    }
  }

  /** The check accepts exactly the texts that are whole units up to the first zero byte. */
  lemma ChecksIff(s: seq<Byte>)
    ensures Checks(s) <==> IsText(BeforeZero(s))
  {
    if Checks(s) {
      var us := CheckedIsText(s);
    }
    if IsText(BeforeZero(s)) {
      var us :| Flatten(us) == BeforeZero(s) && forall u | u in us :: IsUnit(u);
      BeforeZeroIsPrefix(s);
      UnitsCheck(us, s[|BeforeZero(s)|..]);
      assert s == BeforeZero(s) + s[|BeforeZero(s)|..];
    }
  }

  /** The encoding of one character number, by the table of section 3 of RFC 3629. */
  function Encoded(c: Character): seq<Byte> {
    if c <= 0x7F then [c]
    else if c <= 0x7FF then [0xC0 + c / 64, 0x80 + c % 64]
    else if c <= 0xFFFF then [0xE0 + c / 4096, 0x80 + c / 64 % 64, 0x80 + c % 64]
    else [0xF0 + c / 262144, 0x80 + c / 4096 % 64, 0x80 + c / 64 % 64, 0x80 + c % 64]
  }

  function AllEncoded(cs: seq<Character>): seq<seq<Byte>>
  {
    if cs == [] then [] else [Encoded(cs[0])] + AllEncoded(cs[1..])
  }

  lemma {:induction false} AllEncodedAreUnits(cs: seq<Character>)
    ensures forall u | u in AllEncoded(cs) :: IsUnit(u)
  {
    if cs != [] {
      AllEncodedAreUnits(cs[1..]);
    }
  }

  /** Encoded text is accepted, whatever its characters. */
  lemma EncodedTextChecks(cs: seq<Character>)
    ensures Checks(Flatten(AllEncoded(cs)))
  {
    AllEncodedAreUnits(cs);
    UnitsCheck(AllEncoded(cs), []);
    assert Flatten(AllEncoded(cs)) + [] == Flatten(AllEncoded(cs));
  }

  // ----- what is accepted and is no encoding

  /** The units of section 4 of RFC 3629: no overlong forms, no surrogates, nothing past U+10FFFF. */
  predicate InTable(u: seq<Byte>)
    requires IsUnit(u)
  {
    match |u|
    case 1 => true
    case 2 => u[0] >= 0xC2
    case 3 => (u[0] == 0xE0 ==> u[1] >= 0xA0) && (u[0] == 0xED ==> u[1] <= 0x9F)
    case _ => u[0] <= 0xF4 && (u[0] == 0xF0 ==> u[1] >= 0x90) && (u[0] == 0xF4 ==> u[1] <= 0x8F)
  }

  lemma Digits(a: nat, b: nat)
    requires b < 64
    ensures (a * 64 + b) / 64 == a && (a * 64 + b) % 64 == b
  {}

  lemma Thousands(c: nat)
    ensures c / 4096 == c / 64 / 64 && c / 262144 == c / 64 / 64 / 64
  {}

  lemma TwoByteUnit(u: seq<Byte>) returns (c: Character)
    requires IsUnit(u) && |u| == 2 && InTable(u)
    ensures Encoded(c) == u
  {
    var a: nat, b: nat := u[0] - 0xC0, u[1] - 0x80;
    Digits(a, b);
    c := a * 64 + b;
  }

  lemma ThreeByteUnit(u: seq<Byte>) returns (c: Character)
    requires IsUnit(u) && |u| == 3 && InTable(u)
    ensures Encoded(c) == u
  {
    var a: nat, b: nat, d: nat := u[0] - 0xE0, u[1] - 0x80, u[2] - 0x80;
    Digits(a, b);
    Digits(a * 64 + b, d);
    c := (a * 64 + b) * 64 + d;
    Thousands(c);
  }

  lemma FourByteUnit(u: seq<Byte>) returns (c: Character)
    requires IsUnit(u) && |u| == 4 && InTable(u)
    ensures Encoded(c) == u
  {
    var a: nat, b: nat, d: nat, e: nat := u[0] - 0xF0, u[1] - 0x80, u[2] - 0x80, u[3] - 0x80;
    var high: nat := (a * 64 + b) * 64 + d;
    Digits(a, b);
    Digits(a * 64 + b, d);
    Digits(high, e);
    c := high * 64 + e;
    Thousands(c);
  }

  lemma UnitEncodes(u: seq<Byte>) returns (c: Character)
    requires IsUnit(u) && InTable(u)
    ensures Encoded(c) == u
  {
    if |u| == 1 {
      c := u[0];
    } else if |u| == 2 {
      c := TwoByteUnit(u);
    } else if |u| == 3 {
      c := ThreeByteUnit(u);
    } else {
      c := FourByteUnit(u);
    }
  }

  lemma EncodedInTable(c: Character)
    ensures IsUnit(Encoded(c)) && InTable(Encoded(c))
  {
    Thousands(c);
  }

  /** A unit is the encoding of a character exactly if it is in the table. */
  lemma UnitIsEncodingIff(u: seq<Byte>)
    requires IsUnit(u)
    ensures (exists c: Character :: Encoded(c) == u) <==> InTable(u)
  {
    if c: Character :| Encoded(c) == u {
      EncodedInTable(c);
    }
    if InTable(u) {
      var c := UnitEncodes(u);
    }
  }

  /** A text is made of units in one way. */
  lemma {:induction false} UnitsAreUnique(us: seq<seq<Byte>>, vs: seq<seq<Byte>>)
    requires (forall u | u in us :: IsUnit(u)) && (forall v | v in vs :: IsUnit(v))
    requires Flatten(us) == Flatten(vs)
    ensures us == vs
  {
    if us != [] {
      assert us[0] in us;
      FlattenSplits(us);
    }
    if vs != [] {
      assert vs[0] in vs;
      FlattenSplits(vs);
    }
    if us != [] && vs != [] {
      UnitsAreUnique(us[1..], vs[1..]);
      assert us == [us[0]] + us[1..] && vs == [vs[0]] + vs[1..];
    }
  }

  lemma FlattenSplits(us: seq<seq<Byte>>)
    requires us != [] && IsUnit(us[0])
    ensures var s, n := Flatten(us), |us[0]|;
      s != [] && Length(s[0]) == n <= |s| && us[0] == s[..n] && Flatten(us[1..]) == s[n..]
  {}

  lemma {:induction false} DecodeAll(us: seq<seq<Byte>>) returns (cs: seq<Character>)
    requires forall u | u in us :: IsUnit(u) && InTable(u)
    ensures AllEncoded(cs) == us
  {
    cs := [];
    if us != [] {
      assert us[0] in us;
      var c := UnitEncodes(us[0]);
      var more := DecodeAll(us[1..]);
      cs := [c] + more;
      assert cs[1..] == more;
    }
  }

  lemma {:induction false} AllEncodedInTable(cs: seq<Character>)
    ensures forall u | u in AllEncoded(cs) :: IsUnit(u) && InTable(u)
  {
    if cs != [] {
      EncodedInTable(cs[0]);
      AllEncodedInTable(cs[1..]);
    }
  }

  ghost predicate IsEncodedText(s: seq<Byte>) {
    exists cs :: Flatten(AllEncoded(cs)) == s
  }

  /**
   An accepted text consists of units up to its first zero byte, in one way, and that part encodes
   characters exactly if every unit is in the table.
   */
  lemma AcceptedIsEncodedIff(s: seq<Byte>) returns (us: seq<seq<Byte>>)
    requires Checks(s)
    ensures Flatten(us) == BeforeZero(s) && forall u | u in us :: IsUnit(u)
    ensures IsEncodedText(BeforeZero(s)) <==> forall u | u in us :: InTable(u)
  {
    us := CheckedIsText(s);
    if IsEncodedText(BeforeZero(s)) {
      var cs :| Flatten(AllEncoded(cs)) == BeforeZero(s);
      AllEncodedInTable(cs);
      UnitsAreUnique(us, AllEncoded(cs));
    }
    if forall u | u in us :: InTable(u) {
      var cs := DecodeAll(us);
    }
  }

  /** Accepted though no encodings: an overlong form, a surrogate, and a number past the last character. */
  lemma AcceptsMoreThanEncodings()
    ensures Checks([0xC1, 0x81]) && Checks([0xED, 0xA0, 0x80]) && Checks([0xF7, 0xBF, 0xBF, 0xBF])
    ensures !IsEncodedText([0xC1, 0x81]) && !IsEncodedText([0xED, 0xA0, 0x80]) && !IsEncodedText([0xF7, 0xBF, 0xBF, 0xBF])
  {
    OutsideTable([0xC1, 0x81]);
    OutsideTable([0xED, 0xA0, 0x80]);
    OutsideTable([0xF7, 0xBF, 0xBF, 0xBF]);
  }

  /** Any one unit outside the table, as it has no zero byte, is accepted and is no encoded text. */
  lemma OutsideTable(u: seq<Byte>)
    requires IsUnit(u) && !InTable(u)
    ensures Checks(u) && !IsEncodedText(u)
  {
    assert u[|u|..] == [] && [u][1..] == [] && u in [u];
    assert Flatten([u]) == u;
    if IsEncodedText(u) {
      var cs :| Flatten(AllEncoded(cs)) == u;
      AllEncodedInTable(cs);
      UnitsAreUnique([u], AllEncoded(cs));
    }
  }
}
