/** The alphabet of base64, and what the decoder makes of texts that hold other characters. */
module Base64Texts {
  import opened Base64

  const UPPER: string := "ABCDEFGHIJKLMNOPQRSTUVWXYZ"
  const LOWER: string := "abcdefghijklmnopqrstuvwxyz"
  const OTHERS: string := "0123456789+/"

  const ALPHABET: string := UPPER + LOWER + OTHERS

  lemma UpperCase(i: nat)
    requires i < 26
    ensures |UPPER| == 26 && UPPER[i] as int == 'A' as int + i
  {}

  lemma LowerCase(i: nat)
    requires i < 26
    ensures |LOWER| == 26 && LOWER[i] as int == 'a' as int + i
  {}

  lemma TheOthers(i: nat)
    requires i < 12
    ensures |OTHERS| == 12 && OTHERS[i] == if i < 10 then '0' + i as char else if i == 10 then '+' else '/'
  {}

  /** The digits are those of table 1 in section 4 of RFC 4648. */
  lemma AlphabetIsStandard(i: Six)
    ensures |ALPHABET| == 64 && Char(i) == ALPHABET[i]
  {
    if i < 26 {
      UpperCase(i);
    } else if i < 52 {
      LowerCase(i - 26);
    } else {
      TheOthers(i - 52);
    }
  }

  /** Exactly the characters of the alphabet have a place in it. */
  lemma HasPlaceIff(c: char)
    ensures Index(c) >= 0 <==> c in ALPHABET
    ensures Index(c) >= 0 ==> ALPHABET[Index(c)] == c
  {
    if Index(c) >= 0 {
      AlphabetIsStandard(Index(c));
      PlaceIsChar(c);
    }
    if c in ALPHABET {
      var i :| 0 <= i < |ALPHABET| && ALPHABET[i] == c;
      AlphabetIsStandard(i);
      IndexUndoesChar(i);
    }
  }

  lemma PlaceIsChar(c: char)
    requires Index(c) >= 0
    ensures Char(Index(c)) == c
  {}

  // ----- other characters

  /** The characters of a text that belong to the alphabet. */
  function Kept(from: string): string {
    if from == "" then "" else (if from[0] in ALPHABET then [from[0]] else "") + Kept(from[1..])
  }

  lemma {:induction false} OthersHaveNoPlace(from: string)
    ensures Places(Kept(from)) == Places(from)
  {
    if from != "" {
      HasPlaceIff(from[0]);
      OthersHaveNoPlace(from[1..]);
      if from[0] in ALPHABET {
        assert Kept(from)[1..] == Kept(from[1..]);
      } else {
        assert Kept(from) == Kept(from[1..]);
      }
    }
  }

  /**
   Whatever other characters are mixed in, the digits of some bytes decode to those bytes, as many as the
   size computed from the whole text says, or to nothing if there is no room for so many.
   */
  lemma OthersArePassedOver(from: string, x: seq<Byte>, maxsize: nat)
    requires Kept(from) == Digits(x)
    ensures Decoded(from, maxsize) == if Size(from) > maxsize then [] else Prefix(x, Size(from))
  {
    OthersHaveNoPlace(from);
    BytesOfDigits(x, "");
    assert Digits(x) + "" == Digits(x);
  }

  // ----- the size of any text

  function Pads(n: nat): string {
    if n == 0 then "" else Pads(n - 1) + "="
  }

  lemma {:induction false} PadsAreNotCounted(text: string, n: nat)
    requires text != "" && (|text| == 1 || text[|text| - 1] != '=')
    ensures LastDigit(text + Pads(n)) == |text| - 1
  {
    if n == 0 {
      assert text + Pads(n) == text;
    } else {
      PadsAreNotCounted(text, n - 1);
      OneMorePad(text + Pads(n - 1));
      assert text + Pads(n) == (text + Pads(n - 1)) + "=";
    }
  }

  /**
   The size of any text, by its length without the padding: three bytes a group of four and one or two
   for two or three digits more; but zero for full groups, and three for a digit left alone.
   */
  lemma SizeIsByLength(text: string, n: nat, groups: nat, more: nat)
    requires text != "" && (|text| == 1 || text[|text| - 1] != '=')
    requires |text| == 4 * groups + more && more < 4
    ensures Size(text + Pads(n))
            == if more == 0 then 0 else if more == 1 then 3 * groups + 3 else 3 * groups + more - 1
  {
    PadsAreNotCounted(text, n);
    DivMod(|text| - 1, 4, if more == 0 then groups - 1 else groups, if more == 0 then 3 else more - 1);
  }
}
