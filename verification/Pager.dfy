/**
 The blocks a bump allocator of fixed-size pages gives out, for 64-bit sizes, 8-byte pointers and
 a 16-byte page header.
 */
module PagerBlocks {
  import opened Options

  const WORD: int := 0x1_0000_0000_0000_0000
  const HALF: int := 0x1_0000_0000
  const HEADER: nat := 16
  const ALIGN: nat := 8

  type Size = n: nat | n < WORD

  type Used = n: nat | n < HALF

  /** Subtraction of unsigned sizes. */
  function Minus(a: Size, b: Size): Size {
    if b <= a then a - b else a - b + WORD
  }

  /** Addition in the 32-bit count of used bytes. */
  function Plus(used: Used, size: Size): Used {
    (used + size) % HALF
  }

  /** The size a request is rounded up to; it wraps to zero above the last multiple. */
  function Rounded(size: Size): Size {
    if size % ALIGN == 0 then size
    else if size > WORD - ALIGN then 0
    else size + (ALIGN - size % ALIGN)
  }

  /** A block: the page it lies on, its place there, its size and the size that was asked for. */
  datatype Block = Block(page: nat, offset: nat, size: Size, asked: Size)

  /**
   The pages made so far, how much of the newest is used, how many are held, and the blocks given
   out since the last clear, oldest first.
   */
  datatype State = State(size: Size, made: nat, count: Used, used: Option<Used>, given: seq<Block>)

  datatype Event = Alloc(size: Size, available: bool) | Clear

  predicate NeedsPage(s: State, rounded: Size) {
    s.used.None? || rounded > Minus(s.size, s.used.value)
  }

  predicate Refused(s: State, size: Size, available: bool) {
    || Rounded(size) > Minus(s.size, ALIGN)
    || (NeedsPage(s, Rounded(size)) && !available)
  }

  function WithPage(s: State): State {
    s.(made := s.made + 1, count := if s.count + 1 == HALF then 0 else s.count + 1, used := Some(HEADER))
  }

  function Give(s: State, size: Size): State
    requires s.used.Some? && s.made > 0
  {
    s.(used := Some(Plus(s.used.value, Rounded(size))),
       given := s.given + [Block(s.made - 1, s.used.value, Rounded(size), size)])
  }

  predicate Sound(s: State) {
    s.used.Some? ==> s.made > 0
  }

  function Step(s: State, e: Event): (s': State)
    requires Sound(s)
    ensures Sound(s') && s'.size == s.size
  {
    match e
    case Clear => s.(used := None, count := 0, given := [])
    case Alloc(size, available) =>
      if Refused(s, size, available) then s
      else Give(if NeedsPage(s, Rounded(size)) then WithPage(s) else s, size)
  }

  function Start(size: Size): State {
    State(size, 0, 0, None, [])
  }

  function After(size: Size, es: seq<Event>): (s: State)
    ensures Sound(s) && s.size == size
  {
    if es == [] then Start(size) else Step(After(size, es[..|es| - 1]), es[|es| - 1])
  }

  // ----- rounding

  /** A rounded size is the least multiple of the pointer size that holds the request, unless that wraps. */
  lemma RoundedHoldsIff(size: Size)
    ensures Rounded(size) % ALIGN == 0
    ensures Rounded(size) >= size <==> size <= WORD - ALIGN
    ensures Rounded(size) >= size ==> Rounded(size) < size + ALIGN
  {
    if size % ALIGN != 0 && size <= WORD - ALIGN {
      var q := size / ALIGN;
      assert size == ALIGN * q + size % ALIGN;
      assert size + (ALIGN - size % ALIGN) == ALIGN * (q + 1);
      assert ALIGN * (q + 1) % ALIGN == 0;
    }
  }

  // ----- what every run keeps

  /** Inside its page and past the header. */
  predicate Contained(b: Block, size: Size) {
    HEADER <= b.offset && b.offset + b.size <= size
  }

  predicate Apart(a: Block, b: Block) {
    a.page != b.page || a.offset + a.size <= b.offset || b.offset + b.size <= a.offset
  }

  /** A block that fits a page together with the header. */
  predicate Fits(b: Block, size: Size) {
    b.size + HEADER <= size
  }

  predicate AllFit(s: State) {
    forall b | b in s.given :: Fits(b, s.size)
  }

  /** `a` was given out before `b`: on an older page, or below it. */
  predicate Before(a: Block, b: Block) {
    a.page < b.page || (a.page == b.page && a.offset + a.size <= b.offset)
  }

  /** The newest page is used up to `used`, and holds the blocks given since, one above the other. */
  ghost predicate Stacked(s: State) {
    && (s.given != [] ==> s.used.Some?)
    && (s.used.Some? ==> s.made > 0 && HEADER <= s.used.value && (HEADER <= s.size ==> s.used.value <= s.size))
    && (forall b | b in s.given :: Contained(b, s.size) && Before(b, Block(s.made - 1, s.used.value, 0, 0)))
    && (forall i, j | 0 <= i < j < |s.given| :: Before(s.given[i], s.given[j]))
  }

  ghost predicate Aligned(s: State) {
    && (forall b | b in s.given :: b.offset % ALIGN == 0 && b.size == Rounded(b.asked))
    && (s.used.Some? ==> s.used.value % ALIGN == 0)
  }

  ghost predicate Inv(s: State) {
    Aligned(s) && (AllFit(s) ==> Stacked(s))
  }

  lemma PlusIsAligned(a: Used, b: Size)
    requires a % ALIGN == 0 && b % ALIGN == 0
    ensures Plus(a, b) % ALIGN == 0
    ensures a + b < HALF ==> Plus(a, b) == a + b
  {
    var i, j := a / 8, b / 8;
    assert a + b == 8 * (i + j);
    var q := (a + b) / HALF;
    assert (a + b) % HALF == 8 * (i + j - q * 0x2000_0000);
  }

  lemma GiveKeepsAligned(s: State, size: Size)
    requires s.used.Some? && s.made > 0 && Aligned(s)
    ensures Aligned(Give(s, size))
  {
    RoundedHoldsIff(size);
    PlusIsAligned(s.used.value, Rounded(size));
  }

  lemma OnTop(bs: seq<Block>, b: Block)
    requires forall i, j | 0 <= i < j < |bs| :: Before(bs[i], bs[j])
    requires forall a | a in bs :: Before(a, b)
    ensures forall i, j | 0 <= i < j < |bs + [b]| :: Before((bs + [b])[i], (bs + [b])[j])
  {}

  lemma GiveKeepsStacked(s: State, size: Size)
    requires s.size < HALF && s.used.Some? && s.made > 0 && Stacked(s) && Aligned(s)
    requires s.used.value + Rounded(size) <= s.size
    ensures Stacked(Give(s, size))
  {
    var b := Block(s.made - 1, s.used.value, Rounded(size), size);
    RoundedHoldsIff(size);
    PlusIsAligned(s.used.value, Rounded(size));
    forall a | a in s.given ensures Before(a, b) {
      assert Before(a, Block(s.made - 1, s.used.value, 0, 0));
    }
    OnTop(s.given, b);
  }

  lemma {:induction false} RunKeepsAligned(size: Size, es: seq<Event>)
    ensures Aligned(After(size, es))
    decreases |es|
  {
    if es != [] {
      var s, e := After(size, es[..|es| - 1]), es[|es| - 1];
      RunKeepsAligned(size, es[..|es| - 1]);
      if e.Alloc? && !Refused(s, e.size, e.available) {
        GiveKeepsAligned(if NeedsPage(s, Rounded(e.size)) then WithPage(s) else s, e.size);
      }
    }
  }

  lemma GiveKeepsInv(s: State, size: Size)
    requires s.size < HALF && s.used.Some? && s.made > 0 && Inv(s)
    requires Rounded(size) + HEADER <= s.size && HEADER <= s.used.value <= s.size ==>
               s.used.value + Rounded(size) <= s.size
    ensures Inv(Give(s, size))
  {
    var s' := Give(s, size);
    GiveKeepsAligned(s, size);
    if AllFit(s') {
      assert s'.given[|s.given|] in s'.given;
      assert forall b | b in s.given :: b in s'.given;
      GiveKeepsStacked(s, size);
    }
  }

  lemma StepKeepsInv(s: State, e: Event)
    requires s.size < HALF && Sound(s) && Inv(s)
    ensures Inv(Step(s, e))
  {
    if e.Alloc? && !Refused(s, e.size, e.available) {
      if NeedsPage(s, Rounded(e.size)) {
        GiveKeepsInv(WithPage(s), e.size);
      } else {
        GiveKeepsInv(s, e.size);
      }
    }
  }

  lemma {:induction false} RunKeepsInv(size: Size, es: seq<Event>)
    requires size < HALF
    ensures Inv(After(size, es))
    decreases |es|
  {
    if es != [] {
      RunKeepsInv(size, es[..|es| - 1]);
      StepKeepsInv(After(size, es[..|es| - 1]), es[|es| - 1]);
    }
  }

  // ----- main results

  predicate AllContained(s: State) {
    forall b | b in s.given :: Contained(b, s.size)
  }

  predicate AllApart(s: State) {
    forall i, j | 0 <= i < j < |s.given| :: Apart(s.given[i], s.given[j])
  }

  /**
   For pages below 4 GiB: the blocks of a run all lie in their pages, past the headers, exactly when
   each rounded size leaves room for the header. The code's own guard asks for less.
   */
  lemma ContainedIff(size: Size, es: seq<Event>)
    requires size < HALF
    ensures AllContained(After(size, es)) <==> AllFit(After(size, es))
  {
    RunKeepsInv(size, es);
  }

  /** Then no two of them overlap. */
  lemma BlocksNeverOverlap(size: Size, es: seq<Event>)
    requires size < HALF && AllFit(After(size, es))
    ensures AllApart(After(size, es))
  {
    RunKeepsInv(size, es);
  }

  /** Where the newest block ends, and the place on its page it leaves. */
  function End(b: Block): nat {
    b.offset + b.size
  }

  /** Only a page just made for a block is without one, and the newest is used exactly up to its last block. */
  ghost predicate Tight(s: State) {
    && (s.used.Some? <==> s.given != [])
    && (AllFit(s) && s.given != [] ==>
          var last := s.given[|s.given| - 1]; last.page == s.made - 1 && End(last) == s.used.value)
  }

  lemma GiveKeepsTight(s: State, size: Size)
    requires s.size < HALF && s.used.Some? && s.made > 0 && Inv(s)
    requires Rounded(size) + HEADER <= s.size && HEADER <= s.used.value <= s.size ==>
               s.used.value + Rounded(size) <= s.size
    requires s.given != [] || s.used == Some(HEADER)
    ensures Tight(Give(s, size))
  {
    var s' := Give(s, size);
    if AllFit(s') {
      assert s'.given[|s.given|] in s'.given;
      assert forall b | b in s.given :: b in s'.given;
      RoundedHoldsIff(size);
      PlusIsAligned(s.used.value, Rounded(size));
    }
  }

  lemma {:induction false} RunKeepsTight(size: Size, es: seq<Event>)
    requires size < HALF
    ensures Tight(After(size, es))
    decreases |es|
  {
    if es != [] {
      var s, e := After(size, es[..|es| - 1]), es[|es| - 1];
      RunKeepsTight(size, es[..|es| - 1]);
      RunKeepsInv(size, es[..|es| - 1]);
      if e.Alloc? && !Refused(s, e.size, e.available) {
        GiveKeepsTight(if NeedsPage(s, Rounded(e.size)) then WithPage(s) else s, e.size);
      }
    }
  }

  /**
   What a request is to leave given out: one block more, right behind the newest one if there is room
   for it there, else the first one behind the header of a new page; and no more exactly if the guard
   refuses or no page is to be had.
   */
  function Wanted(s: State, asked: Size, available: bool): seq<Block> {
    var room := s.given != [] && End(s.given[|s.given| - 1]) + Rounded(asked) <= s.size;
    if Rounded(asked) > Minus(s.size, ALIGN) || (!room && !available) then s.given
    else if room then
      var last := s.given[|s.given| - 1];
      s.given + [Block(last.page, End(last), Rounded(asked), asked)]
    else s.given + [Block(s.made, HEADER, Rounded(asked), asked)]
  }

  /** As long as all blocks fit, every request gets what is wanted: no space is lost and none refused early. */
  lemma NextBlockIs(size: Size, es: seq<Event>, asked: Size, available: bool)
    requires size < HALF && AllFit(After(size, es))
    ensures After(size, es + [Alloc(asked, available)]).given == Wanted(After(size, es), asked, available)
  {
    RunKeepsTight(size, es);
    RunKeepsInv(size, es);
    assert (es + [Alloc(asked, available)])[..|es|] == es;
    NextGiven(After(size, es), asked, available);
  }

  lemma NextGiven(s: State, asked: Size, available: bool)
    requires s.size < HALF && Sound(s) && Tight(s) && Inv(s) && AllFit(s)
    ensures Step(s, Alloc(asked, available)).given == Wanted(s, asked, available)
  {
    if s.given != [] {
      RoomIff(s, Rounded(asked));
    }
  }

  lemma RoomIff(s: State, rounded: Size)
    requires s.size < HALF && Sound(s) && Tight(s) && Inv(s) && AllFit(s) && s.given != []
    ensures s.used.Some? && (NeedsPage(s, rounded) <==> s.used.value + rounded > s.size)
  {
    assert s.given[0] in s.given;
  }

  /** Every block is aligned, and holds the request unless rounding it wrapped. */
  lemma BlocksAreAlignedAndHold(size: Size, es: seq<Event>, b: Block)
    requires b in After(size, es).given
    ensures b.offset % ALIGN == 0 && b.size % ALIGN == 0
    ensures b.size >= b.asked <==> b.asked <= WORD - ALIGN
  {
    RunKeepsAligned(size, es);
    RoundedHoldsIff(b.asked);
  }

  /** A request the guard lets through although the header leaves no room for it. */
  lemma GuardLetsTooMuchThrough(size: Size)
    requires 2 * HEADER <= size < HALF && size % ALIGN == 0
    ensures var s := After(size, [Alloc(size - ALIGN, true)]);
      s.given == [Block(0, HEADER, size - ALIGN, size - ALIGN)] && !Contained(s.given[0], size)
  {
    var es := [Alloc(size - ALIGN, true)];
    assert es[..0] == [];
    assert (size - ALIGN) % ALIGN == 0;
  }

  /**
   On every page of 4 GiB and above the 32-bit count of used bytes wraps: a second block lands on the
   header, and a third on the first one.
   */
  lemma LargePageOverwritesHeader(size: Size)
    requires size >= HALF
    ensures var s := After(size, [Alloc(HALF - 16, true), Alloc(8, true), Alloc(16, true)]);
      && s.given == [Block(0, HEADER, HALF - 16, HALF - 16), Block(0, 0, 8, 8), Block(0, 8, 16, 16)]
      && AllFit(s) && !AllContained(s) && !AllApart(s)
  {
    var es := [Alloc(HALF - 16, true), Alloc(8, true), Alloc(16, true)];
    assert es[..2] == [Alloc(HALF - 16, true), Alloc(8, true)];
    assert es[..2][..1] == [Alloc(HALF - 16, true)] && es[..2][..1][..0] == [];
    assert After(size, es[..2][..1][..0]) == Start(size);
    assert (HALF - 16) % ALIGN == 0;
    assert Plus(HEADER, HALF - 16) == 0;
    var s1 := After(size, es[..2][..1]);
    assert s1.used == Some(0) && s1.given == [Block(0, HEADER, HALF - 16, HALF - 16)];
    var s2 := After(size, es[..2]);
    assert s2.used == Some(8) && s2.given == [Block(0, HEADER, HALF - 16, HALF - 16), Block(0, 0, 8, 8)];
    var s := After(size, es);
    assert s.given[1] in s.given;
    assert !Apart(s.given[0], s.given[2]);
  }

  /** Requests that fit always get blocks inside their pages exactly on pages below 4 GiB. */
  lemma FittingStayContainedIff(size: Size)
    ensures (forall es | AllFit(After(size, es)) :: AllContained(After(size, es))) <==> size < HALF
  {
    if size < HALF {
      forall es | AllFit(After(size, es)) ensures AllContained(After(size, es)) {
        ContainedIff(size, es);
      }
    } else {
      LargePageOverwritesHeader(size);
    }
  }

  /** And they always get blocks apart exactly on the same pages. */
  lemma FittingStayApartIff(size: Size)
    ensures (forall es | AllFit(After(size, es)) :: AllApart(After(size, es))) <==> size < HALF
  {
    if size < HALF {
      forall es | AllFit(After(size, es)) ensures AllApart(After(size, es)) {
        BlocksNeverOverlap(size, es);
      }
    } else {
      LargePageOverwritesHeader(size);
    }
  }
}

/** The allocator: a chain of pages, the newest first, of which only the newest is filled. */
module Pager {
  import opened Options
  import opened PagerBlocks

  class Page {
    var next: Page?
    var used: nat
    ghost const serial: nat

    constructor (ghost serial: nat)
      ensures this.serial == serial
    {
      this.serial := serial;
      next, used := null, 0;
    }
  }

  /** A pointer: the start of a page and the distance from there. */
  datatype Address = Address(page: Page, offset: nat)

  class Pager {
    const size: Size
    var count: Used
    var current: Page?
    ghost var chain: seq<Page>
    ghost var made: nat
    ghost var given: seq<Block>

    ghost predicate Valid()
      reads this, chain
    {
      Linked() && (current != null ==> current.used < HALF && made > 0 && current.serial == made - 1)
    }

    ghost predicate Linked()
      reads this, chain
    {
      && (current == null <==> chain == [])
      && (chain != [] ==> chain[0] == current)
      && (forall i {:trigger chain[i].next} | 0 <= i < |chain| - 1 :: chain[i].next == chain[i + 1])
      && (chain != [] ==> chain[|chain| - 1].next == null)
      && (forall i, j | 0 <= i < j < |chain| :: chain[i] != chain[j])
    }

    ghost function Abstract(): State
      requires Valid()
      reads this, chain
    {
      State(size, made, count, if current == null then None else Some(current.used), given)
    }

    constructor (size: Size)
      ensures Valid() && Abstract() == Start(size)
    {
      this.size, count, current, chain, made, given := size, 0, null, [], 0, [];
    }

    static method RoundUp(size: Size) returns (rounded: Size)
      ensures rounded == Rounded(size)
    {
      rounded := size;
      while rounded % ALIGN != 0
        invariant Rounded(rounded) == Rounded(size)
        decreases if rounded % ALIGN == 0 then 0 else ALIGN - rounded % ALIGN
      {
        rounded := if rounded + 1 == WORD then 0 else rounded + 1;
      }
    }

    /** Puts a new page before the others, used up to its header. */
    method AddPage()
      requires Valid()
      modifies this
      ensures Valid() && Abstract() == WithPage(old(Abstract()))
      ensures chain != [] && fresh(chain[0]) && chain[1..] == old(chain)
    {
      var page := new Page(made);
      page.used := HEADER;
      page.next := current;
      count := if count + 1 == HALF then 0 else count + 1;
      chain, made := [page] + chain, made + 1;
      current := page;
    }

    /** `available` says whether the system has another page. */
    method Allocate(asked: Size, available: bool) returns (mem: Option<Address>)
      requires Valid()
      modifies this, chain
      ensures Valid() && Abstract() == Step(old(Abstract()), Alloc(asked, available))
      ensures mem.Some? <==> !Refused(old(Abstract()), asked, available)
      ensures mem.Some? ==>
                var b := given[|given| - 1];
                mem.value.page == current && mem.value.page.serial == b.page && mem.value.offset == b.offset
      ensures chain == old(chain) || (chain != [] && fresh(chain[0]) && chain[1..] == old(chain))
    {
      var rounded := RoundUp(asked);
      if rounded > Minus(size, ALIGN) {
        return None;
      }
      if current == null || rounded > Minus(size, current.used) {
        if !available {
          return None;
        }
        AddPage();
      }
      given := given + [Block(current.serial, current.used, rounded, asked)];
      mem := Some(Address(current, current.used));
      current.used := Plus(current.used, rounded);
    }

    /** Gives every page back, each once. */
    method Clear() returns (ghost freed: seq<Page>)
      requires Valid()
      modifies this
      ensures Valid() && Abstract() == Step(old(Abstract()), PagerBlocks.Clear)
      ensures freed == old(chain)
    {
      freed := [];
      while current != null
        invariant Linked() && made == old(made) && freed + chain == old(chain)
        decreases |chain|
      {
        var next := current.next;
        assert |chain| > 1 ==> chain[0].next == chain[1];
        freed, chain := freed + [current], chain[1..];
        current := next;
      }
      count, given := 0, [];
    }
  }
}
