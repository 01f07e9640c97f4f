/**
 lib/Json/source/json_batchallocator.h: blocks of `width` objects cut from pages, with released
 blocks kept on a list threaded through the blocks themselves. A page's end is `perPage` objects
 from its start, while its memory holds width * perPage objects.
 */
module BatchAllocator {

  /* An address: a page, by the order in which pages were allocated, and an offset in objects. */
  datatype Block = Block(page: nat, off: nat)

  /* BatchInfo; `room` is the number of objects its memory holds. */
  datatype Page = Page(id: nat, used: nat, end: nat, room: nat)

  /* objectPerAllocation and objectsPerPage, with the constructor's assertions. */
  datatype Layout = Layout(width: nat, perPage: nat) {
    predicate Valid() { width >= 1 && perPage >= 16 }
    predicate Divides() { width >= 1 && perPage % width == 0 }
  }

  /* `pages` is the list from batches_, `current` the place of currentBatch_ in it. */
  datatype State = State(layout: Layout, pages: seq<Page>, current: nat, free: seq<Block>, live: set<Block>)

  /* allocateBatch */
  function NewPage(layout: Layout, id: nat, perPage: nat): Page {
    Page(id, 0, perPage, layout.width * perPage)
  }

  /* The constructor: a dummy page without objects. */
  function Fresh(layout: Layout): State {
    State(layout, [NewPage(layout, 0, 0)], 0, [], {})
  }

  /* The first page from i on whose used_ is not its end_, or the end of the list. */
  function Search(pages: seq<Page>, i: nat): (j: nat)
    requires i <= |pages|
    ensures i <= j <= |pages|
    ensures forall k :: i <= k < j ==> pages[k].used == pages[k].end
    ensures j < |pages| ==> pages[j].used != pages[j].end
    decreases |pages| - i
  {
    if i < |pages| && pages[i].used == pages[i].end then Search(pages, i + 1) else i
  }

  /* The state with a page to cut from. */
  function Ready(s: State): (r: State)
    requires s.current < |s.pages|
    ensures r.current < |r.pages|
  {
    if s.pages[s.current].used != s.pages[s.current].end then s
    else
      var j := Search(s.pages, s.current + 1);
      if j < |s.pages| then s.(current := j)
      else s.(pages := [NewPage(s.layout, |s.pages|, s.layout.perPage)] + s.pages, current := 0)
  }

  function Cut(s: State): (r: (State, Block))
    requires s.current < |s.pages|
    ensures r.0.current < |r.0.pages|
  {
    var page := s.pages[s.current];
    var b := Block(page.id, page.used);
    (s.(pages := s.pages[s.current := page.(used := page.used + s.layout.width)], live := s.live + {b}), b)
  }

  /* allocate */
  function Allocated(s: State): (r: (State, Block))
    requires s.current < |s.pages|
    ensures r.0.current < |r.0.pages|
  {
    if s.free != [] then (s.(free := s.free[1..], live := s.live + {s.free[0]}), s.free[0])
    else Cut(Ready(s))
  }

  /* release of a live block */
  function Released(s: State, b: Block): State {
    s.(free := [b] + s.free, live := s.live - {b})
  }

  // ----- Arithmetic of multiples.

  lemma NextMultiple(w: nat, x: nat, y: nat)
    requires w >= 1 && x % w == 0 && y % w == 0 && x < y
    ensures x + w <= y
  {
    assert x == w * (x / w) && y == w * (y / w);
    var d := y / w - x / w;
    assert y - x == w * d;
    assert d <= 0 ==> w * d <= 0;
    assert d >= 1 ==> w * d >= w;
  }

  lemma AddWidth(w: nat, x: nat)
    requires w >= 1 && x % w == 0
    ensures (x + w) % w == 0
  {
    assert x + w == w * (x / w + 1);
    MultipleOf(w, x / w + 1);
  }

  lemma MultipleOf(w: nat, k: nat)
    requires w >= 1
    ensures (w * k) % w == 0
  {
    var q, r := (w * k) / w, (w * k) % w;
    assert w * k == w * q + r;
    assert w * (k - q) == r;
    var d: int := k - q;
    assert d >= 1 ==> w * d >= w;
    assert d <= -1 ==> w * d < 0;
  }

  // ----- The invariant.

  /* The pages in list order are the newest first; only the first can have space left. */
  ghost predicate PagesOk(layout: Layout, pages: seq<Page>) {
    && layout.Valid()
    && (forall i :: 0 <= i < |pages| ==> pages[i].id == |pages| - 1 - i && pages[i].used % layout.width == 0)
    && (forall i :: 1 <= i < |pages| ==> pages[i].used == pages[i].end)
  }

  /* The block was cut from its page. */
  ghost predicate WasCut(layout: Layout, pages: seq<Page>, b: Block) {
    layout.width >= 1 && b.page < |pages| && b.off % layout.width == 0
    && b.off + layout.width <= pages[|pages| - 1 - b.page].used
  }

  /* What holds whatever the layout: blocks were cut once, and are either free or live. */
  ghost predicate Inv(s: State) {
    && |s.pages| > 0 && s.current == 0 && PagesOk(s.layout, s.pages)
    && (forall b :: b in s.free || b in s.live ==> WasCut(s.layout, s.pages, b))
    && (forall i, j :: 0 <= i < j < |s.free| ==> s.free[i] != s.free[j])
    && (forall b :: b in s.free ==> b !in s.live)
  }

  /* Used up within the end, which is within the page's memory and a whole number of blocks away. */
  predicate PageFits(layout: Layout, p: Page)
    requires layout.Valid()
  {
    p.end % layout.width == 0 && p.used <= p.end <= p.room
  }

  /* What holds in addition when the width divides the page. */
  ghost predicate Fits(layout: Layout, pages: seq<Page>) {
    layout.Valid() && forall i :: 0 <= i < |pages| ==> PageFits(layout, pages[i])
  }

  lemma FreshInv(layout: Layout)
    requires layout.Valid()
    ensures Inv(Fresh(layout)) && Fits(layout, Fresh(layout).pages)
  {
    MultipleOf(layout.width, 0);
  }

  lemma NewPageFits(layout: Layout, id: nat)
    requires layout.Valid() && layout.Divides()
    ensures PageFits(layout, NewPage(layout, id, layout.perPage))
  {
    AtLeast(layout.width, layout.perPage);
  }

  lemma AtLeast(w: nat, n: nat)
    requires w >= 1
    ensures w * n >= n
  {
  }

  lemma GrowPages(layout: Layout, pages: seq<Page>, page: Page)
    requires PagesOk(layout, pages) && (|pages| > 0 ==> pages[0].used == pages[0].end)
    requires page.used % layout.width == 0 && page.id == |pages|
    ensures PagesOk(layout, [page] + pages)
    ensures forall b :: WasCut(layout, pages, b) ==> WasCut(layout, [page] + pages, b)
  {
    var grown := [page] + pages;
    assert forall i :: 1 <= i < |grown| ==> grown[i] == pages[i - 1];
  }

  lemma ReadyInv(s: State)
    requires Inv(s) && s.free == []
    ensures Inv(Ready(s)) && Ready(s).pages[0].used != Ready(s).pages[0].end
    ensures Ready(s).live == s.live && Ready(s).free == [] && Ready(s).layout == s.layout
    ensures s.layout.Divides() && Fits(s.layout, s.pages) ==> Fits(s.layout, Ready(s).pages)
  {
    var page := NewPage(s.layout, |s.pages|, s.layout.perPage);
    if s.pages[0].used == s.pages[0].end {
      MultipleOf(s.layout.width, 0);
      GrowPages(s.layout, s.pages, page);
      if s.layout.Divides() { NewPageFits(s.layout, |s.pages|); }
    }
  }

  lemma CutInv(s: State)
    requires Inv(s) && s.free == [] && s.pages[0].used != s.pages[0].end
    ensures var (s', b) := Cut(s); Inv(s') && b !in s.live && s'.layout == s.layout
    ensures Fits(s.layout, s.pages) ==> Fits(s.layout, Cut(s).0.pages)
  {
    var page := s.pages[0];
    var (s', b) := Cut(s);
    AddWidth(s.layout.width, page.used);
    if Fits(s.layout, s.pages) {
      assert PageFits(s.layout, page);
      NextMultiple(s.layout.width, page.used, page.end);
    }
    forall c | c in s.live ensures WasCut(s'.layout, s'.pages, c) && c != b {
      assert WasCut(s.layout, s.pages, c);
    }
    assert WasCut(s'.layout, s'.pages, b);
  }

  /* An allocation returns a block that is not live, whatever the layout. */
  lemma AllocateInv(s: State)
    requires Inv(s)
    ensures var (s', b) := Allocated(s); Inv(s') && b !in s.live && s'.live == s.live + {b} && s'.layout == s.layout
    ensures s.layout.Divides() && Fits(s.layout, s.pages) ==> Fits(s.layout, Allocated(s).0.pages)
  {
    if s.free != [] {
      assert s.free[0] in s.free;
      assert s.free == [s.free[0]] + s.free[1..];
    } else {
      ReadyInv(s);
      CutInv(Ready(s));
    }
  }

  lemma ReleaseInv(s: State, b: Block)
    requires Inv(s) && b in s.live
    ensures Inv(Released(s, b))
  {
    var f := Released(s, b).free;
    assert forall i :: 1 <= i < |f| ==> f[i] == s.free[i - 1] && f[i] in s.free;
  }

  // ----- Runs.

  datatype Op = Allocating | Releasing(b: Block)

  /* The caller releases only what it holds. */
  function Do(s: State, op: Op): (r: State)
    requires s.current < |s.pages|
    ensures r.current < |r.pages|
  {
    match op
    case Allocating => Allocated(s).0
    case Releasing(b) => if b in s.live then Released(s, b) else s
  }

  function DoAll(s: State, ops: seq<Op>): (r: State)
    requires s.current < |s.pages|
    ensures r.current < |r.pages|
    decreases |ops|
  {
    if ops == [] then s else DoAll(Do(s, ops[0]), ops[1..])
  }

  lemma {:induction false} RunInv(s: State, ops: seq<Op>)
    requires Inv(s)
    ensures Inv(DoAll(s, ops)) && DoAll(s, ops).layout == s.layout
    ensures s.layout.Divides() && Fits(s.layout, s.pages) ==> Fits(s.layout, DoAll(s, ops).pages)
    decreases |ops|
  {
    if ops != [] {
      AllocateInv(s);
      if ops[0].Releasing? && ops[0].b in s.live { ReleaseInv(s, ops[0].b); }
      RunInv(Do(s, ops[0]), ops[1..]);
    }
  }

  // ----- Nothing is lost: what was cut is live or free, and no more is cut than was live at once.

  /* The number of blocks cut from the pages. */
  function CutCount(width: nat, pages: seq<Page>): nat
    requires width >= 1
  {
    if pages == [] then 0 else pages[0].used / width + CutCount(width, pages[1..])
  }

  ghost predicate Conserved(s: State) {
    && Inv(s) && |s.live| + |s.free| == CutCount(s.layout.width, s.pages)
    && forall b :: WasCut(s.layout, s.pages, b) ==> b in s.live || b in s.free
  }

  lemma FreshConserved(layout: Layout)
    requires layout.Valid()
    ensures Conserved(Fresh(layout)) && CutCount(layout.width, Fresh(layout).pages) == 0
  {
    FreshInv(layout);
    assert Fresh(layout).pages[1..] == [];
  }

  lemma ReadyConserved(s: State)
    requires Conserved(s) && s.free == []
    ensures Conserved(Ready(s)) && CutCount(s.layout.width, Ready(s).pages) == CutCount(s.layout.width, s.pages)
  {
    ReadyInv(s);
    if s.pages[0].used == s.pages[0].end {
      var page := NewPage(s.layout, |s.pages|, s.layout.perPage);
      assert ([page] + s.pages)[1..] == s.pages;
      forall b | WasCut(s.layout, [page] + s.pages, b) ensures WasCut(s.layout, s.pages, b) {
        OnOldPage(s.layout, s.pages, page, b);
      }
    }
  }

  lemma OnOldPage(layout: Layout, pages: seq<Page>, page: Page, b: Block)
    requires WasCut(layout, [page] + pages, b) && page.used == 0
    ensures WasCut(layout, pages, b)
  {
    assert b.page < |pages|;
    assert ([page] + pages)[|pages| - b.page] == pages[|pages| - 1 - b.page];
  }

  lemma OneMore(w: nat, x: nat)
    requires w >= 1
    ensures (x + w) / w == x / w + 1
  {
    var q := x / w;
    assert x == w * q + x % w;
    assert x + w == w * (q + 1) + x % w;
    Quotient(w, q + 1, x % w);
  }

  lemma Quotient(w: nat, q: nat, r: nat)
    requires r < w
    ensures (w * q + r) / w == q
  {
    var q', r' := (w * q + r) / w, (w * q + r) % w;
    assert w * q + r == w * q' + r';
    var d: int := q - q';
    assert w * d == r' - r;
    assert d >= 1 ==> w * d >= w;
    assert d <= -1 ==> w * -d >= w;
  }

  lemma CutConserved(s: State)
    requires Conserved(s) && s.free == [] && s.pages[0].used != s.pages[0].end
    ensures Conserved(Cut(s).0)
    ensures CutCount(s.layout.width, Cut(s).0.pages) == CutCount(s.layout.width, s.pages) + 1
  {
    CutInv(s);
    var (s', b) := Cut(s);
    assert s'.pages[1..] == s.pages[1..];
    OneMore(s.layout.width, s.pages[0].used);
    forall c | WasCut(s.layout, s'.pages, c) ensures c in s'.live { CutBefore(s, c); }
  }

  /* What is cut after a cut was cut before, or is the new block. */
  lemma CutBefore(s: State, c: Block)
    requires Inv(s) && WasCut(s.layout, Cut(s).0.pages, c)
    ensures WasCut(s.layout, s.pages, c) || c == Cut(s).1
  {
    var n := |s.pages| - 1 - c.page;
    if n == 0 && c.off < s.pages[0].used { NextMultiple(s.layout.width, c.off, s.pages[0].used); }
  }

  lemma StepConserved(s: State, op: Op)
    requires Conserved(s)
    ensures Conserved(Do(s, op))
    ensures CutCount(s.layout.width, Do(s, op).pages) ==
            CutCount(s.layout.width, s.pages) + (if op == Allocating && s.free == [] then 1 else 0)
    ensures s.free != [] || op != Allocating ==> Do(s, op).pages == s.pages
  {
    match op
    case Allocating =>
      if s.free == [] {
        ReadyConserved(s);
        ReadyInv(s);
        CutConserved(Ready(s));
      } else {
        ReuseConserved(s);
      }
    case Releasing(b) =>
      if b in s.live { ReleaseConserved(s, b); }
  }

  lemma ReuseConserved(s: State)
    requires Conserved(s) && s.free != []
    ensures Conserved(Allocated(s).0) && Allocated(s).0.pages == s.pages && Allocated(s).0.layout == s.layout
  {
    AllocateInv(s);
    assert s.free == [s.free[0]] + s.free[1..];
  }

  lemma ReleaseConserved(s: State, b: Block)
    requires Conserved(s) && b in s.live
    ensures Conserved(Released(s, b)) && Released(s, b).pages == s.pages && Released(s, b).layout == s.layout
  {
    ReleaseInv(s, b);
  }

  /* The greatest number of blocks live at once. */
  function Peak(s: State, ops: seq<Op>): nat
    requires s.current < |s.pages|
    decreases |ops|
  {
    if ops == [] then |s.live| else Max(|s.live|, Peak(Do(s, ops[0]), ops[1..]))
  }

  function Max(a: nat, b: nat): nat { if a < b then b else a }

  lemma PeakFromNow(s: State, ops: seq<Op>)
    requires s.current < |s.pages|
    ensures Peak(s, ops) >= |s.live|
  {
  }

  /* One step keeps the number of cuts, or both it and the number of live blocks reach a new peak. */
  lemma StepPeak(s: State, op: Op)
    requires Conserved(s)
    ensures var w, s' := s.layout.width, Do(s, op);
      && s'.layout == s.layout && |s.live| <= CutCount(w, s.pages)
      && (CutCount(w, s'.pages) == CutCount(w, s.pages) || CutCount(w, s'.pages) == |s'.live| == CutCount(w, s.pages) + 1)
  {
    AllocateInv(s);
    StepConserved(s, op);
  }

  lemma {:induction false} RunConserved(s: State, ops: seq<Op>)
    requires Conserved(s)
    ensures Conserved(DoAll(s, ops))
    ensures CutCount(s.layout.width, DoAll(s, ops).pages) == Max(CutCount(s.layout.width, s.pages), Peak(s, ops))
    decreases |ops|
  {
    if ops != [] {
      StepConserved(s, ops[0]);
      StepPeak(s, ops[0]);
      RunConserved(Do(s, ops[0]), ops[1..]);
      PeakFromNow(Do(s, ops[0]), ops[1..]);
    }
  }

  /* Over every run, each block that was cut is live or free, and the blocks cut are exactly as many as were
     live at once at most: released blocks are had again before anything is cut. */
  lemma CutsArePeak(layout: Layout, ops: seq<Op>)
    requires layout.Valid()
    ensures Conserved(DoAll(Fresh(layout), ops))
    ensures CutCount(layout.width, DoAll(Fresh(layout), ops).pages) == Peak(Fresh(layout), ops)
  {
    FreshConserved(layout);
    RunConserved(Fresh(layout), ops);
  }

  /* Allocating right after a release undoes it, and gives the same block. */
  lemma ReleasedComesBack(s: State, b: Block)
    requires Inv(s) && b in s.live
    ensures Allocated(Released(s, b)) == (s, b)
  {
    var r := Released(s, b);
    assert r.free[1..] == s.free && r.live + {b} == s.live;
  }

  /* The objects of the block lie in the memory of a page. */
  ghost predicate Inside(s: State, b: Block) {
    exists i :: 0 <= i < |s.pages| && s.pages[i].id == b.page && b.off + s.layout.width <= s.pages[i].room
  }

  predicate Overlap(layout: Layout, b: Block, c: Block) {
    b.page == c.page && b.off < c.off + layout.width && c.off < b.off + layout.width
  }

  ghost predicate Sound(s: State) {
    && (forall b :: b in s.live || b in s.free ==> Inside(s, b))
    && (forall b, c :: (b in s.live || b in s.free) && (c in s.live || c in s.free) && b != c ==> !Overlap(s.layout, b, c))
    && (forall b :: b in s.free ==> b !in s.live)
    && (forall i :: 0 <= i < |s.pages| && i != s.current ==> s.pages[i].used == s.pages[i].end)
  }

  lemma InvSound(s: State)
    requires Inv(s) && Fits(s.layout, s.pages)
    ensures Sound(s)
  {
    forall b | b in s.live || b in s.free ensures Inside(s, b) {
      assert WasCut(s.layout, s.pages, b);
      var p := s.pages[|s.pages| - 1 - b.page];
      assert PageFits(s.layout, p);
    }
    forall b, c | (b in s.live || b in s.free) && (c in s.live || c in s.free) && b != c ensures !Overlap(s.layout, b, c) {
      assert WasCut(s.layout, s.pages, b) && WasCut(s.layout, s.pages, c);
      if b.off < c.off { NextMultiple(s.layout.width, b.off, c.off); }
      if c.off < b.off { NextMultiple(s.layout.width, c.off, b.off); }
    }
  }

  // ----- Without divisibility the used mark steps over the end and out of the page.

  function Allocations(k: nat): seq<Op> {
    seq(k, _ => Allocating)
  }

  /* After k allocations and no release, all blocks were cut from one page. */
  ghost predicate OnePage(s: State, layout: Layout, k: nat) {
    && s.layout == layout && s.current == 0 && s.free == []
    && s.pages == [Page(1, layout.width * k, layout.perPage, layout.width * layout.perPage), NewPage(layout, 0, 0)]
  }

  lemma {:induction false} Overruns(s: State, layout: Layout, k: nat, m: nat)
    requires layout.Valid() && !layout.Divides() && OnePage(s, layout, k) && m > 0
    ensures Block(1, layout.width * (k + m - 1)) in DoAll(s, Allocations(m)).live
    ensures OnePage(DoAll(s, Allocations(m)), layout, k + m)
    decreases m
  {
    MultipleOf(layout.width, k);
    assert layout.width * (k + 1) == layout.width * k + layout.width;
    var s' := Allocated(s).0;
    assert OnePage(s', layout, k + 1) && Block(1, layout.width * k) in s'.live;
    assert Allocations(m)[0] == Allocating && Allocations(m)[1..] == Allocations(m - 1);
    if m > 1 {
      Overruns(s', layout, k + 1, m - 1);
    }
  }

  lemma FirstBlock(layout: Layout)
    requires layout.Valid()
    ensures OnePage(Allocated(Fresh(layout)).0, layout, 1)
  {
  }

  lemma OverrunsPage(layout: Layout)
    requires layout.Valid() && !layout.Divides()
    ensures !Sound(DoAll(Fresh(layout), Allocations(layout.perPage + 1)))
  {
    var n := layout.perPage;
    var s := Allocated(Fresh(layout)).0;
    FirstBlock(layout);
    assert Allocations(n + 1)[0] == Allocating && Allocations(n + 1)[1..] == Allocations(n);
    Overruns(s, layout, 1, n);
    var s' := DoAll(s, Allocations(n));
    var b := Block(1, layout.width * n);
    assert b in s'.live;
    assert !Inside(s', b);
  }

  /* Every run of allocations and releases keeps blocks apart and inside their pages, and all
     batches but the current one full, exactly for the layouts whose width divides the page. */
  lemma SoundExactly(layout: Layout)
    requires layout.Valid()
    ensures (forall ops :: Sound(DoAll(Fresh(layout), ops))) <==> layout.Divides()
  {
    FreshInv(layout);
    if layout.Divides() {
      forall ops ensures Sound(DoAll(Fresh(layout), ops)) {
        RunInv(Fresh(layout), ops);
        InvSound(DoAll(Fresh(layout), ops));
      }
    } else {
      OverrunsPage(layout);
    }
  }

  /* The pages of array items as the library instantiates them: 8 values, 255 to a page. */
  lemma ArrayPagesOverrun()
    ensures !Layout(8, 255).Divides()
    ensures !Sound(DoAll(Fresh(Layout(8, 255)), Allocations(256)))
  {
    OverrunsPage(Layout(8, 255));
  }

  // ----- The code, with the free list's links in the released blocks' own memory.

  datatype Pointer = Null | To(b: Block)

  /* Following the links from `p` gives `free`. */
  ghost predicate Chain(p: Pointer, links: map<Block, Pointer>, free: seq<Block>)
    decreases |free|
  {
    if free == [] then p == Null
    else p == To(free[0]) && free[0] in links && Chain(links[free[0]], links, free[1..])
  }

  /* Writing outside the free blocks leaves the list alone. */
  lemma {:induction false} ChainFrame(p: Pointer, links: map<Block, Pointer>, free: seq<Block>, b: Block, q: Pointer)
    requires Chain(p, links, free) && b !in free
    ensures Chain(p, links[b := q], free)
    decreases |free|
  {
    if free != [] {
      ChainFrame(links[free[0]], links, free[1..], b, q);
    }
  }

  class Allocator {
    const layout: Layout
    var pages: seq<Page>
    var current: nat
    var freeHead: Pointer
    /* The first word of each block: a link in a free one, anything in a live one. */
    var links: map<Block, Pointer>
    ghost var free: seq<Block>
    ghost var live: set<Block>

    ghost function Abs(): State
      reads this
    {
      State(layout, pages, current, free, live)
    }

    ghost predicate Valid()
      reads this
    {
      && Inv(Abs()) && Chain(freeHead, links, free)
      && (layout.Divides() ==> Fits(layout, pages))
    }

    constructor (layout: Layout)
      requires layout.Valid()
      ensures Valid() && Abs() == Fresh(layout)
    {
      this.layout := layout;
      pages, current, freeHead, links := [NewPage(layout, 0, 0)], 0, Null, map[];
      free, live := [], {};
      new;
      FreshInv(layout);
    }

    method Allocate() returns (b: Block)
      requires Valid()
      modifies this
      ensures Valid() && (Abs(), b) == Allocated(old(Abs()))
      ensures b !in old(live) && (layout.Divides() ==> Inside(Abs(), b))
    {
      AllocateInv(Abs());
      if freeHead != Null {
        b := freeHead.b;
        freeHead := links[b];
        free, live := free[1..], live + {b};
        return;
      }
      if pages[current].used == pages[current].end {
        var i := current + 1;
        while i < |pages| && pages[i].used == pages[i].end
          invariant current + 1 <= i <= |pages|
          invariant Search(pages, current + 1) == Search(pages, i)
        {
          i := i + 1;
        }
        if i == |pages| {
          pages := [NewPage(layout, |pages|, layout.perPage)] + pages;
          i := 0;
        }
        current := i;
      }
      var page := pages[current];
      b := Block(page.id, page.used);
      pages := pages[current := page.(used := page.used + layout.width)];
      live := live + {b};
    }

    method Release(b: Block)
      requires Valid() && b in live
      modifies this
      ensures Valid() && Abs() == Released(old(Abs()), b)
    {
      ReleaseInv(Abs(), b);
      ChainFrame(freeHead, links, free, b, freeHead);
      links := links[b := freeHead];
      freeHead := To(b);
      free, live := [b] + free, live - {b};
      assert free[1..] == old(free);
    }

    /* The caller's own use of a block it holds. */
    method Overwrite(b: Block, garbage: Pointer)
      requires Valid() && b in live
      modifies this`links
      ensures Valid() && Abs() == old(Abs())
    {
      ChainFrame(freeHead, links, free, b, garbage);
      links := links[b := garbage];
    }
  }
}
