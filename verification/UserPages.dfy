/** mod_get_user_pages.c: a range of user memory pinned page by page and mapped into
    one run of kernel addresses. */
module UserPages {

  const PAGE_SIZE := 4096

  type byte = b: int | 0 <= b < 256

  /** The frame behind each page of the user's address space. */
  type PageTable = map<int, nat>

  /** The physical address of user address a. */
  function Translate(pt: PageTable, a: nat): nat
    requires a / PAGE_SIZE in pt
  {
    pt[a / PAGE_SIZE] * PAGE_SIZE + a % PAGE_SIZE
  }

  /** The physical address of byte x of a kernel mapping of `pages`. */
  function Mapped(pages: seq<nat>, x: nat): nat
    requires x / PAGE_SIZE < |pages|
  {
    pages[x / PAGE_SIZE] * PAGE_SIZE + x % PAGE_SIZE
  }

  /** All of byte offset .. offset + size of the mapping is backed by frames below n. */
  predicate Backed(pages: seq<nat>, offset: nat, size: nat, n: nat) {
    && (forall j | 0 <= j < |pages| :: pages[j] < n)
    && (size >= 1 ==> (offset + size - 1) / PAGE_SIZE < |pages|)
  }

  /** The physical address of ptr + i, where ptr is `offset` into the mapping. */
  function At(pages: seq<nat>, offset: nat, i: nat): nat
    requires (offset + i) / PAGE_SIZE < |pages|
  {
    Mapped(pages, offset + i)
  }

  lemma InRam(pages: seq<nat>, offset: nat, size: nat, n: nat, i: nat)
    requires Backed(pages, offset, size, n) && i < size
    ensures (offset + i) / PAGE_SIZE < |pages| && At(pages, offset, i) < n * PAGE_SIZE
  {}

  /** Pages that a range of user memory touches. */
  predicate Touches(pointer: nat, size: nat, page: int) {
    pointer / 4096 <= page && page * 4096 < pointer + size
  }

  /** Where newsize - 1 in the code does not wrap around: any range but an empty one at
      the start of a page. */
  predicate Mappable(pointer: nat, size: nat) {
    size + pointer % PAGE_SIZE >= 1
  }

  function NrPages(pointer: nat, size: nat): nat
    requires Mappable(pointer, size)
  {
    (size + pointer % PAGE_SIZE - 1) / PAGE_SIZE + 1
  }

  function Run(pt: PageTable, pointer: nat, size: nat): seq<nat>
    requires Mappable(pointer, size) && forall page | Touches(pointer, size, page) :: page in pt
  {
    RunTouched(pointer, size);
    seq(NrPages(pointer, size), j requires 0 <= j < NrPages(pointer, size) => pt[pointer / PAGE_SIZE + j])
  }

  /** The run of NrPages pages from the aligned address holds exactly the pages touched,
      and every one of them really contains a byte of a range that has any. */
  lemma RunTouched(pointer: nat, size: nat)
    requires Mappable(pointer, size)
    ensures forall page :: Touches(pointer, size, page) <==>
      pointer / PAGE_SIZE <= page < pointer / PAGE_SIZE + NrPages(pointer, size)
    ensures size >= 1 ==> forall page | Touches(pointer, size, page) ::
      exists a: nat :: pointer <= a < pointer + size && a / PAGE_SIZE == page
  {
    forall page | size >= 1 && Touches(pointer, size, page)
      ensures exists a: nat :: pointer <= a < pointer + size && a / PAGE_SIZE == page
    {
      var a := if page * PAGE_SIZE >= pointer then page * PAGE_SIZE else pointer;
      assert a / PAGE_SIZE == page;
    }
  }

  /** Byte i from the kernel pointer is byte i from the user pointer. */
  lemma Aliases(pt: PageTable, pointer: nat, size: nat, i: nat)
    requires i < size && forall page | Touches(pointer, size, page) :: page in pt
    ensures (pointer % PAGE_SIZE + i) / PAGE_SIZE < |Run(pt, pointer, size)|
    ensures (pointer + i) / PAGE_SIZE in pt
    ensures At(Run(pt, pointer, size), pointer % 4096, i) == Translate(pt, pointer + i)
      == pt[(pointer + i) / 4096] * 4096 + (pointer + i) % 4096
  {
    RunTouched(pointer, size);
    var x := pointer % PAGE_SIZE + i;
    assert pointer + i == PAGE_SIZE * (pointer / PAGE_SIZE) + x;
    assert (pointer + i) / PAGE_SIZE == pointer / PAGE_SIZE + x / PAGE_SIZE;
    assert (pointer + i) % PAGE_SIZE == x % PAGE_SIZE;
    assert Touches(pointer, size, (pointer + i) / PAGE_SIZE);
  }

  lemma RunBacked(pt: PageTable, pointer: nat, size: nat, n: nat)
    requires Mappable(pointer, size)
    requires forall page | Touches(pointer, size, page) :: page in pt && pt[page] < n
    ensures Backed(Run(pt, pointer, size), pointer % PAGE_SIZE, size, n)
  {
    RunTouched(pointer, size);
  }

  /** Different user addresses are different bytes when no frame is mapped twice. */
  lemma TranslateInjective(pt: PageTable, a: nat, b: nat)
    requires forall p, q | p in pt && q in pt :: pt[p] == pt[q] ==> p == q
    requires a / PAGE_SIZE in pt && b / PAGE_SIZE in pt && a != b
    ensures Translate(pt, a) != Translate(pt, b)
  {
    var p, q := pt[a / PAGE_SIZE], pt[b / PAGE_SIZE];
    if p == q {
      assert a / PAGE_SIZE == b / PAGE_SIZE;
    }
  }

  // ----- the loops

  /** `refs` are the references of `refs0` and one more for each entry of `pages`. */
  ghost predicate Referenced(refs0: seq<nat>, refs: seq<nat>, pages: seq<nat>) {
    |refs| == |refs0| && forall f | 0 <= f < |refs| :: refs[f] == refs0[f] + multiset(pages)[f]
  }

  /** get_user_pages: pins nr pages from page `first` on, taking a reference on each. */
  method GetUserPages(refs0: seq<nat>, pt: PageTable, first: nat, nr: nat)
    returns (pages: seq<nat>, refs: seq<nat>)
    requires forall page | first <= page < first + nr :: page in pt && pt[page] < |refs0|
    ensures |pages| == nr && forall j | 0 <= j < nr :: pages[j] == pt[first + j] < |refs0|
    ensures Referenced(refs0, refs, pages)
  {
    pages, refs := [], refs0;
    for j := 0 to nr
      invariant |pages| == j && forall h | 0 <= h < j :: pages[h] == pt[first + h] < |refs0|
      invariant Referenced(refs0, refs, pages)
    {
      var frame := pt[first + j];
      pages := pages + [frame];
      refs := refs[frame := refs[frame] + 1];
    }
  }

  /** The arithmetic of IOCTL_DEMO_MAP and the pages it leads to. */
  method PinRange(refs0: seq<nat>, pt: PageTable, pointer: nat, bsize: nat)
    returns (pages: seq<nat>, nr: nat, refs: seq<nat>)
    requires Mappable(pointer, bsize)
    requires forall page | Touches(pointer, bsize, page) :: page in pt && pt[page] < |refs0|
    ensures pages == Run(pt, pointer, bsize) && nr == |pages|
    ensures Backed(pages, pointer % PAGE_SIZE, bsize, |refs0|)
    ensures Referenced(refs0, refs, pages)
  {
    RunTouched(pointer, bsize);
    var offset := pointer % PAGE_SIZE;
    var aligned := pointer - offset;
    var newsize := bsize + offset;
    nr := (newsize - 1) / PAGE_SIZE + 1;
    pages, refs := GetUserPages(refs0, pt, aligned / PAGE_SIZE, nr);
    assert pages == Run(pt, pointer, bsize);
    RunBacked(pt, pointer, bsize, |refs0|);
  }

  /** pages_unmap: marks each page dirty unless it is reserved, and drops its reference. */
  method PagesUnmap(pages: seq<nat>, refs0: seq<nat>, dirty0: seq<bool>, reserved: seq<bool>)
    returns (refs: seq<nat>, dirty: seq<bool>)
    requires |refs0| == |dirty0| == |reserved| && forall j | 0 <= j < |pages| :: pages[j] < |refs0|
    requires forall f | 0 <= f < |refs0| :: multiset(pages)[f] <= refs0[f]
    ensures |dirty| == |refs0| && Referenced(refs, refs0, pages)
    ensures forall f | 0 <= f < |refs| :: dirty[f] <==> dirty0[f] || (f in pages && !reserved[f])
  {
    refs, dirty := refs0, dirty0;
    for i := 0 to |pages|
      invariant |dirty| == |refs0| && Referenced(refs, refs0, pages[..i])
      invariant forall f | 0 <= f < |refs| :: dirty[f] <==> dirty0[f] || (f in pages[..i] && !reserved[f])
    {
      var frame := pages[i];
      assert pages[..i + 1] == pages[..i] + [frame];
      Held(pages, i);
      if !reserved[frame] { dirty := dirty[frame := true]; }
      refs := refs[frame := refs[frame] - 1];
    }
    assert pages[..|pages|] == pages;
  }

  /** A page not yet released still holds its reference. */
  lemma Held(pages: seq<nat>, i: nat)
    requires i < |pages|
    ensures multiset(pages[..i])[pages[i]] < multiset(pages)[pages[i]]
  {
    assert pages == pages[..i] + ([pages[i]] + pages[i + 1..]);
  }

  /** Address a is one of the first n bytes from ptr. */
  ghost predicate Hit(pages: seq<nat>, offset: nat, n: nat, a: nat)
  {
    exists i: nat :: i < n && (offset + i) / PAGE_SIZE < |pages| && At(pages, offset, i) == a
  }

  lemma HitNext(pages: seq<nat>, offset: nat, n: nat, a: nat)
    requires (offset + n) / PAGE_SIZE < |pages|
    ensures Hit(pages, offset, n + 1, a) <==> Hit(pages, offset, n, a) || a == At(pages, offset, n)
  {
    if Hit(pages, offset, n, a) {
      var i: nat :| i < n && (offset + i) / PAGE_SIZE < |pages| && At(pages, offset, i) == a;
      assert i < n + 1;
    }
  }

  /** memset through the mapping. */
  method MemSet(ram0: seq<byte>, pages: seq<nat>, offset: nat, size: nat, b: byte) returns (ram: seq<byte>)
    requires Backed(pages, offset, size, |ram0| / PAGE_SIZE)
    ensures |ram| == |ram0|
    ensures forall a | 0 <= a < |ram| :: ram[a] == if Hit(pages, offset, size, a) then b else ram0[a]
  {
    ram := ram0;
    for i := 0 to size
      invariant |ram| == |ram0|
      invariant forall a | 0 <= a < |ram| :: ram[a] == if Hit(pages, offset, i, a) then b else ram0[a]
    {
      InRam(pages, offset, size, |ram0| / PAGE_SIZE, i);
      forall a | 0 <= a < |ram| { HitNext(pages, offset, i, a); }
      ram := ram[At(pages, offset, i) := b];
    }
  }

  // ----- the module

  class Driver {
    // the machine
    var ram: seq<byte>
    var refs: seq<nat>  // references held on each frame
    var dirty: seq<bool>
    const reserved: seq<bool>
    // static data
    var pages: seq<nat>
    var nrPages: nat
    var offset: nat  // of ptr from vptr
    var size: nat
    ghost var initial: seq<nat>  // references before the first MAP
    ghost var lost: seq<nat>     // frames pinned by a MAP that another MAP replaced

    /** References are those from before, one per pinned page, one per page lost. */
    ghost predicate Valid()
      reads this
    {
      && nrPages == |pages|
      && |refs| == |dirty| == |reserved| == |initial| && |ram| == |refs| * PAGE_SIZE
      && Backed(pages, offset, size, |refs|)
      && Accounted(refs, initial, pages, lost)
    }

    constructor (ram: seq<byte>, refs: seq<nat>, dirty: seq<bool>, reserved: seq<bool>)
      requires |refs| == |dirty| == |reserved| && |ram| == |refs| * PAGE_SIZE
      ensures Valid() && pages == [] && offset == 0 && size == 0 && lost == [] && initial == refs
      ensures this.ram == ram && this.refs == refs && this.dirty == dirty && this.reserved == reserved
    {
      this.ram, this.refs, this.dirty, this.reserved := ram, refs, dirty, reserved;
      pages, nrPages, offset, size := [], 0, 0, 0;
      initial, lost := refs, [];
    }

    /** A successful IOCTL_DEMO_MAP: every page touched can be faulted in. It pins just
        the pages the range touches, and ptr + i then is user byte i. */
    method Map(pt: PageTable, pointer: nat, bsize: nat)
      requires Valid() && Mappable(pointer, bsize)
      requires forall page | Touches(pointer, bsize, page) :: page in pt && pt[page] < |refs|
      modifies this
      ensures Valid() && ram == old(ram) && dirty == old(dirty) && initial == old(initial)
      ensures size == bsize && pages == Run(pt, pointer, bsize) && offset == pointer % 4096
      ensures Referenced(old(refs), refs, pages)
      ensures lost == old(lost) + old(pages)
    {
      var pages', nr, refs' := PinRange(refs, pt, pointer, bsize);
      assert Accounted(refs', initial, pages', lost + pages) by {
        StillAccounted(refs, refs', initial, pages, pages', lost);
      }
      lost, pages, nrPages, refs := lost + pages, pages', nr, refs';
      offset, size := pointer % PAGE_SIZE, bsize;
    }

    /** IOCTL_DEMO_UNMAP; without a mapping it changes nothing. */
    method Unmap()
      requires Valid()
      modifies this
      ensures Valid() && pages == [] && offset == 0 && size == 0
      ensures ram == old(ram) && initial == old(initial) && lost == old(lost)
      ensures Referenced(refs, old(refs), old(pages))
      ensures forall f | 0 <= f < |refs| :: dirty[f] <==> old(dirty)[f] || (f in old(pages) && !reserved[f])
    {
      refs, dirty := PagesUnmap(pages, refs, dirty, reserved);
      pages, offset, size, nrPages := [], 0, 0, 0;
    }

    /** IOCTL_DEMO_READ shows at most ten bytes. */
    method Read() returns (shown: seq<byte>)
      requires Valid()
      ensures |shown| == if size < 10 then size else 10
      ensures forall i: nat | i < |shown| ::
        (offset + i) / PAGE_SIZE < |pages| && At(pages, offset, i) < |ram| && shown[i] == ram[At(pages, offset, i)]
    {
      shown := [];
      var sloop := if size < 10 then size else 10;
      for i := 0 to sloop
        invariant |shown| == i
        invariant forall h: nat | h < i ::
          (offset + h) / PAGE_SIZE < |pages| && At(pages, offset, h) < |ram| && shown[h] == ram[At(pages, offset, h)]
      {
        InRam(pages, offset, size, |refs|, i);
        shown := shown + [ram[At(pages, offset, i)]];
      }
    }

    /** IOCTL_DEMO_WRITE changes exactly the bytes of the range. */
    method Write(arg: nat)
      requires Valid()
      modifies this`ram
      ensures Valid()
      ensures forall a | 0 <= a < |ram| :: ram[a] == if Hit(pages, offset, size, a) then arg % 256 else old(ram)[a]
    {
      ram := MemSet(ram, pages, offset, size, arg % 256);
    }
  }

  ghost predicate Accounted(refs: seq<nat>, initial: seq<nat>, pages: seq<nat>, lost: seq<nat>) {
    && |refs| == |initial|
    && (forall f | 0 <= f < |refs| :: refs[f] == initial[f] + multiset(pages)[f] + multiset(lost)[f])
    && (forall f | f in lost :: f < |refs|)
  }

  /** A new mapping turns the pages of the one it replaces into lost ones. */
  lemma StillAccounted(refs: seq<nat>, refs': seq<nat>, initial: seq<nat>,
                       pages: seq<nat>, pages': seq<nat>, lost: seq<nat>)
    requires Accounted(refs, initial, pages, lost) && Referenced(refs, refs', pages')
    requires forall j | 0 <= j < |pages| :: pages[j] < |refs|
    ensures Accounted(refs', initial, pages', lost + pages)
  {}

  /** All references taken have been given back exactly when nothing is mapped and no
      MAP ever replaced another that was still in force. */
  lemma Balanced(d: Driver)
    requires d.Valid()
    ensures d.refs == d.initial <==> d.pages == [] && d.lost == []
  {
    if d.pages != [] { assert d.refs[d.pages[0]] != d.initial[d.pages[0]]; }
    if d.lost != [] { assert d.lost[0] in d.lost; assert d.refs[d.lost[0]] != d.initial[d.lost[0]]; }
  }

  /** The physical bytes a WRITE after a MAP sets are exactly those behind the user range. */
  lemma HitsImage(pt: PageTable, pointer: nat, size: nat, a: nat)
    requires Mappable(pointer, size) && forall page | Touches(pointer, size, page) :: page in pt
    ensures Hit(Run(pt, pointer, size), pointer % PAGE_SIZE, size, a) <==>
      exists b: nat :: pointer <= b < pointer + size && b / PAGE_SIZE in pt && Translate(pt, b) == a
  {
    var pages, offset := Run(pt, pointer, size), pointer % PAGE_SIZE;
    forall i: nat | i < size
      ensures (offset + i) / PAGE_SIZE < |pages| && (pointer + i) / PAGE_SIZE in pt
      ensures At(pages, offset, i) == Translate(pt, pointer + i)
    {
      Aliases(pt, pointer, size, i);
    }
    if b: nat :| pointer <= b < pointer + size && b / PAGE_SIZE in pt && Translate(pt, b) == a {
      assert At(pages, offset, b - pointer) == Translate(pt, pointer + (b - pointer));
    }
    if Hit(pages, offset, size, a) {
      var i: nat :| i < size && (offset + i) / PAGE_SIZE < |pages| && At(pages, offset, i) == a;
      assert Translate(pt, pointer + i) == a;
    }
  }

  /** So when no frame is mapped twice, user byte a is set exactly if it is in the range. */
  lemma HitsUserRange(pt: PageTable, pointer: nat, size: nat, a: nat)
    requires Mappable(pointer, size) && forall page | Touches(pointer, size, page) :: page in pt
    requires forall p, q | p in pt && q in pt :: pt[p] == pt[q] ==> p == q
    requires a / PAGE_SIZE in pt
    ensures Hit(Run(pt, pointer, size), pointer % PAGE_SIZE, size, Translate(pt, a)) <==>
      pointer <= a < pointer + size
  {
    HitsImage(pt, pointer, size, Translate(pt, a));
    if b: nat :| pointer <= b < pointer + size && b / PAGE_SIZE in pt && Translate(pt, b) == Translate(pt, a) {
      if b != a { TranslateInjective(pt, b, a); }
    }
  }

  // ----- sequences of calls

  datatype Range = Range(pt: PageTable, pointer: nat, size: nat)

  /** A range that can be mapped on a machine with n frames. */
  ghost predicate Present(r: Range, n: nat) {
    && Mappable(r.pointer, r.size)
    && forall page | Touches(r.pointer, r.size, page) :: page in r.pt && r.pt[page] < n
  }

  /** However many mappings, each undone before the next: every reference is returned. */
  method MapAndUnmap(d: Driver, ranges: seq<Range>)
    requires d.Valid() && d.pages == [] && d.lost == []
    requires forall k | 0 <= k < |ranges| :: Present(ranges[k], |d.refs|)
    modifies d
    ensures d.Valid() && d.pages == [] && d.initial == old(d.initial) && d.refs == d.initial
    ensures d.ram == old(d.ram)
  {
    for k := 0 to |ranges|
      invariant d.Valid() && d.pages == [] && d.lost == [] && d.initial == old(d.initial)
      invariant |d.refs| == |old(d.refs)| && d.ram == old(d.ram)
    {
      assert Present(ranges[k], |d.refs|);
      d.Map(ranges[k].pt, ranges[k].pointer, ranges[k].size);
      d.Unmap();
    }
    Balanced(d);
  }

  /** A second mapping before the first is undone: its references are never returned. */
  method MapTwiceThenUnmap(d: Driver, first: Range, second: Range)
    requires d.Valid() && d.pages == [] && d.lost == []
    requires Present(first, |d.refs|) && Present(second, |d.refs|)
    modifies d
    ensures d.Valid() && d.pages == [] && d.refs != d.initial
    ensures d.lost == Run(first.pt, first.pointer, first.size)
  {
    d.Map(first.pt, first.pointer, first.size);
    d.Map(second.pt, second.pointer, second.size);
    d.Unmap();
    Balanced(d);
  }
}
