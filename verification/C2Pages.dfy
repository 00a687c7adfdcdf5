/** Flash pages: what erasing and programming page by page amounts to, in terms of flash contents. */
module C2Pages {
  import opened Bytes
  import opened C2Target
  import opened C2Interface
  import opened Division

  // ---------------------------------------------------------------- what is meant

  /** The flash with `data` stored at `addr` and nothing else changed. */
  ghost function Patch(flash: seq<byte>, addr: nat, data: seq<byte>): (r: seq<byte>)
    requires addr + |data| <= |flash|
    ensures |r| == |flash|
  {
    seq(|flash|, i requires 0 <= i < |flash| => if addr <= i < addr + |data| then data[i - addr] else flash[i])
  }

  lemma PatchHolds(flash: seq<byte>, addr: nat, data: seq<byte>)
    requires addr + |data| <= |flash|
    ensures Patch(flash, addr, data)[addr..addr + |data|] == data
  {
  }

  lemma PatchKeeps(flash: seq<byte>, addr: nat, data: seq<byte>, at: nat, n: nat)
    requires addr + |data| <= |flash| && at + n <= |flash|
    requires addr + |data| <= at || at + n <= addr
    ensures Patch(flash, addr, data)[at..at + n] == flash[at..at + n]
  {
    var patched := Patch(flash, addr, data);
    assert forall k | at <= k < at + n :: patched[k] == flash[k];
  }

  lemma PatchTwice(flash: seq<byte>, addr: nat, first: seq<byte>, rest: seq<byte>)
    requires addr + |first| + |rest| <= |flash|
    ensures Patch(Patch(flash, addr, first), addr + |first|, rest) == Patch(flash, addr, first + rest)
  {
  }

  lemma PatchNext(flash: seq<byte>, addr: nat, data: seq<byte>, done: nat, n: nat)
    requires addr + |data| <= |flash| && done + n <= |data|
    ensures Patch(Patch(flash, addr, data[..done]), addr + done, data[done..][..n])
            == Patch(flash, addr, data[..done + n])
  {
    PatchTwice(flash, addr, data[..done], data[done..][..n]);
    assert data[..done] + data[done..][..n] == data[..done + n];
  }

  // ---------------------------------------------------------------- one page

  /** Programming inside the address range ANDs the data in and leaves the rest alone. */
  lemma {:induction false} ProgrammedAt(flash: seq<byte>, addr: nat, data: seq<byte>, j: nat)
    requires addr + |data| <= |flash| <= 65536 && j < |flash|
    ensures Programmed(flash, addr, data)[j] ==
            if addr <= j < addr + |data| then (AndBound(flash[j], data[j - addr]); And(flash[j], data[j - addr]))
            else flash[j]
  {
    if data != [] {
      var n := |data| - 1;
      ProgrammedAt(flash, addr, data[..n], j);
    }
  }

  /** The page buffer: the page at `base` with `data` copied in at `start`. */
  ghost function PageImage(flash: seq<byte>, base: nat, size: nat, start: nat, data: seq<byte>): (r: seq<byte>)
    requires base + size <= |flash| && start + |data| <= size
    ensures |r| == size
  {
    flash[base..base + start] + data + flash[base + start + |data|..base + size]
  }

  /** Erasing a page and programming its updated buffer stores the data and changes nothing else. */
  lemma PageStores(flash: seq<byte>, base: nat, size: nat, start: nat, data: seq<byte>)
    requires base + size <= |flash| <= 65536 && start + |data| <= size
    ensures Programmed(Erased(flash, base, base + size), base, PageImage(flash, base, size, start, data))
            == Patch(flash, base + start, data)
  {
    hide Programmed, And;
    var erased := Erased(flash, base, base + size);
    var image := PageImage(flash, base, size, start, data);
    var stored := Programmed(erased, base, image);
    forall j: nat | j < |flash|
      ensures stored[j] == Patch(flash, base + start, data)[j]
    {
      ProgrammedAt(erased, base, image, j);
      if base <= j < base + size {
        AndErased(image[j - base]);
      }
    }
  }

  /** What one chunk does: erase the page whose number survives the cut to one byte, then program the page
      buffer at the page's own address. */
  ghost function ChunkEffect(flash: seq<byte>, pageSize: nat, page: nat, start: nat, data: seq<byte>): (r: seq<byte>)
    requires start + |data| <= pageSize && PageStart(pageSize, page) + pageSize <= |flash|
    ensures |r| == |flash|
  {
    var base := PageStart(pageSize, page);
    Programmed(ErasePage(flash, pageSize, page % 256), base, PageImage(flash, base, pageSize, start, data))
  }

  /** A chunk stores its data and changes nothing else, provided its page number fits in a byte. */
  lemma ChunkStores(flash: seq<byte>, pageSize: nat, page: nat, start: nat, data: seq<byte>)
    requires start + |data| <= pageSize && PageStart(pageSize, page) + pageSize <= |flash| <= 65536
    requires page < 256
    ensures ChunkEffect(flash, pageSize, page, start, data) == Patch(flash, PageStart(pageSize, page) + start, data)
  {
    hide Programmed, Erased, PageImage, Patch, PageStart;
    assert page % 256 == page;
    PageStores(flash, PageStart(pageSize, page), pageSize, start, data);
  }

  /** With a larger page number the erase hits page number mod 256 instead, and the chunk is right only if
      that other page was blank already. */
  lemma ChunkErasesWrongPage(flash: seq<byte>, pageSize: nat, page: nat, start: nat, data: seq<byte>, j: nat)
    requires start + |data| <= pageSize && PageStart(pageSize, page) + pageSize <= |flash| <= 65536
    requires page >= 256
    requires PageStart(pageSize, page % 256) <= j < PageStart(pageSize, page % 256) + pageSize
    requires j < |flash| && flash[j] != 0xFF
    ensures ChunkEffect(flash, pageSize, page, start, data) != Patch(flash, PageStart(pageSize, page) + start, data)
  {
    var base := PageStart(pageSize, page);
    var erased := ErasePage(flash, pageSize, page % 256);
    PagesApart(pageSize, page % 256, page);
    ProgrammedAt(erased, base, PageImage(flash, base, pageSize, start, data), j);
    assert Patch(flash, base + start, data)[j] == flash[j];
  }

  lemma {:induction false} PagesApart(pageSize: nat, a: nat, b: nat)
    requires a < b
    ensures PageStart(pageSize, a) + pageSize <= PageStart(pageSize, b)
  {
    if a + 1 < b {
      PagesApart(pageSize, a, b - 1);
    }
  }

  lemma PageOrder(pageSize: nat, a: nat, b: nat)
    requires PageStart(pageSize, a) < PageStart(pageSize, b)
    ensures a < b
  {
    if a > b {
      PagesApart(pageSize, b, a);
    }
  }

  lemma {:induction false} PageStartIs(pageSize: nat, page: nat)
    ensures PageStart(pageSize, page) == page * pageSize
  {
    if page > 0 {
      PageStartIs(pageSize, page - 1);
      assert page * pageSize == (page - 1) * pageSize + pageSize;
    }
  }

  /** 128-byte pages: storing at 32768 (page 256) blanks page 0. */
  lemma HighPageExample()
    ensures PageStart(128, 256) == 32768
    ensures var flash: seq<byte> := seq(65536, i => 0);
      ChunkEffect(flash, 128, 256, 0, [1]) != Patch(flash, 32768, [1])
  {
    var flash: seq<byte> := seq(65536, i => 0);
    PageStartIs(128, 256);
    ChunkErasesWrongPage(flash, 128, 256, 0, [1], 0);
  }

  /** A flash made of whole pages, within reach of two address bytes. */
  ghost predicate Geometry(size: nat, pageSize: nat) {
    pageSize > 0 && size <= 65536 && exists pages: nat :: PageStart(pageSize, pages) == size
  }

  lemma PageRoom(size: nat, pageSize: nat, page: nat)
    requires Geometry(size, pageSize) && PageStart(pageSize, page) < size
    ensures PageStart(pageSize, page) + pageSize <= size
  {
    var pages: nat :| PageStart(pageSize, pages) == size;
    PageOrder(pageSize, page, pages);
    PagesApart(pageSize, page, pages);
  }

  /** The page an address lies in, and where in it. */
  lemma PageOf(pageSize: nat, addr: nat) returns (page: nat, start: nat)
    requires pageSize > 0
    ensures addr == PageStart(pageSize, page) + start && start < pageSize
    ensures page == addr / pageSize && start == addr % pageSize && page * pageSize == PageStart(pageSize, page)
  {
    page, start := addr / pageSize, addr % pageSize;
    PageStartIs(pageSize, page);
  }

  /** An address lies in one page, at one place. */
  lemma PageUnique(pageSize: nat, p: nat, s: nat, q: nat, t: nat)
    requires PageStart(pageSize, p) + s == PageStart(pageSize, q) + t
    requires s < pageSize && t < pageSize
    ensures p == q && s == t
  {
    if p < q {
      PagesApart(pageSize, p, q);
    } else if q < p {
      PagesApart(pageSize, q, p);
    }
  }

  lemma ImageInRange(flash: seq<byte>, addr: nat, data: seq<byte>)
    requires IsImage(flash, addr, data) && addr + |data| <= |flash| <= 65536
    ensures data == flash[addr..addr + |data|]
  {
    forall i | 0 <= i < |data|
      ensures data[i] == flash[addr + i]
    {
      assert (addr + i) % 65536 == addr + i;
    }
  }

  ghost predicate SameOutside(before: seq<byte>, after: seq<byte>, lo: nat, hi: nat) {
    |before| == |after| &&
    forall j | 0 <= j < |before| && !(lo <= j < hi) :: after[j] == before[j]
  }

  ghost predicate SameOutsidePage(before: seq<byte>, after: seq<byte>, pageSize: nat, page: nat) {
    SameOutside(before, after, PageStart(pageSize, page), PageStart(pageSize, page) + pageSize)
  }

  lemma ProgrammedElsewhere(flash: seq<byte>, addr: nat, data: seq<byte>)
    requires addr + |data| <= |flash| <= 65536
    ensures forall j | 0 <= j < |flash| && !(addr <= j < addr + |data|) ::
      Programmed(flash, addr, data)[j] == flash[j]
  {
    forall j | 0 <= j < |flash| && !(addr <= j < addr + |data|)
      ensures Programmed(flash, addr, data)[j] == flash[j]
    {
      ProgrammedAt(flash, addr, data, j);
    }
  }

  // ---------------------------------------------------------------- sections

  /** How much of n bytes goes into a page from `start` on. */
  function ChunkLength(pageSize: nat, start: nat, n: nat): (r: nat)
    requires start < pageSize && n > 0
    ensures 0 < r <= n && start + r <= pageSize
    ensures r < n ==> start + r == pageSize
  {
    if start + n > pageSize then pageSize - start else n
  }

  /** What storing a section from byte `start` of a page on does, page after page. */
  ghost function SectionEffect(flash: seq<byte>, pageSize: nat, page: nat, start: nat, data: seq<byte>): (r: seq<byte>)
    requires Geometry(|flash|, pageSize) && start < pageSize
    requires data == [] || PageStart(pageSize, page) + start + |data| <= |flash|
    ensures |r| == |flash|
    decreases |data|
  {
    if data == [] then flash
    else
      var n := ChunkLength(pageSize, start, |data|);
      PageRoom(|flash|, pageSize, page);
      SectionEffect(ChunkEffect(flash, pageSize, page, start, data[..n]), pageSize, page + 1, 0, data[n..])
  }

  /** One more page of a section within the first 256 pages. */
  lemma LowStep(flash: seq<byte>, pageSize: nat, page: nat, start: nat, data: seq<byte>, n: nat)
    requires Geometry(|flash|, pageSize) && start < pageSize && data != []
    requires PageStart(pageSize, page) + start + |data| <= |flash|
    requires PageStart(pageSize, page) + start + |data| <= PageStart(pageSize, 256)
    requires n == ChunkLength(pageSize, start, |data|)
    ensures PageStart(pageSize, page) + pageSize <= |flash|
    ensures ChunkEffect(flash, pageSize, page, start, data[..n])
            == Patch(flash, PageStart(pageSize, page) + start, data[..n])
    ensures SectionEffect(flash, pageSize, page, start, data)
            == SectionEffect(Patch(flash, PageStart(pageSize, page) + start, data[..n]), pageSize, page + 1, 0,
                             data[n..])
  {
    PageRoom(|flash|, pageSize, page);
    PageOrder(pageSize, page, 256);
    ChunkStores(flash, pageSize, page, start, data[..n]);
  }

  /** A section that ends within the first 256 pages is stored, and nothing else changes. */
  lemma {:induction false} SectionStores(flash: seq<byte>, pageSize: nat, page: nat, start: nat, data: seq<byte>)
    requires Geometry(|flash|, pageSize) && start < pageSize && data != []
    requires PageStart(pageSize, page) + start + |data| <= |flash|
    requires PageStart(pageSize, page) + start + |data| <= PageStart(pageSize, 256)
    ensures SectionEffect(flash, pageSize, page, start, data) == Patch(flash, PageStart(pageSize, page) + start, data)
    decreases |data|
  {
    hide Patch, ChunkEffect, Geometry;
    var n := ChunkLength(pageSize, start, |data|);
    var addr := PageStart(pageSize, page) + start;
    LowStep(flash, pageSize, page, start, data, n);
    if n < |data| {
      SectionStores(Patch(flash, addr, data[..n]), pageSize, page + 1, 0, data[n..]);
    }
    PatchRest(flash, addr, data, n);
  }

  lemma PatchRest(flash: seq<byte>, addr: nat, data: seq<byte>, n: nat)
    requires addr + |data| <= |flash| && n <= |data|
    ensures Patch(Patch(flash, addr, data[..n]), addr + n, data[n..]) == Patch(flash, addr, data)
    ensures n == |data| ==> Patch(flash, addr, data[..n]) == Patch(flash, addr, data)
  {
    assert data[..n] + data[n..] == data;
  }

  /** A section that ends beyond them leaves a byte erased in some page. */
  lemma {:induction false} SectionLeavesErased(flash: seq<byte>, pageSize: nat, page: nat, start: nat, data: seq<byte>)
    returns (j: nat)
    requires Geometry(|flash|, pageSize) && start < pageSize && data != []
    requires PageStart(pageSize, 256) < PageStart(pageSize, page) + start + |data| <= |flash|
    ensures j < |flash| && SectionEffect(flash, pageSize, page, start, data)[j] == 0xFF
    decreases |data|
  {
    var n := ChunkLength(pageSize, start, |data|);
    PageRoom(|flash|, pageSize, page);
    if n < |data| {
      j := SectionLeavesErased(ChunkEffect(flash, pageSize, page, start, data[..n]), pageSize, page + 1, 0, data[n..]);
    } else {
      if page < 256 { PagesApart(pageSize, page, 256); }
      j := HighChunkErases(flash, pageSize, page, start, data[..n]);
    }
  }

  lemma HighChunkErases(flash: seq<byte>, pageSize: nat, page: nat, start: nat, data: seq<byte>) returns (j: nat)
    requires start + |data| <= pageSize && PageStart(pageSize, page) + pageSize <= |flash| <= 65536
    requires page >= 256 && pageSize > 0
    ensures j < |flash| && ChunkEffect(flash, pageSize, page, start, data)[j] == 0xFF
  {
    var base := PageStart(pageSize, page);
    PagesApart(pageSize, page % 256, page);
    j := PageStart(pageSize, page % 256);
    ProgrammedAt(ErasePage(flash, pageSize, page % 256), base, PageImage(flash, base, pageSize, start, data), j);
  }

  /** What storing a section at an address does. */
  ghost function Stored(flash: seq<byte>, pageSize: nat, addr: nat, data: seq<byte>): (r: seq<byte>)
    requires Geometry(|flash|, pageSize) && addr + |data| <= |flash|
    ensures |r| == |flash|
  {
    if data == [] then flash
    else
      PageStartIs(pageSize, addr / pageSize);
      SectionEffect(flash, pageSize, addr / pageSize, addr % pageSize, data)
  }

  lemma StoredIs(flash: seq<byte>, pageSize: nat, addr: nat, data: seq<byte>) returns (page: nat, start: nat)
    requires Geometry(|flash|, pageSize) && addr + |data| <= |flash|
    ensures start < pageSize && (data != [] ==> addr == PageStart(pageSize, page) + start)
    ensures Stored(flash, pageSize, addr, data) == SectionEffect(flash, pageSize, page, start, data)
  {
    page, start := PageOf(pageSize, addr);
  }

  ghost predicate AlwaysExact(size: nat, pageSize: nat, addr: nat, n: nat)
    requires Geometry(size, pageSize) && addr + n <= size
  {
    forall flash: seq<byte>, data: seq<byte> | |flash| == size && |data| == n ::
      Stored(flash, pageSize, addr, data) == Patch(flash, addr, data)
  }

  lemma StoredLow(flash: seq<byte>, pageSize: nat, addr: nat, data: seq<byte>)
    requires Geometry(|flash|, pageSize) && addr + |data| <= |flash|
    requires data == [] || addr + |data| <= 256 * pageSize
    ensures Stored(flash, pageSize, addr, data) == Patch(flash, addr, data)
  {
    if data == [] {
      assert Patch(flash, addr, data) == flash;
    } else {
      var page, start := StoredIs(flash, pageSize, addr, data);
      PageStartIs(pageSize, 256);
      SectionStores(flash, pageSize, page, start, data);
    }
  }

  /** Storing a section is right, whatever the flash and the data hold, exactly if the section is empty or ends
      within the first 256 pages. */
  lemma SectionExactIff(size: nat, pageSize: nat, addr: nat, n: nat)
    requires Geometry(size, pageSize) && addr + n <= size
    ensures AlwaysExact(size, pageSize, addr, n) <==> n == 0 || addr + n <= 256 * pageSize
  {
    if n == 0 || addr + n <= 256 * pageSize {
      forall flash: seq<byte>, data: seq<byte> | |flash| == size && |data| == n
        ensures Stored(flash, pageSize, addr, data) == Patch(flash, addr, data)
      {
        StoredLow(flash, pageSize, addr, data);
      }
    } else {
      var flash: seq<byte>, data: seq<byte> := seq(size, i => 0), seq(n, i => 0);
      var page, start := StoredIs(flash, pageSize, addr, data);
      PageStartIs(pageSize, 256);
      var j := SectionLeavesErased(flash, pageSize, page, start, data);
      assert Patch(flash, addr, data)[j] == 0;
    }
  }

  /** Pages of 256 bytes or more never number more than 256 within reach of two address bytes, so with them storing a
      section inside the flash is always right. */
  lemma LargePagesExact(size: nat, pageSize: nat, addr: nat, n: nat)
    requires Geometry(size, pageSize) && addr + n <= size
    requires pageSize >= 256
    ensures AlwaysExact(size, pageSize, addr, n)
  {
    SectionExactIff(size, pageSize, addr, n);
  }

  // ---------------------------------------------------------------- addresses beyond the flash

  predicate Fits(size: nat, pageSize: nat, page: nat) {
    PageStart(pageSize, page) + pageSize <= size
  }

  /** The page a chunk really goes to.  Beyond the flash its number is cut to one byte and its address to two, which
      for page sizes that are multiples of 256 is the same page. */
  function Landing(size: nat, pageSize: nat, page: nat): (t: nat)
    ensures t <= page
  {
    if Fits(size, pageSize, page) then page else page % 256
  }

  predicate Lands(size: nat, pageSize: nat, page: nat) {
    Fits(size, pageSize, page) || pageSize % 256 == 0
  }

  lemma {:induction false} Windows(pageSize: nat, page: nat)
    requires pageSize % 256 == 0
    ensures PageStart(pageSize, page) % 65536 == PageStart(pageSize, page % 256) % 65536
  {
    if page >= 256 {
      var back: nat := page - 256;
      Windows(pageSize, back);
      PageStartSum(pageSize, back, 256);
      PageStartIs(pageSize, 256);
      SameLow(PageStart(pageSize, 256), 0, PageStart(pageSize, back));
      assert back % 256 == page % 256;
    }
  }

  lemma {:induction false} PageStartSum(pageSize: nat, a: nat, b: nat)
    ensures PageStart(pageSize, a + b) == PageStart(pageSize, a) + PageStart(pageSize, b)
  {
    if b > 0 {
      PageStartSum(pageSize, a, b - 1);
    }
  }

  lemma LandingBase(size: nat, pageSize: nat, page: nat)
    requires Geometry(size, pageSize) && Lands(size, pageSize, page)
    requires Fits(size, pageSize, Landing(size, pageSize, page))
    ensures PageStart(pageSize, page) % 65536 == PageStart(pageSize, Landing(size, pageSize, page))
  {
    if !Fits(size, pageSize, page) {
      Windows(pageSize, page);
    }
  }

  // Addresses that agree in their low two bytes are the same to the chip.

  lemma {:induction false} SameBlocks(size: nat, a: nat, b: nat, length: nat)
    requires a % 65536 == b % 65536
    ensures BlocksFit(size, a, length) <==> BlocksFit(size, b, length)
    decreases length
  {
    if length > 0 {
      var n := BlockSize(length);
      SameBlocks(size, a + n, b + n, length - n);
    }
  }

  lemma SameImageAt(flash: seq<byte>, a: nat, b: nat, data: seq<byte>)
    requires a % 65536 == b % 65536
    ensures IsImage(flash, a, data) <==> IsImage(flash, b, data)
  {
    forall i | 0 <= i < |data|
      ensures Holds(flash, a + i, data[i]) <==> Holds(flash, b + i, data[i])
    {
      SameLow(a, b, i);
    }
  }

  lemma SameLow(a: nat, b: nat, i: nat)
    requires a % 65536 == b % 65536
    ensures (a + i) % 65536 == (b + i) % 65536
  {
  }

  lemma SameProgrammedNext(flash: seq<byte>, a: nat, b: nat, data: seq<byte>, d: byte)
    requires a % 65536 == b % 65536 && Programmed(flash, a, data) == Programmed(flash, b, data)
    ensures Programmed(flash, a, data + [d]) == Programmed(flash, b, data + [d])
  {
    hide Programmed, ProgramByte;
    ProgrammedNext(flash, a, data, d, (a + |data|) % 65536);
    ProgrammedNext(flash, b, data, d, (b + |data|) % 65536);
  }

  lemma {:induction false} SameProgrammed(flash: seq<byte>, a: nat, b: nat, data: seq<byte>)
    requires a % 65536 == b % 65536
    ensures Programmed(flash, a, data) == Programmed(flash, b, data)
  {
    if data != [] {
      var n := |data| - 1;
      SameProgrammed(flash, a, b, data[..n]);
      SameProgrammedNext(flash, a, b, data[..n], data[n]);
      assert data[..n] + [data[n]] == data;
    }
  }

  /** Erasing a page that does not exist does nothing. */
  lemma ErasedBeyond(flash: seq<byte>, pageSize: nat, page: nat)
    requires Geometry(|flash|, pageSize) && !Fits(|flash|, pageSize, page)
    ensures ErasePage(flash, pageSize, page) == flash
  {
    if PageStart(pageSize, page) < |flash| {
      PageRoom(|flash|, pageSize, page);
    }
  }

  /** A section at `at`, as far as it fits in the flash. */
  function Room(size: nat, at: nat, n: nat): (r: nat)
    ensures r <= n && (r > 0 ==> at + r <= size)
  {
    if at >= size then 0 else if at + n <= size then n else size - at
  }

  /** The flash with the first `done` bytes of a section at `at`. */
  ghost function Reached(flash: seq<byte>, at: nat, data: seq<byte>, done: nat): (r: seq<byte>)
    requires done <= |data|
    ensures |r| == |flash|
  {
    if done > 0 && at + done <= |flash| then Patch(flash, at, data[..done]) else flash
  }

  /** A device whose page numbers fit in a byte: pages of a multiple of 256 bytes, fewer than 256 of them. */
  ghost predicate ByteNumbered(size: nat, pageSize: nat) {
    Geometry(size, pageSize) && pageSize % 256 == 0 && size < PageStart(pageSize, 256)
  }

  /** The page sizes in the table of device families. */
  const FAMILY_PAGE_SIZES := [512, 1024]

  /** Every device family is of this kind. */
  lemma FamiliesByteNumbered(size: nat, pageSize: nat)
    requires Geometry(size, pageSize) && pageSize in FAMILY_PAGE_SIZES
    ensures ByteNumbered(size, pageSize)
  {
    PageStartIs(pageSize, 256);
  }

  /** How far a section of such a device has got: it goes to the address cut down to 256 pages, `done` bytes being
      there and the next one going to `start` in the page `page` lands in. */
  ghost predicate Landed(flash: seq<byte>, now: seq<byte>, pageSize: nat, at: nat, data: seq<byte>, done: nat,
                         page: nat, start: nat)
  {
    && ByteNumbered(|flash|, pageSize) && start < pageSize
    && done <= Room(|flash|, at, |data|) && now == Reached(flash, at, data, done)
    && (done < |data| ==> at + done == PageStart(pageSize, page % 256) + start)
  }

  lemma LandedNext(flash: seq<byte>, now: seq<byte>, pageSize: nat, at: nat, data: seq<byte>, done: nat,
                   page: nat, start: nat, n: nat)
    requires Landed(flash, now, pageSize, at, data, done, page, start) && done < |data|
    requires n == ChunkLength(pageSize, start, |data| - done)
    requires Fits(|flash|, pageSize, Landing(|flash|, pageSize, page))
    ensures Landed(flash, ChunkEffect(now, pageSize, Landing(|flash|, pageSize, page), start, data[done..][..n]),
                   pageSize, at, data, done + n, page + 1, 0)
  {
    hide Patch, ChunkEffect;
    var t := page % 256;
    assert Landing(|flash|, pageSize, page) == t by {
      if page != t { PagesApart(pageSize, 255, page); PagesApart(pageSize, 255, 256); }
      if Fits(|flash|, pageSize, page) { PageOrder(pageSize, page, 256); }
    }
    ChunkStores(now, pageSize, t, start, data[done..][..n]);
    var part := data[..done + n];
    assert part[..done] == data[..done] && part[done..][..n] == data[done..][..n] && part[..done + n] == part;
    if done == 0 { NothingStored(flash, at, data); }
    PatchNext(flash, at, part, done, n);
    assert (page + 1) % 256 == t + 1;
  }

  lemma NothingStored(flash: seq<byte>, at: nat, data: seq<byte>)
    requires at <= |flash|
    ensures Patch(flash, at, data[..0]) == flash
  {
  }

  /** A page that does not exist is where the section leaves the flash. */
  lemma LandedStops(flash: seq<byte>, now: seq<byte>, pageSize: nat, at: nat, data: seq<byte>, done: nat,
                    page: nat, start: nat)
    requires Landed(flash, now, pageSize, at, data, done, page, start) && done < |data|
    ensures Fits(|flash|, pageSize, Landing(|flash|, pageSize, page)) <==> done < Room(|flash|, at, |data|)
  {
    hide Patch;
    var t := page % 256;
    if Fits(|flash|, pageSize, page) {
      PageOrder(pageSize, page, 256);
    }
    if PageStart(pageSize, t) < |flash| {
      PageRoom(|flash|, pageSize, t);
    }
  }

  lemma LandedStart(flash: seq<byte>, pageSize: nat, addr: nat, data: seq<byte>, page: nat, start: nat)
    requires ByteNumbered(|flash|, pageSize) && start < pageSize && addr == PageStart(pageSize, page) + start
    ensures Landed(flash, flash, pageSize, addr % PageStart(pageSize, 256), data, 0, page, start)
  {
    WindowOf(pageSize, page, start);
  }

  /** A chunk that is not the last of its section ends with its page. */
  lemma NextPage(pageSize: nat, page: nat, start: nat, left: nat, n: nat)
    requires start < pageSize && left > 0 && n == ChunkLength(pageSize, start, left)
    ensures 0 < n <= left
    ensures n < left ==> PageStart(pageSize, page) + start + n == PageStart(pageSize, page + 1)
  {
  }

  lemma WindowPositive(pageSize: nat)
    ensures pageSize > 0 ==> PageStart(pageSize, 256) > 0
  {
    PageStartIs(pageSize, 256);
  }

  lemma {:induction false} WindowOf(pageSize: nat, page: nat, start: nat)
    requires start < pageSize
    ensures PageStart(pageSize, 256) > 0
    ensures (PageStart(pageSize, page) + start) % PageStart(pageSize, 256) == PageStart(pageSize, page % 256) + start
  {
    hide PageStart;
    PagesApart(pageSize, 0, 256);
    if page >= 256 {
      PageStartSum(pageSize, page - 256, 256);
      OneTurn(PageStart(pageSize, page - 256) + start, PageStart(pageSize, page) + start, PageStart(pageSize, 256));
      WindowOf(pageSize, page - 256, start);
    } else {
      PagesApart(pageSize, page, 256);
      NoTurn(PageStart(pageSize, page) + start, PageStart(pageSize, 256));
    }
  }

  lemma NoTurn(a: nat, n: nat)
    requires a < n
    ensures a % n == a
  {
    RemainderUnique(a, 0, a, n);
  }

  lemma OneTurn(a: nat, b: nat, n: nat)
    requires n > 0 && b == a + n
    ensures b % n == a % n
  {
    AddModulus(a, n);
  }

  /** How far a section has got: `done` bytes, the next one going to `start` in `page`; in the end the flash will
      be `effect`. */
  ghost predicate Progress(flash: seq<byte>, now: seq<byte>, effect: seq<byte>, pageSize: nat, addr: nat,
                           data: seq<byte>, done: nat, page: nat, start: nat)
    requires addr + |data| <= |flash| && done <= |data|
  {
    && Geometry(|flash|, pageSize) && start < pageSize && |now| == |flash|
    && (done < |data| ==> addr + done == PageStart(pageSize, page) + start)
    && SectionEffect(now, pageSize, page, start, data[done..]) == effect
    && (addr + |data| <= PageStart(pageSize, 256) ==> now == Patch(flash, addr, data[..done]))
  }

  lemma ProgressStart(flash: seq<byte>, pageSize: nat, addr: nat, data: seq<byte>, page: nat, start: nat)
    requires Geometry(|flash|, pageSize) && addr + |data| <= |flash|
    requires start < pageSize && addr == PageStart(pageSize, page) + start
    ensures Progress(flash, flash, Stored(flash, pageSize, addr, data), pageSize, addr, data, 0, page, start)
  {
    var p, s := StoredIs(flash, pageSize, addr, data);
    if data != [] { PageUnique(pageSize, page, start, p, s); }
    assert data[0..] == data;
    NothingStored(flash, addr, data);
  }

  lemma ProgressNext(flash: seq<byte>, now: seq<byte>, effect: seq<byte>, pageSize: nat, addr: nat, data: seq<byte>,
                     done: nat, page: nat, start: nat, n: nat)
    requires addr + |data| <= |flash| && done < |data|
    requires Progress(flash, now, effect, pageSize, addr, data, done, page, start)
    requires n == ChunkLength(pageSize, start, |data| - done)
    ensures PageStart(pageSize, page) + pageSize <= |now|
    ensures Progress(flash, ChunkEffect(now, pageSize, page, start, data[done..][..n]), effect, pageSize, addr, data,
                     done + n, page + 1, 0)
  {
    hide Patch, ChunkEffect;
    var rest := data[done..];
    EffectNext(now, pageSize, page, start, rest, n);
    assert rest[n..] == data[done + n..];
    if addr + |data| <= PageStart(pageSize, 256) {
      PageOrder(pageSize, page, 256);
      ChunkStores(now, pageSize, page, start, rest[..n]);
      PatchNext(flash, addr, data, done, n);
    }
  }

  lemma ProgressLow(flash: seq<byte>, now: seq<byte>, effect: seq<byte>, pageSize: nat, addr: nat, data: seq<byte>,
                    done: nat, page: nat, start: nat)
    requires addr + |data| <= |flash| && done < |data| && addr + |data| <= PageStart(pageSize, 256)
    requires Progress(flash, now, effect, pageSize, addr, data, done, page, start)
    ensures page < 256 && now == Patch(flash, addr, data[..done])
  {
    PageOrder(pageSize, page, 256);
  }

  lemma EffectNext(flash: seq<byte>, pageSize: nat, page: nat, start: nat, data: seq<byte>, n: nat)
    requires Geometry(|flash|, pageSize) && start < pageSize && data != []
    requires PageStart(pageSize, page) + start + |data| <= |flash|
    requires n == ChunkLength(pageSize, start, |data|)
    ensures PageStart(pageSize, page) + pageSize <= |flash|
    ensures SectionEffect(flash, pageSize, page, start, data)
            == SectionEffect(ChunkEffect(flash, pageSize, page, start, data[..n]), pageSize, page + 1, 0, data[n..])
  {
    PageRoom(|flash|, pageSize, page);
  }

  lemma ProgressEnd(flash: seq<byte>, now: seq<byte>, effect: seq<byte>, pageSize: nat, addr: nat, data: seq<byte>,
                    page: nat, start: nat)
    requires addr + |data| <= |flash|
    requires Progress(flash, now, effect, pageSize, addr, data, |data|, page, start)
    ensures now == effect
    ensures addr + |data| <= PageStart(pageSize, 256) ==> now == Patch(flash, addr, data)
  {
    assert data[|data|..] == [] && data[..|data|] == data;
  }

  predicate InPage(pageSize: nat, page: nat, addr: nat) {
    PageStart(pageSize, page) <= addr < PageStart(pageSize, page) + pageSize
  }

  // ---------------------------------------------------------------- a section under way

  /** What trying to store a section inside the flash leaves: all of it if that went through; otherwise, within the
      first 256 pages, the part before the page that failed, only that page being in doubt. */
  ghost predicate InsideResult(before: seq<byte>, after: seq<byte>, pageSize: nat, addr: nat, data: seq<byte>,
                               ok: bool, done: nat, page: nat)
    requires Geometry(|before|, pageSize) && addr + |data| <= |before| && done <= |data|
  {
    && (ok ==> after == Stored(before, pageSize, addr, data))
    && (addr + |data| <= PageStart(pageSize, 256) ==>
          if ok then after == Patch(before, addr, data)
          else SameOutsidePage(Patch(before, addr, data[..done]), after, pageSize, page))
  }

  /** Where a section goes on a device with byte-sized page numbers: its address cut down to 256 pages. */
  function Window(pageSize: nat, addr: nat): nat
    requires pageSize > 0
  {
    WindowPositive(pageSize);
    addr % PageStart(pageSize, 256)
  }

  /** What trying to store a section anywhere leaves on such a device: the bytes up to the end of the flash if nothing
      fails before that, and otherwise only the page that failed in doubt. */
  ghost predicate AnywhereResult(before: seq<byte>, after: seq<byte>, pageSize: nat, addr: nat, data: seq<byte>,
                                 done: nat, page: nat)
    requires pageSize > 0 && done <= |data|
  {
    var at := Window(pageSize, addr);
    && done <= Room(|before|, at, |data|)
    && if done == Room(|before|, at, |data|) then after == Reached(before, at, data, done)
       else SameOutsidePage(Reached(before, at, data, done), after, pageSize, page % 256)
  }

  /** The loop over a section's pages, in both views. */
  ghost predicate Underway(flash: seq<byte>, now: seq<byte>, pageSize: nat, addr: nat, data: seq<byte>, done: nat,
                           page: nat, start: nat)
  {
    && Geometry(|flash|, pageSize) && |now| == |flash| && done <= |data|
    && start < pageSize && (done < |data| ==> addr + done == PageStart(pageSize, page) + start)
    && (addr + |data| <= |flash| || ByteNumbered(|flash|, pageSize))
    && (addr + |data| <= |flash| ==>
          Progress(flash, now, Stored(flash, pageSize, addr, data), pageSize, addr, data, done, page, start))
    && (ByteNumbered(|flash|, pageSize) ==>
          Landed(flash, now, pageSize, Window(pageSize, addr), data, done, page, start))
  }

  lemma UnderwayStart(flash: seq<byte>, pageSize: nat, addr: nat, data: seq<byte>) returns (page: nat, start: nat)
    requires Geometry(|flash|, pageSize) && (addr + |data| <= |flash| || ByteNumbered(|flash|, pageSize))
    ensures Underway(flash, flash, pageSize, addr, data, 0, page, start)
  {
    hide Stored, Progress, Landed, ByteNumbered, PageStart;
    page, start := PageOf(pageSize, addr);
    if addr + |data| <= |flash| { ProgressStart(flash, pageSize, addr, data, page, start); }
    if ByteNumbered(|flash|, pageSize) { LandedStart(flash, pageSize, addr, data, page, start); }
  }

  /** The next chunk: it lands somewhere, and in the flash exactly if there is room left. */
  lemma UnderwayTries(flash: seq<byte>, now: seq<byte>, pageSize: nat, addr: nat, data: seq<byte>, done: nat,
                      page: nat, start: nat)
    requires Underway(flash, now, pageSize, addr, data, done, page, start) && done < |data|
    ensures start < pageSize && addr + done == PageStart(pageSize, page) + start
    ensures Lands(|flash|, pageSize, page) && InPage(pageSize, page, addr + done)
    ensures addr + |data| <= |flash| ==>
      Fits(|flash|, pageSize, page) && Fits(|flash|, pageSize, Landing(|flash|, pageSize, page))
    ensures ByteNumbered(|flash|, pageSize) ==>
      done <= Room(|flash|, Window(pageSize, addr), |data|)
      && (Fits(|flash|, pageSize, Landing(|flash|, pageSize, page))
          <==> done < Room(|flash|, Window(pageSize, addr), |data|))
  {
    hide Stored, Reached, Patch, SectionEffect, Window;
    if addr + |data| <= |flash| { PageRoom(|flash|, pageSize, page); }
    if ByteNumbered(|flash|, pageSize) {
      LandedStops(flash, now, pageSize, Window(pageSize, addr), data, done, page, start);
    }
  }

  lemma UnderwayNext(flash: seq<byte>, now: seq<byte>, pageSize: nat, addr: nat, data: seq<byte>, done: nat,
                     page: nat, start: nat, n: nat)
    requires Underway(flash, now, pageSize, addr, data, done, page, start) && done < |data|
    requires n == ChunkLength(pageSize, start, |data| - done)
    requires Fits(|flash|, pageSize, Landing(|flash|, pageSize, page))
    ensures Underway(flash, ChunkEffect(now, pageSize, Landing(|flash|, pageSize, page), start, data[done..][..n]),
                     pageSize, addr, data, done + n, page + 1, 0)
  {
    hide Stored, Progress, Landed, ByteNumbered, ChunkEffect, Window;
    UnderwayTries(flash, now, pageSize, addr, data, done, page, start);
    NextPage(pageSize, page, start, |data| - done, n);
    if addr + |data| <= |flash| {
      ProgressNext(flash, now, Stored(flash, pageSize, addr, data), pageSize, addr, data, done, page, start, n);
    }
    if ByteNumbered(|flash|, pageSize) {
      LandedNext(flash, now, pageSize, Window(pageSize, addr), data, done, page, start, n);
    }
  }

  /** A chunk that failed. */
  lemma UnderwayFails(flash: seq<byte>, now: seq<byte>, after: seq<byte>, pageSize: nat, addr: nat, data: seq<byte>,
                      done: nat, page: nat, start: nat)
    requires Underway(flash, now, pageSize, addr, data, done, page, start) && done < |data| && |after| == |flash|
    requires var t := Landing(|flash|, pageSize, page);
      && (Fits(|flash|, pageSize, t) && t < 256 ==> SameOutsidePage(now, after, pageSize, t))
      && (!Fits(|flash|, pageSize, t) ==> after == now)
    ensures addr + |data| <= |flash| ==> InsideResult(flash, after, pageSize, addr, data, false, done, page)
    ensures ByteNumbered(|flash|, pageSize) ==> AnywhereResult(flash, after, pageSize, addr, data, done, page)
  {
    hide Stored, Reached, Patch, SectionEffect, SameOutsidePage, Window;
    UnderwayTries(flash, now, pageSize, addr, data, done, page, start);
    if addr + |data| <= |flash| <= 65536 && addr + |data| <= PageStart(pageSize, 256) {
      ProgressLow(flash, now, Stored(flash, pageSize, addr, data), pageSize, addr, data, done, page, start);
    }
    if ByteNumbered(|flash|, pageSize) && Fits(|flash|, pageSize, page) {
      PageOrder(pageSize, page, 256);
    }
  }

  lemma UnderwayEnds(flash: seq<byte>, now: seq<byte>, pageSize: nat, addr: nat, data: seq<byte>, page: nat, start: nat)
    requires Underway(flash, now, pageSize, addr, data, |data|, page, start)
    ensures addr + |data| <= |flash| ==> InsideResult(flash, now, pageSize, addr, data, true, |data|, page)
    ensures ByteNumbered(|flash|, pageSize) ==>
      AnywhereResult(flash, now, pageSize, addr, data, |data|, page)
      && Room(|flash|, Window(pageSize, addr), |data|) == |data|
  {
    hide Stored, Reached, Patch, SectionEffect, Window, ByteNumbered;
    if addr + |data| <= |flash| {
      ProgressEnd(flash, now, Stored(flash, pageSize, addr, data), pageSize, addr, data, page, start);
    }
  }
}
