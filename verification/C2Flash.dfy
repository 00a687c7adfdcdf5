/** Storing a section in flash: page read-modify-erase-write, and the loop over the pages. */
module C2Flash {
  import opened Bytes
  import opened Errno
  import opened C2Target
  import opened C2Interface
  import opened C2Pages

  /** Which page, and which part of it, a chunk touches. */
  method PlanChunk(pageSize: nat, addr: nat, length: nat)
    returns (page: nat, pageBase: nat, chunkStart: nat, chunkLen: nat, mustRead: bool)
    requires pageSize > 0 && length > 0
    ensures page == addr / pageSize && chunkStart == addr % pageSize
    ensures pageBase == PageStart(pageSize, page)
    ensures addr == pageBase + chunkStart && 0 < chunkLen <= length && chunkStart + chunkLen <= pageSize
    ensures chunkLen == ChunkLength(pageSize, chunkStart, length)
    ensures !mustRead <==> chunkLen == pageSize
  {
    ghost var p, q := PageOf(pageSize, addr);
    page := addr / pageSize;
    mustRead := addr % pageSize != 0 || length < pageSize;
    pageBase := page * pageSize;
    chunkStart := addr - pageBase;
    chunkLen := if chunkStart + length > pageSize then pageSize - chunkStart else length;
  }

  /** Store as much of `data` as fits in the page of `addr`; the result is the number of bytes stored, or a
      negative error.  The chunk goes to the page its number lands in, if there is such a page. */
  method FlashChunk(link: C2Link, addr: nat, data: seq<byte>, ghost page: nat, ghost start: nat) returns (res: int)
    requires link.Rested() && Geometry(|link.chip.dev.core.flash|, link.family.pageSize)
    requires data != [] && Lands(|link.chip.dev.core.flash|, link.family.pageSize, page)
    requires addr == PageStart(link.family.pageSize, page) + start && start < link.family.pageSize
    modifies link`c2d, link`chip, link`clash
    ensures link.clash == old(link.clash)
    ensures |link.chip.dev.core.flash| == old(|link.chip.dev.core.flash|)
    ensures var size, pageSize := |link.chip.dev.core.flash|, link.family.pageSize;
      var t := Landing(size, pageSize, page);
      && (res >= 0 ==>
            && link.Rested() && Fits(size, pageSize, t) && res == ChunkLength(pageSize, start, |data|)
            && link.chip.dev.core.flash == ChunkEffect(old(link.chip.dev.core.flash), pageSize, t, start, data[..res]))
      && (res < 0 && Fits(size, pageSize, t) && t < 256 ==>
            SameOutsidePage(old(link.chip.dev.core.flash), link.chip.dev.core.flash, pageSize, t))
      && (!Fits(size, pageSize, t) ==> link.chip.dev.core.flash == old(link.chip.dev.core.flash))
      && (Prompt(link.part) ==> link.Rested() && (res >= 0 <==> Fits(size, pageSize, t)))
  {
    hide ChunkEffect, PageStart;
    var p, pageBase, chunkStart, chunkLen, mustRead := PlanChunk(link.family.pageSize, addr, |data|);
    PageUnique(link.family.pageSize, page, start, p, chunkStart);
    var ok := RewritePage(link, p, pageBase, chunkStart, data[..chunkLen], mustRead);
    res := if ok then chunkLen else -EIO;
  }

  /** The page buffer with the data copied in; the page itself is read only if it must be.  What is read is the page
      at the address cut to two bytes. */
  method LoadPage(link: C2Link, base: nat, start: nat, data: seq<byte>, mustRead: bool)
    returns (ok: bool, buf: array<byte>)
    requires link.Rested()
    requires start + |data| <= link.family.pageSize
    requires !mustRead ==> |data| == link.family.pageSize
    modifies link`c2d, link`chip, link`clash
    ensures fresh(buf) && link.clash == old(link.clash) && buf.Length == link.family.pageSize
    ensures link.chip.dev.core.flash == old(link.chip.dev.core.flash)
    ensures ok ==> link.Rested()
    ensures ok && base % 65536 + link.family.pageSize <= |link.chip.dev.core.flash| ==>
      buf[..] == PageImage(link.chip.dev.core.flash, base % 65536, link.family.pageSize, start, data)
    ensures Prompt(link.part) ==> link.Rested()
    ensures Prompt(link.part) && base % 65536 + link.family.pageSize <= |link.chip.dev.core.flash| ==> ok
  {
    hide Prompt, IsImage, BlocksFit;
    ghost var flash, low := link.chip.dev.core.flash, base % 65536;
    var pageSize := link.family.pageSize;
    buf := new byte[pageSize];  // not initialised
    ok := true;
    if mustRead {
      ok := link.FlashRead(base, pageSize, buf);
      ReadBack(flash, base, pageSize, buf[..pageSize], ok);
      if !ok { return; }
      assert buf[..] == buf[..pageSize];
    }
    forall i | 0 <= i < |data| {
      buf[start + i] := data[i];
    }
    if low + pageSize <= |flash| {
      assert buf[..] == PageImage(flash, low, pageSize, start, data);
    }
  }

  /** Reading a page whose cut-down address lies inside the flash goes through and yields it. */
  lemma ReadBack(flash: seq<byte>, base: nat, pageSize: nat, got: seq<byte>, ok: bool)
    requires |flash| <= 65536 && |got| == pageSize && (ok ==> IsImage(flash, base, got))
    ensures base % 65536 + pageSize <= |flash| ==> BlocksFit(|flash|, base, pageSize)
    ensures ok && base % 65536 + pageSize <= |flash| ==> got == flash[base % 65536..base % 65536 + pageSize]
  {
    hide IsImage, BlocksFit;
    var low := base % 65536;
    if low + pageSize <= |flash| {
      SameBlocks(|flash|, base, low, pageSize);
      InRangeFits(|flash|, low, pageSize);
      if ok {
        SameImageAt(flash, base, low, got);
        ImageInRange(flash, low, got);
      }
    }
  }

  /** Read the page if it must be read, copy the data in, erase the page, and write it back. */
  method RewritePage(link: C2Link, page: nat, base: nat, start: nat, data: seq<byte>, mustRead: bool)
    returns (ok: bool)
    requires link.Rested() && base == PageStart(link.family.pageSize, page)
    requires Geometry(|link.chip.dev.core.flash|, link.family.pageSize)
    requires Lands(|link.chip.dev.core.flash|, link.family.pageSize, page)
    requires start + |data| <= link.family.pageSize
    requires !mustRead ==> |data| == link.family.pageSize
    modifies link`c2d, link`chip, link`clash
    ensures link.clash == old(link.clash)
    ensures |link.chip.dev.core.flash| == old(|link.chip.dev.core.flash|)
    ensures ok ==> link.Rested()
    ensures var size, pageSize := |link.chip.dev.core.flash|, link.family.pageSize;
      var t := Landing(size, pageSize, page);
      && (ok ==> Fits(size, pageSize, t)
                 && link.chip.dev.core.flash == ChunkEffect(old(link.chip.dev.core.flash), pageSize, t, start, data))
      && (Fits(size, pageSize, t) && t < 256 ==>
            SameOutsidePage(old(link.chip.dev.core.flash), link.chip.dev.core.flash, pageSize, t))
      && (!Fits(size, pageSize, t) ==> link.chip.dev.core.flash == old(link.chip.dev.core.flash))
      && (Prompt(link.part) ==> link.Rested() && (ok <==> Fits(size, pageSize, t)))
  {
    hide PageStart, Erased, PageImage, Programmed, Prompt, BlocksFit;
    ghost var flash, pageSize := link.chip.dev.core.flash, link.family.pageSize;
    ghost var t := Landing(|flash|, pageSize, page);
    ErasedPage(flash, pageSize, page);
    var buf;
    ok, buf := LoadPage(link, base, start, data, mustRead);
    if !ok { return; }
    ghost var image := buf[..];
    ok := link.FlashErase(page % 256);
    if !ok { return; }
    ghost var erased := ErasePage(flash, pageSize, page % 256);
    assert link.chip.dev.core.flash == erased;
    ghost var done;
    ok, done := link.FlashWrite(base, link.family.pageSize, buf);
    assert buf[..done] == image[..done];
    assert ok ==> image[..done] == image;
    WrittenPage(erased, base, PageStart(pageSize, t), pageSize, image[..done]);
  }

  /** The page erased for a chunk: it exists only if the page the chunk lands in does, and within the first 256 pages
      it is that page. */
  lemma ErasedPage(flash: seq<byte>, pageSize: nat, page: nat)
    requires Geometry(|flash|, pageSize) && Lands(|flash|, pageSize, page)
    ensures var t := Landing(|flash|, pageSize, page);
      && (Fits(|flash|, pageSize, page % 256) ==> Fits(|flash|, pageSize, t))
      && (!Fits(|flash|, pageSize, t) ==> ErasePage(flash, pageSize, page % 256) == flash)
      && (Fits(|flash|, pageSize, t) ==>
            && Fits(|flash|, pageSize, page % 256) && t % 256 == page % 256
            && PageStart(pageSize, page) % 65536 == PageStart(pageSize, t))
      && (t < 256 ==> t == page % 256)
      && SameOutsidePage(flash, ErasePage(flash, pageSize, page % 256), pageSize, page % 256)
  {
    var t := Landing(|flash|, pageSize, page);
    if page % 256 < page {
      PagesApart(pageSize, page % 256, page);
    }
    if Fits(|flash|, pageSize, t) {
      LandingBase(|flash|, pageSize, page);
    } else {
      ErasedBeyond(flash, pageSize, t);
    }
  }

  /** Writing a page back at an address that is cut down to the page's own. */
  lemma WrittenPage(flash: seq<byte>, base: nat, low: nat, pageSize: nat, data: seq<byte>)
    requires low + pageSize <= |flash| <= 65536 && base % 65536 == low && |data| <= pageSize
    ensures Programmed(flash, base, data) == Programmed(flash, low, data)
    ensures SameOutside(flash, Programmed(flash, base, data), low, low + pageSize)
    ensures BlocksFit(|flash|, base, pageSize)
  {
    SameProgrammed(flash, base, low, data);
    ProgrammedElsewhere(flash, low, data);
    SameBlocks(|flash|, base, low, pageSize);
    InRangeFits(|flash|, low, pageSize);
  }

  // ---------------------------------------------------------------- sections

  /** Store a section, page by page.  The driver stops at the first chunk that fails and tells nobody but the
      terminal; `ok` is whether it got through, `done` how many bytes were stored and `page` the page it failed in
      if it did not. */
  method FlashSection(link: C2Link, addr: nat, data: seq<byte>) returns (ok: bool, ghost done: nat, ghost page: nat)
    requires link.Rested() && Geometry(|link.chip.dev.core.flash|, link.family.pageSize)
    requires addr + |data| <= |link.chip.dev.core.flash|
             || ByteNumbered(|link.chip.dev.core.flash|, link.family.pageSize)
    modifies link`c2d, link`chip, link`clash
    ensures link.clash == old(link.clash)
    ensures |link.chip.dev.core.flash| == old(|link.chip.dev.core.flash|)
    ensures ok ==> link.Rested() && done == |data|
    ensures Prompt(link.part) ==> link.Rested()
    ensures !ok ==> done < |data| && InPage(link.family.pageSize, page, addr + done)
    ensures addr + |data| <= |link.chip.dev.core.flash| ==>
      && InsideResult(old(link.chip.dev.core.flash), link.chip.dev.core.flash, link.family.pageSize, addr, data,
                      ok, done, page)
      && (Prompt(link.part) ==> ok)
    ensures ByteNumbered(|link.chip.dev.core.flash|, link.family.pageSize) ==>
      && AnywhereResult(old(link.chip.dev.core.flash), link.chip.dev.core.flash, link.family.pageSize, addr, data,
                        done, page)
      && (Prompt(link.part) ==>
            done == Room(|link.chip.dev.core.flash|, Window(link.family.pageSize, addr), |data|))
  {
    hide Underway, ChunkEffect, InsideResult, AnywhereResult, Geometry, ByteNumbered, Lands, Fits, Landing, PageStart;
    ghost var flash, pageSize := link.chip.dev.core.flash, link.family.pageSize;
    ghost var start;
    page, start := UnderwayStart(flash, pageSize, addr, data);
    var at, rest := addr, data;
    done := 0;
    while rest != []
      invariant link.clash == old(link.clash)
      invariant done <= |data| && at == addr + done && rest == data[done..]
      invariant link.Rested() && |link.chip.dev.core.flash| == |flash|
      invariant Underway(flash, link.chip.dev.core.flash, pageSize, addr, data, done, page, start)
      decreases |rest|
    {
      ghost var before := link.chip.dev.core.flash;
      UnderwayTries(flash, before, pageSize, addr, data, done, page, start);
      var res := FlashChunk(link, at, rest, page, start);
      if res < 0 {
        UnderwayFails(flash, before, link.chip.dev.core.flash, pageSize, addr, data, done, page, start);
        return false, done, page;
      }
      UnderwayNext(flash, before, pageSize, addr, data, done, page, start, res);
      at, rest, done := at + res, rest[res..], done + res;
      page, start := page + 1, 0;
    }
    UnderwayEnds(flash, link.chip.dev.core.flash, pageSize, addr, data, page, start);
    ok := true;
  }
}
