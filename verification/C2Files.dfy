/** Whole files: flashing every section of an image, and verifying an image against the flash. */
module C2Files {
  import opened Bytes
  import opened Errno
  import opened C2Target
  import opened C2Interface
  import opened C2Pages
  import opened C2Flash

  /** A section of an image: load address and contents. */
  datatype Section = Section(lma: nat, data: seq<byte>)

  /** Addresses are C unsigned ints. */
  function FlashAddress(s: Section, offset: nat): nat {
    (s.lma + offset) % 0x1_0000_0000
  }

  /** The flash addresses of the sections: load address and offset added up in 32 bits. */
  ghost predicate Placed(sections: seq<Section>, offset: nat, addrs: seq<nat>) {
    && |addrs| == |sections|
    && forall i | 0 <= i < |sections| ::
         addrs[i] < 0x1_0000_0000 && exists k: nat :: sections[i].lma + offset == addrs[i] + k * 0x1_0000_0000
  }

  lemma PlacedAt(sections: seq<Section>, offset: nat, addrs: seq<nat>)
    requires Placed(sections, offset, addrs)
    ensures forall i | 0 <= i < |sections| :: addrs[i] == FlashAddress(sections[i], offset)
  {
  }

  /** Within 32 bits they are the sums themselves. */
  lemma PlacedLow(sections: seq<Section>, offset: nat, addrs: seq<nat>)
    requires |addrs| == |sections|
    requires forall i | 0 <= i < |sections| :: addrs[i] == sections[i].lma + offset < 0x1_0000_0000
    ensures Placed(sections, offset, addrs)
  {
    assert forall i | 0 <= i < |sections| :: sections[i].lma + offset == addrs[i] + 0 * 0x1_0000_0000;
  }

  /** The sums of load address and offset. */
  function Sums(sections: seq<Section>, offset: nat): (r: seq<nat>)
    ensures |r| == |sections| && forall i | 0 <= i < |sections| :: r[i] == sections[i].lma + offset
  {
    seq(|sections|, i requires 0 <= i < |sections| => sections[i].lma + offset)
  }

  /** As long as these stay within the flash, they are the addresses. */
  lemma SumsFound(flash: seq<byte>, sections: seq<Section>, offset: nat)
    requires |flash| <= 65536
    ensures (forall i | 0 <= i < |sections| :: sections[i].lma + offset + |sections[i].data| <= |flash|) ==>
      Placed(sections, offset, Sums(sections, offset)) && Below(sections, Sums(sections, offset), |flash|)
      && (Found(flash, sections, Sums(sections, offset)) <==>
            forall i | 0 <= i < |sections| ::
              var a := sections[i].lma + offset; flash[a..a + |sections[i].data|] == sections[i].data)
  {
    if forall i | 0 <= i < |sections| :: sections[i].lma + offset + |sections[i].data| <= |flash| {
      PlacedLow(sections, offset, Sums(sections, offset));
    }
  }

  /** Every section at its address ends within the first `size` bytes. */
  ghost predicate Below(sections: seq<Section>, addrs: seq<nat>, size: nat) {
    |addrs| == |sections| && forall i | 0 <= i < |sections| :: addrs[i] + |sections[i].data| <= size
  }

  /** No two sections claim the same byte. */
  ghost predicate Apart(sections: seq<Section>, addrs: seq<nat>) {
    && |addrs| == |sections|
    && forall i, j | 0 <= i < j < |sections| ::
         addrs[i] + |sections[i].data| <= addrs[j] || addrs[j] + |sections[j].data| <= addrs[i]
  }

  /** Each section is found at its address. */
  ghost predicate Found(flash: seq<byte>, sections: seq<Section>, addrs: seq<nat>) {
    && |addrs| == |sections|
    && forall i | 0 <= i < |sections| ::
         addrs[i] + |sections[i].data| <= |flash| && flash[addrs[i]..addrs[i] + |sections[i].data|] == sections[i].data
  }

  /** And every byte outside of them is as it was. */
  ghost predicate Kept(before: seq<byte>, after: seq<byte>, sections: seq<Section>, addrs: seq<nat>) {
    && |addrs| == |sections| && |after| == |before|
    && forall x | 0 <= x < |before| ::
         (forall i | 0 <= i < |sections| :: x < addrs[i] || addrs[i] + |sections[i].data| <= x) ==>
           after[x] == before[x]
  }

  ghost predicate Inside(size: nat, sections: seq<Section>, offset: nat) {
    forall i | 0 <= i < |sections| :: FlashAddress(sections[i], offset) + |sections[i].data| <= size
  }

  // ---------------------------------------------------------------- verifying

  /** The number of bytes verify gets to compare before a block it cannot read makes it give up on the
      section without a word. */
  function Compared(size: nat, addr: nat, length: nat): (r: nat)
    ensures r <= length
    decreases length
  {
    if length == 0 || !BlocksFit(size, addr, BlockSize(length)) then 0
    else BlockSize(length) + Compared(size, addr + BlockSize(length), length - BlockSize(length))
  }

  /** The error count of one section: one per differing 256-byte block, up to the first unreadable one. */
  ghost function SectionErrors(flash: seq<byte>, addr: nat, data: seq<byte>): nat
    decreases |data|
  {
    var n := BlockSize(|data|);
    if data == [] || !BlocksFit(|flash|, addr, n) then 0
    else (if IsImage(flash, addr, data[..n]) then 0 else 1) + SectionErrors(flash, addr + n, data[n..])
  }

  ghost function FileErrors(flash: seq<byte>, sections: seq<Section>, offset: nat): nat {
    if sections == [] then 0
    else
      var last := sections[|sections| - 1];
      FileErrors(flash, sections[..|sections| - 1], offset)
      + SectionErrors(flash, FlashAddress(last, offset), last.data)
  }

  /** No error is reported exactly when every byte that could be compared agrees. */
  lemma {:induction false} NoErrorsMeans(flash: seq<byte>, addr: nat, data: seq<byte>)
    ensures SectionErrors(flash, addr, data) == 0
            <==> IsImage(flash, addr, data[..Compared(|flash|, addr, |data|)])
    decreases |data|
  {
    hide IsImage, BlocksFit;
    var n := BlockSize(|data|);
    if data == [] || !BlocksFit(|flash|, addr, n) {
      EmptyImage(flash, addr);
    } else {
      NoErrorsMeans(flash, addr + n, data[n..]);
      var c := Compared(|flash|, addr + n, |data| - n);
      ImageSplit(flash, addr, data[..n], data[n..][..c]);
      assert data[..n] + data[n..][..c] == data[..n + c];
    }
  }

  lemma EmptyImage(flash: seq<byte>, addr: nat)
    ensures IsImage(flash, addr, [])
  {
  }

  lemma ImageSplit(flash: seq<byte>, addr: nat, first: seq<byte>, rest: seq<byte>)
    ensures IsImage(flash, addr, first + rest) <==> IsImage(flash, addr, first) && IsImage(flash, addr + |first|, rest)
  {
    var s := first + rest;
    if IsImage(flash, addr, s) {
      forall i | 0 <= i < |first|
        ensures Holds(flash, addr + i, first[i])
      {
        assert s[i] == first[i];
      }
      forall i | 0 <= i < |rest|
        ensures Holds(flash, addr + |first| + i, rest[i])
      {
        assert s[|first| + i] == rest[i];
      }
    }
    if IsImage(flash, addr, first) && IsImage(flash, addr + |first|, rest) {
      forall i | 0 <= i < |s|
        ensures Holds(flash, addr + i, s[i])
      {
        if i < |first| {
          assert first[i] == s[i];
        } else {
          assert rest[i - |first|] == s[i];
        }
      }
    }
  }

  lemma {:induction false} ComparedAll(size: nat, addr: nat, length: nat)
    requires addr + length <= size <= 65536
    ensures Compared(size, addr, length) == length
    decreases length
  {
    if length > 0 {
      InRangeFits(size, addr, BlockSize(length));
      ComparedAll(size, addr + BlockSize(length), length - BlockSize(length));
    }
  }

  lemma InRangeImage(flash: seq<byte>, addr: nat, data: seq<byte>)
    requires addr + |data| <= |flash| <= 65536
    ensures IsImage(flash, addr, data) <==> data == flash[addr..addr + |data|]
  {
    if IsImage(flash, addr, data) {
      ImageInRange(flash, addr, data);
    } else {
      var i :| 0 <= i < |data| && !Holds(flash, addr + i, data[i]);
      assert (addr + i) % 65536 == addr + i;
      assert flash[addr..addr + |data|][i] == flash[addr + i];
    }
  }

  /** Inside the flash: no error if and only if the section is what the flash holds. */
  lemma SectionVerdict(flash: seq<byte>, addr: nat, data: seq<byte>)
    requires addr + |data| <= |flash| <= 65536
    ensures SectionErrors(flash, addr, data) == 0 <==> data == flash[addr..addr + |data|]
  {
    NoErrorsMeans(flash, addr, data);
    ComparedAll(|flash|, addr, |data|);
    assert data[..|data|] == data;
    InRangeImage(flash, addr, data);
  }

  /** Everything of a section that can be compared agrees. */
  ghost predicate Agrees(flash: seq<byte>, addr: nat, data: seq<byte>) {
    IsImage(flash, addr, data[..Compared(|flash|, addr, |data|)])
  }

  /** A file, wherever its sections are, shows no error exactly if everything that can be compared agrees. */
  lemma {:induction false} FileNoErrorsMeans(flash: seq<byte>, sections: seq<Section>, offset: nat)
    ensures FileErrors(flash, sections, offset) == 0
            <==> forall i | 0 <= i < |sections| :: Agrees(flash, FlashAddress(sections[i], offset), sections[i].data)
  {
    if sections != [] {
      var n := |sections| - 1;
      FileNoErrorsMeans(flash, sections[..n], offset);
      NoErrorsMeans(flash, FlashAddress(sections[n], offset), sections[n].data);
      assert forall i | 0 <= i < n :: sections[..n][i] == sections[i];
    }
  }

  /** A section whose first block cannot be read is not compared at all, and so never fails. */
  lemma UnreadableSectionPasses(flash: seq<byte>, addr: nat, data: seq<byte>)
    requires data != [] && !BlocksFit(|flash|, addr, BlockSize(|data|))
    ensures Compared(|flash|, addr, |data|) == 0 && Agrees(flash, addr, data)
    ensures SectionErrors(flash, addr, data) == 0
  {
    EmptyImage(flash, addr);
    NoErrorsMeans(flash, addr, data);
  }

  /** A file whose sections lie inside the flash verifies if and only if each of them is there. */
  lemma {:induction false} FileVerdict(flash: seq<byte>, sections: seq<Section>, offset: nat)
    requires |flash| <= 65536 && Inside(|flash|, sections, offset)
    ensures FileErrors(flash, sections, offset) == 0 <==>
      forall i | 0 <= i < |sections| ::
        var a := FlashAddress(sections[i], offset); sections[i].data == flash[a..a + |sections[i].data|]
  {
    if sections != [] {
      var n := |sections| - 1;
      FileVerdict(flash, sections[..n], offset);
      SectionVerdict(flash, FlashAddress(sections[n], offset), sections[n].data);
    }
  }

  lemma PlacedVerdict(flash: seq<byte>, sections: seq<Section>, offset: nat, addrs: seq<nat>)
    requires |flash| <= 65536 && Placed(sections, offset, addrs) && Below(sections, addrs, |flash|)
    ensures FileErrors(flash, sections, offset) == 0 <==> Found(flash, sections, addrs)
  {
    PlacedAt(sections, offset, addrs);
    FileVerdict(flash, sections, offset);
  }

  /** Compare one section against the flash, 256 bytes at a time. */
  method VerifySection(link: C2Link, addr: nat, data: seq<byte>) returns (errctr: nat)
    requires link.Rested()
    modifies link`c2d, link`chip, link`clash
    ensures link.clash == old(link.clash)
    ensures link.chip.dev.core.flash == old(link.chip.dev.core.flash)
    ensures errctr > 0 ==> !IsImage(link.chip.dev.core.flash, addr, data)
    ensures Prompt(link.part) ==> link.Rested() && errctr == SectionErrors(link.chip.dev.core.flash, addr, data)
  {
    hide IsImage, Prompt;
    errctr := 0;
    var buf := new byte[256];
    ghost var flash := link.chip.dev.core.flash;
    var at, rest := addr, data;
    ghost var seen := 0;
    while rest != []
      invariant link.clash == old(link.clash) && link.Rested()
      invariant link.chip.dev.core.flash == flash
      invariant seen <= |data| && at == addr + seen && rest == data[seen..]
      invariant errctr > 0 ==> !IsImage(flash, addr, data)
      invariant errctr + SectionErrors(flash, at, rest) == SectionErrors(flash, addr, data)
      decreases |rest|
    {
      var chunk := if |rest| > 256 then 256 else |rest|;
      var ok := link.FlashRead(at, chunk, buf);
      if !ok {
        return;
      }
      var same := buf[..chunk] == rest[..chunk];
      BlockChecked(flash, addr, data, seen, chunk, buf[..chunk]);
      if !same {
        errctr := errctr + 1;
      }
      at, rest, seen := at + chunk, rest[chunk..], seen + chunk;
    }
  }

  /** One block of a section: what was read agrees with the section's bytes exactly if the block is right. */
  lemma BlockChecked(flash: seq<byte>, addr: nat, data: seq<byte>, seen: nat, n: nat, got: seq<byte>)
    requires seen < |data| && n == BlockSize(|data| - seen) == |got|
    requires BlocksFit(|flash|, addr + seen, n) && IsImage(flash, addr + seen, got)
    ensures data[seen..][n..] == data[seen + n..]
    ensures SectionErrors(flash, addr + seen, data[seen..]) ==
            (if got == data[seen..][..n] then 0 else 1) + SectionErrors(flash, addr + seen + n, data[seen + n..])
    ensures got != data[seen..][..n] ==> !IsImage(flash, addr, data)
  {
    hide IsImage, BlocksFit;
    var rest := data[seen..];
    SameImage(flash, addr + seen, got, rest[..n]);
    assert data[seen..][n..] == data[seen + n..];
    ImageSplit(flash, addr + seen, rest[..n], rest[n..]);
    ImageSplit(flash, addr, data[..seen], rest);
    assert rest[..n] + rest[n..] == rest && data[..seen] + rest == data;
  }

  /** Two byte strings of the same length read from the same place are equal. */
  lemma SameImage(flash: seq<byte>, addr: nat, a: seq<byte>, b: seq<byte>)
    requires |a| == |b| && IsImage(flash, addr, a)
    ensures IsImage(flash, addr, b) <==> a == b
  {
  }

  method VerifyFile(link: C2Link, sections: seq<Section>, offset: nat) returns (res: int)
    requires link.Rested()
    requires Prompt(link.part)
    modifies link`c2d, link`chip, link`clash
    ensures link.clash == old(link.clash) && link.Rested()
    ensures link.chip.dev.core.flash == old(link.chip.dev.core.flash)
    ensures res == if FileErrors(link.chip.dev.core.flash, sections, offset) == 0 then 0 else -EINVAL
    ensures res == 0 <==> forall i | 0 <= i < |sections| ::
      Agrees(link.chip.dev.core.flash, FlashAddress(sections[i], offset), sections[i].data)
    ensures forall addrs | Placed(sections, offset, addrs) && Below(sections, addrs, |link.chip.dev.core.flash|) ::
      res == 0 <==> Found(link.chip.dev.core.flash, sections, addrs)
    // in particular, as long as the sums stay within the flash
    ensures (forall i | 0 <= i < |sections| ::
               sections[i].lma + offset + |sections[i].data| <= |link.chip.dev.core.flash|) ==>
      (res == 0 <==> forall i | 0 <= i < |sections| ::
         var a := sections[i].lma + offset;
         link.chip.dev.core.flash[a..a + |sections[i].data|] == sections[i].data)
  {
    hide Agrees, Placed, Below, Found;
    var errctr := 0;
    for i := 0 to |sections|
      invariant link.clash == old(link.clash) && link.Rested()
      invariant link.chip.dev.core.flash == old(link.chip.dev.core.flash)
      invariant errctr == FileErrors(link.chip.dev.core.flash, sections[..i], offset)
    {
      var e := VerifySection(link, FlashAddress(sections[i], offset), sections[i].data);
      assert sections[..i + 1][..i] == sections[..i];
      errctr := errctr + e;
    }
    assert sections[..|sections|] == sections;
    FileNoErrorsMeans(link.chip.dev.core.flash, sections, offset);
    forall addrs | Placed(sections, offset, addrs) && Below(sections, addrs, |link.chip.dev.core.flash|)
      ensures errctr == 0 <==> Found(link.chip.dev.core.flash, sections, addrs)
    {
      PlacedVerdict(link.chip.dev.core.flash, sections, offset, addrs);
    }
    SumsFound(link.chip.dev.core.flash, sections, offset);
    res := if errctr != 0 then -EINVAL else 0;
  }

  // ---------------------------------------------------------------- flashing

  /** The flash with every section stored, later ones over earlier ones. */
  ghost function PatchAll(flash: seq<byte>, sections: seq<Section>, offset: nat): (r: seq<byte>)
    requires Inside(|flash|, sections, offset)
    ensures |r| == |flash|
  {
    if sections == [] then flash
    else
      var n := |sections| - 1;
      Patch(PatchAll(flash, sections[..n], offset), FlashAddress(sections[n], offset), sections[n].data)
  }

  /** What flashing one section leaves on a chip that answers in time, wherever the section is. */
  ghost function OneFlashed(flash: seq<byte>, pageSize: nat, addr: nat, data: seq<byte>): (r: seq<byte>)
    requires Geometry(|flash|, pageSize)
    ensures |r| == |flash|
  {
    if addr + |data| <= |flash| then Stored(flash, pageSize, addr, data)
    else Reached(flash, Window(pageSize, addr), data, Room(|flash|, Window(pageSize, addr), |data|))
  }

  /** With 512-byte pages and 64 KiB of flash, a section at 0x10000 is refused whole and one at 0x20000 lands at 0. */
  lemma FarSectionExample(flash: seq<byte>, data: seq<byte>)
    requires |flash| == 65536 && 0 < |data| <= 65536
    ensures ByteNumbered(|flash|, 512)
    ensures OneFlashed(flash, 512, 0x10000, data) == flash
    ensures OneFlashed(flash, 512, 0x20000, data) == Patch(flash, 0, data)
  {
    PageStartIs(512, 128);
    PageStartIs(512, 256);
    assert data[..|data|] == data;
  }

  ghost function AllFlashed(flash: seq<byte>, pageSize: nat, sections: seq<Section>, offset: nat): (r: seq<byte>)
    requires Geometry(|flash|, pageSize)
    ensures |r| == |flash|
  {
    if sections == [] then flash
    else
      var n := |sections| - 1;
      OneFlashed(AllFlashed(flash, pageSize, sections[..n], offset), pageSize, FlashAddress(sections[n], offset),
                 sections[n].data)
  }

  /** Sections inside the flash, and inside its first 256 pages, are all stored and nothing else changes. */
  lemma {:induction false} AllStored(flash: seq<byte>, pageSize: nat, sections: seq<Section>, offset: nat)
    requires Geometry(|flash|, pageSize) && Inside(|flash|, sections, offset)
    requires Inside(PageStart(pageSize, 256), sections, offset)
    ensures AllFlashed(flash, pageSize, sections, offset) == PatchAll(flash, sections, offset)
  {
    hide Stored, Patch, Reached, PageStart, Geometry;
    if sections != [] {
      var n := |sections| - 1;
      AllStored(flash, pageSize, sections[..n], offset);
      PageStartIs(pageSize, 256);
      StoredLow(PatchAll(flash, sections[..n], offset), pageSize, FlashAddress(sections[n], offset), sections[n].data);
    }
  }

  method FlashFile(link: C2Link, sections: seq<Section>, offset: nat)
    requires link.Rested() && Geometry(|link.chip.dev.core.flash|, link.family.pageSize)
    requires Inside(|link.chip.dev.core.flash|, sections, offset)
             || ByteNumbered(|link.chip.dev.core.flash|, link.family.pageSize)
    requires Prompt(link.part)
    modifies link`c2d, link`chip, link`clash
    ensures link.clash == old(link.clash) && link.Rested()
    ensures link.chip.dev.core.flash
            == AllFlashed(old(link.chip.dev.core.flash), link.family.pageSize, sections, offset)
    ensures Inside(|link.chip.dev.core.flash|, sections, offset)
            && Inside(PageStart(link.family.pageSize, 256), sections, offset) ==>
      link.chip.dev.core.flash == PatchAll(old(link.chip.dev.core.flash), sections, offset)
    ensures forall addrs | Placed(sections, offset, addrs) && Below(sections, addrs, |link.chip.dev.core.flash|)
                           && Below(sections, addrs, 256 * link.family.pageSize) ::
      && Kept(old(link.chip.dev.core.flash), link.chip.dev.core.flash, sections, addrs)
      && (Apart(sections, addrs) ==> Found(link.chip.dev.core.flash, sections, addrs))
    // in particular, as long as the sums stay within the flash
    ensures (forall i | 0 <= i < |sections| ::
               var end := sections[i].lma + offset + |sections[i].data|;
               end <= |link.chip.dev.core.flash| && end <= 256 * link.family.pageSize)
            && Apart(sections, Sums(sections, offset)) ==>
      forall i | 0 <= i < |sections| ::
        var a := sections[i].lma + offset;
        link.chip.dev.core.flash[a..a + |sections[i].data|] == sections[i].data
  {
    hide Stored, Reached, PageStart, Geometry, ByteNumbered, Window, Room, PatchAll;
    hide Placed, Below, Apart, Found, Kept;
    ghost var flash, pageSize := link.chip.dev.core.flash, link.family.pageSize;
    for i := 0 to |sections|
      invariant link.clash == old(link.clash) && link.Rested() && |link.chip.dev.core.flash| == |flash|
      invariant link.chip.dev.core.flash == AllFlashed(flash, pageSize, sections[..i], offset)
    {
      assert sections[..i + 1][..i] == sections[..i];
      ghost var before := link.chip.dev.core.flash;
      var ok, done, page := FlashSection(link, FlashAddress(sections[i], offset), sections[i].data);
      FlashedOne(before, link.chip.dev.core.flash, pageSize, FlashAddress(sections[i], offset), sections[i].data,
                 ok, done, page);
    }
    assert sections[..|sections|] == sections;
    if Inside(|flash|, sections, offset) && Inside(PageStart(pageSize, 256), sections, offset) {
      AllStored(flash, pageSize, sections, offset);
    }
    forall addrs | Placed(sections, offset, addrs) && Below(sections, addrs, |flash|)
                   && Below(sections, addrs, 256 * pageSize)
      ensures Kept(flash, link.chip.dev.core.flash, sections, addrs)
      ensures Apart(sections, addrs) ==> Found(link.chip.dev.core.flash, sections, addrs)
    {
      PlacedStored(flash, pageSize, sections, offset, addrs);
    }
    SumsFound(link.chip.dev.core.flash, sections, offset);
    SumsLow(pageSize, sections, offset);
  }

  lemma SumsLow(pageSize: nat, sections: seq<Section>, offset: nat)
    ensures (forall i | 0 <= i < |sections| :: sections[i].lma + offset + |sections[i].data| <= 256 * pageSize) ==>
      Below(sections, Sums(sections, offset), 256 * pageSize)
  {
  }

  /** Sections inside the flash and its first 256 pages, wherever their addresses come from: nothing else changes, and
      if they are disjoint each one is found. */
  lemma PlacedStored(flash: seq<byte>, pageSize: nat, sections: seq<Section>, offset: nat, addrs: seq<nat>)
    requires Geometry(|flash|, pageSize)
    requires Placed(sections, offset, addrs) && Below(sections, addrs, |flash|)
    requires Below(sections, addrs, 256 * pageSize)
    ensures var after := AllFlashed(flash, pageSize, sections, offset);
      Kept(flash, after, sections, addrs) && (Apart(sections, addrs) ==> Found(after, sections, addrs))
  {
    hide AllFlashed, PatchAll, Geometry, Placed;
    PlacedAt(sections, offset, addrs);
    PageStartIs(pageSize, 256);
    AllStored(flash, pageSize, sections, offset);
    PatchedElsewhere(flash, sections, offset, addrs);
    if Apart(sections, addrs) {
      forall i | 0 <= i < |sections|
        ensures PatchAll(flash, sections, offset)[addrs[i]..addrs[i] + |sections[i].data|] == sections[i].data
      {
        SectionsStored(flash, sections, offset, i);
      }
    }
  }

  lemma {:induction false} PatchedElsewhere(flash: seq<byte>, sections: seq<Section>, offset: nat, addrs: seq<nat>)
    requires Inside(|flash|, sections, offset) && |addrs| == |sections|
    requires forall i | 0 <= i < |sections| :: addrs[i] == FlashAddress(sections[i], offset)
    ensures Kept(flash, PatchAll(flash, sections, offset), sections, addrs)
  {
    if sections != [] {
      var n := |sections| - 1;
      PatchedElsewhere(flash, sections[..n], offset, addrs[..n]);
      forall x | 0 <= x < |flash|
                 && forall i | 0 <= i < |sections| :: x < addrs[i] || addrs[i] + |sections[i].data| <= x
        ensures PatchAll(flash, sections, offset)[x] == flash[x]
      {
        assert forall i | 0 <= i < n ::
          sections[..n][i] == sections[i] && addrs[..n][i] == addrs[i];
      }
    }
  }

  lemma FlashedOne(before: seq<byte>, after: seq<byte>, pageSize: nat, addr: nat, data: seq<byte>, ok: bool,
                   done: nat, page: nat)
    requires Geometry(|before|, pageSize) && |after| == |before| && done <= |data|
    requires addr + |data| <= |before| || ByteNumbered(|before|, pageSize)
    requires addr + |data| <= |before| ==> InsideResult(before, after, pageSize, addr, data, ok, done, page) && ok
    requires ByteNumbered(|before|, pageSize) ==>
      AnywhereResult(before, after, pageSize, addr, data, done, page)
      && done == Room(|before|, Window(pageSize, addr), |data|)
    ensures after == OneFlashed(before, pageSize, addr, data)
  {
  }

  /** No two sections claim the same flash byte. */
  ghost predicate Disjoint(sections: seq<Section>, offset: nat) {
    forall i, j | 0 <= i < j < |sections| ::
      var a, b := FlashAddress(sections[i], offset), FlashAddress(sections[j], offset);
      a + |sections[i].data| <= b || b + |sections[j].data| <= a
  }

  lemma {:induction false} SectionsStored(flash: seq<byte>, sections: seq<Section>, offset: nat, i: nat)
    requires Inside(|flash|, sections, offset) && Disjoint(sections, offset) && i < |sections|
    ensures var a := FlashAddress(sections[i], offset);
      PatchAll(flash, sections, offset)[a..a + |sections[i].data|] == sections[i].data
  {
    var n := |sections| - 1;
    var before := PatchAll(flash, sections[..n], offset);
    var a := FlashAddress(sections[n], offset);
    if i < n {
      SectionsStored(flash, sections[..n], offset, i);
      PatchKeeps(before, a, sections[n].data, FlashAddress(sections[i], offset), |sections[i].data|);
    } else {
      PatchHolds(before, a, sections[n].data);
    }
  }

  /** Flashing disjoint sections and then verifying the same file reports success. */
  lemma FlashedFileVerifies(flash: seq<byte>, sections: seq<Section>, offset: nat)
    requires |flash| <= 65536 && Inside(|flash|, sections, offset) && Disjoint(sections, offset)
    ensures FileErrors(PatchAll(flash, sections, offset), sections, offset) == 0
  {
    FileVerdict(PatchAll(flash, sections, offset), sections, offset);
    forall i | 0 <= i < |sections|
      ensures var a := FlashAddress(sections[i], offset);
        sections[i].data == PatchAll(flash, sections, offset)[a..a + |sections[i].data|]
    {
      SectionsStored(flash, sections, offset, i);
    }
  }
}
