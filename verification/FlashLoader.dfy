/** The flash programmer (python/kicon-badge-loader.py) and the flash it drives. */
module FlashLoader {
  import opened Bytes
  import opened Remainders

  /** A page of 512 bytes; sixteen pages make a sector. */
  type Page = p: seq<byte> | |p| == 512 witness seq(512, _ => 0)

  const ERASED: Page := seq(512, _ => 0xFF)

  // ----- The flash: erasing sets bits, programming only clears them -----

  function ProgramByte(cell: byte, data: byte): byte {
    AndFits(cell, data);
    And(cell, data)
  }

  function ProgramPage(cells: Page, data: Page): Page {
    seq(512, i requires 0 <= i < 512 => ProgramByte(cells[i], data[i]))
  }

  lemma {:induction false} AndFits(x: nat, y: nat)
    ensures And(x, y) <= x
    decreases x
  {
    if x != 0 && y != 0 {
      AndFits(x / 2, y / 2);
    }
  }

  lemma {:induction false} AndOnes(x: nat, k: nat)
    requires x < Power(k)
    ensures And(Power(k) - 1, x) == x
    decreases k
  {
    if k != 0 {
      AndOnes(x / 2, k - 1);
      assert (Power(k) - 1) / 2 == Power(k - 1) - 1;
      hide And;
      AndStep(Power(k) - 1, x);
    } else {
      assert And(0, 0) == 0;
    }
  }

  /** A bit is set afterwards if it was set before and is set in the data. */
  lemma ProgramOnlyClears(cell: byte, data: byte, k: nat)
    ensures Digit(ProgramByte(cell, data), k) == Digit(cell, k) * Digit(data, k)
  {
    AndDigit(cell, data, k);
  }

  /** On an erased page programming stores the data; on any other it need not. */
  lemma ProgramErased(data: Page)
    ensures ProgramPage(ERASED, data) == data
  {
    hide And;
    assert Power(4) == 16 && Power(8) == 16 * Power(4);
    forall i | 0 <= i < 512 ensures ProgramByte(0xFF, data[i]) == data[i] {
      AndOnes(data[i], 8);
    }
  }

  // ----- What programming an image should leave -----

  function Min(x: int, y: int): int {
    if x < y then x else y
  }

  /** The slice of the image for a page; empty at the end of a whole number of pages. */
  function Slice(image: seq<byte>, page: nat): (r: seq<byte>)
    requires page <= |image| / 512
    ensures |r| <= 512
  {
    image[page * 512..page * 512 + Min(|image| - page * 512, 512)]
  }

  /** The slice, padded with zeros to the page. */
  function PageOf(image: seq<byte>, page: nat): Page
    requires page <= |image| / 512
  {
    Slice(image, page) + seq(512 - |Slice(image, page)|, _ => 0)
  }

  /** The page after the last sector that the image touches. */
  function SectorEnd(image: seq<byte>): nat {
    (|image| / 512 / 16 + 1) * 16
  }

  function Programmed(before: seq<Page>, image: seq<byte>): seq<Page> {
    seq(|before|, p requires 0 <= p < |before| =>
      if p <= |image| / 512 then PageOf(image, p) else if p < SectorEnd(image) then ERASED else before[p])
  }

  /** The pages once `written` of them are programmed. */
  function Progress(before: seq<Page>, image: seq<byte>, written: nat): seq<Page>
    requires written <= |image| / 512 + 1
  {
    seq(|before|, p requires 0 <= p < |before| =>
      if p < written then PageOf(image, p) else if p < SectorsBegun(written) then ERASED else before[p])
  }

  /** The page after the last sector of the first `written` pages. */
  function SectorsBegun(written: nat): nat {
    (written + 15) / 16 * 16
  }

  /** Byte i of the image is byte i of the flash, and the rest of its last page is zero. */
  lemma ProgrammedHoldsImage(before: seq<Page>, image: seq<byte>, i: nat)
    requires |image| / 512 < |before| && i < (|image| / 512 + 1) * 512
    ensures i / 512 < |before|
    ensures Programmed(before, image)[i / 512][i % 512] == if i < |image| then image[i] else 0
  {
    var p := i / 512;
    assert i == p * 512 + i % 512;
    assert i < |image| ==> Slice(image, p)[i % 512] == image[i];
  }

  class Flash {
    var pages: seq<Page>

    constructor (pages: seq<Page>)
      ensures this.pages == pages
    {
      this.pages := pages;
    }

    /** erase_sector: the erase command with argument first_page | 2 takes sixteen pages. */
    method EraseSector(addr: nat)
      requires (addr / 8192) * 16 + 16 <= |pages|
      modifies this
      ensures |pages| == old(|pages|)
      ensures forall p :: 0 <= p < |pages| ==>
        pages[p] == if (addr / 8192) * 16 <= p < (addr / 8192) * 16 + 16 then ERASED else old(pages)[p]
    {
      var firstPage := (addr / 8192) * 16;
      pages := pages[..firstPage] + seq(16, _ => ERASED) + pages[firstPage + 16..];
    }

    /** write_page: short data is padded with zeros. */
    method WritePage(addr: nat, data: seq<byte>)
      requires addr / 512 < |pages| && |data| <= 512
      modifies this
      ensures pages == old(pages)[addr / 512 := ProgramPage(old(pages)[addr / 512], data + seq(512 - |data|, _ => 0))]
    {
      var buf := data;
      if |buf| < 512 {
        buf := buf + seq(512 - |buf|, _ => 0);
      }
      assert buf == data + seq(512 - |data|, _ => 0);
      pages := pages[addr / 512 := ProgramPage(pages[addr / 512], buf)];
    }

    method ReadPage(addr: nat) returns (data: Page)
      requires addr / 512 < |pages|
      ensures data == pages[addr / 512]
    {
      data := pages[addr / 512];
    }

    /** program: erase and write every page, then read every page back. The answer
        is false where the original raises an exception. For an image of n bytes it
        writes n / 512 + 1 pages, which have to exist. */
    method Program(image: seq<byte>) returns (verified: bool)
      requires |pages| % 16 == 0 && |image| / 512 < |pages|
      modifies this
      ensures pages == Programmed(old(pages), image)
      ensures verified
    {
      hide ProgramPage, PageOf, Slice, SectorsBegun;
      ghost var before := pages;
      var pageCount := |image| / 512;
      ProgressBounds(before, image);
      for page := 0 to pageCount + 1
        invariant pages == Progress(before, image, page)
      {
        var addr := page * 512;
        SectorFits(|pages|, page);
        PageAddress(page);
        SectorBegins(page);
        var buf := Slice(image, page);
        if page % 16 == 0 {
          EraseSector(addr);
        }
        assert pages[page] == ERASED;
        ProgramErased(PageOf(image, page));
        PageOfIs(image, page);
        WritePage(addr, buf);
        assert pages == Progress(before, image, page + 1);
      }
      for page := 0 to pageCount + 1
        invariant pages == Programmed(before, image)
      {
        var addr := page * 512;
        PageAddress(page);
        var buf := Slice(image, page);
        var readback := ReadPage(addr);
        PageOfIs(image, page);
        if readback[..|buf|] != buf {
          return false;
        }
      }
      return true;
    }
  }

  lemma PageAddress(page: nat)
    ensures page * 512 / 512 == page
    ensures page * 512 / 8192 == page / 16
  {
    RemainderIs(page * 512, 8192, page / 16, page % 16 * 512);
  }

  lemma ProgressBounds(before: seq<Page>, image: seq<byte>)
    ensures Progress(before, image, 0) == before
    ensures Progress(before, image, |image| / 512 + 1) == Programmed(before, image)
  {
    hide PageOf;
    SectorBegins(|image| / 512);
    assert SectorsBegun(0) == 0;
    assert SectorsBegun(|image| / 512 + 1) == SectorEnd(image);
    var start, end := Progress(before, image, 0), Progress(before, image, |image| / 512 + 1);
    assert |start| == |end| == |before|;
    assert forall p :: 0 <= p < |before| ==> start[p] == before[p];
    assert forall p :: 0 <= p < |before| ==> end[p] == Programmed(before, image)[p];
  }

  lemma SectorBegins(page: nat)
    ensures SectorsBegun(page + 1) == page / 16 * 16 + 16
    ensures page % 16 == 0 ==> SectorsBegun(page) == page && page / 16 * 16 == page
    ensures page % 16 != 0 ==> SectorsBegun(page) == SectorsBegun(page + 1)
    ensures page < SectorsBegun(page + 1)
  {
  }

  lemma SectorFits(count: nat, page: nat)
    requires count % 16 == 0 && page < count
    ensures page / 16 * 16 + 16 <= count
  {
  }

  lemma PageOfIs(image: seq<byte>, page: nat)
    requires page <= |image| / 512
    ensures PageOf(image, page) == Slice(image, page) + seq(512 - |Slice(image, page)|, _ => 0)
    ensures PageOf(image, page)[..|Slice(image, page)|] == Slice(image, page)
  {
  }
}
