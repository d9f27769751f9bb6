/** Page-wise flashing of an image, with and without skipping blank pages. */
module FlashPages {
  import opened Bytes
  import opened Target

  /** The image, continued by erased bytes. */
  function PadAt(data: seq<byte>, i: nat): byte { if i < |data| then data[i] else 0xFF }

  function Padded(data: seq<byte>, off: nat, page: nat): (p: seq<byte>)
    ensures |p| == page && forall i :: 0 <= i < page ==> p[i] == PadAt(data, off + i)
  {
    seq<byte>(page, i requires 0 <= i < page => PadAt(data, off + i))
  }

  predicate AllFF(p: seq<byte>) { forall i :: 0 <= i < |p| ==> p[i] == 0xFF }

  /** An image that fits a flash of whole pages. */
  predicate Fits(data: seq<byte>, page: nat, size: nat) {
    page > 0 && size % page == 0 && |data| <= size <= FLASH_SIZE
  }

  lemma {:induction false} MulAtLeast(d: nat, page: nat)
    requires d >= 1
    ensures d * page >= page
    decreases d
  {
    if d > 1 {
      MulAtLeast(d - 1, page);
      assert d * page == (d - 1) * page + page;
    }
  }

  lemma Distribute(a: nat, d: nat, page: nat)
    ensures (a + d) * page == a * page + d * page
  {}

  lemma MulOrder(k: nat, n: nat, page: nat)
    requires page > 0
    ensures k < n <==> k * page < n * page
    ensures k < n ==> k * page + page <= n * page
  {
    if k < n {
      MulAtLeast(n - k, page);
      Distribute(k, n - k, page);
    } else {
      Distribute(n, k - n, page);
    }
  }

  /** Quotient and remainder are determined by the division equation. */
  lemma ModOfMultiple(k: nat, page: nat, r: nat)
    requires r < page
    ensures (k * page + r) % page == r && (k * page + r) / page == k
  {
    var x := k * page + r;
    var q, m := x / page, x % page;
    assert x == q * page + m && 0 <= m < page;
    MulOrder(q, k, page);
    MulOrder(k, q, page);
  }

  /** The last page of the image, padded, ends inside the flash. */
  lemma PageEndsInside(off: nat, page: nat, size: nat)
    requires page > 0 && off % page == 0 && size % page == 0 && off < size
    ensures off + page <= size && (off + page) % page == 0
  {
    var k, n := off / page, size / page;
    assert off == k * page && size == n * page;
    MulOrder(k, n, page);
    assert off + page == (k + 1) * page + 0;
    ModOfMultiple(k + 1, page, 0);
  }

  /** Writing the pages of an image from page offset off on; `skip` leaves blank pages alone. */
  function WritePages(f: Flash, data: seq<byte>, page: nat, size: nat, off: nat, skip: bool): Flash
    requires Fits(data, page, size) && off % page == 0
    decreases |data| - off
  {
    if off >= |data| then f
    else
      PageEndsInside(off, page, size);
      var p := Padded(data, off, page);
      WritePages(if skip && AllFF(p) then f else Overlay(f, off, p), data, page, size, off + page, skip)
  }

  /** Writing the pages from an offset on makes flash f the flash `whole`. Sealed. */
  ghost predicate StillWrites(f: Flash, data: seq<byte>, page: nat, size: nat, off: nat, whole: seq<byte>) {
    forall k: int {:trigger Unsealed(StillWritesSeal, k)} :: Unsealed(StillWritesSeal, k) ==>
      Fits(data, page, size) && off % page == 0 && WritePages(f, data, page, size, off, true) == whole
  }

  lemma StillWritesAll(f: Flash, data: seq<byte>, page: nat, size: nat)
    requires Fits(data, page, size)
    ensures StillWrites(f, data, page, size, 0, WritePages(f, data, page, size, 0, true))
  {}

  lemma StillWritesPage(f: Flash, data: seq<byte>, page: nat, size: nat, off: nat, whole: seq<byte>)
    requires StillWrites(f, data, page, size, off, whole) && off < |data|
    ensures page > 0 && off + page <= size <= FLASH_SIZE
    ensures var p := Padded(data, off, page);
            StillWrites(if AllFF(p) then f else Overlay(f, off, p), data, page, size, off + page, whole)
  {
    assert Unsealed(StillWritesSeal, 0);
    PageEndsInside(off, page, size);
  }

  lemma StillWritesNothing(f: Flash, data: seq<byte>, page: nat, size: nat, off: nat, whole: seq<byte>)
    requires StillWrites(f, data, page, size, off, whole) && off >= |data|
    ensures f == whole
  {
    assert Unsealed(StillWritesSeal, 0);
  }

  function PageStart(i: nat, page: nat): nat
    requires page > 0
  {
    i - i % page
  }

  lemma PageStartOf(i: nat, off: nat, page: nat)
    requires page > 0 && off % page == 0 && off <= i < off + page
    ensures PageStart(i, page) == off
  {
    assert off == (off / page) * page;
    ModOfMultiple(off / page, page, i - off);
  }

  lemma PageStartBeyond(i: nat, off: nat, page: nat)
    requires page > 0 && off % page == 0 && off <= i
    ensures off <= PageStart(i, page) <= i
  {
    var k, n := off / page, i / page;
    assert off == k * page && i == n * page + i % page;
    MulOrder(n, k, page);
    MulOrder(k, n, page);
  }

  /**
   What page-wise flashing leaves at every address, whatever was in flash before: the padded image
   on each page that starts inside the image and is not skipped, the old byte everywhere else.
   */
  lemma {:induction false} WritePagesAt(f: Flash, data: seq<byte>, page: nat, size: nat, off: nat, skip: bool, i: nat)
    requires Fits(data, page, size) && off % page == 0 && i < FLASH_SIZE
    ensures WritePages(f, data, page, size, off, skip)[i]
         == if off <= i && PageStart(i, page) < |data|
               && !(skip && AllFF(Padded(data, PageStart(i, page), page)))
            then PadAt(data, i) else f[i]
    decreases |data| - off
  {
    if off < |data| {
      PageEndsInside(off, page, size);
      var p := Padded(data, off, page);
      var f1 := if skip && AllFF(p) then f else Overlay(f, off, p);
      WritePagesAt(f1, data, page, size, off + page, skip, i);
      if off <= i < off + page {
        PageStartOf(i, off, page);
      }
    } else if off <= i {
      PageStartBeyond(i, off, page);
    }
  }

  /** On erased flash: exactly the image, and erased everywhere else, blank pages skipped or not. */
  lemma WritePagesErased(f: Flash, data: seq<byte>, page: nat, size: nat, skip: bool)
    requires Fits(data, page, size) && AllFF(f)
    ensures WritePages(f, data, page, size, 0, skip) == Padded(data, 0, FLASH_SIZE)
  {
    var r := WritePages(f, data, page, size, 0, skip);
    forall i | 0 <= i < FLASH_SIZE
      ensures r[i] == PadAt(data, i)
    {
      WritePagesAt(f, data, page, size, 0, skip, i);
      var start := PageStart(i, page);
      assert start <= i < start + page;
      if skip && AllFF(Padded(data, start, page)) {
        assert Padded(data, start, page)[i - start] == 0xFF;
      }
    }
  }

  /** Skipping blank pages refines writing every page. */
  lemma SkippingRefines(f: Flash, data: seq<byte>, page: nat, size: nat)
    requires Fits(data, page, size) && AllFF(f)
    ensures WritePages(f, data, page, size, 0, true) == WritePages(f, data, page, size, 0, false)
  {
    WritePagesErased(f, data, page, size, true);
    WritePagesErased(f, data, page, size, false);
  }

  /** Address i lies on a page of the image that is blank. */
  predicate OnBlankPage(data: seq<byte>, page: nat, i: nat)
    requires page > 0
  {
    PageStart(i, page) < |data| && AllFF(Padded(data, PageStart(i, page), page))
  }

  /**
   On flash that is not erased the two differ exactly when some skipped page held anything:
   the skipping version then leaves the old bytes of that page in place.
   */
  lemma SkippingDiffers(f: Flash, data: seq<byte>, page: nat, size: nat)
    requires Fits(data, page, size)
    ensures WritePages(f, data, page, size, 0, true) == WritePages(f, data, page, size, 0, false)
       <==> (forall i :: 0 <= i < FLASH_SIZE && OnBlankPage(data, page, i) ==> f[i] == 0xFF)
  {
    var a, b := WritePages(f, data, page, size, 0, true), WritePages(f, data, page, size, 0, false);
    forall i | 0 <= i < FLASH_SIZE
      ensures a[i] == b[i] <==> (OnBlankPage(data, page, i) ==> f[i] == 0xFF)
    {
      WritePagesAt(f, data, page, size, 0, true, i);
      WritePagesAt(f, data, page, size, 0, false, i);
      var start := PageStart(i, page);
      assert start <= i < start + page;
      if AllFF(Padded(data, start, page)) {
        assert Padded(data, start, page)[i - start] == 0xFF;
      }
    }
    assert a == b <==> forall i :: 0 <= i < FLASH_SIZE ==> a[i] == b[i];
  }
}
