/**
 A sorted cache of pages, the cache_s part of vm/src/memory.c: binary search,
 eviction and reordering in place.
 */
module PageCache {
  import opened Machine
  import opened Pages

  /** Free slots first, then strictly increasing addresses. */
  ghost predicate Sorted(pages: seq<Page>) {
    forall i, j :: 0 <= i < j < |pages| ==>
      pages[i].addr < pages[j].addr || pages[i].addr == pages[j].addr == 0
  }

  ghost predicate Has(pages: seq<Page>, addr: u32) {
    exists i :: 0 <= i < |pages| && pages[i].addr == addr
  }

  function RemoveAt<T>(s: seq<T>, n: nat): (r: seq<T>)
    requires n < |s|
  {
    s[..n] + s[n + 1..]
  }

  function InsertAt<T>(s: seq<T>, n: nat, x: T): (r: seq<T>)
    requires n <= |s|
  {
    s[..n] + [x] + s[n..]
  }

  lemma RemoveIgnoresSlot<T>(s: seq<T>, n: nat, x: T)
    requires n < |s|
    ensures RemoveAt(s[n := x], n) == RemoveAt(s, n)
  {
  }

  ghost predicate UsedStayUsed(pages: seq<Page>, pages': seq<Page>) {
    && |pages| == |pages'|
    && forall i :: 0 <= i < |pages| && pages[i].addr != 0 ==> pages'[i].addr != 0
  }

  /** Replacing one slot, a free one if there is any, and sorting it in leaves every used slot used. */
  lemma ReplacedSlotsStayUsed(pages: seq<Page>, n: nat, m: nat, page: Page)
    requires Sorted(pages) && n < |pages| && m < |pages| && page.addr != 0
    requires pages[0].addr == 0 ==> n == 0
    ensures UsedStayUsed(pages, InsertAt(RemoveAt(pages, n), m, page))
  {
    var others := RemoveAt(pages, n);
    var r := InsertAt(others, m, page);
    forall i | 0 <= i < |pages| && pages[i].addr != 0
      ensures r[i].addr != 0
    {
      var j := if i < m then i else i - 1;
      if i != m {
        assert r[i] == others[j];
        assert others[j] == pages[if j < n then j else j + 1];
      }
    }
  }

  lemma RemoveKeepsSorted(pages: seq<Page>, n: nat)
    requires Sorted(pages) && n < |pages|
    ensures Sorted(RemoveAt(pages, n))
  {
    var r := RemoveAt(pages, n);
    forall i, j | 0 <= i < j < |r|
      ensures r[i].addr < r[j].addr || r[i].addr == r[j].addr == 0
    {
      var i', j' := if i < n then i else i + 1, if j < n then j else j + 1;
      assert r[i] == pages[i'] && r[j] == pages[j'];
    }
  }

  lemma HasAfterRemove(pages: seq<Page>, n: nat, addr: u32)
    requires n < |pages|
    ensures Has(pages, addr) <==> Has(RemoveAt(pages, n), addr) || pages[n].addr == addr
  {
    var r := RemoveAt(pages, n);
    if Has(pages, addr) && pages[n].addr != addr {
      var i :| 0 <= i < |pages| && pages[i].addr == addr;
      assert r[if i < n then i else i - 1].addr == addr;
    }
    if Has(r, addr) {
      var i :| 0 <= i < |r| && r[i].addr == addr;
      assert pages[if i < n then i else i + 1].addr == addr;
    }
  }

  lemma HasAfterInsert(pages: seq<Page>, n: nat, page: Page, addr: u32)
    requires n <= |pages|
    ensures Has(InsertAt(pages, n, page), addr) <==> Has(pages, addr) || page.addr == addr
  {
    var r := InsertAt(pages, n, page);
    assert RemoveAt(r, n) == pages;
    HasAfterRemove(r, n, addr);
  }

  class Cache {
    const pages: array<Page>
    const writeable: bool
    /** Slot of the last page fetched by get_code_page, or -1. */
    var current: int

    ghost predicate Valid()
      reads this, pages
    {
      pages.Length > 0 && Sorted(pages[..]) && -1 <= current < pages.Length
    }

    /** All slots free. */
    constructor (npage: nat, writeable: bool)
      requires npage > 0
      ensures Valid() && fresh(pages) && pages.Length == npage && this.writeable == writeable && current == -1
      ensures forall i :: 0 <= i < npage ==> pages[i].addr == 0
    {
      pages := new Page[npage](i => Page(0, ZeroPage(), 0));
      this.writeable := writeable;
      current := -1;
    }

    /** Finds an address exactly when it is cached. */
    method BinarySearch(addr: u32) returns (n: int)
      requires Sorted(pages[..])
      ensures -1 <= n < pages.Length
      ensures n >= 0 ==> pages[n].addr == addr
      ensures n == -1 <==> !Has(pages[..], addr)
    {
      var l, r := 0, pages.Length - 1;
      while l <= r
        invariant 0 <= l <= pages.Length && -1 <= r < pages.Length && l <= r + 1
        invariant forall i :: 0 <= i < l ==> pages[..][i].addr != addr
        invariant forall i :: r < i < pages.Length ==> pages[..][i].addr != addr
        decreases r - l
      {
        var m := l + (r - l) / 2;
        if pages[m].addr == addr {
          assert pages[..][m].addr == addr;
          return m;
        } else if pages[m].addr < addr {
          assert forall i :: 0 <= i < m ==> pages[..][i].addr <= pages[..][m].addr;
          l := m + 1;
        } else {
          assert forall i :: m < i < pages.Length ==> pages[..][m].addr <= pages[..][i].addr;
          r := m - 1;
        }
      }
      n := -1;
    }

    /** A free slot if there is one (it is then the first), else any slot. */
    method Evict() returns (n: nat)
      requires pages.Length > 0
      ensures n < pages.Length
      ensures pages[0].addr == 0 ==> n == 0
    {
      if pages[0].addr == 0 {
        n := 0;
      } else {
        n :| n < pages.Length;
      }
    }

    /** memmove of slots i..n-1 one slot up, with slot n going to slot i. */
    method MoveDown(n: nat, i: nat)
      requires i <= n < pages.Length
      modifies pages
      ensures pages[..] == InsertAt(RemoveAt(old(pages[..]), n), i, old(pages[n]))
    {
      var tmp := pages[n];
      forall k | i < k <= n {
        pages[k] := pages[k - 1];
      }
      pages[i] := tmp;
    }

    /** memmove of slots n+1..i one slot down, with slot n going to slot i. */
    method MoveUp(n: nat, i: nat)
      requires n <= i < pages.Length
      modifies pages
      ensures pages[..] == InsertAt(RemoveAt(old(pages[..]), n), i, old(pages[n]))
    {
      var tmp := pages[n];
      forall k | n <= k < i {
        pages[k] := pages[k + 1];
      }
      pages[i] := tmp;
    }

    /** The first slot, below n, of a page with a larger address. */
    method FirstAbove(n: nat, addr: u32) returns (i: nat)
      requires 0 < n < pages.Length && addr < pages[n - 1].addr
      ensures i < n && addr < pages[i].addr
      ensures i > 0 ==> pages[i - 1].addr <= addr
    {
      i := 0;
      while addr >= pages[i].addr
        invariant i < n
        invariant i > 0 ==> pages[i - 1].addr <= addr
        decreases n - i
      {
        i := i + 1;
      }
    }

    /** The last slot, above n, of a page with a smaller address. */
    method LastBelow(n: nat, addr: u32) returns (i: nat)
      requires n < pages.Length - 1 && pages[n + 1].addr < addr
      ensures n < i < pages.Length && pages[i].addr < addr
      ensures i < pages.Length - 1 ==> addr <= pages[i + 1].addr
    {
      i := pages.Length - 1;
      while addr <= pages[i].addr
        invariant n < i < pages.Length
        invariant i < pages.Length - 1 ==> addr <= pages[i + 1].addr
        decreases i
      {
        i := i - 1;
      }
    }

    /**
     Move the page in slot n to its place among the others, which are sorted.
     The others keep their order, and the slot returned holds the moved page.
     */
    method Reorder(n: nat) returns (m: nat)
      requires n < pages.Length && Sorted(RemoveAt(pages[..], n))
      requires pages[n].addr != 0 && !Has(RemoveAt(pages[..], n), pages[n].addr)
      modifies pages
      ensures m < pages.Length
      ensures pages[..] == InsertAt(RemoveAt(old(pages[..]), n), m, old(pages[n]))
      ensures Sorted(pages[..]) && pages[m] == old(pages[n])
    {
      var addr := pages[n].addr;
      hide Sorted, Has, RemoveAt, InsertAt;
      ghost var page, others := pages[n], RemoveAt(pages[..], n);
      OthersAt(pages[..], n);

      if n > 0 && addr < pages[n - 1].addr {
        m := FirstAbove(n, addr);
        InsertKeepsSorted(others, m, page);
        MoveDown(n, m);
      } else if n < pages.Length - 1 && addr > pages[n + 1].addr {
        m := LastBelow(n, addr);
        InsertKeepsSorted(others, m, page);
        MoveUp(n, m);
      } else {
        m := n;
        BackInPlace(pages[..], n);
        InsertKeepsSorted(others, n, page);
      }
      InsertedAt(others, m, page);
      assert pages[..][m] == pages[m];
    }
  }

  lemma BackInPlace(pages: seq<Page>, n: nat)
    requires n < |pages|
    ensures InsertAt(RemoveAt(pages, n), n, pages[n]) == pages
  {
  }

  lemma InsertedAt(others: seq<Page>, m: nat, page: Page)
    requires m <= |others|
    ensures |InsertAt(others, m, page)| == |others| + 1 && InsertAt(others, m, page)[m] == page
  {
  }

  /** Where the other slots end up when one is taken out. */
  lemma OthersAt(pages: seq<Page>, n: nat)
    requires n < |pages| && !Has(RemoveAt(pages, n), pages[n].addr)
    ensures |RemoveAt(pages, n)| == |pages| - 1
    ensures forall i :: 0 <= i < n ==> RemoveAt(pages, n)[i] == pages[i]
    ensures forall i :: n < i < |pages| ==> RemoveAt(pages, n)[i - 1] == pages[i]
    ensures forall i :: 0 <= i < |pages| && i != n ==> pages[i].addr != pages[n].addr
  {
    forall i | 0 <= i < |pages| && i != n
      ensures pages[i].addr != pages[n].addr
    {
      assert RemoveAt(pages, n)[if i < n then i else i - 1] == pages[i];
    }
  }

  lemma InsertKeepsSorted(others: seq<Page>, n: nat, page: Page)
    requires Sorted(others) && n <= |others| && page.addr != 0
    requires n > 0 ==> others[n - 1].addr < page.addr
    requires n < |others| ==> page.addr < others[n].addr
    ensures Sorted(InsertAt(others, n, page))
  {
    var r := InsertAt(others, n, page);
    forall i, j | 0 <= i < j < |r|
      ensures r[i].addr < r[j].addr || r[i].addr == r[j].addr == 0
    {
      if j == n {
        assert others[i].addr <= others[n - 1].addr;
      } else if i == n {
        assert others[n].addr <= others[j - 1].addr;
      } else {
        var i', j' := if i < n then i else i - 1, if j < n then j else j - 1;
        assert r[i] == others[i'] && r[j] == others[j'];
      }
    }
  }
}
