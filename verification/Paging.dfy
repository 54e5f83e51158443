/**
 Following cursors from page to page while the contents change in between. A page shows what there is behind
 its cursor up to the place where it stops; the next page starts from there.
 */
module Paging {
  import opened Bytes

  type Order<!T> = (T, T) -> bool

  ghost predicate StrictOrder<T(!new)>(less: Order<T>) {
    && (forall x :: !less(x, x))
    && (forall x, y, z :: less(x, y) && less(y, z) ==> less(x, z))
    && (forall x, y :: less(x, y) || x == y || less(y, x))
  }

  predicate Sorted<T(!new)>(less: Order<T>, q: seq<T>) {
    forall i, j :: 0 <= i < j < |q| ==> less(q[i], q[j])
  }

  /** A page: where it starts, what it shows, and where the next one starts if there is one. */
  datatype Page<T> = Page(after: Option<T>, shown: seq<T>, next: Option<T>)

  predicate Behind<T(!new)>(less: Order<T>, after: Option<T>, x: T) {
    after.Some? ==> less(after.value, x)
  }

  /** Whether the page shows, of contents `s`, what lies between its start and its end, and gets somewhere. */
  ghost predicate Shows<T(!new)>(less: Order<T>, p: Page<T>, s: iset<T>) {
    && Sorted(less, p.shown)
    && (p.next.Some? ==> Behind(less, p.after, p.next.value))
    && forall x :: x in p.shown <==> x in s && Behind(less, p.after, x) && !(p.next.Some? && less(p.next.value, x))
  }

  /** Pages from the start to the end, each starting where the one before it stopped. */
  ghost predicate Chain<T(!new)>(less: Order<T>, pages: seq<Page<T>>, contents: seq<iset<T>>) {
    && |pages| == |contents| > 0
    && (forall i :: 0 <= i < |pages| ==> Shows(less, pages[i], contents[i]))
    && pages[0].after.None? && pages[|pages| - 1].next.None?
    && forall i :: 0 <= i < |pages| - 1 ==> Linked(pages[i], pages[i + 1])
  }

  ghost predicate Linked<T>(p: Page<T>, q: Page<T>) {
    p.next.Some? && q.after == p.next
  }

  lemma {:induction false} FoundFrom<T(!new)>(less: Order<T>, pages: seq<Page<T>>, contents: seq<iset<T>>, x: T, i: nat) returns (j: nat)
    requires StrictOrder(less) && Chain(less, pages, contents) && i < |pages| && Behind(less, pages[i].after, x)
    requires forall k :: i <= k < |pages| ==> x in contents[k]
    ensures i <= j < |pages| && x in pages[j].shown
    decreases |pages| - i
  {
    assert Shows(less, pages[i], contents[i]);
    if x in pages[i].shown {
      j := i;
    } else {
      assert i < |pages| - 1 ==> Linked(pages[i], pages[i + 1]);
      j := FoundFrom(less, pages, contents, x, i + 1);
    }
  }

  /** Starting points only advance. */
  lemma {:induction false} StartsAdvance<T(!new)>(less: Order<T>, pages: seq<Page<T>>, contents: seq<iset<T>>, i: nat, j: nat, x: T)
    requires StrictOrder(less) && Chain(less, pages, contents) && i < j < |pages|
    requires Behind(less, pages[j].after, x)
    ensures pages[i].next.Some? && less(pages[i].next.value, x)
    decreases j - i
  {
    assert Linked(pages[j - 1], pages[j]) && Shows(less, pages[j - 1], contents[j - 1]);
    if j > i + 1 { StartsAdvance(less, pages, contents, i, j - 1, x); }
  }

  /** What has been shown is not shown again, whatever is written between the pages. */
  lemma NeverTwice<T(!new)>(less: Order<T>, pages: seq<Page<T>>, contents: seq<iset<T>>, i: nat, j: nat, x: T)
    requires StrictOrder(less) && Chain(less, pages, contents) && i < j < |pages| && x in pages[i].shown
    ensures x !in pages[j].shown
  {
    if x in pages[j].shown {
      assert Shows(less, pages[i], contents[i]) && Shows(less, pages[j], contents[j]);
      StartsAdvance(less, pages, contents, i, j, x);
      assert false;
    }
  }

  /** What is there all the time is on exactly one page. */
  lemma ExactlyOnePage<T(!new)>(less: Order<T>, pages: seq<Page<T>>, contents: seq<iset<T>>, x: T) returns (j: nat)
    requires StrictOrder(less) && Chain(less, pages, contents)
    requires forall k :: 0 <= k < |contents| ==> x in contents[k]
    ensures j < |pages| && forall k :: 0 <= k < |pages| ==> (x in pages[k].shown <==> k == j)
  {
    j := FoundFrom(less, pages, contents, x, 0);
    forall k | 0 <= k < |pages| ensures x in pages[k].shown <==> k == j {
      if k < j && x in pages[k].shown { NeverTwice(less, pages, contents, k, j, x); }
      if j < k { NeverTwice(less, pages, contents, j, k, x); }
    }
  }

  // ---------------------------------------------------------------------------
  // Contents that do not change

  function Concat<T>(pages: seq<Page<T>>): seq<T> {
    if pages == [] then [] else Concat(pages[..|pages| - 1]) + pages[|pages| - 1].shown
  }

  lemma {:induction false} ConcatMembers<T(!new)>(pages: seq<Page<T>>, x: T)
    ensures x in Concat(pages) <==> exists i :: 0 <= i < |pages| && x in pages[i].shown
    decreases |pages|
  {
    if pages != [] {
      var n := |pages| - 1;
      ConcatMembers(pages[..n], x);
      if x in Concat(pages[..n]) {
        var i :| 0 <= i < n && x in pages[..n][i].shown;
        assert x in pages[i].shown;
      }
      if i :| 0 <= i < |pages| && x in pages[i].shown {
        if i < n { assert pages[..n][i] == pages[i]; }
      }
    }
  }

  /** What the first `n` pages show ends where the last of them ends. */
  lemma {:induction false} ConcatSorted<T(!new)>(less: Order<T>, pages: seq<Page<T>>, contents: seq<iset<T>>, n: nat)
    requires StrictOrder(less) && Chain(less, pages, contents) && n <= |pages|
    ensures Sorted(less, Concat(pages[..n]))
    ensures 0 < n < |pages| ==> pages[n].after.Some? && forall x :: x in Concat(pages[..n]) ==> !less(pages[n].after.value, x)
    decreases n
  {
    if n > 0 {
      ConcatSorted(less, pages, contents, n - 1);
      assert pages[..n][..n - 1] == pages[..n - 1];
      assert Shows(less, pages[n - 1], contents[n - 1]);
      var before, shown := Concat(pages[..n - 1]), pages[n - 1].shown;
      forall x, y | x in before && y in shown ensures less(x, y) {
        Joined(less, pages, contents, n - 1, x, y);
      }
      SortedConcat(less, before, shown);
      if n < |pages| {
        assert Linked(pages[n - 1], pages[n]);
        if n > 1 { assert less(pages[n - 1].after.value, pages[n].after.value); }
      }
    }
  }

  lemma Joined<T(!new)>(less: Order<T>, pages: seq<Page<T>>, contents: seq<iset<T>>, n: nat, x: T, y: T)
    requires StrictOrder(less) && Chain(less, pages, contents) && n < |pages| && y in pages[n].shown
    requires x in Concat(pages[..n])
    requires n > 0 ==> pages[n].after.Some? && !less(pages[n].after.value, x)
    ensures less(x, y)
  {
    assert Shows(less, pages[n], contents[n]);
  }

  lemma SortedConcat<T(!new)>(less: Order<T>, p: seq<T>, q: seq<T>)
    requires Sorted(less, p) && Sorted(less, q) && forall x, y :: x in p && y in q ==> less(x, y)
    ensures Sorted(less, p + q)
  {
  }

  /** On contents that stay as they are, the pages put together are all of them, in order. */
  lemma PagesAreAll<T(!new)>(less: Order<T>, pages: seq<Page<T>>, contents: seq<iset<T>>, s: iset<T>)
    requires StrictOrder(less) && Chain(less, pages, contents) && forall i :: 0 <= i < |contents| ==> contents[i] == s
    ensures Sorted(less, Concat(pages)) && forall x :: x in Concat(pages) <==> x in s
  {
    ConcatSorted(less, pages, contents, |pages|);
    assert pages[..|pages|] == pages;
    forall x ensures x in Concat(pages) <==> x in s {
      ConcatMembers(pages, x);
      if x in s {
        var j := FoundFrom(less, pages, contents, x, 0);
      }
      if i :| 0 <= i < |pages| && x in pages[i].shown {
        assert Shows(less, pages[i], contents[i]);
      }
    }
  }
}
