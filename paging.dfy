/** Page arithmetic of the history view: the slice a page shows, the indexed
    options of the like dropdown and the state of the two paging buttons. */
module Paging {
  import opened Changes

  /** One dropdown entry: `value=str(idx)` and the record the label describes. */
  datatype SelectOption = SelectOption(index: int, change: Change)

  /** `(len(changes) - 1) // page_size`, the index of the last page. Python's
      floor division and Dafny's `/` agree for a positive divisor, so an empty
      list gives -1. */
  function LastPage(n: nat, size: nat): int
    requires size > 0
  {
    (n - 1) / size
  }

  /** The last page index is -1 exactly for an empty list, and never more than
      `n - 1`. */
  lemma LastPageBounds(n: nat, size: nat)
    requires size > 0
    ensures LastPage(n, size) == -1 <==> n == 0
    ensures LastPage(n, size) <= n - 1
  {
    if n > 0 {
      var q := (n - 1) / size;
      assert q * size <= n - 1;
      MulMono(1, size, q);
    }
  }

  function Min(a: int, b: int): int
  {
    if a <= b then a else b
  }

  /** Python's `s[lo:hi]` for non-negative bounds: both are clamped to the length. */
  function Slice(s: seq<Change>, lo: nat, hi: nat): seq<Change>
  {
    var a := Min(lo, |s|);
    var b := Min(hi, |s|);
    if a <= b then s[a..b] else []
  }

  /** `changes[start_idx:end_idx]` with `start_idx = page * page_size`. It holds at
      most `size` records, the ones at the absolute indexes from `page * size` on,
      and as many as remain when the list ends inside the page. */
  function PageOf(changes: seq<Change>, page: nat, size: nat): (r: seq<Change>)
    requires size > 0
    ensures |r| <= size
    ensures |r| == if page * size >= |changes| then 0 else Min(size, |changes| - page * size)
    ensures forall k :: 0 <= k < |r| ==> page * size + k < |changes| && r[k] == changes[page * size + k]
  {
    Slice(changes, page * size, page * size + size)
  }

  /** The `like_select.options` comprehension: the page's records enumerated from
      `start_idx`, so each option carries the record's index in the whole list. */
  function PageOptions(changes: seq<Change>, page: nat, size: nat): (r: seq<SelectOption>)
    requires size > 0
    ensures |r| == |PageOf(changes, page, size)| <= size
    ensures forall k :: 0 <= k < |r| ==>
      r[k].index == page * size + k && 0 <= r[k].index < |changes| && r[k].change == changes[r[k].index]
  {
    var shown := PageOf(changes, page, size);
    seq(|shown|, k requires 0 <= k < |shown| => SelectOption(page * size + k, shown[k]))
  }

  /** `next_page.disabled = current_page >= (len - 1) // page_size`. */
  predicate NextDisabled(page: nat, n: nat, size: nat)
    requires size > 0
  {
    page >= LastPage(n, size)
  }

  /** "Next" is disabled exactly when the page after the current one would start
      at or past the end of the list, that is, would show nothing. */
  lemma NextDisabledIffNoNextPage(page: nat, n: nat, size: nat)
    requires size > 0
    ensures NextDisabled(page, n, size) <==> (page + 1) * size >= n
  {
    if n > 0 {
      if page >= LastPage(n, size) {
        DivBelow(n - 1, size, page + 1);
      } else {
        DivBound(n - 1, size, page + 1);
      }
    }
  }

  /** Every page up to the last one shows at least one record; the page after
      it shows none. */
  lemma PagesUpToLastAreNonEmpty(changes: seq<Change>, page: nat, size: nat)
    requires size > 0
    ensures page <= LastPage(|changes|, size) <==> |PageOf(changes, page, size)| > 0
  {
    var n := |changes|;
    if page <= LastPage(n, size) {
      DivBound(n - 1, size, page);
    } else if n > 0 {
      // (n - 1) / size < page, so (n - 1) < page * size
      DivBelow(n - 1, size, page);
    }
  }

  lemma DivBound(m: int, size: nat, page: nat)
    requires size > 0 && m >= 0 && page <= m / size
    ensures page * size <= m
  {
  }

  lemma DivBelow(m: nat, size: nat, page: nat)
    requires size > 0 && m / size < page
    ensures m < page * size
  {
    MulMono(m / size + 1, page, size);
  }

  lemma MulMono(a: int, b: int, size: nat)
    requires a <= b
    ensures a * size <= b * size
  {
  }

  /** The constructor's `disabled=(len(changes) <= page_size)` is the same test as
      the one `update_message` applies on page 0. */
  lemma InitialNextButtonAgrees(n: nat, size: nat)
    requires size > 0
    ensures (n <= size) == NextDisabled(0, n, size)
  {
  }

  /** The records of pages 0 to count - 1, concatenated in page order. */
  function Pages(changes: seq<Change>, size: nat, count: nat): seq<Change>
    requires size > 0
  {
    if count == 0 then [] else Pages(changes, size, count - 1) + PageOf(changes, count - 1, size)
  }

  lemma {:induction false} PagesPrefix(changes: seq<Change>, size: nat, count: nat)
    requires size > 0
    ensures Pages(changes, size, count) == changes[..Min(count * size, |changes|)]
  {
    if count > 0 {
      PagesPrefix(changes, size, count - 1);
      var lo, hi := (count - 1) * size, count * size;
      MulSucc(count - 1, size);
      assert Pages(changes, size, count) == Pages(changes, size, count - 1) + Slice(changes, lo, hi);
      SliceJoin(changes, lo, hi);
    }
  }

  lemma MulSucc(a: nat, size: nat)
    ensures (a + 1) * size == a * size + size
  {
  }

  /** The prefix up to `lo` followed by the slice from `lo` to `hi` is the prefix
      up to `hi`, with both bounds clamped to the length. */
  lemma SliceJoin(s: seq<Change>, lo: nat, hi: nat)
    requires lo <= hi
    ensures s[..Min(lo, |s|)] + Slice(s, lo, hi) == s[..Min(hi, |s|)]
  {
  }

  /** Coverage: concatenating pages 0 to `(n - 1) // page_size` gives back the
      whole list, with no gap, no repetition and no reordering. */
  lemma PagesCoverAll(changes: seq<Change>, size: nat)
    requires size > 0
    ensures Pages(changes, size, LastPage(|changes|, size) + 1) == changes
  {
    var n := |changes|;
    var count := LastPage(n, size) + 1;
    PagesPrefix(changes, size, count);
    if n > 0 {
      DivBelow(n - 1, size, count);
    }
  }

  /** Each record's index appears on exactly one page, `index // page_size`, at
      position `index % page_size`, and that page is within the paging range. */
  lemma IndexOnItsPage(changes: seq<Change>, size: nat, i: nat)
    requires size > 0 && i < |changes|
    ensures i / size <= LastPage(|changes|, size)
    ensures i % size < |PageOptions(changes, i / size, size)|
    ensures PageOptions(changes, i / size, size)[i % size].index == i
    ensures forall page: nat :: page != i / size ==>
      forall k :: 0 <= k < |PageOptions(changes, page, size)| ==> PageOptions(changes, page, size)[k].index != i
  {
    var n := |changes|;
    assert i <= n - 1;
    DivMono(i, n - 1, size);
    assert (i / size) * size + i % size == i;
    forall page: nat, k | page != i / size && 0 <= k < |PageOptions(changes, page, size)|
      ensures PageOptions(changes, page, size)[k].index != i
    {
      var opts := PageOptions(changes, page, size);
      assert opts[k].index == page * size + k && k < size;
      if page * size + k == i {
        DivUnique(i, size, page, k);
      }
    }
  }

  lemma DivMono(a: int, b: int, size: nat)
    requires size > 0 && 0 <= a <= b
    ensures a / size <= b / size
  {
    if a / size > b / size {
      assert (b / size + 1) * size == (b / size) * size + size;
      MulMono(b / size + 1, a / size, size);
    }
  }

  lemma DivUnique(i: nat, size: nat, q: nat, k: nat)
    requires size > 0 && k < size && i == q * size + k
    ensures q == i / size
  {
    var d := i / size;
    assert d * size + i % size == i;
    if q > d {
      assert (d + 1) * size == d * size + size;
      MulMono(d + 1, q, size);
    } else if q < d {
      assert (q + 1) * size == q * size + size;
      MulMono(q + 1, d, size);
    }
  }
}
