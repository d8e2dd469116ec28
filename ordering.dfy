/** The view's sort: Python's stable `list.sort(key=..., reverse=True)` on
    the record's date string or its stored like counter. */
module Ordering {
  import opened Changes

  /** The two values `sort_by` takes: "date" and "likes". */
  datatype SortKey = ByDate | ByLikes

  /** Python's `<=` on `str`: lexicographic by code point. On fixed-width
      "YYYY-MM-DD HH:MM" strings this is chronological order. */
  predicate DateLe(a: string, b: string)
    decreases |a|
  {
    a == [] || (b != [] && (a[0] < b[0] || (a[0] == b[0] && DateLe(a[1..], b[1..]))))
  }

  lemma {:induction false} DateLeTotal(a: string, b: string)
    ensures DateLe(a, b) || DateLe(b, a)
    decreases |a|
  {
    if a != [] && b != [] && a[0] == b[0] {
      DateLeTotal(a[1..], b[1..]);
    }
  }

  lemma {:induction false} DateLeTransitive(a: string, b: string, c: string)
    requires DateLe(a, b) && DateLe(b, c)
    ensures DateLe(a, c)
    decreases |a|
  {
    if a != [] && a[0] == b[0] && b[0] == c[0] {
      DateLeTransitive(a[1..], b[1..], c[1..]);
    }
  }

  /** The key of `a` is at least the key of `b`: `a` may stand before `b`
      in the descending order. */
  predicate Ge(a: Change, b: Change, key: SortKey)
  {
    match key
    case ByDate => DateLe(b.date, a.date)
    case ByLikes => a.likes >= b.likes
  }

  lemma GeTotal(a: Change, b: Change, key: SortKey)
    ensures Ge(a, b, key) || Ge(b, a, key)
  {
    if key == ByDate {
      DateLeTotal(a.date, b.date);
    }
  }

  lemma GeTransitive(a: Change, b: Change, c: Change, key: SortKey)
    requires Ge(a, b, key) && Ge(b, c, key)
    ensures Ge(a, c, key)
  {
    if key == ByDate {
      DateLeTransitive(c.date, b.date, a.date);
    }
  }

  /** `a` and `b` have equal keys, so the sort must keep their relative order. */
  predicate SameKey(a: Change, b: Change, key: SortKey)
  {
    Ge(a, b, key) && Ge(b, a, key)
  }

  /** Non-increasing by the key. */
  predicate Descending(s: seq<Change>, key: SortKey)
  {
    forall i, j :: 0 <= i < j < |s| ==> Ge(s[i], s[j], key)
  }

  /** The records of `s` whose key equals that of `c`, in their order in `s`. */
  function KeyClass(s: seq<Change>, c: Change, key: SortKey): seq<Change>
  {
    if s == [] then []
    else (if SameKey(s[0], c, key) then [s[0]] else []) + KeyClass(s[1..], c, key)
  }

  /** Places `x` before the first record whose key is not greater than its own. */
  function Insert(x: Change, t: seq<Change>, key: SortKey): seq<Change>
  {
    if t == [] || Ge(x, t[0], key) then [x] + t
    else [t[0]] + Insert(x, t[1..], key)
  }

  /** The order `sort_nicknames` leaves the list in: as many records as before;
      the order itself is pinned by `SortPermutes`, `SortDescending` and `SortStable`. */
  function StableSort(s: seq<Change>, key: SortKey): (r: seq<Change>)
    ensures |r| == |s|
  {
    if s == [] then []
    else
      var t := StableSort(s[1..], key);
      InsertLength(s[0], t, key);
      Insert(s[0], t, key)
  }

  lemma {:induction false} InsertLength(x: Change, t: seq<Change>, key: SortKey)
    ensures |Insert(x, t, key)| == |t| + 1
  {
    if t != [] && !Ge(x, t[0], key) {
      InsertLength(x, t[1..], key);
    }
  }

  lemma {:induction false} InsertPermutes(x: Change, t: seq<Change>, key: SortKey)
    ensures multiset(Insert(x, t, key)) == multiset{x} + multiset(t)
  {
    if t != [] && !Ge(x, t[0], key) {
      InsertPermutes(x, t[1..], key);
      assert t == [t[0]] + t[1..];
    }
  }

  /** The sort only reorders: the result is a permutation of the records. */
  lemma {:induction false} SortPermutes(s: seq<Change>, key: SortKey)
    ensures multiset(StableSort(s, key)) == multiset(s)
  {
    if s != [] {
      SortPermutes(s[1..], key);
      InsertPermutes(s[0], StableSort(s[1..], key), key);
      assert s == [s[0]] + s[1..];
    }
  }

  lemma {:induction false} InsertDescending(x: Change, t: seq<Change>, key: SortKey)
    requires Descending(t, key)
    ensures Descending(Insert(x, t, key), key)
  {
    var r := Insert(x, t, key);
    if t == [] {
    } else if Ge(x, t[0], key) {
      forall i, j | 0 <= i < j < |r| ensures Ge(r[i], r[j], key) {
        if i == 0 && j > 1 {
          GeTransitive(x, t[0], t[j - 1], key);
        }
      }
    } else {
      GeTotal(x, t[0], key);
      var rest := Insert(x, t[1..], key);
      InsertDescending(x, t[1..], key);
      InsertLength(x, t[1..], key);
      assert Ge(t[0], rest[0], key) by {
        if t[1..] != [] && !Ge(x, t[1..][0], key) {
          assert rest[0] == t[1];
        }
      }
      forall i, j | 0 <= i < j < |r| ensures Ge(r[i], r[j], key) {
        if i == 0 && j > 1 {
          GeTransitive(t[0], rest[0], rest[j - 1], key);
        }
      }
    }
  }

  /** The result is non-increasing by the key (newest or most liked first). */
  lemma {:induction false} SortDescending(s: seq<Change>, key: SortKey)
    ensures Descending(StableSort(s, key), key)
  {
    if s != [] {
      SortDescending(s[1..], key);
      InsertDescending(s[0], StableSort(s[1..], key), key);
    }
  }

  lemma {:induction false} KeyClassAppend(a: seq<Change>, b: seq<Change>, c: Change, key: SortKey)
    ensures KeyClass(a + b, c, key) == KeyClass(a, c, key) + KeyClass(b, c, key)
  {
    if a == [] {
      assert a + b == b;
    } else {
      assert (a + b)[0] == a[0] && (a + b)[1..] == a[1..] + b;
      KeyClassAppend(a[1..], b, c, key);
    }
  }

  lemma {:induction false} InsertStable(x: Change, t: seq<Change>, c: Change, key: SortKey)
    ensures KeyClass(Insert(x, t, key), c, key) == KeyClass([x] + t, c, key)
  {
    if t != [] && !Ge(x, t[0], key) {
      var t0, rest := t[0], t[1..];
      assert t == [t0] + rest;
      calc {
        KeyClass(Insert(x, t, key), c, key);
        KeyClass([t0] + Insert(x, rest, key), c, key);
        { KeyClassAppend([t0], Insert(x, rest, key), c, key); }
        KeyClass([t0], c, key) + KeyClass(Insert(x, rest, key), c, key);
        { InsertStable(x, rest, c, key); }
        KeyClass([t0], c, key) + KeyClass([x] + rest, c, key);
        { KeyClassAppend([x], rest, c, key); }
        KeyClass([t0], c, key) + (KeyClass([x], c, key) + KeyClass(rest, c, key));
        (KeyClass([t0], c, key) + KeyClass([x], c, key)) + KeyClass(rest, c, key);
        { KeyClassSwap(x, t0, c, key); }
        (KeyClass([x], c, key) + KeyClass([t0], c, key)) + KeyClass(rest, c, key);
        KeyClass([x], c, key) + (KeyClass([t0], c, key) + KeyClass(rest, c, key));
        { KeyClassAppend([t0], rest, c, key); }
        KeyClass([x], c, key) + KeyClass(t, c, key);
        { KeyClassAppend([x], t, c, key); }
        KeyClass([x] + t, c, key);
      }
    }
  }

  /** Two records that the sort swaps cannot both carry `c`'s key: that would
      make the first at least the second. So their key classes commute. */
  lemma KeyClassSwap(x: Change, y: Change, c: Change, key: SortKey)
    requires !Ge(x, y, key)
    ensures KeyClass([y], c, key) + KeyClass([x], c, key) == KeyClass([x], c, key) + KeyClass([y], c, key)
  {
    assert [x][1..] == [] && [y][1..] == [];
    if SameKey(x, c, key) && SameKey(y, c, key) {
      GeTransitive(x, c, y, key);
      assert false;
    }
  }

  /** Stability: for every key, the records carrying it appear in the result in
      the order they had before the sort (Python keeps this under reverse=True). */
  lemma {:induction false} SortStable(s: seq<Change>, c: Change, key: SortKey)
    ensures KeyClass(StableSort(s, key), c, key) == KeyClass(s, c, key)
  {
    if s != [] {
      SortStable(s[1..], c, key);
      InsertStable(s[0], StableSort(s[1..], key), c, key);
      KeyClassAppend([s[0]], StableSort(s[1..], key), c, key);
      KeyClassAppend([s[0]], s[1..], c, key);
      assert s == [s[0]] + s[1..];
    }
  }

  /** A list already in descending order is left exactly as it is. */
  lemma {:induction false} SortKeepsDescending(s: seq<Change>, key: SortKey)
    requires Descending(s, key)
    ensures StableSort(s, key) == s
  {
    if s != [] {
      assert Descending(s[1..], key);
      SortKeepsDescending(s[1..], key);
      assert s == [s[0]] + s[1..];
    }
  }

  /** Sorting twice with the same key, no change in between, gives the same list. */
  lemma SortIdempotent(s: seq<Change>, key: SortKey)
    ensures StableSort(StableSort(s, key), key) == StableSort(s, key)
  {
    SortDescending(s, key);
    SortKeepsDescending(StableSort(s, key), key);
  }
}
