/** The display order of the transaction list: the id's trailing number,
    highest first, then the date, latest first. The list is sorted on a
    copy, so the collection it was given stays as it was. */
module Ordering {
  import opened Ledger
  import opened IdSuffix

  /** The sign of `new Date(a) - new Date(b)`: positive when `a` is the
      later day, negative when `b` is, zero on the same day. */
  function DateDiffSign(a: Date, b: Date): (r: int)
    ensures r > 0 <==> Later(a, b)
    ensures r < 0 <==> Later(b, a)
    ensures r == 0 <==> a == b
    ensures -1 <= r <= 1
  {
    if Later(a, b) then 1 else if Later(b, a) then -1 else 0
  }

  /** The comparator given to `.sort`: a negative result puts `a` first,
      which happens when its id number is higher, or when the id numbers
      tie and its date is later; it is zero exactly when both keys tie. */
  function Compare(a: Transaction, b: Transaction): (r: int)
    ensures r < 0 <==> KeyBefore(a, b)
    ensures r == 0 <==> SameKey(a, b)
  {
    var idDiff := IdNum(b.id) - IdNum(a.id);
    if idDiff != 0 then idDiff else DateDiffSign(b.date, a.date)
  }

  /** `a` comes first by the keys alone: a higher id number, or an equal
      id number and a later date. */
  predicate KeyBefore(a: Transaction, b: Transaction) {
    IdNum(a.id) > IdNum(b.id) || (IdNum(a.id) == IdNum(b.id) && Later(a.date, b.date))
  }

  /** The two transactions agree on both sort keys. */
  predicate SameKey(a: Transaction, b: Transaction) {
    IdNum(a.id) == IdNum(b.id) && a.date == b.date
  }

  /** `a` must come strictly before `b`. */
  predicate Precedes(a: Transaction, b: Transaction) {
    Compare(a, b) < 0
  }

  /** `a` may stand before `b`. */
  predicate InOrder(a: Transaction, b: Transaction) {
    Compare(a, b) <= 0
  }

  /** Every element may stand before its successor. */
  predicate Sorted(s: seq<Transaction>) {
    forall k :: 0 < k < |s| ==> InOrder(s[k - 1], s[k])
  }

  /** The comparator is antisymmetric and `InOrder` is a total preorder,
      so the sort it drives is well defined. */
  lemma CompareIsConsistent(a: Transaction, b: Transaction, c: Transaction)
    ensures Compare(a, b) == -Compare(b, a)
    ensures InOrder(a, b) || InOrder(b, a)
    ensures InOrder(a, b) && InOrder(b, c) ==> InOrder(a, c)
    ensures SameKey(a, b) && SameKey(b, c) ==> SameKey(a, c)
  {
  }

  /** Sortedness in the form it is usually stated: along the list, the id
      numbers never increase, and where two neighbours have the same id
      number the dates never increase. */
  lemma SortedMeans(s: seq<Transaction>)
    ensures Sorted(s) <==> forall k :: 0 < k < |s| ==>
      IdNum(s[k - 1].id) > IdNum(s[k].id) ||
      (IdNum(s[k - 1].id) == IdNum(s[k].id) && !Later(s[k].date, s[k - 1].date))
  {
    assert forall k :: 0 < k < |s| ==> (InOrder(s[k - 1], s[k]) <==>
      IdNum(s[k - 1].id) > IdNum(s[k].id) ||
      (IdNum(s[k - 1].id) == IdNum(s[k].id) && !Later(s[k].date, s[k - 1].date)));
  }

  /** A sorted list is in order between any two positions, not only
      between neighbours. */
  lemma {:induction false} SortedPairwise(s: seq<Transaction>, i: nat, j: nat)
    requires Sorted(s) && i < j < |s|
    ensures InOrder(s[i], s[j])
    decreases j - i
  {
    if i + 1 < j {
      SortedPairwise(s, i + 1, j);
      CompareIsConsistent(s[i], s[i + 1], s[j]);
    }
  }

  /** Insert `x` into `s` from the right: it moves left past every element
      it strictly precedes and stops behind the first one it does not, so
      an element of the same key stays ahead of it. */
  function Insert(s: seq<Transaction>, x: Transaction): (r: seq<Transaction>)
    ensures multiset(r) == multiset(s) + multiset{x}
    ensures |r| == |s| + 1
    decreases |s|
  {
    if |s| == 0 then [x]
    else if Precedes(x, s[|s| - 1]) then
      MultisetOfSnoc(s);
      Insert(s[..|s| - 1], x) + [s[|s| - 1]]
    else s + [x]
  }

  /** The list in display order: a stable insertion sort under `Compare`,
      as `.sort` gives with a stable algorithm. */
  function DisplayOrder(s: seq<Transaction>): (r: seq<Transaction>)
    ensures multiset(r) == multiset(s) && |r| == |s|
    decreases |s|
  {
    if |s| == 0 then []
    else
      MultisetOfSnoc(s);
      Insert(DisplayOrder(s[..|s| - 1]), s[|s| - 1])
  }

  /** Inserting ends the list in `x` or in the old last element. */
  lemma {:induction false} InsertEnd(s: seq<Transaction>, x: Transaction)
    ensures Insert(s, x)[|s|] == x || (|s| > 0 && Insert(s, x)[|s|] == s[|s| - 1])
    decreases |s|
  {
    if |s| > 0 && Precedes(x, s[|s| - 1]) {
      var init, last := s[..|s| - 1], s[|s| - 1];
      assert Insert(s, x) == Insert(init, x) + [last];
    }
  }

  /** Inserting into a sorted list keeps it sorted. */
  lemma {:induction false} InsertSorted(s: seq<Transaction>, x: Transaction)
    requires Sorted(s)
    ensures Sorted(Insert(s, x))
    decreases |s|
  {
    if |s| > 0 {
      var init, last := s[..|s| - 1], s[|s| - 1];
      if Precedes(x, last) {
        assert Sorted(init);
        InsertSorted(init, x);
        InsertEnd(init, x);
        var r := Insert(init, x);
        var n := |r|;
        assert InOrder(r[n - 1], last) by {
          if r[n - 1] != x {
            assert InOrder(s[|s| - 2], s[|s| - 1]);
          }
        }
        SortedSnoc(r, last);
      } else {
        CompareIsConsistent(x, last, x);
        SortedSnoc(s, x);
      }
    }
  }

  /** Appending an element that may follow the last one keeps a list sorted. */
  lemma SortedSnoc(s: seq<Transaction>, x: Transaction)
    requires Sorted(s) && (|s| == 0 || InOrder(s[|s| - 1], x))
    ensures Sorted(s + [x])
  {
  }

  /** A non-empty list holds its first part and its last element. */
  lemma MultisetOfSnoc(s: seq<Transaction>)
    requires |s| > 0
    ensures multiset(s) == multiset(s[..|s| - 1]) + multiset{s[|s| - 1]}
  {
    assert s == s[..|s| - 1] + [s[|s| - 1]];
  }

  /** The display order is sorted. */
  lemma {:induction false} DisplayOrderSorted(s: seq<Transaction>)
    ensures Sorted(DisplayOrder(s))
    decreases |s|
  {
    if |s| > 0 {
      DisplayOrderSorted(s[..|s| - 1]);
      InsertSorted(DisplayOrder(s[..|s| - 1]), s[|s| - 1]);
    }
  }

  /** A list already in display order is left exactly as it is. */
  lemma {:induction false} DisplayOrderOfSorted(s: seq<Transaction>)
    requires Sorted(s)
    ensures DisplayOrder(s) == s
    decreases |s|
  {
    if |s| > 0 {
      SortedParts(s);
      DisplayOrderOfSorted(s[..|s| - 1]);
      InsertBehindLast(s[..|s| - 1], s[|s| - 1]);
      DisplayOrderKeepsLast(s);
    }
  }

  /** A list whose first part is already in display order, and which
      inserting its last element into that part rebuilds, is in display
      order. */
  lemma DisplayOrderKeepsLast(s: seq<Transaction>)
    requires |s| > 0 && DisplayOrder(s[..|s| - 1]) == s[..|s| - 1]
    requires Insert(s[..|s| - 1], s[|s| - 1]) == s[..|s| - 1] + [s[|s| - 1]]
    ensures DisplayOrder(s) == s
  {
    SnocParts(s);
  }

  /** A non-empty list is its first part followed by its last element. */
  lemma SnocParts(s: seq<Transaction>)
    requires |s| > 0
    ensures s[..|s| - 1] + [s[|s| - 1]] == s
  {
  }

  /** A sorted list without its last element is sorted, and the last
      element does not strictly precede the one before it. */
  lemma SortedParts(s: seq<Transaction>)
    requires Sorted(s) && |s| > 0
    ensures Sorted(s[..|s| - 1])
    ensures |s| >= 2 ==> !Precedes(s[|s| - 1], s[|s| - 2])
  {
    if |s| >= 2 {
      CompareIsConsistent(s[|s| - 2], s[|s| - 1], s[|s| - 1]);
    }
  }

  /** An element that does not strictly precede the last one is inserted
      at the end. */
  lemma InsertBehindLast(s: seq<Transaction>, x: Transaction)
    requires |s| == 0 || !Precedes(x, s[|s| - 1])
    ensures Insert(s, x) == s + [x]
  {
  }

  /** Ordering twice is ordering once. */
  lemma DisplayOrderIdempotent(s: seq<Transaction>)
    ensures DisplayOrder(DisplayOrder(s)) == DisplayOrder(s)
  {
    DisplayOrderSorted(s);
    DisplayOrderOfSorted(DisplayOrder(s));
  }

  /** The elements of `s` that have the same sort keys as `y`, in order. */
  function KeyClass(s: seq<Transaction>, y: Transaction): seq<Transaction>
    decreases |s|
  {
    if |s| == 0 then []
    else KeyClass(s[..|s| - 1], y) + Own(s[|s| - 1], y)
  }

  lemma {:induction false} KeyClassAppend(s: seq<Transaction>, x: Transaction, y: Transaction)
    ensures KeyClass(s + [x], y) == KeyClass(s, y) + Own(x, y)
  {
    assert (s + [x])[..|s|] == s;
  }

  /** Two transactions of which one strictly precedes the other do not
      both share their keys with a third. */
  lemma PrecedesSeparatesKeys(x: Transaction, z: Transaction, y: Transaction)
    requires Precedes(x, z)
    ensures !(SameKey(x, y) && SameKey(z, y))
  {
  }

  /** The part of a key class one element contributes. */
  function Own(x: Transaction, y: Transaction): seq<Transaction> {
    if SameKey(x, y) then [x] else []
  }

  /** The step of `InsertStable` where `x` moves left past the last
      element of `s`, which does not share its keys with `y` together with
      `x`: `a` is `x` inserted into the rest of `s`. */
  lemma KeyClassPastLast(a: seq<Transaction>, s: seq<Transaction>, x: Transaction, y: Transaction)
    requires |s| > 0 && !(SameKey(x, y) && SameKey(s[|s| - 1], y))
    requires KeyClass(a, y) == KeyClass(s[..|s| - 1], y) + Own(x, y)
    ensures KeyClass(a + [s[|s| - 1]], y) == KeyClass(s, y) + Own(x, y)
  {
    var init, last := s[..|s| - 1], s[|s| - 1];
    KeyClassAppend(a, last, y);
    assert Own(x, y) + Own(last, y) == Own(last, y) + Own(x, y);
    SwapTail(KeyClass(init, y), Own(x, y), Own(last, y));
  }

  /** Two parts that commute may be swapped behind a common prefix. */
  lemma SwapTail(p: seq<Transaction>, u: seq<Transaction>, v: seq<Transaction>)
    requires u + v == v + u
    ensures p + u + v == p + v + u
  {
    calc {
      p + u + v;
      p + (u + v);
      p + (v + u);
      p + v + u;
    }
  }

  /** Inserting keeps every key class in place and puts `x` last in its own. */
  lemma {:induction false} InsertStable(s: seq<Transaction>, x: Transaction, y: Transaction)
    ensures KeyClass(Insert(s, x), y) == KeyClass(s, y) + Own(x, y)
    decreases |s|
  {
    if |s| == 0 {
      KeyClassAppend([], x, y);
    } else if Precedes(x, s[|s| - 1]) {
      var init, last := s[..|s| - 1], s[|s| - 1];
      assert Insert(s, x) == Insert(init, x) + [last];
      InsertStable(init, x, y);
      PrecedesSeparatesKeys(x, last, y);
      KeyClassPastLast(Insert(init, x), s, x, y);
    } else {
      KeyClassAppend(s, x, y);
    }
  }

  /** The ordering is stable: transactions that agree on both keys keep
      the relative order they had in the input. */
  lemma {:induction false} DisplayOrderStable(s: seq<Transaction>, y: Transaction)
    ensures KeyClass(DisplayOrder(s), y) == KeyClass(s, y)
    decreases |s|
  {
    if |s| > 0 {
      var init, last := s[..|s| - 1], s[|s| - 1];
      assert s == init + [last];
      calc {
        KeyClass(DisplayOrder(s), y);
        KeyClass(Insert(DisplayOrder(init), last), y);
        { InsertStable(DisplayOrder(init), last, y); }
        KeyClass(DisplayOrder(init), y) + Own(last, y);
        { DisplayOrderStable(init, y); }
        KeyClass(init, y) + Own(last, y);
        { KeyClassAppend(init, last, y); }
        KeyClass(s, y);
      }
    }
  }

  /** Every member of a key class is an element of the list with that key. */
  lemma {:induction false} KeyClassMember(s: seq<Transaction>, y: Transaction, t: Transaction)
    requires t in KeyClass(s, y)
    ensures t in s && SameKey(t, y)
    decreases |s|
  {
    var init, last := s[..|s| - 1], s[|s| - 1];
    if t in KeyClass(init, y) {
      KeyClassMember(init, y, t);
      assert s == init + [last];
    }
  }

  /** In a sorted list, any element may stand before the last one. */
  lemma LastIsLeast(s: seq<Transaction>, t: Transaction)
    requires Sorted(s) && t in s
    ensures InOrder(t, s[|s| - 1])
  {
    var i :| 0 <= i < |s| && s[i] == t;
    if i < |s| - 1 {
      SortedPairwise(s, i, |s| - 1);
    }
  }

  /** A non-empty list has a non-empty key class for its last element. */
  lemma LastInOwnClass(s: seq<Transaction>)
    requires |s| > 0
    ensures KeyClass(s, s[|s| - 1]) == KeyClass(s[..|s| - 1], s[|s| - 1]) + [s[|s| - 1]]
  {
  }

  /** Two sorted non-empty lists whose key classes agree on the keys of
      their last elements end in elements with the same keys. */
  lemma LastKeysAgree(r: seq<Transaction>, q: seq<Transaction>)
    requires Sorted(r) && Sorted(q) && |r| > 0 && |q| > 0
    requires KeyClass(r, r[|r| - 1]) == KeyClass(q, r[|r| - 1])
    requires KeyClass(r, q[|q| - 1]) == KeyClass(q, q[|q| - 1])
    ensures SameKey(r[|r| - 1], q[|q| - 1])
  {
    var a, b := r[|r| - 1], q[|q| - 1];
    LastInOwnClass(r);
    LastInOwnClass(q);
    KeyClassMember(r, b, b);
    KeyClassMember(q, a, a);
    LastIsLeast(r, b);
    LastIsLeast(q, a);
    MutualOrderSameKey(a, b);
  }

  /** Two transactions that may each stand before the other agree on both keys. */
  lemma MutualOrderSameKey(a: Transaction, b: Transaction)
    requires InOrder(a, b) && InOrder(b, a)
    ensures SameKey(a, b)
  {
    CompareIsConsistent(a, b, a);
  }

  /** ... and in fact end in the same element, the last of that key class. */
  lemma SameLast(r: seq<Transaction>, q: seq<Transaction>)
    requires Sorted(r) && Sorted(q) && |r| > 0 && |q| > 0
    requires KeyClass(r, r[|r| - 1]) == KeyClass(q, r[|r| - 1])
    requires KeyClass(r, q[|q| - 1]) == KeyClass(q, q[|q| - 1])
    ensures r[|r| - 1] == q[|q| - 1]
  {
    var a, b := r[|r| - 1], q[|q| - 1];
    LastKeysAgree(r, q);
    LastInOwnClass(r);
    LastInOwnClass(q);
    KeyClassSameKey(q, a, b);
    var ka := KeyClass(q, a);
    assert ka == KeyClass(q[..|q| - 1], b) + [b];
    assert ka[|ka| - 1] == b;
  }

  /** Keys that agree select the same key class. */
  lemma {:induction false} KeyClassSameKey(s: seq<Transaction>, a: Transaction, b: Transaction)
    requires SameKey(a, b)
    ensures KeyClass(s, a) == KeyClass(s, b)
    decreases |s|
  {
    if |s| > 0 {
      KeyClassSameKey(s[..|s| - 1], a, b);
    }
  }

  /** A list whose every key class is that of the empty list is empty. */
  lemma EmptyClassesMeanEmpty(r: seq<Transaction>, q: seq<Transaction>)
    requires |r| == 0 && |q| > 0
    ensures KeyClass(r, q[|q| - 1]) != KeyClass(q, q[|q| - 1])
  {
    LastInOwnClass(q);
  }

  /** Dropping the same last element `a` from two lists whose key
      classes agree leaves lists whose key classes agree. */
  lemma DropLastKeepsClasses(r: seq<Transaction>, q: seq<Transaction>, r': seq<Transaction>, q': seq<Transaction>, a: Transaction)
    requires r == r' + [a] && q == q' + [a]
    requires forall y :: KeyClass(r, y) == KeyClass(q, y)
    ensures forall y :: KeyClass(r', y) == KeyClass(q', y)
  {
    forall y ensures KeyClass(r', y) == KeyClass(q', y) {
      var x, z := KeyClass(r', y), KeyClass(q', y);
      KeyClassAppend(r', a, y);
      KeyClassAppend(q', a, y);
      assert x == (x + Own(a, y))[..|x|];
      assert z == (z + Own(a, y))[..|z|];
    }
  }

  /** Two sorted lists whose key classes agree, each in the same order,
      are the same list: under this comparator there is only one stable
      sorted arrangement. */
  lemma {:induction false} StableSortUnique(r: seq<Transaction>, q: seq<Transaction>)
    requires Sorted(r) && Sorted(q)
    requires forall y :: KeyClass(r, y) == KeyClass(q, y)
    ensures r == q
    decreases |r|
  {
    if |r| == 0 {
      if |q| > 0 {
        EmptyClassesMeanEmpty(r, q);
      }
    } else if |q| == 0 {
      EmptyClassesMeanEmpty(q, r);
    } else {
      var r', q', a := r[..|r| - 1], q[..|q| - 1], r[|r| - 1];
      SameLast(r, q);
      assert r == r' + [a] && q == q' + [a];
      DropLastKeepsClasses(r, q, r', q', a);
      assert Sorted(r') && Sorted(q');
      StableSortUnique(r', q');
    }
  }

  /** Any sorted arrangement of `s` that keeps transactions with equal
      keys in their input order (what a stable `.sort` produces, whatever
      its algorithm) is the display order. */
  lemma StableSortIsDisplayOrder(s: seq<Transaction>, r: seq<Transaction>)
    requires Sorted(r)
    requires forall y :: KeyClass(r, y) == KeyClass(s, y)
    ensures r == DisplayOrder(s)
  {
    forall y ensures KeyClass(DisplayOrder(s), y) == KeyClass(s, y) {
      DisplayOrderStable(s, y);
    }
    DisplayOrderSorted(s);
    StableSortUnique(r, DisplayOrder(s));
  }

  /** The properties of the display order that the sort promises. */
  lemma DisplayOrderFacts(s: seq<Transaction>)
    ensures multiset(DisplayOrder(s)) == multiset(s) && Sorted(DisplayOrder(s))
    ensures Sorted(s) ==> DisplayOrder(s) == s
  {
    DisplayOrderSorted(s);
    if Sorted(s) {
      DisplayOrderOfSorted(s);
    }
  }

  /** Where the insertion puts `x`: behind the last element it does not
      strictly precede, ahead of all the elements after that. */
  lemma {:induction false} InsertAt(p: seq<Transaction>, x: Transaction, j: nat)
    requires j <= |p| && (j == 0 || !Precedes(x, p[j - 1]))
    requires forall k :: j <= k < |p| ==> Precedes(x, p[k])
    ensures Insert(p, x) == p[..j] + [x] + p[j..]
    decreases |p|
  {
    if j < |p| {
      var init, last := p[..|p| - 1], p[|p| - 1];
      assert init[..j] == p[..j] && (j == 0 || init[j - 1] == p[j - 1]);
      assert Precedes(x, last);
      assert Insert(p, x) == Insert(init, x) + [last];
      InsertAt(init, x, j);
      SplitBeforeLast(p, x, j);
    } else {
      assert p[..j] == p && p[j..] == [];
    }
  }

  /** Putting `x` at position `j < |p|` and then appending the last
      element of `p` is putting `x` at `j` in the whole of `p`. */
  lemma SplitBeforeLast(p: seq<Transaction>, x: Transaction, j: nat)
    requires j < |p|
    ensures p[..|p| - 1][..j] + [x] + p[..|p| - 1][j..] + [p[|p| - 1]] == p[..j] + [x] + p[j..]
  {
    var init := p[..|p| - 1];
    assert init[..j] == p[..j];
    assert p[j..] == init[j..] + [p[|p| - 1]];
  }

  /** Swapping the element at `j` with its left neighbour moves it one
      place to the left. */
  lemma SwapLeft(p: seq<Transaction>, x: Transaction, rest: seq<Transaction>, j: nat)
    requires 0 < j <= |p|
    ensures (p[..j] + [x] + p[j..] + rest)[j - 1 := x][j := p[j - 1]] ==
            p[..j - 1] + [x] + p[j - 1..] + rest
  {
    var lhs := (p[..j] + [x] + p[j..] + rest)[j - 1 := x][j := p[j - 1]];
    var rhs := p[..j - 1] + [x] + p[j - 1..] + rest;
    assert |lhs| == |rhs|;
    forall k | 0 <= k < |lhs| ensures lhs[k] == rhs[k] {
      if k < j - 1 {
      } else if k == j - 1 {
      } else if k == j {
      } else if k < |p| + 1 {
        assert lhs[k] == p[k - 1];
      } else {
        assert lhs[k] == rest[k - |p| - 1];
      }
    }
  }

  /** Sorting one more element of the input is inserting it into the
      sorted prefix. */
  lemma DisplayOrderNext(data: seq<Transaction>, i: nat)
    requires i < |data|
    ensures |DisplayOrder(data[..i])| == i
    ensures DisplayOrder(data[..i + 1]) == Insert(DisplayOrder(data[..i]), data[i])
  {
    assert data[..i + 1][..i] == data[..i];
  }

  /** The inner loop of the sort: the element at `i` is swapped leftwards
      past every element of the first `i` that it strictly precedes. */
  method SiftLeft(a: array<Transaction>, i: nat)
    requires i < a.Length
    modifies a
    ensures a[..] == Insert(old(a[..i]), old(a[i])) + old(a[i + 1..])
  {
    ghost var prefix, x, rest := a[..i], a[i], a[i + 1..];
    assert prefix[..i] == prefix && prefix[i..] == [];
    assert a[..] == prefix[..i] + [x] + prefix[i..] + rest;
    var j := i;
    while j > 0 && Precedes(a[j], a[j - 1])
      invariant 0 <= j <= i
      invariant a[..] == prefix[..j] + [x] + prefix[j..] + rest
      invariant forall k :: j <= k < i ==> Precedes(x, prefix[k])
    {
      ghost var before := a[..];
      assert before[j] == x && before[j - 1] == prefix[j - 1];
      a[j - 1], a[j] := a[j], a[j - 1];
      assert a[..] == before[j - 1 := x][j := prefix[j - 1]];
      SwapLeft(prefix, x, rest, j);
      j := j - 1;
    }
    assert j == 0 || a[j - 1] == prefix[j - 1];
    InsertAt(prefix, x, j);
  }

  /** One step of the outer loop: the first `i + 1` elements of the copy
      are put in display order. */
  method SortStep(a: array<Transaction>, ghost data: seq<Transaction>, i: nat)
    requires i < a.Length == |data|
    requires a[..] == DisplayOrder(data[..i]) + data[i..]
    modifies a
    ensures a[..] == DisplayOrder(data[..i + 1]) + data[i + 1..]
  {
    DisplayOrderNext(data, i);
    SplitSortedPrefix(a[..], DisplayOrder(data[..i]), data, i);
    assert a[..i] == a[..][..i] && a[i + 1..] == a[..][i + 1..];
    SiftLeft(a, i);
  }

  /** The parts of a list made of a sorted prefix of length `i` and the
      unsorted rest of `data` from `i` on. */
  lemma SplitSortedPrefix(whole: seq<Transaction>, pre: seq<Transaction>, data: seq<Transaction>, i: nat)
    requires i < |data| && |pre| == i && whole == pre + data[i..]
    ensures whole[..i] == pre && whole[i] == data[i] && whole[i + 1..] == data[i + 1..]
  {
  }

  /** `renderTransactions`' sort: copy the list into a fresh array and
      insertion-sort the copy in place. The list passed in is a value and
      is left as it was. */
  method SortForDisplay(data: seq<Transaction>) returns (sorted: seq<Transaction>)
    ensures sorted == DisplayOrder(data)
    ensures multiset(sorted) == multiset(data) && Sorted(sorted)
    ensures Sorted(data) ==> sorted == data
  {
    var a := new Transaction[|data|](k requires 0 <= k < |data| => data[k]);
    var i := 0;
    assert a[..] == DisplayOrder(data[..0]) + data[0..];
    while i < a.Length
      invariant 0 <= i <= a.Length
      invariant a[..] == DisplayOrder(data[..i]) + data[i..]
    {
      SortStep(a, data, i);
      i := i + 1;
    }
    sorted := a[..];
    assert data[..a.Length] == data;
    DisplayOrderFacts(data);
  }
}
