/** Slice helpers of util/functools.go. Where the source compares elements by
    fmt.Sprint or ToStr, the comparison is an abstract key function `key: T -> string`;
    the helpers over values pass Values.Sprint or Misc.ToStr. */
module Functools {
  import opened Common
  import Strs
  import Values
  import Misc
  import Paging

  // -------------------------------------------------------------------- Paginate

  /** Paginate: empty when the offset is at or past the end; otherwise the slice from
      the offset to min(offset+limit, len), computed in int64. A negative limit or an
      overflowing offset+limit gives an upper bound below the lower one, and Go panics. */
  function Paginate<T>(arr: seq<T>, page: Paging.Page): (r: Outcome<seq<T>>)
    requires |arr| <= Strs.MaxInt64
    ensures page.Offset() >= |arr| ==> r == Returns([])
    ensures r.Returns? && page.Offset() < |arr| ==>
      |r.value| <= |arr| - page.Offset() && r.value == arr[page.Offset()..page.Offset() + |r.value|]
  {
    if page.Offset() >= |arr| then Returns([])
    else
      var offset := Paging.I64(page.Offset());
      var limit := Paging.I64(page.Limit());
      var sum := Paging.I64(offset + limit);
      var last := if sum < |arr| then sum else |arr|;
      if last < offset then Panics("slice bounds out of range") else Returns(arr[offset..last])
  }

  /** What Paginate gives: everything when off; nothing from the end on; otherwise
      a window of at most Limit() elements starting at Offset(), or a panic exactly
      when the int64 sum offset+limit falls below the offset (a negative page size,
      or an overflowing one). */
  lemma PaginateWindow<T>(arr: seq<T>, page: Paging.Page)
    requires |arr| <= Strs.MaxInt64
    ensures page.off ==> Paginate(arr, page) == Returns(arr)
    ensures page.Offset() >= |arr| ==> Paginate(arr, page) == Returns([])
    ensures page.Offset() < |arr| ==>
      (Paginate(arr, page).Panics? <==> page.Limit() > Strs.MaxInt64 - page.Offset())
    ensures !page.off && page.perPage < 0 && page.Offset() < |arr| ==> Paginate(arr, page).Panics?
    ensures var r := Paginate(arr, page);
      r.Returns? && page.Offset() < |arr| ==>
        r.value == arr[page.Offset()..page.Offset() + |r.value|] && |r.value| <= page.Limit()
  {
    var off := page.Offset();
    if page.off && arr != [] {
      assert arr[0..|arr|] == arr;
    }
    if off < |arr| {
      SumWrap(off, page.Limit());
      if !page.off && page.perPage < 0 {
        LimitOfNegative(page);
      }
    }
  }

  /** The int64 sum of an in-range offset and a uint64 limit, both read as int64:
      the true sum when it fits, otherwise the sum less 2^64. */
  lemma SumWrap(off: int, lim: int)
    requires 0 <= off <= Strs.MaxInt64 && 0 <= lim < Paging.TwoTo64
    ensures Paging.I64(Paging.I64(off) + Paging.I64(lim)) ==
      if off + lim <= Strs.MaxInt64 then off + lim else off + lim - Paging.TwoTo64
  {
    if lim <= Strs.MaxInt64 {
      if off + lim > Strs.MaxInt64 {
        I64Wraps(off + lim);
      }
    } else {
      I64High(lim);
      assert Paging.I64(off + (lim - Paging.TwoTo64)) == off + lim - Paging.TwoTo64;
    }
  }

  /** A negative page size is read as a uint64 limit above the int64 range. */
  lemma LimitOfNegative(page: Paging.Page)
    requires !page.off && page.perPage < 0
    ensures page.Limit() == page.perPage + Paging.TwoTo64
  {
    assert page.perPage % Paging.TwoTo64 == page.perPage + Paging.TwoTo64;
  }

  lemma MulFacts(a: int, b: int)
    requires a >= 0 && b >= 0
    ensures a * b >= 0 && a * b + b == (a + 1) * b
  {
  }

  /** A value of [2^63, 2^64) wraps to itself minus 2^64. */
  lemma I64High(x: int)
    requires Strs.MaxInt64 < x < Paging.TwoTo64
    ensures Paging.I64(x) == x - Paging.TwoTo64
  {
    assert (x + Paging.TwoTo63) % Paging.TwoTo64 == x + Paging.TwoTo63 - Paging.TwoTo64;
  }

  /** A sum of two int64 values above the int64 range wraps below zero. */
  lemma I64Wraps(x: int)
    requires Strs.MaxInt64 < x <= 2 * Strs.MaxInt64
    ensures Paging.I64(x) == x - Paging.TwoTo64 && Paging.I64(x) < 0
  {
    assert (x + Paging.TwoTo63) % Paging.TwoTo64 == x + Paging.TwoTo63 - Paging.TwoTo64;
  }

  /** For a non-negative page whose window fits in int64, Paginate takes exactly the
      window GoSliceStartEnd computes, so the two agree. */
  lemma PaginateAgreesWithSliceBounds<T>(arr: seq<T>, page: Paging.Page)
    requires |arr| <= Strs.MaxInt64
    requires !page.off && page.page >= 0 && page.perPage >= 0
    requires (page.page + 1) * page.perPage <= Strs.MaxInt64
    ensures var (s, e) := page.GoSliceStartEnd(|arr|);
      0 <= s <= e <= |arr| && Paginate(arr, page) == Returns(arr[s..e])
  {
    Paging.GoSliceStartEndBounds(page, |arr|);
    var n := page.page * page.perPage;
    MulFacts(page.page, page.perPage);
    assert page.Offset() == n;
    assert page.Limit() == page.perPage;
    assert Paging.I64(n) == n;
    if n < |arr| {
      assert Paging.I64(n + page.perPage) == n + page.perPage;
    } else {
      assert Paging.I64(|arr| + page.perPage) == |arr| + page.perPage;
      assert arr[|arr|..|arr|] == [];
    }
  }

  // ---------------------------------------------------------------------- Except

  /** The keys of the elements of xs. */
  function KeysOf<T>(xs: seq<T>, key: T -> string): set<string>
  {
    set i | 0 <= i < |xs| :: key(xs[i])
  }

  /** The elements of base whose key is not in keys, in base order. */
  function Without<T>(base: seq<T>, keys: set<string>, key: T -> string): (r: seq<T>)
    ensures |r| <= |base|
    ensures forall i :: 0 <= i < |r| ==> r[i] in base && key(r[i]) !in keys
    ensures forall i :: 0 <= i < |base| && key(base[i]) !in keys ==> base[i] in r
    decreases |base|
  {
    if base == [] then []
    else
      var last := base[|base| - 1];
      var init := Without(base[..|base| - 1], keys, key);
      assert forall i :: 0 <= i < |base| - 1 ==> base[i] == base[..|base| - 1][i];
      if key(last) in keys then init else init + [last]
  }

  /** Removing nothing keeps the whole list. */
  lemma {:induction false} WithoutNothing<T>(base: seq<T>, keys: set<string>, key: T -> string)
    requires forall i :: 0 <= i < |base| ==> key(base[i]) !in keys
    ensures Without(base, keys, key) == base
    decreases |base|
  {
    if base != [] {
      WithoutNothing(base[..|base| - 1], keys, key);
    }
  }

  /** Except: the elements of base whose key matches no element of except, base order kept. */
  method Except<T>(base: seq<T>, except: seq<T>, key: T -> string) returns (r: seq<T>)
    ensures r == Without(base, KeysOf(except, key), key)
  {
    var exceptKeys: set<string> := {};
    for i := 0 to |except|
      invariant exceptKeys == KeysOf(except[..i], key)
    {
      assert except[..i + 1] == except[..i] + [except[i]];
      exceptKeys := exceptKeys + {key(except[i])};
    }
    assert except[..|except|] == except;
    r := [];
    for i := 0 to |base|
      invariant r == Without(base[..i], exceptKeys, key)
    {
      assert base[..i + 1][..i] == base[..i];
      if key(base[i]) !in exceptKeys {
        r := r + [base[i]];
      }
    }
    assert base[..|base|] == base;
  }

  // --------------------------------------------------- Dedup/Unique/UniqueBy/UniqueOf

  /** The elements of arr whose key did not occur earlier: the first of each key. */
  function FirstByKey<T>(arr: seq<T>, key: T -> string): (r: seq<T>)
    ensures KeysOf(r, key) == KeysOf(arr, key)
    ensures forall i, j :: 0 <= i < j < |r| ==> key(r[i]) != key(r[j])
    ensures forall x :: x in r ==> x in arr
    decreases |arr|
  {
    if arr == [] then []
    else
      var init := arr[..|arr| - 1];
      var last := arr[|arr| - 1];
      var p := FirstByKey(init, key);
      assert KeysOf(arr, key) == KeysOf(init, key) + {key(last)} by {
        assert forall i :: 0 <= i < |init| ==> arr[i] == init[i];
      }
      if key(last) in KeysOf(init, key) then p
      else
        KeysOfAppend(p, [last], key);
        assert KeysOf([last], key) == {key(last)} by {
          assert [last][0] == last;
          assert key([last][0]) in KeysOf([last], key);
        }
        p + [last]
  }

  lemma KeysOfAppend<T>(a: seq<T>, b: seq<T>, key: T -> string)
    ensures KeysOf(a + b, key) == KeysOf(a, key) + KeysOf(b, key)
  {
    var ab := a + b;
    forall k | k in KeysOf(ab, key) ensures k in KeysOf(a, key) + KeysOf(b, key) {
      var i :| 0 <= i < |ab| && key(ab[i]) == k;
      if i >= |a| {
        assert ab[i] == b[i - |a|];
      }
    }
    forall k | k in KeysOf(a, key) + KeysOf(b, key) ensures k in KeysOf(ab, key) {
      if k in KeysOf(a, key) {
        var i :| 0 <= i < |a| && key(a[i]) == k;
        assert ab[i] == a[i];
      } else {
        var i :| 0 <= i < |b| && key(b[i]) == k;
        assert ab[|a| + i] == b[i];
      }
    }
  }

  /** The first element of each key is kept. */
  lemma {:induction false} FirstByKeyKeepsFirst<T>(arr: seq<T>, key: T -> string, i: nat)
    requires i < |arr|
    requires forall j :: 0 <= j < i ==> key(arr[j]) != key(arr[i])
    ensures arr[i] in FirstByKey(arr, key)
    decreases |arr|
  {
    var init := arr[..|arr| - 1];
    if i < |arr| - 1 {
      FirstByKeyKeepsFirst(init, key, i);
    } else {
      assert key(arr[i]) !in KeysOf(init, key) by {
        forall j | 0 <= j < |init| ensures key(init[j]) != key(arr[i]) {
          assert init[j] == arr[j];
        }
      }
    }
  }

  /** UniqueBy: keep an element when its key was not seen before. */
  method UniqueBy<T>(arr: seq<T>, key: T -> string) returns (r: seq<T>)
    ensures r == FirstByKey(arr, key)
  {
    var seen: set<string> := {};
    r := [];
    for i := 0 to |arr|
      invariant r == FirstByKey(arr[..i], key)
      invariant seen == KeysOf(arr[..i], key)
    {
      assert arr[..i + 1][..i] == arr[..i];
      assert arr[..i + 1] == arr[..i] + [arr[i]];
      var k := key(arr[i]);
      if k !in seen {
        r := r + [arr[i]];
        seen := seen + {k};
      }
    }
    assert arr[..|arr|] == arr;
  }

  /** Dedup: the first of each fmt.Sprint text. */
  method Dedup(arr: seq<Value>) returns (r: seq<Value>)
    ensures r == FirstByKey(arr, Values.Sprint)
    ensures forall i, j :: 0 <= i < j < |r| ==> Values.Sprint(r[i]) != Values.Sprint(r[j])
  {
    r := UniqueBy(arr, Values.Sprint);
  }

  /** The key Unique compares by: RFC 3339 for a time, fmt.Sprint otherwise. */
  function UniqueKey(v: Value): string
  {
    if v.Time? then v.rfc3339 else Values.Sprint(v)
  }

  /** Unique: the first of each key, times compared by their RFC 3339 text. */
  method Unique(arr: seq<Value>) returns (r: seq<Value>)
    ensures r == FirstByKey(arr, UniqueKey)
    ensures forall i, j :: 0 <= i < j < |r| ==> UniqueKey(r[i]) != UniqueKey(r[j])
  {
    r := UniqueBy(arr, UniqueKey);
  }

  /** UniqueOf: map every element through fn, keep the first of each fmt.Sprint text. */
  method UniqueOf<T>(arr: seq<T>, fn: T -> Value) returns (r: seq<Value>)
    ensures r == FirstByKey(seq(|arr|, i requires 0 <= i < |arr| => fn(arr[i])), Values.Sprint)
    ensures forall x :: x in r ==> exists i :: 0 <= i < |arr| && x == fn(arr[i])
  {
    var mapped := seq(|arr|, i requires 0 <= i < |arr| => fn(arr[i]));
    r := UniqueBy(mapped, Values.Sprint);
    forall x | x in r
      ensures exists i :: 0 <= i < |arr| && x == fn(arr[i])
    {
      var i :| 0 <= i < |mapped| && mapped[i] == x;
    }
  }

  // ------------------------------------------------------------ mapping helpers

  /** MapInPlace: every slot replaced by its image; the length cannot change. */
  method MapInPlace<T>(arr: array<T>, f: T -> T)
    modifies arr
    ensures forall i :: 0 <= i < arr.Length ==> arr[i] == f(old(arr[i]))
  {
    for i := 0 to arr.Length
      invariant forall k :: 0 <= k < i ==> arr[k] == f(old(arr[k]))
      invariant forall k :: i <= k < arr.Length ==> arr[k] == old(arr[k])
    {
      arr[i] := f(arr[i]);
    }
  }

  /** The index of the first element whose image reports an error, |xs| if none does. */
  function FirstFailure<T, R>(xs: seq<T>, f: T -> (R, Option<Error>)): (k: nat)
    ensures k <= |xs|
    ensures forall i :: 0 <= i < k ==> f(xs[i]).1.None?
    ensures k < |xs| ==> f(xs[k]).1.Some?
    decreases |xs|
  {
    if xs == [] then 0 else if f(xs[0]).1.Some? then 0 else 1 + FirstFailure(xs[1..], f)
  }

  /** MapInPlaceE: slots are rewritten in order up to and including the first one whose
      mapping fails; that slot keeps the value returned with the error, later slots
      are untouched, and the error is returned. */
  method MapInPlaceE<T>(arr: array<T>, f: T -> (T, Option<Error>)) returns (err: Option<Error>)
    modifies arr
    ensures var k := FirstFailure(old(arr[..]), f);
      && err == (if k < arr.Length then f(old(arr[k])).1 else None)
      && (forall i :: 0 <= i < arr.Length && i <= k ==> arr[i] == f(old(arr[i])).0)
      && (forall i :: k < i < arr.Length ==> arr[i] == old(arr[i]))
  {
    ghost var orig := arr[..];
    for i := 0 to arr.Length
      invariant forall k :: 0 <= k < i ==> f(orig[k]).1.None?
      invariant forall k :: 0 <= k < i ==> arr[k] == f(orig[k]).0
      invariant forall k :: i <= k < arr.Length ==> arr[k] == orig[k]
    {
      var (v, e) := f(arr[i]);
      arr[i] := v;
      if e.Some? {
        FirstFailureAt(orig, f, i);
        return e;
      }
    }
    FirstFailureNone(orig, f);
    return None;
  }

  lemma {:induction false} FirstFailureAt<T, R>(xs: seq<T>, f: T -> (R, Option<Error>), i: nat)
    requires i < |xs| && f(xs[i]).1.Some?
    requires forall k :: 0 <= k < i ==> f(xs[k]).1.None?
    ensures FirstFailure(xs, f) == i
    decreases i
  {
    if i > 0 {
      FirstFailureAt(xs[1..], f, i - 1);
    }
  }

  lemma {:induction false} FirstFailureNone<T, R>(xs: seq<T>, f: T -> (R, Option<Error>))
    requires forall k :: 0 <= k < |xs| ==> f(xs[k]).1.None?
    ensures FirstFailure(xs, f) == |xs|
    decreases |xs|
  {
    if xs != [] {
      FirstFailureNone(xs[1..], f);
    }
  }

  /** Map: a new slice holding every image, in order. */
  method Map<T, R>(arr: seq<T>, f: T -> R) returns (ret: seq<R>)
    ensures |ret| == |arr|
    ensures forall i :: 0 <= i < |arr| ==> ret[i] == f(arr[i])
  {
    ret := [];
    for i := 0 to |arr|
      invariant |ret| == i
      invariant forall k :: 0 <= k < i ==> ret[k] == f(arr[k])
    {
      ret := ret + [f(arr[i])];
    }
  }

  /** MapE: a new slice of the images up to and including the first failing one; the
      slots after it keep the zero value; the error is returned. */
  method MapE<T, R>(arr: seq<T>, f: T -> (R, Option<Error>), zero: R) returns (ret: seq<R>, err: Option<Error>)
    ensures |ret| == |arr|
    ensures var k := FirstFailure(arr, f);
      && err == (if k < |arr| then f(arr[k]).1 else None)
      && (forall i :: 0 <= i < |arr| && i <= k ==> ret[i] == f(arr[i]).0)
      && (forall i :: k < i < |arr| ==> ret[i] == zero)
  {
    var out := new R[|arr|](_ => zero);
    for i := 0 to |arr|
      invariant forall k :: 0 <= k < i ==> f(arr[k]).1.None?
      invariant forall k :: 0 <= k < i ==> out[k] == f(arr[k]).0
      invariant forall k :: i <= k < |arr| ==> out[k] == zero
    {
      var (v, e) := f(arr[i]);
      out[i] := v;
      if e.Some? {
        FirstFailureAt(arr, f, i);
        return out[..], e;
      }
    }
    FirstFailureNone(arr, f);
    return out[..], None;
  }

  // ------------------------------------------------------------ Filter, IndexOf

  /** The elements satisfying p, in order. */
  function Filtered<T>(arr: seq<T>, p: T -> bool): (r: seq<T>)
    ensures |r| <= |arr|
    ensures forall i :: 0 <= i < |r| ==> p(r[i])
    decreases |arr|
  {
    if arr == [] then []
    else
      var last := arr[|arr| - 1];
      Filtered(arr[..|arr| - 1], p) + (if p(last) then [last] else [])
  }

  /** Filtered keeps exactly the elements satisfying p: each kept element comes
      from arr, and each element of arr satisfying p is kept. */
  lemma {:induction false} FilteredMembers<T>(arr: seq<T>, p: T -> bool)
    ensures forall x :: x in Filtered(arr, p) ==> x in arr
    ensures forall i :: 0 <= i < |arr| && p(arr[i]) ==> arr[i] in Filtered(arr, p)
    decreases |arr|
  {
    if arr != [] {
      var init := arr[..|arr| - 1];
      FilteredMembers(init, p);
      assert forall i :: 0 <= i < |init| ==> init[i] == arr[i];
      assert forall x :: x in init ==> x in arr;
    }
  }

  /** Filtering twice by the same predicate changes nothing the second time. */
  lemma {:induction false} FilteredIdempotent<T>(arr: seq<T>, p: T -> bool)
    ensures Filtered(Filtered(arr, p), p) == Filtered(arr, p)
  {
    var r := Filtered(arr, p);
    AllSatisfy(r, p);
  }

  /** Nothing is dropped when every element satisfies p. */
  lemma {:induction false} AllSatisfy<T>(arr: seq<T>, p: T -> bool)
    requires forall k :: 0 <= k < |arr| ==> p(arr[k])
    ensures Filtered(arr, p) == arr
    decreases |arr|
  {
    if arr != [] {
      var init := arr[..|arr| - 1];
      assert forall k :: 0 <= k < |init| ==> init[k] == arr[k];
      AllSatisfy(init, p);
      assert init + [arr[|arr| - 1]] == arr;
    }
  }

  /** Filter: keep the elements satisfying the predicate, in order. */
  method Filter<T>(arr: seq<T>, p: T -> bool) returns (r: seq<T>)
    ensures r == Filtered(arr, p)
  {
    r := [];
    for i := 0 to |arr|
      invariant r == Filtered(arr[..i], p)
    {
      assert arr[..i + 1][..i] == arr[..i];
      if p(arr[i]) {
        r := r + [arr[i]];
      }
    }
    assert arr[..|arr|] == arr;
  }

  /** IndexOf: the least index satisfying the predicate, -1 when none does. */
  method IndexOf<T>(arr: seq<T>, p: T -> bool) returns (idx: int)
    ensures -1 <= idx < |arr|
    ensures idx == -1 <==> forall k :: 0 <= k < |arr| ==> !p(arr[k])
    ensures idx >= 0 ==> p(arr[idx]) && forall k :: 0 <= k < idx ==> !p(arr[k])
  {
    for i := 0 to |arr|
      invariant forall k :: 0 <= k < i ==> !p(arr[k])
    {
      if p(arr[i]) {
        return i;
      }
    }
    return -1;
  }

  // ---------------------------------------------------------- FirstN and LastN

  /** FirstN: the first min(n, len) elements. */
  function FirstN<T>(arr: seq<T>, n: int): (r: seq<T>)
    requires n >= 0
    ensures |r| == if n < |arr| then n else |arr|
    ensures r <= arr
  {
    arr[..Min(n, |arr|)]
  }

  /** LastN: the last min(n, len) elements. */
  function LastN<T>(arr: seq<T>, n: int): (r: seq<T>)
    requires n >= 0
    ensures |r| == if n < |arr| then n else |arr|
    ensures r == arr[|arr| - |r|..]
  {
    arr[Max(0, |arr| - n)..]
  }

  /** Splitting at n: the first n and the last len-n elements make up the list. */
  lemma FirstNLastN<T>(arr: seq<T>, n: int)
    requires 0 <= n <= |arr|
    ensures FirstN(arr, n) + LastN(arr, |arr| - n) == arr
  {
    assert arr[..n] + arr[n..] == arr;
  }

  // -------------------------------------------------------- Min/Max/Head/Last

  function Min(a: int, b: int): (r: int)
    ensures r <= a && r <= b && (r == a || r == b)
  {
    if a < b then a else b
  }

  function Max(a: int, b: int): (r: int)
    ensures r >= a && r >= b && (r == a || r == b)
  {
    if a < b then b else a
  }

  /** Head: the first element, or the zero value of an empty slice. */
  function Head<T>(arr: seq<T>, zero: T): (r: T)
    ensures arr != [] ==> r == arr[0]
    ensures arr == [] ==> r == zero
  {
    if |arr| == 0 then zero else arr[0]
  }

  /** Last: the last element, or the zero value of an empty slice. */
  function Last<T>(arr: seq<T>, zero: T): (r: T)
    ensures arr != [] ==> r == arr[|arr| - 1]
    ensures arr == [] ==> r == zero
  {
    if |arr| == 0 then zero else arr[|arr| - 1]
  }

  /** Taking a window first does not change the element at its edge: the head of
      FirstN is the head, the last of LastN is the last. */
  lemma HeadLastOfWindows<T>(arr: seq<T>, n: int, zero: T)
    requires n >= 1
    ensures Head(FirstN(arr, n), zero) == Head(arr, zero)
    ensures Last(LastN(arr, n), zero) == Last(arr, zero)
  {
  }

  // -------------------------------------------------------------- Contains*

  /** Contains: whether some element of b has a's key. */
  method Contains<T>(a: T, b: seq<T>, key: T -> string) returns (found: bool)
    ensures found <==> exists i :: 0 <= i < |b| && key(b[i]) == key(a)
  {
    var sa := key(a);
    for i := 0 to |b|
      invariant forall k :: 0 <= k < i ==> key(b[k]) != sa
    {
      if sa == key(b[i]) {
        return true;
      }
    }
    return false;
  }

  /** Whether an element with x's key occurs in b. */
  predicate Occurs<T>(x: T, b: seq<T>, key: T -> string)
  {
    exists i :: 0 <= i < |b| && key(b[i]) == key(x)
  }

  /** ContainsAny: some element of a occurs in b (false when either is empty). */
  method ContainsAny<T>(a: seq<T>, b: seq<T>, key: T -> string) returns (r: bool)
    ensures r <==> exists i :: 0 <= i < |a| && Occurs(a[i], b, key)
    ensures |a| == 0 || |b| == 0 ==> !r
  {
    if |a| == 0 || |b| == 0 {
      return false;
    }
    for i := 0 to |a|
      invariant forall k :: 0 <= k < i ==> !Occurs(a[k], b, key)
    {
      var c := Contains(a[i], b, key);
      if c {
        return true;
      }
    }
    return false;
  }

  /** ContainsAll as written: false for an empty a, true for an empty b, otherwise
      whether every element of a occurs in b. For a non-empty a and an empty b the
      answer is true although no element of a occurs in b. */
  method ContainsAll<T>(a: seq<T>, b: seq<T>, key: T -> string) returns (r: bool)
    ensures r <==> |a| > 0 && (|b| == 0 || forall i :: 0 <= i < |a| ==> Occurs(a[i], b, key))
    ensures |a| > 0 && |b| == 0 ==> r && forall i :: 0 <= i < |a| ==> !Occurs(a[i], b, key)
  {
    if |a| == 0 {
      return false;
    }
    if |b| == 0 {
      return true;
    }
    r := AllOccur(a, b, key);
  }

  /** ContainsAll as its comment describes it: a is non-empty and every element of a
      occurs in b. */
  method ContainsAllFixed<T>(a: seq<T>, b: seq<T>, key: T -> string) returns (r: bool)
    ensures r <==> |a| > 0 && forall i :: 0 <= i < |a| ==> Occurs(a[i], b, key)
    ensures r ==> |b| > 0
  {
    if |a| == 0 {
      return false;
    }
    r := AllOccur(a, b, key);
    if r {
      assert Occurs(a[0], b, key);
    }
  }

  /** The loop both variants share: every element of a occurs in b. */
  method AllOccur<T>(a: seq<T>, b: seq<T>, key: T -> string) returns (r: bool)
    ensures r <==> forall i :: 0 <= i < |a| ==> Occurs(a[i], b, key)
  {
    for i := 0 to |a|
      invariant forall k :: 0 <= k < i ==> Occurs(a[k], b, key)
    {
      var c := Contains(a[i], b, key);
      if !c {
        return false;
      }
    }
    return true;
  }

  /** ContainsBy: some element of b is related to a. */
  method ContainsBy<T>(a: T, b: seq<T>, fn: (T, T) -> bool) returns (r: bool)
    ensures r <==> exists i :: 0 <= i < |b| && fn(a, b[i])
  {
    for i := 0 to |b|
      invariant forall k :: 0 <= k < i ==> !fn(a, b[k])
    {
      if fn(a, b[i]) {
        return true;
      }
    }
    return false;
  }

  // ------------------------------------------------------------------ Intersect

  /** The elements of b that are in the set, in b's order, duplicates kept. */
  function KeptIn<T>(b: seq<T>, s: set<T>): (r: seq<T>)
    ensures forall i :: 0 <= i < |r| ==> r[i] in b && r[i] in s
    ensures forall i :: 0 <= i < |b| && b[i] in s ==> b[i] in r
    ensures forall i :: 0 <= i < |b| && b[i] in s ==> multiset(r)[b[i]] == multiset(b)[b[i]]
    decreases |b|
  {
    if b == [] then []
    else
      var init := b[..|b| - 1];
      var last := b[|b| - 1];
      assert b == init + [last];
      assert forall i :: 0 <= i < |b| - 1 ==> b[i] == init[i];
      KeptIn(init, s) + (if last in s then [last] else [])
  }

  /** Intersect: the elements of b, in b's order and with b's duplicates, that occur in a. */
  method Intersect<T(==)>(a: seq<T>, b: seq<T>) returns (r: seq<T>)
    ensures r == KeptIn(b, set x | x in a)
    ensures forall i :: 0 <= i < |r| ==> r[i] in a && r[i] in b
    ensures forall i :: 0 <= i < |b| && b[i] in a ==> b[i] in r
  {
    var ma: set<T> := {};
    for i := 0 to |a|
      invariant ma == set x | x in a[..i]
    {
      assert a[..i + 1] == a[..i] + [a[i]];
      ma := ma + {a[i]};
    }
    assert a[..|a|] == a;
    r := [];
    for i := 0 to |b|
      invariant r == KeptIn(b[..i], ma)
    {
      assert b[..i + 1][..i] == b[..i];
      if b[i] in ma {
        r := r + [b[i]];
      }
    }
    assert b[..|b|] == b;
  }

  // ------------------------------------------------------------------ IndexesOf

  /** The indexes j of super whose key equals x's, ascending. */
  function Matches<T>(x: T, super: seq<T>, key: T -> string): (r: seq<int>)
    ensures forall k :: 0 <= k < |r| ==> 0 <= r[k] < |super| && key(super[r[k]]) == key(x)
    ensures r == [] <==> !Occurs(x, super, key)
    decreases |super|
  {
    if super == [] then []
    else
      var init := super[..|super| - 1];
      var m := Matches(x, init, key);
      assert forall j :: 0 <= j < |init| ==> super[j] == init[j];
      if key(super[|super| - 1]) == key(x) then m + [|super| - 1] else m
  }

  /** The matches of every element of sub, one after the other. */
  function AllMatches<T>(sub: seq<T>, super: seq<T>, key: T -> string): seq<int>
    decreases |sub|
  {
    if sub == [] then [] else AllMatches(sub[..|sub| - 1], super, key) + Matches(sub[|sub| - 1], super, key)
  }

  /** The position of the first element of sub with no match, |sub| if all match. */
  function FirstUnmatched<T>(sub: seq<T>, super: seq<T>, key: T -> string): (k: nat)
    ensures k <= |sub|
    ensures forall i :: 0 <= i < k ==> Occurs(sub[i], super, key)
    ensures k < |sub| ==> !Occurs(sub[k], super, key)
    decreases |sub|
  {
    if sub == [] then 0
    else if !Occurs(sub[0], super, key) then 0
    else
      var k := 1 + FirstUnmatched(sub[1..], super, key);
      assert forall i :: 1 <= i < k ==> sub[i] == sub[1..][i - 1];
      k
  }

  lemma {:induction false} FirstUnmatchedAt<T>(sub: seq<T>, super: seq<T>, key: T -> string, i: nat)
    requires i <= |sub|
    requires forall k :: 0 <= k < i ==> Occurs(sub[k], super, key)
    requires i < |sub| ==> !Occurs(sub[i], super, key)
    ensures FirstUnmatched(sub, super, key) == i
    decreases i
  {
    if i > 0 {
      FirstUnmatchedAt(sub[1..], super, key, i - 1);
    }
  }

  /** The inner loop of IndexesOf: every index of super holding x's key, and
      whether there was any. */
  method MatchesIn<T>(x: T, super: seq<T>, key: T -> string) returns (m: seq<int>, find: bool)
    ensures m == Matches(x, super, key)
    ensures find <==> Occurs(x, super, key)
  {
    m, find := [], false;
    for j := 0 to |super|
      invariant find <==> Occurs(x, super[..j], key)
      invariant m == Matches(x, super[..j], key)
    {
      OccursSnoc(x, super, j, key);
      if key(x) == key(super[j]) {
        find := true;
        m := m + [j];
      }
    }
    assert super[..|super|] == super;
  }

  /** One more element of super: x occurs in the longer prefix iff it occurred
      before or the new element has its key; its matches gain that index. */
  lemma OccursSnoc<T>(x: T, super: seq<T>, j: nat, key: T -> string)
    requires j < |super|
    ensures Occurs(x, super[..j + 1], key) <==> Occurs(x, super[..j], key) || key(super[j]) == key(x)
    ensures Matches(x, super[..j + 1], key) ==
            Matches(x, super[..j], key) + (if key(super[j]) == key(x) then [j] else [])
  {
    assert super[..j + 1][..j] == super[..j];
    assert forall t :: 0 <= t < j ==> super[..j + 1][t] == super[..j][t];
  }

  /** IndexesOf: for each element of sub in order, every index of super holding its key;
      it stops at the first element without any, with valid false. */
  method IndexesOf<T>(sub: seq<T>, super: seq<T>, key: T -> string) returns (ret: seq<int>, valid: bool)
    ensures var k := FirstUnmatched(sub, super, key);
      && (valid <==> k == |sub|)
      && ret == AllMatches(sub[..k], super, key)
  {
    ret := [];
    valid := false;
    for i := 0 to |sub|
      invariant forall k :: 0 <= k < i ==> Occurs(sub[k], super, key)
      invariant ret == AllMatches(sub[..i], super, key)
    {
      var m, find := MatchesIn(sub[i], super, key);
      ret := ret + m;
      assert sub[..i + 1][..i] == sub[..i];
      if !find {
        FirstUnmatchedAt(sub, super, key, i);
        return;
      }
    }
    FirstUnmatchedAt(sub, super, key, |sub|);
    assert sub[..|sub|] == sub;
    valid := true;
  }
}
