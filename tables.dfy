/** A database table seen as a sequence of records, and the LINQ operators the
    repositories apply to it: `FirstOrDefault`, `Any`, `Where`, `OrderBy`,
    `Skip`/`Take` and `Count`, plus the primary-key discipline of the store. */
module Tables {

  datatype Option<+T> = None | Some(value: T)

  /** A value, or the message of the `InvalidOperationException` (or store
      exception) the source throws instead. */
  datatype Result<+T> = Ok(value: T) | Err(message: string)

  /** The message of the `DbUpdateConcurrencyException` EF Core throws when
      an update or delete names a key the table does not hold. */
  const NoSuchRow := "Attempted to update or delete an entity that does not exist in the store."

  /** `Save()`: `SaveChanges() >= 0`. `SaveChanges` returns the number of rows
      it wrote, never a negative count, and signals failure by throwing, so
      the comparison is constantly true. */
  function Save(): (ok: bool)
    ensures ok
  {
    true
  }

  /** `Any(P)`: some record of the table satisfies P; never of an empty
      table. */
  predicate Any<T>(s: seq<T>, P: T -> bool): (r: bool)
    ensures r <==> exists x :: x in s && P(x)
    ensures s == [] ==> !r
  {
    exists i :: 0 <= i < |s| && P(s[i])
  }

  /** `FirstOrDefault(P)`, as the position of the first record satisfying P. */
  function FirstWhere<T>(s: seq<T>, P: T -> bool): (r: Option<nat>)
    ensures r.Some? ==> r.value < |s| && P(s[r.value])
    ensures r.Some? ==> forall j :: 0 <= j < r.value ==> !P(s[j])
    ensures r.None? <==> !Any(s, P)
  {
    if s == [] then None
    else if P(s[0]) then Some(0)
    else match FirstWhere(s[1..], P)
      case None => None
      case Some(k) => Some(k + 1)
  }

  /** `Where(P)`: the records satisfying P, each as often as in the table. */
  function Where<T(!new)>(s: seq<T>, P: T -> bool): (r: seq<T>)
    ensures |r| <= |s|
    ensures forall x :: x in r <==> x in s && P(x)
  {
    if s == [] then []
    else
      assert s == [s[0]] + s[1..];
      if P(s[0]) then [s[0]] + Where(s[1..], P) else Where(s[1..], P)
  }

  /** `Where` keeps every record satisfying P as often as the table holds
      it, and no other. */
  lemma {:induction false} WhereMultiset<T(!new)>(s: seq<T>, P: T -> bool)
    ensures forall x :: multiset(Where(s, P))[x] == if P(x) then multiset(s)[x] else 0
  {
    if s != [] {
      assert s == [s[0]] + s[1..];
      WhereMultiset(s[1..], P);
    }
  }

  /** `Where` keeps table order: it distributes over concatenation. */
  lemma {:induction false} WhereAppend<T(!new)>(a: seq<T>, b: seq<T>, P: T -> bool)
    ensures Where(a + b, P) == Where(a, P) + Where(b, P)
  {
    if a != [] {
      var ab := a + b;
      assert ab[0] == a[0] && ab[1..] == a[1..] + b;
      WhereAppend(a[1..], b, P);
      if P(a[0]) {
        calc {
          Where(ab, P);
          [a[0]] + Where(a[1..] + b, P);
          [a[0]] + (Where(a[1..], P) + Where(b, P));
          ([a[0]] + Where(a[1..], P)) + Where(b, P);
        }
      } else {
        assert Where(ab, P) == Where(a[1..] + b, P);
      }
    } else {
      assert a + b == b;
    }
  }

  /** A filter every record passes returns the table itself. */
  lemma {:induction false} WhereAll<T(!new)>(s: seq<T>, P: T -> bool)
    requires forall i :: 0 <= i < |s| ==> P(s[i])
    ensures Where(s, P) == s
  {
    if s != [] {
      WhereAll(s[1..], P);
    }
  }

  /** The primary key of a table: no two records share a key. */
  ghost predicate UniqueKeys<T>(s: seq<T>, key: T -> int) {
    forall i, j :: 0 <= i < j < |s| ==> key(s[i]) != key(s[j])
  }

  /** Under a primary key no record occurs twice. */
  lemma {:induction false} UniqueKeysMultiplicity<T>(s: seq<T>, key: T -> int, x: T)
    requires UniqueKeys(s, key)
    ensures multiset(s)[x] <= 1
  {
    if s != [] {
      assert s == [s[0]] + s[1..];
      UniqueKeysMultiplicity(s[1..], key, x);
      if s[0] == x {
        assert x !in s[1..];
      }
    }
  }

  lemma TwiceInMultiset<T>(t: seq<T>, i: nat, j: nat)
    requires i < j < |t| && t[i] == t[j]
    ensures multiset(t)[t[i]] >= 2
  {
    assert t == t[..j] + t[j..];
    assert t[i] == t[..j][i] && t[j] == t[j..][0];
  }

  /** Reordering a table keeps its primary key a key. */
  lemma PermutationKeepsUniqueKeys<T>(s: seq<T>, t: seq<T>, key: T -> int)
    requires UniqueKeys(s, key) && multiset(t) == multiset(s)
    ensures UniqueKeys(t, key)
  {
    forall i, j | 0 <= i < j < |t| ensures key(t[i]) != key(t[j]) {
      if key(t[i]) == key(t[j]) {
        assert t[i] in multiset(s) && t[j] in multiset(s);
        var a :| 0 <= a < |s| && s[a] == t[i];
        var b :| 0 <= b < |s| && s[b] == t[j];
        if a == b {
          TwiceInMultiset(t, i, j);
          UniqueKeysMultiplicity(s, key, t[i]);
        }
        assert false;
      }
    }
  }

  /** `FirstOrDefault(x => x.Id == k)`: under a primary key, the one position
      holding key k. */
  function IndexOfKey<T>(s: seq<T>, key: T -> int, k: int): (r: Option<nat>)
    ensures r.Some? ==> r.value < |s| && key(s[r.value]) == k
    ensures r.None? <==> forall i :: 0 <= i < |s| ==> key(s[i]) != k
    ensures r.Some? && UniqueKeys(s, key) ==>
              forall i :: 0 <= i < |s| && key(s[i]) == k ==> i == r.value
  {
    var r := FirstWhere(s, x => key(x) == k);
    assert r.None? <==> forall i :: 0 <= i < |s| ==> key(s[i]) != k;
    r
  }

  /** EF `Update(x)` followed by `SaveChanges`: the row holding x's key is
      replaced by x; with no such row the store refuses the update. */
  function ReplaceByKey<T>(s: seq<T>, key: T -> int, x: T): (r: Option<seq<T>>)
    ensures r.None? <==> forall i :: 0 <= i < |s| ==> key(s[i]) != key(x)
    ensures r.Some? ==> var i := IndexOfKey(s, key, key(x)).value;
              && |r.value| == |s| && r.value[i] == x
              && forall j :: 0 <= j < |s| && j != i ==> r.value[j] == s[j]
  {
    match IndexOfKey(s, key, key(x))
    case None => None
    case Some(i) => Some(s[i := x])
  }

  /** EF `Remove(x)` followed by `SaveChanges`: the row holding key k goes,
      the others keep their order; with no such row the store refuses. */
  function RemoveByKey<T>(s: seq<T>, key: T -> int, k: int): (r: Option<seq<T>>)
    ensures r.None? <==> forall i :: 0 <= i < |s| ==> key(s[i]) != k
    ensures r.Some? ==> var i := IndexOfKey(s, key, k).value;
              r.value == s[..i] + s[i + 1..]
  {
    match IndexOfKey(s, key, k)
    case None => None
    case Some(i) => Some(s[..i] + s[i + 1..])
  }

  /** Replacing a row by one with the same key keeps the key a key. */
  lemma ReplaceKeepsUniqueKeys<T>(s: seq<T>, key: T -> int, x: T)
    requires UniqueKeys(s, key) && ReplaceByKey(s, key, x).Some?
    ensures UniqueKeys(ReplaceByKey(s, key, x).value, key)
    ensures forall j :: 0 <= j < |s| ==> key(ReplaceByKey(s, key, x).value[j]) == key(s[j])
  {
  }

  /** Under a primary key, removing key k leaves no row with key k, and
      removes exactly one row. */
  lemma RemoveByKeyFacts<T>(s: seq<T>, key: T -> int, k: int)
    requires UniqueKeys(s, key) && RemoveByKey(s, key, k).Some?
    ensures var r := RemoveByKey(s, key, k).value;
            && UniqueKeys(r, key)
            && |r| == |s| - 1
            && (forall j :: 0 <= j < |r| ==> key(r[j]) != k)
            && multiset(r) == multiset(s) - multiset{s[IndexOfKey(s, key, k).value]}
  {
    var i := IndexOfKey(s, key, k).value;
    RemoveAtKeepsUniqueKeys(s, key, i);
    RemoveAtMultiset(s, i);
  }

  /** Cutting out the row at position i keeps the key a key, and leaves no
      row with that row's key. */
  lemma RemoveAtKeepsUniqueKeys<T>(s: seq<T>, key: T -> int, i: nat)
    requires UniqueKeys(s, key) && i < |s|
    ensures var r := s[..i] + s[i + 1..];
            && UniqueKeys(r, key)
            && forall j :: 0 <= j < |r| ==> key(r[j]) != key(s[i])
  {
    var r := s[..i] + s[i + 1..];
    forall a, b | 0 <= a < b < |r| ensures key(r[a]) != key(r[b]) {
      var a', b' := if a < i then a else a + 1, if b < i then b else b + 1;
      assert r[a] == s[a'] && r[b] == s[b'];
    }
    forall j | 0 <= j < |r| ensures key(r[j]) != key(s[i]) {
      var j' := if j < i then j else j + 1;
      assert r[j] == s[j'];
    }
  }

  /** Appending a row whose key is above every key in the table keeps the
      key a key. */
  lemma AppendFreshKeepsUniqueKeys<T>(s: seq<T>, key: T -> int, x: T)
    requires UniqueKeys(s, key)
    requires forall i :: 0 <= i < |s| ==> key(s[i]) < key(x)
    ensures UniqueKeys(s + [x], key)
  {
  }

  /** Removing the record at a position drops exactly that record. */
  lemma RemoveAtMultiset<T>(s: seq<T>, i: nat)
    requires i < |s|
    ensures multiset(s[..i] + s[i + 1..]) == multiset(s) - multiset{s[i]}
  {
    assert s == s[..i] + [s[i]] + s[i + 1..];
  }

  /** `x` comes no later than `y` in the order `leq` (`OrderBy`). */
  ghost predicate TotalPreorder<T(!new)>(leq: (T, T) -> bool) {
    && (forall x, y :: leq(x, y) || leq(y, x))
    && (forall x, y, z :: leq(x, y) && leq(y, z) ==> leq(x, z))
  }

  ghost predicate Sorted<T>(s: seq<T>, leq: (T, T) -> bool) {
    forall i, j :: 0 <= i < j < |s| ==> leq(s[i], s[j])
  }

  function Insert<T(!new)>(x: T, s: seq<T>, leq: (T, T) -> bool): (r: seq<T>)
    requires TotalPreorder(leq) && Sorted(s, leq)
    ensures Sorted(r, leq)
    ensures multiset(r) == multiset(s) + multiset{x}
  {
    if s == [] then [x]
    else if leq(x, s[0]) then
      assert forall j :: 0 <= j < |s| ==> leq(x, s[j]);
      [x] + s
    else
      var t := Insert(x, s[1..], leq);
      assert s == [s[0]] + s[1..];
      InsertHeadBound(x, s, t, leq);
      [s[0]] + t
  }

  lemma InsertHeadBound<T(!new)>(x: T, s: seq<T>, t: seq<T>, leq: (T, T) -> bool)
    requires TotalPreorder(leq) && Sorted(s, leq) && s != [] && !leq(x, s[0])
    requires multiset(t) == multiset(s[1..]) + multiset{x}
    ensures forall j :: 0 <= j < |t| ==> leq(s[0], t[j])
  {
    forall j | 0 <= j < |t| ensures leq(s[0], t[j]) {
      assert t[j] in multiset(t);
      if t[j] != x {
        assert t[j] in multiset(s[1..]);
        var k :| 0 <= k < |s[1..]| && s[1..][k] == t[j];
        assert s[k + 1] == t[j];
      }
    }
  }

  /** `OrderBy`: a permutation of the table, sorted by `leq`. */
  function SortBy<T(!new)>(s: seq<T>, leq: (T, T) -> bool): (r: seq<T>)
    requires TotalPreorder(leq)
    ensures Sorted(r, leq)
    ensures multiset(r) == multiset(s)
    ensures |r| == |s|
  {
    if s == [] then []
    else
      assert s == [s[0]] + s[1..];
      var r := Insert(s[0], SortBy(s[1..], leq), leq);
      assert |r| == |multiset(r)| == |multiset(s)| == |s|;
      r
  }

  function Min(a: int, b: int): int { if a <= b then a else b }

  /** `Skip(n)`: a negative count skips nothing and a count past the end
      leaves nothing (`SkipTakeShape`). */
  function Skip<T>(s: seq<T>, n: int): seq<T> {
    if n <= 0 then s else if n >= |s| then [] else s[n..]
  }

  /** `Take(n)`: a negative count takes nothing and a count past the end
      takes everything (`SkipTakeShape`). */
  function Take<T>(s: seq<T>, n: int): seq<T> {
    if n <= 0 then [] else if n >= |s| then s else s[..n]
  }

  /** `Take(n)` is the prefix of the first `n` records, clamped to the
      table, and `Skip(n)` is the suffix after it: together they give back
      the table. */
  lemma SkipTakeShape<T>(s: seq<T>, n: int)
    ensures n <= 0 ==> Skip(s, n) == s && Take(s, n) == []
    ensures n > 0 ==> |Take(s, n)| == Min(n, |s|) && |Skip(s, n)| == |s| - Min(n, |s|)
    ensures Take(s, n) == s[..|Take(s, n)|] && Skip(s, n) == s[|s| - |Skip(s, n)|..]
    ensures Take(s, n) + Skip(s, n) == s
  {
  }

  /** The number of records before page `page`: `(page - 1) * size`. */
  function PageOffset(page: int, size: int): (off: nat)
    requires page >= 1 && size >= 1
    ensures off == (page - 1) * size
  {
    MulMonotone(0, page - 1, size);
    (page - 1) * size
  }

  /** `Skip((page - 1) * size).Take(size)`: the window of at most `size`
      records starting at offset `(page - 1) * size`, empty when that offset
      is past the end. */
  function Page<T>(s: seq<T>, page: int, size: int): (r: seq<T>)
    requires page >= 1 && size >= 1
    ensures |r| <= size
    ensures var off := PageOffset(page, size);
            && (off >= |s| ==> r == [])
            && (off < |s| ==> |r| == Min(size, |s| - off))
            && forall i :: 0 <= i < |r| ==> r[i] == s[off + i]
  {
    Take(Skip(s, PageOffset(page, size)), size)
  }

  /** Integer ceiling of `a / b`, which `Math.Ceiling(a / (double)b)` computes
      exactly for 32-bit operands. */
  function CeilDiv(a: nat, b: int): (r: nat)
    requires b >= 1
    ensures r * b >= a && (r - 1) * b < a
  {
    if a % b == 0 then a / b else a / b + 1
  }

  /** Page k is the slice of the table from its offset to `size` records
      further, cut at the end of the table. */
  lemma PageSlice<T>(s: seq<T>, page: int, size: int)
    requires page >= 1 && size >= 1
    ensures var off := PageOffset(page, size);
            Page(s, page, size) == s[Min(off, |s|)..Min(off + size, |s|)]
  {
  }

  /** Pages 1..k concatenated. */
  function AllPages<T>(s: seq<T>, size: int, k: nat): seq<T>
    requires size >= 1
  {
    if k == 0 then [] else AllPages(s, size, k - 1) + Page(s, k, size)
  }

  /** The first k pages are the first k * size records. */
  lemma {:induction false} AllPagesPrefix<T>(s: seq<T>, size: int, k: nat)
    requires size >= 1
    ensures AllPages(s, size, k) == s[..Min(k * size, |s|)]
  {
    if k > 0 {
      AllPagesPrefix(s, size, k - 1);
      var off := PageOffset(k, size);
      assert k * size == off + size;
      PageSlice(s, k, size);
    }
  }

  /** Concatenating pages 1..ceil(n / size) gives back the whole table. */
  lemma PagesCoverTable<T>(s: seq<T>, size: int)
    requires size >= 1
    ensures AllPages(s, size, CeilDiv(|s|, size)) == s
  {
    AllPagesPrefix(s, size, CeilDiv(|s|, size));
  }

  lemma MulMonotone(a: int, b: int, c: nat)
    requires a <= b
    ensures a * c <= b * c
  {
  }

  /** A page has records exactly when its number is at most the page count. */
  lemma PageNonEmptyIff<T>(s: seq<T>, page: int, size: int)
    requires page >= 1 && size >= 1
    ensures Page(s, page, size) != [] <==> page <= CeilDiv(|s|, size)
  {
    var n := CeilDiv(|s|, size);
    if page <= n {
      MulMonotone(page - 1, n - 1, size);
    } else {
      MulMonotone(n, page - 1, size);
    }
  }
}
