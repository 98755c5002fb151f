/** What the handlers share: their reply shape, the user lookup, and what they ask of
    the database when they list documents (a sort on one field,
    `skip((page - 1) * limit)`, `limit(limit)`) and the page count
    `Math.ceil(total / limit)` they report. */
module Query {
  import opened Text
  import opened Schema

  /** A handler's answer: an error status with its message, or a success status with
      its message and payload. */
  datatype Reply<T> = Fail(status: nat, message: string) | Ok(status: nat, message: string, data: T)

  /** `User.findOne({ userId })`. */
  function FindUser(users: seq<User>, userId: string): (r: Option<User>)
    ensures r.Some? ==> r.value in users && r.value.userId == userId
    ensures r.None? <==> forall i :: 0 <= i < |users| ==> users[i].userId != userId
  {
    if users == [] then None
    else if users[0].userId == userId then Some(users[0])
    else FindUser(users[1..], userId)
  }

  /** A sort key as the database orders values: null before every number. */
  datatype SortKey = NullKey | IntKey(v: int)

  predicate KeyLe(a: SortKey, b: SortKey) {
    a.NullKey? || (b.IntKey? && a.v <= b.v)
  }

  predicate SortedBy<T>(xs: seq<T>, key: T -> SortKey) {
    forall i, j :: 0 <= i < j < |xs| ==> KeyLe(key(xs[i]), key(xs[j]))
  }

  /** Insert `x` into a sorted list, after the elements whose key is not above its own. */
  function InsertBy<T(==)>(x: T, xs: seq<T>, key: T -> SortKey): (r: seq<T>)
    ensures multiset(r) == multiset(xs) + multiset{x}
  {
    if xs == [] then [x]
    else if KeyLe(key(x), key(xs[0])) then [x] + xs
    else
      assert xs == [xs[0]] + xs[1..];
      [xs[0]] + InsertBy(x, xs[1..], key)
  }

  /** Every element of an insertion is the inserted one or an old one. */
  lemma InsertByFrom<T>(x: T, xs: seq<T>, key: T -> SortKey, i: nat)
    requires i < |InsertBy(x, xs, key)|
    ensures InsertBy(x, xs, key)[i] == x || InsertBy(x, xs, key)[i] in xs
  {
    var r := InsertBy(x, xs, key);
    assert r[i] in multiset(r);
  }

  /** Insertion keeps a list sorted. */
  lemma {:induction false} InsertBySorted<T>(x: T, xs: seq<T>, key: T -> SortKey)
    requires SortedBy(xs, key)
    ensures SortedBy(InsertBy(x, xs, key), key)
  {
    if xs != [] && !KeyLe(key(x), key(xs[0])) {
      var tail := xs[1..];
      InsertBySorted(x, tail, key);
      InsertAfterHead(x, xs, key);
    } else if xs != [] {
      InsertAtHead(x, xs, key);
    }
  }

  lemma InsertAtHead<T>(x: T, xs: seq<T>, key: T -> SortKey)
    requires SortedBy(xs, key) && xs != [] && KeyLe(key(x), key(xs[0]))
    ensures SortedBy([x] + xs, key)
  {
    var r := [x] + xs;
    forall i, j | 0 <= i < j < |r| ensures KeyLe(key(r[i]), key(r[j])) {
      if i > 0 {
        assert r[i] == xs[i - 1] && r[j] == xs[j - 1];
      } else if j > 1 {
        assert r[j] == xs[j - 1];
        assert KeyLe(key(xs[0]), key(xs[j - 1]));
      }
    }
  }

  lemma InsertAfterHead<T>(x: T, xs: seq<T>, key: T -> SortKey)
    requires SortedBy(xs, key) && xs != [] && !KeyLe(key(x), key(xs[0]))
    requires SortedBy(InsertBy(x, xs[1..], key), key)
    ensures SortedBy([xs[0]] + InsertBy(x, xs[1..], key), key)
  {
    var tail := xs[1..];
    var rest := InsertBy(x, tail, key);
    forall i | 0 <= i < |rest| ensures KeyLe(key(xs[0]), key(rest[i])) {
      InsertByFrom(x, tail, key, i);
      if rest[i] != x {
        var j :| 0 <= j < |tail| && tail[j] == rest[i];
        assert tail[j] == xs[j + 1];
      }
    }
    var r := [xs[0]] + rest;
    forall i, j | 0 <= i < j < |r| ensures KeyLe(key(r[i]), key(r[j])) {
      assert r[j] == rest[j - 1];
      if i > 0 {
        assert r[i] == rest[i - 1];
      }
    }
  }

  /** `.sort({ field: 1 })` on the key `key`: a sorted permutation of the input. */
  function SortBy<T(==)>(xs: seq<T>, key: T -> SortKey): (r: seq<T>)
    ensures multiset(r) == multiset(xs)
    ensures SortedBy(r, key)
  {
    if xs == [] then []
    else
      assert xs == [xs[0]] + xs[1..];
      var rest := SortBy(xs[1..], key);
      InsertBySorted(xs[0], rest, key);
      InsertBy(xs[0], rest, key)
  }

  /** Different elements have different sort keys. */
  predicate KeysDistinct<T(==)>(xs: seq<T>, key: T -> SortKey) {
    forall a, b :: a in xs && b in xs && key(a) == key(b) ==> a == b
  }

  /** When different elements have different keys, a sorted order is unique: whatever
      order the database picks among equal keys cannot matter, because there are none. */
  lemma {:induction false} SortedPermutationUnique<T>(xs: seq<T>, ys: seq<T>, key: T -> SortKey)
    requires multiset(xs) == multiset(ys)
    requires SortedBy(xs, key) && SortedBy(ys, key) && KeysDistinct(xs, key)
    ensures xs == ys
  {
    assert |xs| == |multiset(xs)| == |multiset(ys)| == |ys|;
    if xs != [] {
      assert xs[0] in multiset(ys) && ys[0] in multiset(xs);
      var k :| 0 <= k < |ys| && ys[k] == xs[0];
      var m :| 0 <= m < |xs| && xs[m] == ys[0];
      assert KeyLe(key(ys[0]), key(xs[0]));
      assert KeyLe(key(xs[0]), key(ys[0]));
      assert xs[0] == ys[0];
      MultisetOfHead(xs);
      MultisetOfHead(ys);
      assert SortedBy(xs[1..], key) by {
        forall i, j | 0 <= i < j < |xs[1..]| ensures KeyLe(key(xs[1..][i]), key(xs[1..][j])) {
          assert xs[1..][i] == xs[i + 1] && xs[1..][j] == xs[j + 1];
        }
      }
      assert SortedBy(ys[1..], key) by {
        forall i, j | 0 <= i < j < |ys[1..]| ensures KeyLe(key(ys[1..][i]), key(ys[1..][j])) {
          assert ys[1..][i] == ys[i + 1] && ys[1..][j] == ys[j + 1];
        }
      }
      assert KeysDistinct(xs[1..], key) by {
        forall a, b | a in xs[1..] && b in xs[1..] && key(a) == key(b) ensures a == b {
          assert a in xs && b in xs;
        }
      }
      SortedPermutationUnique(xs[1..], ys[1..], key);
    }
  }

  lemma MultisetOfHead<T>(xs: seq<T>)
    requires xs != []
    ensures multiset(xs[1..]) == multiset(xs) - multiset{xs[0]}
  {
    assert xs == [xs[0]] + xs[1..];
    assert multiset(xs) == multiset{xs[0]} + multiset(xs[1..]);
  }

  function Min(a: int, b: int): int { if a <= b then a else b }

  function Abs(a: int): nat { if a < 0 then -a else a }

  /** `(pageNumber - 1) * limitNumber`. */
  function Skip(page: int, limit: int): int {
    (page - 1) * limit
  }

  /** `.skip(skip).limit(limit)`: a limit of 0 means no limit, and a negative limit
      returns as many documents as its absolute value. */
  function Window<T>(xs: seq<T>, skip: nat, limit: int): (r: seq<T>)
    ensures limit != 0 ==> |r| == Min(Abs(limit), if skip <= |xs| then |xs| - skip else 0)
    ensures limit == 0 ==> |r| == if skip <= |xs| then |xs| - skip else 0
    ensures forall i :: 0 <= i < |r| ==> skip + i < |xs| && r[i] == xs[skip + i]
  {
    var lo := Min(skip, |xs|);
    var hi := if limit == 0 then |xs| else Min(skip + Abs(limit), |xs|);
    xs[lo..hi]
  }

  /** A window of a sorted list is sorted. */
  lemma WindowSorted<T>(xs: seq<T>, key: T -> SortKey, skip: nat, limit: int)
    requires SortedBy(xs, key)
    ensures SortedBy(Window(xs, skip, limit), key)
  {
    var w := Window(xs, skip, limit);
    forall i, j | 0 <= i < j < |w| ensures KeyLe(key(w[i]), key(w[j])) {
      assert w[i] == xs[skip + i] && w[j] == xs[skip + j];
    }
  }

  /** A window holds only elements of the list it is cut from. */
  lemma WindowFrom<T>(xs: seq<T>, skip: nat, limit: int)
    ensures forall i :: 0 <= i < |Window(xs, skip, limit)| ==> Window(xs, skip, limit)[i] in xs
  {
  }

  /** `Math.ceil(a / b)` for `b != 0`. */
  function CeilDiv(a: int, b: int): (q: int)
    requires b != 0
    ensures b > 0 ==> (q - 1) * b < a <= q * b
    ensures b < 0 ==> q * b <= a < (q - 1) * b
  {
    if b > 0 then
      var k, r := (-a) / b, (-a) % b;
      assert -a == b * k + r && 0 <= r < b;
      assert (-k) * b == a + r;
      -k
    else
      var k, r := a / (-b), a % (-b);
      assert a == (-b) * k + r && 0 <= r < -b;
      assert (-k) * b == a - r;
      -k
  }

  /** The `totalPages` the handlers report: `None` stands for the `Infinity` or `NaN`
      that a limit of 0 gives. */
  function TotalPages(total: nat, limit: int): (r: Option<int>)
    ensures r.Some? <==> limit != 0
    ensures limit > 0 ==> r.value >= 0 && r.value * limit >= total && (r.value - 1) * limit < total
  {
    if limit == 0 then None
    else
      var q := CeilDiv(total, limit);
      CeilDivNonNegative(total, limit);
      Some(q)
  }

  lemma CeilDivNonNegative(a: nat, b: int)
    requires b != 0
    ensures b > 0 ==> CeilDiv(a, b) >= 0
  {
  }

  /** The `pagination` object of a listing reply. */
  datatype Pagination = Pagination(total: nat, page: int, limit: int, totalPages: Option<int>)

  /** Pages `1..n` of size `limit`, one after the other. */
  function Pages<T>(xs: seq<T>, limit: nat, n: nat): seq<T>
    requires limit > 0
  {
    if n == 0 then [] else Pages(xs, limit, n - 1) + Window(xs, Skip(n, limit), limit)
  }

  lemma {:induction false} PagesPrefix<T>(xs: seq<T>, limit: nat, n: nat)
    requires limit > 0
    ensures Pages(xs, limit, n) == xs[..Min(n * limit, |xs|)]
  {
    if n > 0 {
      PagesPrefix(xs, limit, n - 1);
      var a, b := Min((n - 1) * limit, |xs|), Min(n * limit, |xs|);
      assert Skip(n, limit) == (n - 1) * limit;
      assert (n - 1) * limit <= n * limit;
      var w := Window(xs, Skip(n, limit), limit);
      assert w == xs[a..b];
      assert xs[..a] + xs[a..b] == xs[..b];
    }
  }

  /** Reading pages 1 to `totalPages` in turn returns every document exactly once and
      in order. */
  lemma PagesCoverAll<T>(xs: seq<T>, limit: nat)
    requires limit > 0
    ensures Pages(xs, limit, TotalPages(|xs|, limit).value) == xs
  {
    var n := TotalPages(|xs|, limit).value;
    PagesPrefix(xs, limit, n);
    assert Min(n * limit, |xs|) == |xs|;
  }

  /** What pages 1 to |orders| return when each request sorts on its own: page i is
      the window of the order that request saw. */
  function ServedPages<T>(orders: seq<seq<T>>, limit: nat): seq<T>
    requires limit > 0
  {
    if orders == [] then []
    else ServedPages(orders[..|orders| - 1], limit) + Window(orders[|orders| - 1], Skip(|orders|, limit), limit)
  }

  /** When every request sees the same order, the pages served are the pages of that
      order. */
  lemma {:induction false} ServedPagesOneOrder<T>(orders: seq<seq<T>>, xs: seq<T>, limit: nat)
    requires limit > 0
    requires forall i :: 0 <= i < |orders| ==> orders[i] == xs
    ensures ServedPages(orders, limit) == Pages(xs, limit, |orders|)
  {
    if orders != [] {
      ServedPagesOneOrder(orders[..|orders| - 1], xs, limit);
    }
  }

  /** Requests that each see some key-ordered arrangement of `xs`, with no two
      elements sharing a key, together serve `xs` sorted, page after page. */
  lemma ServedPagesSorted<T>(orders: seq<seq<T>>, xs: seq<T>, key: T -> SortKey, limit: nat)
    requires limit > 0 && KeysDistinct(xs, key)
    requires |orders| == TotalPages(|xs|, limit).value
    requires forall i :: 0 <= i < |orders| ==> multiset(orders[i]) == multiset(xs) && SortedBy(orders[i], key)
    ensures ServedPages(orders, limit) == SortBy(xs, key)
  {
    var sorted := SortBy(xs, key);
    assert KeysDistinct(sorted, key) by {
      forall a, b | a in sorted && b in sorted && key(a) == key(b) ensures a == b {
        assert a in multiset(xs) && b in multiset(xs);
      }
    }
    forall i | 0 <= i < |orders| ensures orders[i] == sorted {
      SortedPermutationUnique(sorted, orders[i], key);
    }
    assert |sorted| == |xs| by {
      assert |sorted| == |multiset(sorted)| == |multiset(xs)| == |xs|;
    }
    ServedPagesOneOrder(orders, sorted, limit);
    PagesCoverAll(sorted, limit);
  }

  /** Every page after the last one is empty. */
  lemma PagesBeyondEmpty<T>(xs: seq<T>, limit: nat, page: int)
    requires limit > 0 && page > TotalPages(|xs|, limit).value
    ensures Skip(page, limit) >= |xs| && Window(xs, Skip(page, limit), limit) == []
  {
    var n := TotalPages(|xs|, limit).value;
    MulMonotone(page - 1, n, limit);
  }

  lemma MulMonotone(a: int, b: int, c: nat)
    requires a >= b
    ensures a * c >= b * c
  {
    var d := a - b;
    assert a * c == b * c + d * c;
  }
}
