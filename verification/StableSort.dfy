/**
 Go's sort.SliceStable and sort.Slice as used on rows that belong to a node: by node ID and
 then by a number, rows with equal keys keeping their order.
 */
module StableSort {
  import opened KeyOrder

  datatype Row<T> = Row(node: string, id: int, val: T)

  predicate Precedes<T>(a: Row<T>, b: Row<T>) {
    Less(a.node, b.node) || (a.node == b.node && a.id < b.id)
  }

  function Insert<T>(x: Row<T>, s: seq<Row<T>>): seq<Row<T>> {
    if s == [] || Precedes(x, s[0]) then [x] + s else [s[0]] + Insert(x, s[1..])
  }

  /** Inserting the rows one by one, each behind those with the same key. */
  function Sort<T>(s: seq<Row<T>>): seq<Row<T>> {
    if s == [] then [] else Insert(s[|s| - 1], Sort(s[..|s| - 1]))
  }

  ghost predicate Sorted<T>(s: seq<Row<T>>) {
    forall i, j :: 0 <= i < j < |s| ==> !Precedes(s[j], s[i])
  }

  /** The values of the rows with one key, in order. */
  function Group<T>(s: seq<Row<T>>, node: string, id: int): seq<T> {
    if s == [] then []
    else (if s[0].node == node && s[0].id == id then [s[0].val] else []) + Group(s[1..], node, id)
  }

  lemma PrecedesOrder<T>(a: Row<T>, b: Row<T>, c: Row<T>)
    ensures Precedes(a, b) && !Precedes(c, b) ==> Precedes(a, c)
    ensures !Precedes(b, a) && !Precedes(c, b) ==> !Precedes(c, a)
    ensures Precedes(a, b) ==> !Precedes(b, a)
    ensures !Precedes(a, b) && !Precedes(b, a) ==> a.node == b.node && a.id == b.id
  {
    LessTotal(a.node, b.node);
    LessTotal(b.node, c.node);
    LessIrreflexive(a.node);
    if Less(a.node, b.node) && Less(b.node, c.node) {
      LessTransitive(a.node, b.node, c.node);
    }
    if Less(c.node, a.node) && Less(a.node, b.node) {
      LessTransitive(c.node, a.node, b.node);
    }
    if Less(c.node, b.node) && Less(b.node, a.node) {
      LessTransitive(c.node, b.node, a.node);
    }
    if Less(b.node, c.node) && Less(c.node, a.node) {
      LessTransitive(b.node, c.node, a.node);
    }
    if Less(a.node, b.node) {
      LessAsymmetric(a.node, b.node);
    }
    if Less(b.node, c.node) {
      LessAsymmetric(b.node, c.node);
    }
    if Less(c.node, a.node) {
      LessAsymmetric(c.node, a.node);
    }
    if Less(a.node, c.node) {
      LessAsymmetric(a.node, c.node);
    }
  }

  lemma {:induction false} InsertIsPermutation<T>(x: Row<T>, s: seq<Row<T>>)
    ensures multiset(Insert(x, s)) == multiset(s) + multiset{x}
  {
    if s != [] && !Precedes(x, s[0]) {
      InsertIsPermutation(x, s[1..]);
      assert s == [s[0]] + s[1..];
    }
  }

  lemma {:induction false} InsertKeepsSorted<T>(x: Row<T>, s: seq<Row<T>>)
    requires Sorted(s)
    ensures Sorted(Insert(x, s))
  {
    if s == [] {
    } else if Precedes(x, s[0]) {
      forall j | 0 <= j < |s| ensures !Precedes(s[j], x) {
        PrecedesOrder(x, s[0], s[j]);
        PrecedesOrder(x, s[j], s[j]);
        PrecedesOrder(s[0], s[0], s[0]);
      }
    } else {
      InsertKeepsSorted(x, s[1..]);
      InsertIsPermutation(x, s[1..]);
      var rest := Insert(x, s[1..]);
      forall j | 0 <= j < |rest| ensures !Precedes(rest[j], s[0]) {
        assert rest[j] in multiset(rest);
        if rest[j] != x {
          assert rest[j] in s[1..];
        }
      }
    }
  }

  lemma {:induction false} InsertGroup<T>(x: Row<T>, s: seq<Row<T>>, node: string, id: int)
    requires Sorted(s)
    ensures Group(Insert(x, s), node, id) == Group(s, node, id) + if x.node == node && x.id == id then [x.val] else []
  {
    if s == [] {
    } else if Precedes(x, s[0]) {
      GroupNone(x, s, node, id);
      assert ([x] + s)[1..] == s;
    } else {
      InsertGroup(x, s[1..], node, id);
      assert ([s[0]] + Insert(x, s[1..]))[1..] == Insert(x, s[1..]);
    }
  }

  /** Nothing in a sorted list has the key of a row that comes before its first. */
  lemma {:induction false} GroupNone<T>(x: Row<T>, s: seq<Row<T>>, node: string, id: int)
    requires Sorted(s) && s != [] && Precedes(x, s[0])
    ensures x.node == node && x.id == id ==> Group(s, node, id) == []
  {
    if |s| > 1 {
      PrecedesOrder(x, s[0], s[1]);
      GroupNone(x, s[1..], node, id);
    }
    LessIrreflexive(x.node);
  }

  /** Inserting one more row into the sorted rows gives the sorted rows of the longer list. */
  lemma InsertFacts<T>(x: Row<T>, sorted: seq<Row<T>>, s: seq<Row<T>>, node: string, id: int)
    requires Sorted(sorted) && multiset(sorted) == multiset(s) && Group(sorted, node, id) == Group(s, node, id)
    ensures var all := Insert(x, sorted);
            && Sorted(all)
            && multiset(all) == multiset(s + [x])
            && Group(all, node, id) == Group(s + [x], node, id)
  {
    InsertIsPermutation(x, sorted);
    InsertKeepsSorted(x, sorted);
    InsertGroup(x, sorted, node, id);
    GroupConcat(s, [x], node, id);
    GroupOne(x, node, id);
  }

  lemma GroupOne<T>(x: Row<T>, node: string, id: int)
    ensures Group([x], node, id) == if x.node == node && x.id == id then [x.val] else []
  {
  }

  lemma {:induction false} SortFacts<T>(s: seq<Row<T>>, node: string, id: int)
    ensures Sorted(Sort(s))
    ensures multiset(Sort(s)) == multiset(s)
    ensures Group(Sort(s), node, id) == Group(s, node, id)
  {
    if s != [] {
      var n := |s| - 1;
      var front, x := s[..n], s[n];
      SortFacts(front, node, id);
      InsertFacts(x, Sort(front), front, node, id);
      assert s == front + [x];
    }
  }

  lemma {:induction false} GroupConcat<T>(a: seq<Row<T>>, b: seq<Row<T>>, node: string, id: int)
    ensures Group(a + b, node, id) == Group(a, node, id) + Group(b, node, id)
  {
    if a == [] {
      assert a + b == b;
    } else {
      assert (a + b)[1..] == a[1..] + b;
      GroupConcat(a[1..], b, node, id);
    }
  }

  lemma GroupHead<T>(s: seq<Row<T>>)
    requires s != []
    ensures Group(s, s[0].node, s[0].id) != []
  {
  }

  lemma GroupTail<T>(s: seq<Row<T>>, node: string, id: int)
    requires s != []
    ensures Group(s[1..], node, id)
         == if s[0].node == node && s[0].id == id then Group(s, node, id)[1..] else Group(s, node, id)
  {
    var head: seq<T> := [s[0].val];
    assert (head + Group(s[1..], node, id))[1..] == Group(s[1..], node, id);
    var none: seq<T> := [];
    assert none + Group(s[1..], node, id) == Group(s[1..], node, id);
  }

  /** A sorted list is determined by its groups. */
  lemma {:induction false} SortedUnique<T(!new)>(a: seq<Row<T>>, b: seq<Row<T>>)
    requires Sorted(a) && Sorted(b)
    requires forall node, id :: Group(a, node, id) == Group(b, node, id)
    ensures a == b
    decreases |a| + |b|
  {
    if a == [] || b == [] {
      if a != [] {
        GroupHead(a);
      }
      if b != [] {
        GroupHead(b);
      }
    } else {
      FirstInOther(a, b);
      FirstInOther(b, a);
      PrecedesOrder(a[0], b[0], b[0]);
      PrecedesOrder(b[0], a[0], a[0]);
      var x, y := a[0], b[0];
      assert x.node == y.node && x.id == y.id;
      assert Group(a, x.node, x.id)[0] == x.val && Group(b, x.node, x.id)[0] == y.val;
      forall node, id ensures Group(a[1..], node, id) == Group(b[1..], node, id) {
        GroupTail(a, node, id);
        GroupTail(b, node, id);
      }
      SortedUnique(a[1..], b[1..]);
      assert a == [x] + a[1..] && b == [y] + b[1..];
    }
  }

  /** The first row of one list does not come after the first of the other. */
  lemma FirstInOther<T(!new)>(a: seq<Row<T>>, b: seq<Row<T>>)
    requires Sorted(b) && a != [] && b != []
    requires forall node, id :: Group(a, node, id) == Group(b, node, id)
    ensures !Precedes(a[0], b[0])
  {
    GroupHead(a);
    if Precedes(a[0], b[0]) {
      GroupNone(a[0], b, a[0].node, a[0].id);
    }
  }

  lemma {:induction false} GroupMembers<T>(s: seq<Row<T>>, node: string, id: int, v: T)
    ensures v in Group(s, node, id) <==> Row(node, id, v) in s
  {
    if s != [] {
      GroupMembers(s[1..], node, id, v);
      assert Row(node, id, v) in s <==> s[0] == Row(node, id, v) || Row(node, id, v) in s[1..];
    }
  }
}
