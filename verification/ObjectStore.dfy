/**
 The S3 bucket as the object handlers see it: a sorted list of objects that answers list and
 delete requests. Everything the store, the network and other clients may do differently from
 one request to the next is in env, an arbitrary function from the request number.
 */
module ObjectStore {
  import opened KeyOrder
  import opened Options

  datatype Object = Object(key: string, size: int)

  /**
   What happens around one request: others may have put anything in the bucket before it, the
   request may fail, a list answer may be shorter than asked, and a delete may refuse keys or,
   when it fails, have deleted some of them all the same.
   */
  datatype Turn = Turn(others: Option<seq<Object>>, fails: bool, pageSize: nat, refuse: set<string>, gone: set<string>)

  datatype Listing = Failed | Listed(contents: seq<Object>, isTruncated: bool)

  datatype Deletion = Refused | Answered(deleted: seq<string>, errors: seq<string>)

  /** Strictly ascending, and no empty key: S3 allows none. */
  ghost predicate Sorted(s: seq<Object>) {
    && (forall i, j :: 0 <= i < j < |s| ==> Less(s[i].key, s[j].key))
    && (forall i :: 0 <= i < |s| ==> s[i].key != "")
  }

  predicate HasPrefix(key: string, prefix: string) {
    prefix <= key
  }

  /** A key is under a prefix exactly when it is the prefix with something, perhaps nothing, behind it. */
  lemma PrefixedKey(key: string, prefix: string)
    ensures HasPrefix(key, prefix) <==> exists rest: string :: key == prefix + rest
  {
    if HasPrefix(key, prefix) {
      assert key == prefix + key[|prefix|..];
    }
  }

  predicate Matches(o: Object, prefix: string, after: string) {
    HasPrefix(o.key, prefix) && (after == "" || Less(after, o.key))
  }

  /** The objects under the prefix and behind the key after ("" for all of them). */
  function Under(s: seq<Object>, prefix: string, after: string): seq<Object> {
    if s == [] then []
    else if Matches(s[0], prefix, after) then [s[0]] + Under(s[1..], prefix, after)
    else Under(s[1..], prefix, after)
  }

  function Without(s: seq<Object>, keys: set<string>): seq<Object> {
    if s == [] then []
    else if s[0].key in keys then Without(s[1..], keys)
    else [s[0]] + Without(s[1..], keys)
  }

  /** The given keys that are, or are not, in a set, in their order. */
  function Pick(keys: seq<string>, chosen: set<string>, wanted: bool): seq<string> {
    if keys == [] then []
    else if (keys[0] in chosen) == wanted then [keys[0]] + Pick(keys[1..], chosen, wanted)
    else Pick(keys[1..], chosen, wanted)
  }

  predicate HasKey(s: seq<Object>, key: string) {
    exists i :: 0 <= i < |s| && s[i].key == key
  }

  lemma {:induction false} PickPartitions(keys: seq<string>, chosen: set<string>)
    ensures multiset(Pick(keys, chosen, true)) + multiset(Pick(keys, chosen, false)) == multiset(keys)
    ensures |Pick(keys, chosen, true)| + |Pick(keys, chosen, false)| == |keys|
    ensures forall k :: k in Pick(keys, chosen, true) <==> k in keys && k in chosen
    ensures forall k :: k in Pick(keys, chosen, false) <==> k in keys && k !in chosen
  {
    if keys != [] {
      assert keys == [keys[0]] + keys[1..];
      PickPartitions(keys[1..], chosen);
    }
  }

  lemma {:induction false} WithoutFacts(s: seq<Object>, keys: set<string>)
    requires Sorted(s)
    ensures Sorted(Without(s, keys))
    ensures forall k :: HasKey(Without(s, keys), k) <==> HasKey(s, k) && k !in keys
    ensures forall o :: o in Without(s, keys) ==> o in s
  {
    if s != [] {
      WithoutFacts(s[1..], keys);
      var rest := Without(s[1..], keys);
      forall j | 0 <= j < |rest| ensures Less(s[0].key, rest[j].key) {
        assert rest[j] in s[1..];
      }
      forall k ensures HasKey(Without(s, keys), k) <==> HasKey(s, k) && k !in keys {
        HasKeyFirst(s, k);
        HasKeyFirst(Without(s, keys), k);
        if s[0].key in keys {
          LessIrreflexive(k);
        } else {
          assert Without(s, keys)[1..] == rest;
        }
      }
    }
  }

  lemma {:induction false} WithoutTwice(s: seq<Object>, a: set<string>, b: set<string>)
    ensures Without(Without(s, a), b) == Without(s, a + b)
  {
    if s != [] {
      WithoutTwice(s[1..], a, b);
    }
  }

  lemma {:induction false} WithoutNone(s: seq<Object>)
    ensures Without(s, {}) == s
  {
    if s != [] {
      WithoutNone(s[1..]);
    }
  }

  lemma HasKeyFirst(s: seq<Object>, key: string)
    ensures HasKey(s, key) <==> s != [] && (s[0].key == key || HasKey(s[1..], key))
  {
    if s != [] && HasKey(s[1..], key) {
      var i :| 0 <= i < |s[1..]| && s[1..][i].key == key;
      assert s[i + 1].key == key;
    }
    if HasKey(s, key) && s[0].key != key {
      var i :| 0 <= i < |s| && s[i].key == key;
      assert s[1..][i - 1].key == key;
    }
  }

  lemma SortedHead(s: seq<Object>)
    requires Sorted(s) && s != []
    ensures Sorted(s[1..]) && forall o :: o in s[1..] ==> Less(s[0].key, o.key)
  {
    forall o | o in s[1..] ensures Less(s[0].key, o.key) {
      var i :| 0 <= i < |s[1..]| && s[1..][i] == o;
      assert o == s[i + 1];
    }
  }

  lemma SortedCons(x: Object, s: seq<Object>)
    requires x.key != "" && Sorted(s) && forall o :: o in s ==> Less(x.key, o.key)
    ensures Sorted([x] + s)
  {
    var all := [x] + s;
    forall i, j | 0 <= i < j < |all| ensures Less(all[i].key, all[j].key) {
      assert all[j] == s[j - 1] && all[j] in s;
      if i > 0 {
        assert all[i] == s[i - 1];
      }
    }
  }

  lemma {:induction false} UnderFacts(s: seq<Object>, prefix: string, after: string)
    requires Sorted(s)
    ensures Sorted(Under(s, prefix, after))
    ensures forall i :: 0 <= i < |Under(s, prefix, after)| ==>
              Under(s, prefix, after)[i] in s && Matches(Under(s, prefix, after)[i], prefix, after)
    ensures forall o :: o in s && Matches(o, prefix, after) ==> o in Under(s, prefix, after)
  {
    if s != [] {
      var rest, all := s[1..], Under(s[1..], prefix, after);
      SortedHead(s);
      UnderFacts(rest, prefix, after);
      if Matches(s[0], prefix, after) {
        forall o | o in all ensures Less(s[0].key, o.key) {
          assert o in rest;
        }
        SortedCons(s[0], all);
      }
    }
  }

  /** When everything lies behind both keys, it does not matter which of them the listing starts after. */
  lemma {:induction false} UnderSame(s: seq<Object>, prefix: string, a: string, b: string)
    requires forall o :: o in s ==> (a == "" || Less(a, o.key)) && (b == "" || Less(b, o.key))
    ensures Under(s, prefix, a) == Under(s, prefix, b)
  {
    if s != [] {
      UnderSame(s[1..], prefix, a, b);
    }
  }

  /** Listing on from the key of a listed object gives exactly what followed it. */
  lemma {:induction false} UnderRest(s: seq<Object>, prefix: string, after: string, j: nat)
    requires Sorted(s) && j < |Under(s, prefix, after)|
    ensures Under(s, prefix, Under(s, prefix, after)[j].key) == Under(s, prefix, after)[j + 1..]
  {
    UnderFacts(s, prefix, after);
    var next := Under(s, prefix, after)[j].key;
    if Matches(s[0], prefix, after) {
      if j == 0 {
        LessIrreflexive(next);
        forall o | o in s[1..] ensures Less(next, o.key) && (after == "" || Less(after, o.key)) {
          var i :| 0 <= i < |s[1..]| && s[1..][i] == o;
          assert o == s[i + 1];
          if after != "" {
            LessTransitive(after, next, o.key);
          }
        }
        UnderSame(s[1..], prefix, after, next);
      } else {
        assert Less(Under(s, prefix, after)[0].key, next);
        LessAsymmetric(s[0].key, next);
        UnderRest(s[1..], prefix, after, j - 1);
      }
    } else {
      if Matches(s[0], prefix, next) {
        LessTransitive(after, next, s[0].key);
      }
      UnderRest(s[1..], prefix, after, j);
    }
  }

  /** Removing objects a listing would not show leaves it unchanged. */
  lemma {:induction false} UnderWithout(s: seq<Object>, keys: set<string>, prefix: string, after: string)
    requires forall o :: o in s && Matches(o, prefix, after) ==> o.key !in keys
    ensures Under(Without(s, keys), prefix, after) == Under(s, prefix, after)
  {
    if s != [] {
      UnderWithout(s[1..], keys, prefix, after);
    }
  }

  /** Once everything listed is removed, nothing is listed. */
  lemma {:induction false} UnderGone(s: seq<Object>, keys: set<string>, prefix: string, after: string)
    requires forall i :: 0 <= i < |Under(s, prefix, after)| ==> Under(s, prefix, after)[i].key in keys
    ensures Under(Without(s, keys), prefix, after) == []
  {
    if s != [] {
      var all := Under(s, prefix, after);
      if Matches(s[0], prefix, after) {
        assert all[0] == s[0];
        assert forall i :: 0 <= i < |all[1..]| ==> all[1..][i] == all[i + 1];
      }
      UnderGone(s[1..], keys, prefix, after);
    }
  }

  /** A bucket. shared says whether anybody else uses it. */
  class Bucket {
    var objects: seq<Object>
    var clock: nat
    const env: nat -> Turn
    const shared: bool
    /** The keys under observation, and those of them that have been absent at some moment since. */
    ghost var watched: set<string>
    ghost var gone: set<string>
    /** Every key this client asked to delete. */
    ghost var requested: set<string>

    ghost predicate Valid()
      reads this
    {
      && Sorted(objects)
      && (forall n :: env(n).others.Some? ==> Sorted(env(n).others.value))
      && (forall k :: k in watched ==> HasKey(objects, k) || k in gone)
    }

    /** No request fails. */
    ghost predicate Reliable() {
      forall n :: !env(n).fails
    }

    /** The objects others leave for the next request. */
    method Interference() returns (t: Turn)
      requires Valid()
      modifies this`objects, this`clock, this`gone
      ensures Valid() && old(gone) <= gone && clock == old(clock) + 1 && t == env(old(clock))
      ensures !shared ==> objects == old(objects)
    {
      t := env(clock);
      clock := clock + 1;
      if shared && t.others.Some? {
        objects := t.others.value;
        gone := gone + set k | k in watched && !HasKey(objects, k);
      }
    }

    /** ListObjectsV2: a page of at most max objects, empty only if there is nothing more. */
    method List(prefix: string, after: string, max: nat) returns (r: Listing)
      requires Valid() && max > 0
      modifies this`objects, this`clock, this`gone
      ensures Valid() && old(gone) <= gone
      ensures !shared ==> objects == old(objects)
      ensures Reliable() ==> r.Listed?
      ensures r.Listed? ==>
                var all := Under(objects, prefix, after);
                && r.contents <= all && |r.contents| <= max
                && r.isTruncated == (|r.contents| < |all|)
                && (r.isTruncated ==> r.contents != [])
    {
      var t := Interference();
      if t.fails {
        return Failed;
      }
      var all := Under(objects, prefix, after);
      var n := if t.pageSize < 1 then 1 else if t.pageSize > max then max else t.pageSize;
      if |all| <= n {
        return Listed(all, false);
      }
      return Listed(all[..n], true);
    }

    /**
     DeleteObjects: an answer says of every key whether it is deleted or in error; a failed
     request may have deleted some keys without saying so.
     */
    method Delete(ids: seq<string>) returns (r: Deletion, ghost removed: set<string>)
      requires Valid()
      modifies this`objects, this`clock, this`gone, this`requested
      ensures Valid() && old(gone) <= gone
      ensures requested == old(requested) + set k | k in ids
      ensures Reliable() ==> r.Answered?
      ensures removed <= (set k | k in ids) && (!shared ==> objects == Without(old(objects), removed))
      ensures r.Answered? ==>
                && multiset(r.deleted) + multiset(r.errors) == multiset(ids)
                && |r.deleted| + |r.errors| == |ids|
                && (forall k :: k in r.deleted ==> k in removed && (k in watched ==> k in gone))
    {
      var t := Interference();
      requested := requested + set k | k in ids;
      var keys := if t.fails then (set k | k in ids) * t.gone else (set k | k in ids) - t.refuse;
      WithoutFacts(objects, keys);
      objects := Without(objects, keys);
      removed := keys;
      gone := gone + set k | k in watched && !HasKey(objects, k);
      if t.fails {
        return Refused, keys;
      }
      PickPartitions(ids, t.refuse);
      r := Answered(Pick(ids, t.refuse, false), Pick(ids, t.refuse, true));
    }
  }
}
