/** The two MongoDB aggregations the statistics route uses: `distinct` on a
    field, and a `$group` by a field with `$sum: 1`. */
module Aggregate {
  import opened Common

  function Occurrences<T(==)>(s: seq<T>, x: T): nat
  {
    if s == [] then 0 else (if s[0] == x then 1 else 0) + Occurrences(s[1..], x)
  }

  lemma {:induction false} OccurrencesAbsent<T>(s: seq<T>, x: T)
    requires x !in s
    ensures Occurrences(s, x) == 0
  {
    if s != [] {
      OccurrencesAbsent(s[1..], x);
    }
  }

  lemma {:induction false} OccurrencesAppend<T>(s: seq<T>, y: T, x: T)
    ensures Occurrences(s + [y], x) == Occurrences(s, x) + (if y == x then 1 else 0)
  {
    if s != [] {
      assert (s + [y])[1..] == s[1..] + [y];
      OccurrencesAppend(s[1..], y, x);
    }
  }

  /** `distinct`: each value of the input once. */
  function Distinct<T(==)>(s: seq<T>): (r: seq<T>)
    ensures NoDuplicates(r)
    ensures forall k :: 0 <= k < |s| ==> s[k] in r
    ensures forall k :: 0 <= k < |r| ==> r[k] in s
    ensures |r| <= |s|
  {
    if s == [] then []
    else
      var rest := Distinct(s[1..]);
      if s[0] in rest then rest else [s[0]] + rest
  }

  /** One output document of `$group`: a key and the number of its inputs. */
  datatype Bucket<T> = Bucket(key: T, count: nat)

  function Total<T>(bs: seq<Bucket<T>>): nat
  {
    if bs == [] then 0 else bs[0].count + Total(bs[1..])
  }

  /** The count of key `x`, zero when no bucket has that key. */
  function CountOf<T(==)>(bs: seq<Bucket<T>>, x: T): nat
  {
    if bs == [] then 0 else if bs[0].key == x then bs[0].count else CountOf(bs[1..], x)
  }

  /** The keys of the groups, in order. */
  function Keys<T>(bs: seq<Bucket<T>>): seq<T>
  {
    if bs == [] then [] else [bs[0].key] + Keys(bs[1..])
  }

  /** Adds one input with key `x`. */
  function Bump<T(==)>(bs: seq<Bucket<T>>, x: T): seq<Bucket<T>>
  {
    if bs == [] then [Bucket(x, 1)]
    else if bs[0].key == x then [bs[0].(count := bs[0].count + 1)] + bs[1..]
    else [bs[0]] + Bump(bs[1..], x)
  }

  /** `$group: { _id: <key>, count: { $sum: 1 } }` over the keys of the inputs. */
  function Tally<T(==)>(s: seq<T>): seq<Bucket<T>>
  {
    if s == [] then [] else Bump(Tally(s[1..]), s[0])
  }

  lemma {:induction false} BumpTotal<T>(bs: seq<Bucket<T>>, x: T)
    ensures Total(Bump(bs, x)) == Total(bs) + 1
  {
    if bs != [] && bs[0].key != x {
      BumpTotal(bs[1..], x);
      assert Bump(bs, x)[1..] == Bump(bs[1..], x);
    } else if bs != [] {
      assert Bump(bs, x)[1..] == bs[1..];
    }
  }

  lemma {:induction false} BumpCount<T>(bs: seq<Bucket<T>>, x: T, y: T)
    ensures CountOf(Bump(bs, x), y) == CountOf(bs, y) + (if y == x then 1 else 0)
  {
    if bs != [] && bs[0].key != x {
      BumpCount(bs[1..], x, y);
      assert Bump(bs, x)[1..] == Bump(bs[1..], x);
    } else if bs != [] {
      assert Bump(bs, x)[1..] == bs[1..];
    }
  }

  /** Adding an input adds its key to the set of group keys, at the end when new. */
  lemma {:induction false} BumpKeys<T>(bs: seq<Bucket<T>>, x: T)
    ensures Keys(Bump(bs, x)) == if x in Keys(bs) then Keys(bs) else Keys(bs) + [x]
  {
    if bs != [] && bs[0].key != x {
      BumpKeys(bs[1..], x);
      assert Bump(bs, x)[1..] == Bump(bs[1..], x);
      assert Keys(bs) == [bs[0].key] + Keys(bs[1..]);
      assert x in Keys(bs) <==> x in Keys(bs[1..]);
    } else if bs != [] {
      assert Bump(bs, x)[1..] == bs[1..];
    }
  }

  lemma {:induction false} BumpPositive<T>(bs: seq<Bucket<T>>, x: T)
    requires forall i :: 0 <= i < |bs| ==> bs[i].count > 0
    ensures forall i :: 0 <= i < |Bump(bs, x)| ==> Bump(bs, x)[i].count > 0
  {
    if bs != [] && bs[0].key != x {
      BumpPositive(bs[1..], x);
      assert Bump(bs, x)[1..] == Bump(bs[1..], x);
    }
  }

  lemma NoDuplicatesExtend<T>(s: seq<T>, x: T)
    requires NoDuplicates(s)
    ensures NoDuplicates(if x in s then s else s + [x])
  {
  }

  /** A sequence without duplicates has as many values as elements. */
  lemma {:induction false} NoDuplicatesCard<T>(s: seq<T>)
    requires NoDuplicates(s)
    ensures |set x | x in s| == |s|
  {
    if s != [] {
      var t := s[1..];
      forall i, j | 0 <= i < j < |t| ensures t[i] != t[j] {
        assert t[i] == s[i + 1] && t[j] == s[j + 1];
      }
      NoDuplicatesCard(t);
      forall k | 0 <= k < |t| ensures t[k] != s[0] {
        assert t[k] == s[k + 1];
      }
      assert (set x | x in s) == {s[0]} + (set x | x in t);
    }
  }

  /** `distinct` returns one element per value of its input. */
  lemma DistinctCard<T>(s: seq<T>)
    ensures |Distinct(s)| == |set x | x in s|
  {
    var r := Distinct(s);
    NoDuplicatesCard(r);
    assert (set x | x in r) == (set x | x in s);
  }

  /** The groups of `$group` have distinct keys, none is empty, the count of
      each value equals its number of occurrences, a value has a group exactly
      when it occurs, and the counts sum to the number of inputs. */
  lemma {:induction false} TallyFacts<T>(s: seq<T>)
    ensures NoDuplicates(Keys(Tally(s)))
    ensures forall i :: 0 <= i < |Tally(s)| ==> Tally(s)[i].count > 0
    ensures forall x :: CountOf(Tally(s), x) == Occurrences(s, x)
    ensures forall x :: x in Keys(Tally(s)) <==> x in s
    ensures Total(Tally(s)) == |s|
  {
    if s != [] {
      var rest := Tally(s[1..]);
      TallyFacts(s[1..]);
      BumpTotal(rest, s[0]);
      BumpKeys(rest, s[0]);
      BumpPositive(rest, s[0]);
      NoDuplicatesExtend(Keys(rest), s[0]);
      forall x ensures CountOf(Tally(s), x) == Occurrences(s, x) {
        BumpCount(rest, s[0], x);
      }
      forall x ensures x in s <==> x == s[0] || x in s[1..] {
        if x in s && x != s[0] {
          var i :| 0 <= i < |s| && s[i] == x;
          assert s[1..][i - 1] == x;
        }
      }
    }
  }
}
