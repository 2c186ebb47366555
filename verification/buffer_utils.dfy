/**
 * Models of the two helpers that refTx.js imports from utils/bufferUtils:
 * `reverseBuffer` (a reversed copy of a buffer) and `uniq` (keep the first
 * element of each key).  Their source is not part of this model; the
 * definitions below are the behaviour the callers rely on.
 */
module BufferUtils {

  /** One byte of a Node Buffer. */
  type Byte = b: int | 0 <= b < 256

  /** `reverseBuffer(buf)`: the same bytes in the opposite order. */
  function Reverse<T>(s: seq<T>): (r: seq<T>)
    ensures |r| == |s|
    ensures forall i :: 0 <= i < |s| ==> r[i] == s[|s| - 1 - i]
  {
    if s == [] then [] else Reverse(s[1..]) + [s[0]]
  }

  /** Reversing twice gives back the original bytes. */
  lemma ReverseInvolution<T>(s: seq<T>)
    ensures Reverse(Reverse(s)) == s
  {
    var r := Reverse(Reverse(s));
    assert |r| == |s|;
    forall i | 0 <= i < |s| ensures r[i] == s[i] {
      assert r[i] == Reverse(s)[|s| - 1 - i];
    }
  }

  /** Reversal is one-to-one. */
  lemma ReverseInjective<T>(a: seq<T>, b: seq<T>)
    requires Reverse(a) == Reverse(b)
    ensures a == b
  {
    ReverseInvolution(a);
    ReverseInvolution(b);
  }

  /** The keys of a sequence, in order (`array.map(fun)`). */
  function Keys<T, K>(s: seq<T>, key: T -> K): (r: seq<K>)
    ensures |r| == |s|
    ensures forall i :: 0 <= i < |s| ==> r[i] == key(s[i])
  {
    if s == [] then [] else [key(s[0])] + Keys(s[1..], key)
  }

  /** The keys of a sequence are pairwise distinct. */
  ghost predicate DistinctKeys<T, K>(s: seq<T>, key: T -> K)
  {
    forall i, j :: 0 <= i < j < |s| ==> key(s[i]) != key(s[j])
  }

  /**
   * `uniq(array, fun)`, scanning left to right with the set of keys seen so
   * far: an element is kept when its key has not been seen, and its key is
   * then recorded.
   */
  function UniqFrom<T, K(==, !new)>(s: seq<T>, key: T -> K, seen: set<K>): (r: seq<T>)
    ensures forall i :: 0 <= i < |r| ==> r[i] in s && key(r[i]) !in seen
    ensures DistinctKeys(r, key)
  {
    if s == [] then []
    else if key(s[0]) in seen then UniqFrom(s[1..], key, seen)
    else
      var rest := UniqFrom(s[1..], key, seen + {key(s[0])});
      var r := [s[0]] + rest;
      assert forall j :: 1 <= j < |r| ==> r[j] == rest[j - 1];
      r
  }

  /** The keys of a sequence with one more element in front. */
  lemma KeysCons<T, K>(x: T, s: seq<T>, key: T -> K)
    ensures Keys([x] + s, key) == [key(x)] + Keys(s, key)
  {
    assert ([x] + s)[1..] == s;
  }

  /** The kept keys are exactly the input's keys that were not seen before. */
  lemma {:induction false} UniqFromKeys<T, K(!new)>(s: seq<T>, key: T -> K, seen: set<K>)
    ensures forall k :: k in Keys(UniqFrom(s, key, seen), key) <==> k in Keys(s, key) && k !in seen
  {
    if s != [] {
      assert s == [s[0]] + s[1..];
      KeysCons(s[0], s[1..], key);
      if key(s[0]) in seen {
        UniqFromKeys(s[1..], key, seen);
      } else {
        var rest := UniqFrom(s[1..], key, seen + {key(s[0])});
        UniqFromKeys(s[1..], key, seen + {key(s[0])});
        KeysCons(s[0], rest, key);
      }
    }
  }

  /**
   * `uniq(array, fun)` starts with no key seen: it is first-occurrence
   * deduplication, keeps every key of the input and no key twice.
   */
  function Uniq<T, K(==, !new)>(s: seq<T>, key: T -> K): (r: seq<T>)
    ensures r == FirstOccurrences(s, key)
    ensures forall k :: k in Keys(r, key) <==> k in Keys(s, key)
    ensures DistinctKeys(r, key)
  {
    UniqFromIsFirstOccurrences(s, key);
    UniqFromKeys(s, key, {});
    UniqFrom(s, key, {})
  }

  /**
   * Reference definition of first-occurrence deduplication, built from the
   * right: the last element is kept exactly when no earlier element has its key.
   */
  function FirstOccurrences<T, K(==, !new)>(s: seq<T>, key: T -> K): seq<T>
  {
    if s == [] then []
    else
      var p := s[..|s| - 1];
      FirstOccurrences(p, key) + (if key(s[|s| - 1]) in Keys(p, key) then [] else [s[|s| - 1]])
  }

  /** Appending one element to the input of the left-to-right scan. */
  lemma {:induction false} UniqFromSnoc<T, K(!new)>(p: seq<T>, x: T, key: T -> K, seen: set<K>)
    ensures UniqFrom(p + [x], key, seen)
         == UniqFrom(p, key, seen) + (if key(x) in seen || key(x) in Keys(p, key) then [] else [x])
  {
    if p == [] {
      assert [x][1..] == [];
    } else {
      var q := p + [x];
      assert q[0] == p[0];
      assert q[1..] == p[1..] + [x];
      var kp := key(p[0]);
      assert Keys(p, key) == [kp] + Keys(p[1..], key);
      assert key(x) in Keys(p, key) <==> key(x) == kp || key(x) in Keys(p[1..], key);
      if kp in seen {
        calc {
          UniqFrom(q, key, seen);
          UniqFrom(p[1..] + [x], key, seen);
          { UniqFromSnoc(p[1..], x, key, seen); }
          UniqFrom(p[1..], key, seen) + (if key(x) in seen || key(x) in Keys(p[1..], key) then [] else [x]);
        }
      } else {
        var seen' := seen + {kp};
        calc {
          UniqFrom(q, key, seen);
          [p[0]] + UniqFrom(p[1..] + [x], key, seen');
          { UniqFromSnoc(p[1..], x, key, seen'); }
          [p[0]] + (UniqFrom(p[1..], key, seen') + (if key(x) in seen' || key(x) in Keys(p[1..], key) then [] else [x]));
          ([p[0]] + UniqFrom(p[1..], key, seen')) + (if key(x) in seen' || key(x) in Keys(p[1..], key) then [] else [x]);
        }
      }
    }
  }

  /** The scan of `uniq` computes exactly the first occurrences of each key. */
  lemma {:induction false} UniqFromIsFirstOccurrences<T, K(!new)>(s: seq<T>, key: T -> K)
    ensures UniqFrom(s, key, {}) == FirstOccurrences(s, key)
  {
    if s != [] {
      var p := s[..|s| - 1];
      assert s == p + [s[|s| - 1]];
      UniqFromIsFirstOccurrences(p, key);
      UniqFromSnoc(p, s[|s| - 1], key, {});
    }
  }

  /** When no two elements share a key, `uniq` removes nothing. */
  lemma {:induction false} UniqFromOfDistinct<T, K(!new)>(s: seq<T>, key: T -> K, seen: set<K>)
    requires DistinctKeys(s, key)
    requires forall i :: 0 <= i < |s| ==> key(s[i]) !in seen
    ensures UniqFrom(s, key, seen) == s
  {
    if s != [] {
      var t := s[1..];
      assert forall i :: 0 <= i < |t| ==> t[i] == s[i + 1];
      assert forall i :: 0 <= i < |t| ==> key(t[i]) != key(s[0]) by {
        forall i | 0 <= i < |t| ensures key(t[i]) != key(s[0]) {
          assert key(s[0]) != key(s[i + 1]);
        }
      }
      UniqFromOfDistinct(t, key, seen + {key(s[0])});
    }
  }

  /** The identity, for deduplicating values by themselves. */
  function Id<K>(k: K): K
  {
    k
  }

  /** The keys of the kept elements are the distinct keys, in first-occurrence order. */
  lemma {:induction false} KeysOfUniqFrom<T, K(!new)>(s: seq<T>, key: T -> K, seen: set<K>)
    ensures Keys(UniqFrom(s, key, seen), key) == UniqFrom(Keys(s, key), Id, seen)
  {
    if s != [] {
      var ks := Keys(s, key);
      assert ks == [key(s[0])] + Keys(s[1..], key);
      assert ks[0] == key(s[0]) && ks[1..] == Keys(s[1..], key);
      if key(s[0]) in seen {
        KeysOfUniqFrom(s[1..], key, seen);
      } else {
        KeysOfUniqFrom(s[1..], key, seen + {key(s[0])});
        var rest := UniqFrom(s[1..], key, seen + {key(s[0])});
        assert Keys([s[0]] + rest, key) == [key(s[0])] + Keys(rest, key);
      }
    }
  }
}
