/**
  The pattern builder: with one key, that key is the matcher; with more, the keys are
  sorted by descending length (`keys.sort((a, b) => b.length - a.length)`, a stable
  sort) and cut into batches of 50, each batch one alternation matcher.
 */
module Keys {
  import opened Chunking
  import opened Matching

  /** Lengths never increase along `s`. */
  predicate NonIncreasing(s: seq<string>)
  {
    forall i, j :: 0 <= i < j < |s| ==> |s[i]| >= |s[j]|
  }

  /** Putting an element no shorter than any other in front keeps a list sorted. */
  lemma ConsSorted(x: string, s: seq<string>)
    requires NonIncreasing(s)
    requires forall j :: 0 <= j < |s| ==> |s[j]| <= |x|
    ensures NonIncreasing([x] + s)
  {
    var r := [x] + s;
    forall i, j | 0 <= i < j < |r| ensures |r[i]| >= |r[j]| {
      assert r[j] == s[j - 1];
      if i > 0 {
        assert r[i] == s[i - 1];
      }
    }
  }

  /** Place `k` before the first element no longer than it: after every longer one. */
  function InsertByLength(k: string, sorted: seq<string>): (r: seq<string>)
    ensures multiset(r) == multiset(sorted) + multiset{k}
    ensures NonIncreasing(sorted) ==> NonIncreasing(r)
    ensures |r| == |sorted| + 1
    decreases |sorted|
  {
    if sorted == [] || |sorted[0]| <= |k| then
      assert NonIncreasing(sorted) ==> NonIncreasing([k] + sorted) by {
        if NonIncreasing(sorted) {
          ConsSorted(k, sorted);
        }
      }
      [k] + sorted
    else
      var rest := InsertByLength(k, sorted[1..]);
      assert sorted == [sorted[0]] + sorted[1..];
      assert NonIncreasing(sorted) ==> NonIncreasing([sorted[0]] + rest) by {
        if NonIncreasing(sorted) {
          InsertedBelow(k, sorted, rest);
          ConsSorted(sorted[0], rest);
        }
      }
      [sorted[0]] + rest
  }

  /** What is inserted after the head of a sorted list is no longer than that head. */
  lemma InsertedBelow(k: string, sorted: seq<string>, rest: seq<string>)
    requires NonIncreasing(sorted) && |sorted| > 0 && |k| < |sorted[0]|
    requires multiset(rest) == multiset(sorted[1..]) + multiset{k}
    ensures forall j :: 0 <= j < |rest| ==> |rest[j]| <= |sorted[0]|
  {
    forall j | 0 <= j < |rest| ensures |rest[j]| <= |sorted[0]| {
      assert rest[j] in multiset(rest);
      if rest[j] != k {
        assert rest[j] in multiset(sorted[1..]);
        var t :| 0 <= t < |sorted[1..]| && sorted[1..][t] == rest[j];
        assert sorted[t + 1] == rest[j];
      }
    }
  }

  /** The comparator `b.length - a.length` under JavaScript's stable sort: longest first, ties in input order. */
  function SortByLength(keys: seq<string>): (r: seq<string>)
    ensures multiset(r) == multiset(keys)
    ensures NonIncreasing(r)
    decreases |keys|
  {
    if keys == [] then []
    else
      var rest := SortByLength(keys[1..]);
      var r := InsertByLength(keys[0], rest);
      assert keys == [keys[0]] + keys[1..];
      assert multiset(keys) == multiset{keys[0]} + multiset(keys[1..]);
      r
  }

  /** The keys of length exactly `len`, in their order in `s`. */
  function OfLength(s: seq<string>, len: nat): seq<string>
  {
    if s == [] then [] else (if |s[0]| == len then [s[0]] else []) + OfLength(s[1..], len)
  }

  lemma {:induction false} InsertKeepsTies(k: string, sorted: seq<string>, len: nat)
    ensures OfLength(InsertByLength(k, sorted), len)
         == if |k| == len then [k] + OfLength(sorted, len) else OfLength(sorted, len)
    decreases |sorted|
  {
    if sorted == [] || |sorted[0]| <= |k| {
      assert ([k] + sorted)[1..] == sorted;
    } else {
      InsertKeepsTies(k, sorted[1..], len);
      var r := InsertByLength(k, sorted[1..]);
      assert ([sorted[0]] + r)[1..] == r;
    }
  }

  /** Stability: keys of equal length keep their relative input order. */
  lemma {:induction false} SortIsStable(keys: seq<string>, len: nat)
    ensures OfLength(SortByLength(keys), len) == OfLength(keys, len)
    decreases |keys|
  {
    if keys != [] {
      SortIsStable(keys[1..], len);
      InsertKeepsTies(keys[0], SortByLength(keys[1..]), len);
    }
  }

  /** Sorting neither adds nor drops a key. */
  lemma SortKeepsCount(keys: seq<string>)
    ensures |SortByLength(keys)| == |keys|
  {
    assert |multiset(SortByLength(keys))| == |multiset(keys)|;
  }

  /** The batches `partitionAll(50, sortedKeys)`. */
  function KeyBatches(keys: seq<string>): seq<Matcher>
  {
    Chunks(CHUNK_COUNT, SortByLength(keys))
  }

  /** The matchers the run applies, in order: `keys[0]` alone for one key, one per batch otherwise. */
  function Matchers(keys: seq<string>): seq<Matcher>
    requires |keys| > 0
  {
    if |keys| > 1 then KeyBatches(keys) else [[keys[0]]]
  }

  /** Every chunk of a length-sorted list is itself length-sorted. */
  lemma {:induction false} ChunksNonIncreasing(n: nat, s: seq<string>)
    requires n > 0 && NonIncreasing(s)
    ensures forall i :: 0 <= i < |Chunks(n, s)| ==> NonIncreasing(Chunks(n, s)[i])
    decreases |s|
  {
    if |s| > 0 {
      var m := Min(n, |s|);
      ChunksNonIncreasing(n, s[m..]);
      var cs := Chunks(n, s);
      assert cs == [s[..m]] + Chunks(n, s[m..]);
      forall i | 0 <= i < |cs| ensures NonIncreasing(cs[i]) {
        if i > 0 {
          assert cs[i] == Chunks(n, s[m..])[i - 1];
        }
      }
    }
  }

  /** Every element of a chunk is an element of the flattened list. */
  lemma {:induction false} FlattenMember<T>(cs: seq<seq<T>>, i: nat, j: nat)
    requires i < |cs| && j < |cs[i]|
    ensures cs[i][j] in Flatten(cs)
    decreases |cs|
  {
    if i < |cs| - 1 {
      FlattenMember(cs[..|cs| - 1], i, j);
    }
  }

  /**
    The matchers for `keys`: one per batch of at most 50, ceil(|keys| / 50) of them, together
    listing the sorted keys; each batch is longest-first. With a
    single key the matcher is that key alone.
   */
  lemma MatchersShape(keys: seq<string>)
    requires |keys| > 0
    ensures |keys| == 1 ==> Matchers(keys) == [[keys[0]]]
    ensures |keys| > 1 ==> |Matchers(keys)| == (|keys| + CHUNK_COUNT - 1) / CHUNK_COUNT
    ensures |keys| > 1 ==> Flatten(Matchers(keys)) == SortByLength(keys)
    ensures forall i :: 0 <= i < |Matchers(keys)| ==>
      0 < |Matchers(keys)[i]| <= CHUNK_COUNT && NonIncreasing(Matchers(keys)[i])
  {
    if |keys| > 1 {
      var sorted := SortByLength(keys);
      SortKeepsCount(keys);
      ChunksCount(CHUNK_COUNT, sorted);
      ChunksFlatten(CHUNK_COUNT, sorted);
      ChunksShape(CHUNK_COUNT, sorted);
      ChunksNonIncreasing(CHUNK_COUNT, sorted);
    }
  }

  /** Every key of every matcher is one of the given keys. */
  lemma MatchersFromKeys(keys: seq<string>)
    requires |keys| > 0
    ensures forall i, k :: 0 <= i < |Matchers(keys)| && k in Matchers(keys)[i] ==> k in keys
  {
    MatchersShape(keys);
    forall i, k | 0 <= i < |Matchers(keys)| && k in Matchers(keys)[i] ensures k in keys {
      if |keys| > 1 {
        var j :| 0 <= j < |Matchers(keys)[i]| && Matchers(keys)[i][j] == k;
        FlattenMember(Matchers(keys), i, j);
        assert k in multiset(SortByLength(keys));
      }
    }
  }

  /** Within every batch the matcher prefers the longest key that matches at a position. */
  lemma BatchPrefersLongest(keys: seq<string>, b: nat, s: string)
    requires |keys| > 0 && b < |Matchers(keys)|
    requires FirstMatch(Matchers(keys)[b], s).Some?
    ensures forall j :: 0 <= j < |Matchers(keys)[b]| && IsPrefix(Matchers(keys)[b][j], s) ==>
      |Matchers(keys)[b][j]| <= |Matchers(keys)[b][FirstMatch(Matchers(keys)[b], s).value]|
  {
    MatchersShape(keys);
    LongestMatchWins(Matchers(keys)[b], s);
  }

  /**
    Every match the scan of a batch reports is one of the longest keys of that batch that match
    where the scan stands: no key of the batch that also matches there is longer.
   */
  lemma ReportedMatchIsLongest(keys: seq<string>, b: nat, s: string, j: nat)
    requires |keys| > 0 && b < |Matchers(keys)|
    requires j < |Segments(Matchers(keys)[b], s)| && Segments(Matchers(keys)[b], s)[j].Hit?
    ensures var ps := Segments(Matchers(keys)[b], s);
      var o := |Text(ps[..j])|;
      o <= |s| && IsPrefix(ps[j].text, s[o..]) &&
      forall i :: 0 <= i < |Matchers(keys)[b]| && IsPrefix(Matchers(keys)[b][i], s[o..]) ==>
        |Matchers(keys)[b][i]| <= |ps[j].text|
  {
    var m := Matchers(keys)[b];
    var ps := Segments(m, s);
    SegmentsScanned(m, s);
    assert ScannedAt(m, s, ps, j);
    var o := |Text(ps[..j])|;
    BatchPrefersLongest(keys, b, s[o..]);
  }
}
