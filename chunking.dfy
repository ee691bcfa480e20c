/**
  `partitionAll`: split a list into consecutive chunks of at most `n` elements.
  Both the file list and the sorted key list are cut this way, with `n = 50`.
 */
module Chunking {
  import opened Results

  /** The fixed chunk size used for files and for key batches alike. */
  const CHUNK_COUNT: nat := 50

  function Min(a: int, b: int): int { if a <= b then a else b }

  /** Concatenation of a list of lists, built from the right end so that appending one more list is one unfolding. */
  function Flatten<T>(chunks: seq<seq<T>>): seq<T>
  {
    if chunks == [] then [] else Flatten(chunks[..|chunks| - 1]) + chunks[|chunks| - 1]
  }

  /** The chunks `partitionAll(n, coll)` returns when `n > 0`: `slice(0, n)` of what is left, again and again. */
  function Chunks<T>(n: nat, coll: seq<T>): seq<seq<T>>
    requires n > 0
    decreases |coll|
  {
    if |coll| == 0 then [] else [coll[..Min(n, |coll|)]] + Chunks(n, coll[Min(n, |coll|)..])
  }

  /** The source's `while` loop. A non-positive `n` throws `invalid agument:<n>`. */
  method PartitionAll<T>(n: int, coll: seq<T>) returns (r: Result<seq<seq<T>>>)
    ensures n <= 0 ==> r == Err("invalid agument:" + IntToString(n))
    ensures n > 0 ==> r == Ok(Chunks(n, coll))
  {
    if n <= 0 {
      return Err("invalid agument:" + IntToString(n));
    }
    var result: seq<seq<T>> := [];
    var target := coll;
    while |target| > 0
      invariant result + Chunks(n, target) == Chunks(n, coll)
      decreases |target|
    {
      result := result + [target[..Min(n, |target|)]];
      target := target[Min(n, |target|)..];
    }
    assert Chunks(n, target) == [];
    assert result + [] == result;
    return Ok(result);
  }

  lemma {:induction false} FlattenCons<T>(c: seq<T>, rest: seq<seq<T>>)
    ensures Flatten([c] + rest) == c + Flatten(rest)
    decreases |rest|
  {
    if rest == [] {
      assert [c] + rest == [c];
      assert [c][..0] == [];
    } else {
      var init, last := rest[..|rest| - 1], rest[|rest| - 1];
      var whole := [c] + rest;
      assert whole[..|whole| - 1] == [c] + init;
      assert whole[|whole| - 1] == last;
      assert Flatten(whole) == Flatten([c] + init) + last;
      FlattenCons(c, init);
      assert Flatten(rest) == Flatten(init) + last;
    }
  }

  /** Concatenating the chunks gives back the input: no element is lost, duplicated or moved. */
  lemma {:induction false} ChunksFlatten<T>(n: nat, coll: seq<T>)
    requires n > 0
    ensures Flatten(Chunks(n, coll)) == coll
    decreases |coll|
  {
    if |coll| > 0 {
      var m := Min(n, |coll|);
      ChunksFlatten(n, coll[m..]);
      FlattenCons(coll[..m], Chunks(n, coll[m..]));
      assert coll[..m] + coll[m..] == coll;
    }
  }

  /** Every chunk is non-empty and holds at most `n` elements; every chunk but the last holds exactly `n`. */
  lemma {:induction false} ChunksShape<T>(n: nat, coll: seq<T>)
    requires n > 0
    ensures forall i :: 0 <= i < |Chunks(n, coll)| ==> 0 < |Chunks(n, coll)[i]| <= n
    ensures forall i :: 0 <= i < |Chunks(n, coll)| - 1 ==> |Chunks(n, coll)[i]| == n
    decreases |coll|
  {
    if |coll| > 0 {
      var m := Min(n, |coll|);
      ChunksShape(n, coll[m..]);
      var cs := Chunks(n, coll);
      var tail := Chunks(n, coll[m..]);
      assert cs == [coll[..m]] + tail;
      forall i | 0 <= i < |cs| - 1
        ensures |cs[i]| == n
      {
        if i == 0 {
          assert |tail| > 0;
          assert |coll| > n;
        } else {
          assert cs[i] == tail[i - 1];
        }
      }
      forall i | 0 <= i < |cs|
        ensures 0 < |cs[i]| <= n
      {
        if i > 0 {
          assert cs[i] == tail[i - 1];
        }
      }
    }
  }

  /** There are ceil(|coll| / n) chunks. */
  lemma {:induction false} ChunksCount<T>(n: nat, coll: seq<T>)
    requires n > 0
    ensures |Chunks(n, coll)| == (|coll| + n - 1) / n
    decreases |coll|
  {
    if |coll| > 0 {
      var m := Min(n, |coll|);
      ChunksCount(n, coll[m..]);
      if |coll| <= n {
        assert |coll[m..]| == 0;
        DivUnique(|coll| + n - 1, n, 1, |coll| - 1);
      } else {
        assert |coll[m..]| == |coll| - n;
        DivStep(|coll| - 1, n);
      }
    }
  }

  /** Adding `n` adds one to the quotient by `n`. */
  lemma DivStep(x: int, n: int)
    requires x >= 0 && n > 0
    ensures (x + n) / n == x / n + 1
  {
    var q, r := x / n, x % n;
    assert (q + 1) * n == q * n + n;
    DivUnique(x + n, n, q + 1, r);
  }

  /** Integer division is determined by quotient and remainder. */
  lemma DivUnique(x: int, n: int, q: int, r: int)
    requires n > 0 && 0 <= r < n && x == q * n + r
    ensures x / n == q
  {
    var q', r' := x / n, x % n;
    assert x == q' * n + r';
    if q' < q {
      MulAtLeast(q - q', n);
    } else if q' > q {
      MulAtLeast(q' - q, n);
    }
  }

  lemma MulAtLeast(a: int, b: int)
    requires a >= 1 && b > 0
    ensures a * b >= b
    decreases a
  {
    if a > 1 {
      MulAtLeast(a - 1, b);
      assert a * b == (a - 1) * b + b;
    }
  }
}
