/**
 * The sequence primitives of slice/slice.go that do not go through the
 * collector engine: `Reduce`, `Every`, `Some`, `Map`, `Find`, `Contains`,
 * `Chunk`, `Flatten` and `ForEachChunk`.
 *
 * A Go function value that may be nil is an `Option` of a Dafny function;
 * a slice whose nil-ness the caller can observe is an `Option<seq<_>>`.
 */
module Slices {
  import opened Wrappers
  import opened SliceErrors

  // ---------------------------------------------------------------- Reduce

  /** The strict left fold of `f` over `s`, starting from `acc`. */
  function FoldLeft<In, Out>(f: (Out, In) -> Out, acc: Out, s: seq<In>): Out
  {
    if s == [] then acc else f(FoldLeft(f, acc, s[..|s| - 1]), s[|s| - 1])
  }

  /** The fold takes the first element first: folding `[x] + s` from `acc` is folding `s` from `f(acc, x)`. */
  lemma {:induction false} FoldLeftCons<In, Out>(f: (Out, In) -> Out, acc: Out, x: In, s: seq<In>)
    ensures FoldLeft(f, acc, [x] + s) == FoldLeft(f, f(acc, x), s)
  {
    if s == [] {
      assert ([x] + s)[..0] == [];
    } else {
      var init := s[..|s| - 1];
      assert ([x] + s)[..|[x] + s| - 1] == [x] + init;
      FoldLeftCons(f, acc, x, init);
    }
  }

  /** Folding a concatenation folds the second part from where the first left off. */
  lemma {:induction false} FoldLeftAppend<In, Out>(f: (Out, In) -> Out, acc: Out, a: seq<In>, b: seq<In>)
    ensures FoldLeft(f, acc, a + b) == FoldLeft(f, FoldLeft(f, acc, a), b)
  {
    if b == [] {
      assert a + b == a;
    } else {
      var init := b[..|b| - 1];
      assert (a + b)[..|a + b| - 1] == a + init;
      FoldLeftAppend(f, acc, a, init);
    }
  }

  /**
   * `Reduce`: `initial` when the input is empty or the reducer is nil,
   * otherwise the left fold of the reducer over the input.
   */
  method Reduce<In, Out>(input: seq<In>, reducer: Option<(Out, In) -> Out>, initial: Out) returns (r: Out)
    ensures |input| == 0 || reducer.None? ==> r == initial
    ensures reducer.Some? ==> r == FoldLeft(reducer.value, initial, input)
  {
    if |input| == 0 || reducer.None? {
      return initial;
    }
    var f := reducer.value;
    var acc := initial;
    for i := 0 to |input|
      invariant acc == FoldLeft(f, initial, input[..i])
    {
      assert input[..i + 1][..i] == input[..i];
      acc := f(acc, input[i]);
    }
    assert input[..|input|] == input;
    return acc;
  }

  // --------------------------------------------------- Every, Some, Find, Contains

  /** `Every`: true when the predicate is nil, otherwise whether every element satisfies it (so true on empty input). */
  function Every<In>(input: seq<In>, pred: Option<In -> bool>): (r: bool)
    ensures r <==> pred.None? || forall i :: 0 <= i < |input| ==> pred.value(input[i])
  {
    if pred.None? || |input| == 0 then
      true
    else if !pred.value(input[0]) then
      false
    else
      var rest := Every(input[1..], pred);
      assert forall i :: 1 <= i < |input| ==> input[i] == input[1..][i - 1];
      rest
  }

  /** `Some`: false on empty input or a nil predicate, otherwise whether some element satisfies the predicate. */
  function Any<In>(input: seq<In>, pred: Option<In -> bool>): (r: bool)
    ensures r <==> pred.Some? && exists i :: 0 <= i < |input| && pred.value(input[i])
  {
    if |input| == 0 || pred.None? then
      false
    else if pred.value(input[0]) then
      true
    else
      var rest := Any(input[1..], pred);
      assert forall i :: 1 <= i < |input| ==> input[i] == input[1..][i - 1];
      rest
  }

  /**
   * `Find`: the first element satisfying the predicate. `None` stands for
   * Go's `(zero, false)` and `Some(x)` for `(x, true)`.
   */
  function Find<In>(input: seq<In>, pred: Option<In -> bool>): (r: Option<In>)
    ensures r.None? <==> pred.None? || forall i :: 0 <= i < |input| ==> !pred.value(input[i])
    ensures r.Some? ==> exists i :: 0 <= i < |input| && input[i] == r.value && pred.value(input[i])
                                    && forall j :: 0 <= j < i ==> !pred.value(input[j])
  {
    if |input| == 0 || pred.None? then
      None
    else if pred.value(input[0]) then
      Some(input[0])
    else
      var rest := Find(input[1..], pred);
      assert forall i :: 1 <= i < |input| ==> input[i] == input[1..][i - 1];
      rest
  }

  /** `Contains`: whether `target` occurs in the input. */
  function Contains<In(==)>(input: seq<In>, target: In): (r: bool)
    ensures r <==> target in input
  {
    if |input| == 0 then
      false
    else if input[0] == target then
      true
    else
      var rest := Contains(input[1..], target);
      assert input == [input[0]] + input[1..];
      rest
  }

  // ------------------------------------------------------------------- Map

  /**
   * `Map`: nil when the input is empty or the mapper is nil, otherwise the
   * mapper applied to every element, in order. `Out(0)` mirrors Go's
   * zero-initialised `make([]Out, n)`.
   */
  method Map<In, Out(0)>(input: seq<In>, mapper: Option<In -> Out>) returns (r: Option<seq<Out>>)
    ensures r.None? <==> |input| == 0 || mapper.None?
    ensures r.Some? ==> |r.value| == |input| && forall i :: 0 <= i < |input| ==> r.value[i] == mapper.value(input[i])
  {
    if |input| == 0 || mapper.None? {
      return None;
    }
    var f := mapper.value;
    var result := new Out[|input|];
    for i := 0 to |input|
      invariant forall j :: 0 <= j < i ==> result[j] == f(input[j])
    {
      result[i] := f(input[i]);
    }
    return Some(result[..]);
  }

  // ----------------------------------------------------------------- Chunk

  /** The chunk size `Chunk` uses: sizes of zero or less count as 1. */
  function ChunkSize(size: int): (n: nat)
    ensures n > 0
    ensures size <= 0 ==> n == 1
    ensures size > 0 ==> n == size
  {
    if size <= 0 then 1 else size
  }

  /** The chunks of a slice: `n` elements at a time while more than `n` remain, then the rest. */
  function Chunks<T>(s: seq<T>, n: nat): (r: seq<seq<T>>)
    requires n > 0
    ensures |r| > 0
    decreases |s|
  {
    if n < |s| then [s[..n]] + Chunks(s[n..], n) else [s]
  }

  /** The concatenation of a slice of slices. */
  function Concat<T>(ss: seq<seq<T>>): seq<T>
  {
    if ss == [] then [] else Concat(ss[..|ss| - 1]) + ss[|ss| - 1]
  }

  /** The sum of the lengths of the inner slices. */
  function TotalLength<T>(ss: seq<seq<T>>): nat
  {
    if ss == [] then 0 else TotalLength(ss[..|ss| - 1]) + |ss[|ss| - 1]|
  }

  /** A single inner slice concatenates to itself. */
  lemma ConcatSingle<T>(x: seq<T>)
    ensures Concat([x]) == x
  {
    assert [x][..0] == [];
  }

  /** Concatenating two lists of slices concatenates their concatenations. */
  lemma {:induction false} ConcatAppend<T>(a: seq<seq<T>>, b: seq<seq<T>>)
    ensures Concat(a + b) == Concat(a) + Concat(b)
  {
    if b == [] {
      assert a + b == a;
    } else {
      var init := b[..|b| - 1];
      assert (a + b)[..|a + b| - 1] == a + init;
      ConcatAppend(a, init);
    }
  }

  /** The concatenation is as long as the inner slices together. */
  lemma {:induction false} ConcatLength<T>(ss: seq<seq<T>>)
    ensures |Concat(ss)| == TotalLength(ss)
  {
    if ss != [] {
      ConcatLength(ss[..|ss| - 1]);
    }
  }

  /** Empty inner slices contribute nothing to the concatenation. */
  lemma ConcatSkipsEmpty<T>(a: seq<seq<T>>, b: seq<seq<T>>)
    ensures Concat(a + [[]] + b) == Concat(a + b)
  {
    ConcatAppend(a + [[]], b);
    ConcatAppend(a, b);
    assert (a + [[]])[..|a|] == a;
  }

  /** Chunking loses and reorders nothing: the chunks concatenate back to the input. */
  lemma {:induction false} ChunksConcat<T>(s: seq<T>, n: nat)
    requires n > 0
    ensures Concat(Chunks(s, n)) == s
    decreases |s|
  {
    if n < |s| {
      var rest := Chunks(s[n..], n);
      assert Chunks(s, n) == [s[..n]] + rest;
      assert Concat([s[..n]] + rest) == s[..n] + s[n..] by {
        ChunksConcat(s[n..], n);
        ConcatAppend([s[..n]], rest);
        ConcatSingle(s[..n]);
      }
      assert s[..n] + s[n..] == s;
    } else {
      ConcatSingle(s);
    }
  }

  /**
   * Every chunk but the last has exactly `n` elements; the last has between
   * 1 and `n` when the input is not empty; there are ceil(|s| / n) chunks.
   */
  lemma {:induction false} ChunksShape<T>(s: seq<T>, n: nat)
    requires n > 0 && |s| > 0
    ensures var r := Chunks(s, n);
      && (forall i :: 0 <= i < |r| - 1 ==> |r[i]| == n)
      && 1 <= |r[|r| - 1]| <= n
      && |r| == (|s| + n - 1) / n
    decreases |s|
  {
    if n < |s| {
      ChunksShape(s[n..], n);
      var rest := Chunks(s[n..], n);
      assert Chunks(s, n) == [s[..n]] + rest;
      assert (|s| + n - 1) / n == (|s| - n + n - 1) / n + 1 by {
        DivShift(|s| - n + n - 1, n);
      }
    } else {
      assert (|s| + n - 1) / n == 1 by {
        DivOne(|s| + n - 1, n);
      }
    }
  }

  /** Division determines quotient and remainder uniquely. */
  lemma DivUnique(y: int, n: int, q: int, r: int)
    requires n > 0 && 0 <= r < n && y == q * n + r
    ensures y / n == q
  {
    var q', r' := y / n, y % n;
    assert (q - q') * n == r' - r;
    if q' < q {
      MulAtLeast(q - q', n);
    } else if q < q' {
      MulAtLeast(q' - q, n);
    }
  }

  /** A positive multiple of `n` is at least `n`. */
  lemma MulAtLeast(k: int, n: int)
    requires k >= 1 && n > 0
    ensures k * n >= n
  {
  }

  /** Adding `n` adds one to the quotient by `n`. */
  lemma DivShift(x: nat, n: nat)
    requires n > 0
    ensures (x + n) / n == x / n + 1
  {
    var q, r := x / n, x % n;
    assert x + n == (q + 1) * n + r;
    DivUnique(x + n, n, q + 1, r);
  }

  /** Between `n` and `2n` the quotient by `n` is 1. */
  lemma DivOne(x: nat, n: nat)
    requires n <= x < 2 * n
    ensures x / n == 1
  {
    DivUnique(x, n, 1, x - n);
  }

  // ------------------------------------------------------ Chunk's capacity

  /** The largest value of Go's 64-bit `int`. */
  const MaxInt: int := 0x7fff_ffff_ffff_ffff

  /** An exact integer wrapped into the range of Go's 64-bit `int`, as two's-complement addition does. */
  function Wrap64(x: int): (r: int)
    ensures -MaxInt - 1 <= r <= MaxInt
    ensures -MaxInt - 1 <= x <= MaxInt ==> r == x
  {
    (x + MaxInt + 1) % 0x1_0000_0000_0000_0000 - MaxInt - 1
  }

  /** Go's integer division by a positive divisor, which truncates toward zero. */
  function Quot(a: int, b: int): (q: int)
    requires b > 0
    ensures a >= 0 ==> q == a / b
    ensures a < 0 ==> q <= 0
  {
    if a >= 0 then a / b else -((-a) / b)
  }

  /**
   * The capacity `Chunk` passes to `make`, as written: `(len + size - 1) / size`
   * computed in 64-bit arithmetic, for a length and a size that fit in an `int`.
   */
  function CapacityAsWritten(len: nat, n: nat): int
    requires 0 < n <= MaxInt && len <= MaxInt
  {
    Quot(Wrap64(len + n - 1), n)
  }

  /**
   * The capacity evidently intended: the number of chunks, `len / n` rounded
   * up, computed so that no intermediate value exceeds the length.
   */
  function Capacity(len: nat, n: nat): (c: nat)
    requires n > 0
    ensures c == (len + n - 1) / n
  {
    if len == 0 then
      DivUnique(n - 1, n, 0, n - 1);
      0
    else
      DivShift(len - 1, n);
      (len - 1) / n + 1
  }

  /** The intended capacity never exceeds the length, so it fits in an `int` whenever the length does. */
  lemma CapacityAtMost(len: nat, n: nat)
    requires n > 0
    ensures Capacity(len, n) <= len
  {
    if len > 0 {
      var q := (len - 1) / n;
      assert q * n <= len - 1;
      MulAtLeastSelf(q, n);
    }
  }

  /** Multiplying by a positive factor does not decrease a natural number. */
  lemma {:induction false} MulAtLeastSelf(q: nat, n: nat)
    requires n > 0
    ensures q * n >= q
  {
    if q > 0 {
      MulAtLeastSelf(q - 1, n);
      assert q * n == (q - 1) * n + n;
    }
  }

  /** Wrapping a value between `MaxInt + 1` and `2 * MaxInt + 1` subtracts 2^64. */
  lemma WrapOnce(x: int)
    requires MaxInt < x <= 2 * MaxInt + 1
    ensures Wrap64(x) == x - 0x1_0000_0000_0000_0000
  {
    var y := x + MaxInt + 1;
    DivUnique(y, 0x1_0000_0000_0000_0000, 1, y - 0x1_0000_0000_0000_0000);
  }

  /** Without overflow the capacity as written is the intended one. */
  lemma CapacityAsWrittenAgrees(len: nat, n: nat)
    requires 0 < n <= MaxInt && len <= MaxInt
    requires len + n - 1 <= MaxInt
    ensures CapacityAsWritten(len, n) == Capacity(len, n)
  {
  }

  /** When `len + size - 1` overflows, the capacity as written is never the positive number of chunks. */
  lemma CapacityAsWrittenOverflow(len: nat, n: nat)
    requires 0 < n <= MaxInt && len <= MaxInt
    requires len + n - 1 > MaxInt
    ensures CapacityAsWritten(len, n) <= 0 < Capacity(len, n)
  {
    OverflowNotPositive(len + n - 1, n);
    CapacityPositive(len, n);
  }

  /** A sum that overflows wraps to a negative value, whose truncated quotient is not positive. */
  lemma OverflowNotPositive(x: int, n: nat)
    requires 0 < n && MaxInt < x <= 2 * MaxInt + 1
    ensures Quot(Wrap64(x), n) <= 0
  {
    WrapOnce(x);
  }

  /** A non-empty slice has at least one chunk. */
  lemma CapacityPositive(len: nat, n: nat)
    requires n > 0 && len > 0
    ensures Capacity(len, n) > 0
  {
  }

  /** Two elements in chunks of `math.MaxInt`: the capacity as written is -1, so `make` panics; one chunk is meant. */
  lemma CapacityAsWrittenNegative()
    ensures CapacityAsWritten(2, MaxInt) == -1
    ensures Capacity(2, MaxInt) == 1
  {
    WrapOnce(2 + MaxInt - 1);
    DivOne(MaxInt + 1, MaxInt);
  }

  /**
   * `Chunk`: nil for a nil input, an empty non-nil list for an empty input,
   * otherwise the chunks of the input for the size (sizes of zero or less
   * count as 1).
   */
  method Chunk<T>(input: Option<seq<T>>, size: int) returns (r: Option<seq<seq<T>>>)
    ensures r.None? <==> input.None?
    ensures input.Some? && |input.value| == 0 ==> r == Some([])
    ensures input.Some? && |input.value| > 0 ==> r == Some(Chunks(input.value, ChunkSize(size)))
    ensures r.Some? ==> |r.value| == Capacity(|input.value|, ChunkSize(size))
  {
    if input.None? {
      return None;
    }
    if |input.value| == 0 {
      return Some([]);
    }
    var n := size;
    if n <= 0 {
      n := 1;
    }
    var rest := input.value;
    var chunks: seq<seq<T>> := [];
    while n < |rest|
      invariant chunks + Chunks(rest, n) == Chunks(input.value, ChunkSize(size))
      decreases |rest|
    {
      assert chunks + Chunks(rest, n) == (chunks + [rest[..n]]) + Chunks(rest[n..], n);
      rest, chunks := rest[n..], chunks + [rest[..n]];
    }
    chunks := chunks + [rest];
    assert |chunks| == Capacity(|input.value|, n) by {
      ChunksShape(input.value, n);
    }
    return Some(chunks);
  }

  // --------------------------------------------------------------- Flatten

  /**
   * `Flatten`: nil for a nil input, otherwise the concatenation of the
   * inner slices, whose length is the sum of their lengths.
   */
  method Flatten<T>(input: Option<seq<seq<T>>>) returns (r: Option<seq<T>>)
    ensures r.None? <==> input.None?
    ensures r.Some? ==> r.value == Concat(input.value) && |r.value| == TotalLength(input.value)
  {
    if input.None? {
      return None;
    }
    var ss := input.value;
    if |ss| == 0 {
      return Some([]);
    }
    var totalLen := 0;
    for i := 0 to |ss|
      invariant totalLen == TotalLength(ss[..i])
    {
      assert ss[..i + 1][..i] == ss[..i];
      totalLen := totalLen + |ss[i]|;
    }
    var result: seq<T> := [];
    for i := 0 to |ss|
      invariant result == Concat(ss[..i])
    {
      assert ss[..i + 1][..i] == ss[..i];
      result := result + ss[i];
    }
    assert ss[..|ss|] == ss;
    ConcatLength(ss);
    assert |result| == totalLen;
    return Some(result);
  }

  // ---------------------------------------------------------- ForEachChunk

  /** The position of the first chunk the handler fails on, if any. */
  function FirstFailure<T>(cs: seq<seq<T>>, handler: seq<T> -> Option<Error>): (r: Option<nat>)
    ensures r.None? <==> forall i :: 0 <= i < |cs| ==> handler(cs[i]).None?
    ensures r.Some? ==> && r.value < |cs| && handler(cs[r.value]).Some?
                        && forall j :: 0 <= j < r.value ==> handler(cs[j]).None?
  {
    if cs == [] then
      None
    else if handler(cs[0]).Some? then
      Some(0)
    else
      var rest := FirstFailure(cs[1..], handler);
      assert forall i :: 1 <= i < |cs| ==> cs[i] == cs[1..][i - 1];
      if rest.None? then None else Some(rest.value + 1)
  }

  /** The sequential branch: chunks are handled in order until the first failure, whose error is returned. */
  method EachInOrder<T>(cs: seq<seq<T>>, handler: seq<T> -> Option<Error>) returns (err: Option<Error>, ghost handled: nat)
    ensures match FirstFailure(cs, handler)
            case None => err == None
            case Some(k) => err == handler(cs[k])
    ensures match FirstFailure(cs, handler)
            case None => handled == |cs|
            case Some(k) => handled == k + 1
  {
    ghost var first := FirstFailure(cs, handler);
    for i := 0 to |cs|
      invariant forall j :: 0 <= j < i ==> handler(cs[j]).None?
    {
      var e := handler(cs[i]);
      if e.Some? {
        assert first == Some(i);
        return e, i + 1;
      }
    }
    return None, |cs|;
  }

  /** The concurrent branch: every chunk is handled and one of the errors, in no specified order, is returned. */
  method EachAtOnce<T>(cs: seq<seq<T>>, handler: seq<T> -> Option<Error>) returns (err: Option<Error>)
    ensures err.None? <==> forall i :: 0 <= i < |cs| ==> handler(cs[i]).None?
    ensures err.Some? ==> exists i :: 0 <= i < |cs| && handler(cs[i]) == err
  {
    var failures: seq<Error> := [];
    for i := 0 to |cs|
      invariant forall x :: x in failures <==> exists j :: 0 <= j < i && handler(cs[j]) == Some(x)
    {
      var e := handler(cs[i]);
      if e.Some? {
        failures := failures + [e.value];
      }
    }
    if |failures| > 0 {
      assert failures[0] in failures;
      var x :| x in failures;
      return Some(x);
    }
    return None;
  }

  /**
   * `ForEachChunk`: nil on empty input; otherwise the handler runs on the
   * chunks of the input. Sequentially (concurrency at most 1) it stops at
   * the first failing chunk and returns that chunk's error. Concurrently
   * every chunk is handled and some handler error, in no specified order,
   * is returned. `handled` counts the chunks the handler was called on.
   */
  method ForEachChunk<T>(input: seq<T>, chunkSize: int, concurrency: int, handler: seq<T> -> Option<Error>)
    returns (err: Option<Error>, ghost handled: nat)
    ensures |input| == 0 ==> err == None
    ensures |input| > 0 ==> var cs := Chunks(input, ChunkSize(chunkSize));
      && (err.None? <==> forall i :: 0 <= i < |cs| ==> handler(cs[i]).None?)
      && (err.Some? ==> exists i :: 0 <= i < |cs| && handler(cs[i]) == err)
    ensures |input| > 0 && concurrency <= 1 ==> var cs := Chunks(input, ChunkSize(chunkSize));
      match FirstFailure(cs, handler)
      case None => err == None
      case Some(k) => err == handler(cs[k])
    ensures |input| == 0 ==> handled == 0
    ensures |input| > 0 ==> var cs := Chunks(input, ChunkSize(chunkSize));
      && handled <= |cs|
      && (concurrency <= 1 ==>
            (match FirstFailure(cs, handler)
             case None => handled == |cs|
             case Some(k) => handled == k + 1))
      && (concurrency > 1 ==> handled == |cs|)
  {
    if |input| == 0 {
      return None, 0;
    }
    var chunked := Chunk(Some(input), chunkSize);
    var cs := chunked.value;
    if concurrency <= 1 {
      err, handled := EachInOrder(cs, handler);
    } else {
      err := EachAtOnce(cs, handler);
      handled := |cs|;
    }
  }
}
