/**
 * The collector engine `Collect` and `Filter`, which is built on it
 * (slice/slice.go).
 *
 * In the source the step function receives a mutable context and signals
 * "skip" or "halt" by calling `Continue` or `Stop`, which unwind back to the
 * engine. Here the step function is a pure function of what the context lets
 * it read, and it returns a `Decision` saying which context calls it made;
 * the engine replays those calls on a `Context` object and then reads the
 * context's flags exactly as the source does.
 */
module Collector {
  import opened Wrappers
  import opened SliceErrors

  /** What the context lets the step function read: `Slice()`, `CurrentElem()` and `CurrentResult()`. */
  datatype View<In, Out> = View(slice: seq<In>, index: nat, elem: In, result: seq<Out>)

  /**
   * What one invocation of the step function did. `value` is the last value
   * it passed to `SetValue` before returning or signalling, if any.
   */
  datatype Decision<Out> =
    | Keep(value: Option<Out>)                            // returned normally
    | Skip(value: Option<Out>, errs: seq<Option<Error>>)  // called Continue(errs...)
    | Halt(value: Option<Out>, errs: seq<Option<Error>>)  // called Stop(errs...)

  type Step<!In, !Out> = View<In, Out> -> Decision<Out>

  /** The element errors `Continue(errs...)` or `Stop(errs...)` records: one per non-nil error, in argument order. */
  function Tag<In>(index: int, value: In, errs: seq<Option<Error>>): (r: seq<ElemError<In>>)
    ensures |r| == |Present(errs)|
  {
    if errs == [] then
      []
    else
      var init := errs[..|errs| - 1];
      assert errs == init + [errs[|errs| - 1]];
      Tag(index, value, init) + if errs[|errs| - 1].Some? then [ElemError(index, value, errs[|errs| - 1])] else []
  }

  /** Entry k of `Tag` carries the index, the value and the k-th non-nil error. */
  lemma {:induction false} TagEntries<In>(index: int, value: In, errs: seq<Option<Error>>)
    ensures forall k :: 0 <= k < |Tag(index, value, errs)| ==>
      Tag(index, value, errs)[k] == ElemError(index, value, Some(Present(errs)[k]))
  {
    if errs != [] {
      var init := errs[..|errs| - 1];
      assert errs == init + [errs[|errs| - 1]];
      TagEntries(index, value, init);
    }
  }

  /** Every entry `Tag` produces carries the index, the value and one of the non-nil errors given. */
  lemma TagSound<In>(index: int, value: In, errs: seq<Option<Error>>, e: ElemError<In>)
    requires e in Tag(index, value, errs)
    ensures e.index == index && e.value == value && e.err.Some? && e.err in errs
  {
    var es := Tag(index, value, errs);
    TagEntries(index, value, errs);
    var k :| 0 <= k < |es| && es[k] == e;
    assert Present(errs)[k] in Present(errs);
  }

  /** Every non-nil error given to `Tag` produces an entry. */
  lemma TagComplete<In>(index: int, value: In, errs: seq<Option<Error>>, x: Error)
    requires Some(x) in errs
    ensures ElemError(index, value, Some(x)) in Tag(index, value, errs)
  {
    var es := Tag(index, value, errs);
    TagEntries(index, value, errs);
    var k :| 0 <= k < |Present(errs)| && Present(errs)[k] == x;
    assert es[k] == ElemError(index, value, Some(x));
  }

  /** The per-run state of `collectorContextImpl` that the engine and the step function change. */
  class Context<In, Out> {
    const input: seq<In>
    var index: nat
    var value: Option<Out>  // `hasValue` together with `currentValue`
    var continued: bool
    var stopped: bool
    var errOnContinued: seq<ElemError<In>>
    var errOnStopped: seq<ElemError<In>>

    constructor (input: seq<In>)
      ensures this.input == input && index == 0 && value == None
      ensures !continued && !stopped && errOnContinued == [] && errOnStopped == []
    {
      this.input := input;
      index := 0;
      value := None;
      continued, stopped := false, false;
      errOnContinued, errOnStopped := [], [];
    }

    /** The context as the step function sees it, given the results so far. */
    function Snapshot(result: seq<Out>): (v: View<In, Out>)
      reads this
      requires index < |input|
      ensures v.slice == input && v.index == index && v.elem == input[index] && v.result == result
    {
      View(input, index, input[index], result)
    }

    /** `SetValue(v)`: the value to add to the result for the current element. */
    method SetValue(v: Out)
      modifies this`value
      ensures value == Some(v)
    {
      value := Some(v);
    }

    /** `Continue(errs...)`: record the non-nil errors and signal "skip this element". */
    method Continue(errs: seq<Option<Error>>)
      requires index < |input|
      modifies this`errOnContinued, this`continued
      ensures errOnContinued == old(errOnContinued) + Tag(index, input[index], errs)
      ensures continued
    {
      for k := 0 to |errs|
        invariant errOnContinued == old(errOnContinued) + Tag(index, input[index], errs[..k])
      {
        assert errs[..k + 1][..k] == errs[..k];
        if errs[k].Some? {
          errOnContinued := errOnContinued + [ElemError(index, input[index], errs[k])];
        }
      }
      assert errs[..|errs|] == errs;
      continued := true;
    }

    /** `Stop(errs...)`: record the non-nil errors and signal "halt the run". */
    method Stop(errs: seq<Option<Error>>)
      requires index < |input|
      modifies this`errOnStopped, this`stopped
      ensures errOnStopped == old(errOnStopped) + Tag(index, input[index], errs)
      ensures stopped
    {
      for k := 0 to |errs|
        invariant errOnStopped == old(errOnStopped) + Tag(index, input[index], errs[..k])
      {
        assert errs[..k + 1][..k] == errs[..k];
        if errs[k].Some? {
          errOnStopped := errOnStopped + [ElemError(index, input[index], errs[k])];
        }
      }
      assert errs[..|errs|] == errs;
      stopped := true;
    }

    /**
     * One invocation: reset the per-element state, point at index `i`, and
     * let the step function decide on the view of the results so far; the
     * flags and lists it leaves are what that decision contributes.
     */
    method Invoke(step: Step<In, Out>, i: nat, result: seq<Out>) returns (d: Decision<Out>)
      requires i < |input|
      modifies this
      ensures d == step(View(input, i, input[i], result))
      ensures index == i && value == d.value
      ensures stopped == d.Halt? && continued == d.Skip?
      ensures errOnStopped == (if d.Halt? then Tag(i, input[i], d.errs) else [])
      ensures errOnContinued == (if d.Skip? then Tag(i, input[i], d.errs) else [])
    {
      stopped, continued := false, false;
      errOnStopped, errOnContinued := [], [];
      value := None;
      index := i;
      d := step(Snapshot(result));
      Perform(d);
    }

    /**
     * The calls the step function made on a freshly reset context: `SetValue`
     * if it set a value, then `Continue` or `Stop` if it signalled.
     */
    method Perform(d: Decision<Out>)
      requires index < |input| && value == None && !continued && !stopped
      requires errOnContinued == [] && errOnStopped == []
      modifies this
      ensures index == old(index) && value == d.value
      ensures stopped == d.Halt? && continued == d.Skip?
      ensures errOnStopped == (if d.Halt? then Tag(index, input[index], d.errs) else [])
      ensures errOnContinued == (if d.Skip? then Tag(index, input[index], d.errs) else [])
    {
      if d.value.Some? {
        SetValue(d.value.value);
      }
      if d.Skip? {
        Continue(d.errs);
      } else if d.Halt? {
        Stop(d.errs);
      }
    }
  }

  /** What a decision adds to the result: the set value, only when the step returned normally. */
  function Contribution<Out>(d: Decision<Out>): (r: seq<Out>)
  {
    if d.Keep? && d.value.Some? then [d.value.value] else []
  }

  /** The element errors a decision at `index` adds to the aggregate. */
  function Signalled<In, Out>(index: int, value: In, d: Decision<Out>): (r: seq<ElemError<In>>)
  {
    if d.Keep? then [] else Tag(index, value, d.errs)
  }

  /**
   * What one decision does to the results: at most one value, and none when
   * the step called `Continue` or `Stop`; entries only when it did, one per
   * non-nil error it passed.
   */
  lemma DecisionEffects<In, Out>(index: int, value: In, d: Decision<Out>)
    ensures |Contribution(d)| <= 1
    ensures !d.Keep? ==> Contribution(d) == []
    ensures d.Keep? ==> Signalled(index, value, d) == []
    ensures !d.Keep? ==> |Signalled(index, value, d)| == |Present(d.errs)|
  {
  }

  /**
   * The decisions the step function makes from index `i` on, given the
   * results kept so far: one per visited index, ending at the first halt.
   */
  function RunFrom<In, Out>(input: seq<In>, step: Step<In, Out>, i: nat, result: seq<Out>): (t: seq<Decision<Out>>)
    requires i <= |input|
    ensures |t| <= |input| - i
    decreases |input| - i
  {
    if i == |input| then
      []
    else
      var d := step(View(input, i, input[i], result));
      if d.Halt? then [d] else [d] + RunFrom(input, step, i + 1, result + Contribution(d))
  }

  /** The decisions of a whole run over `input`. */
  function Run<In, Out>(input: seq<In>, step: Step<In, Out>): (t: seq<Decision<Out>>)
    ensures |t| <= |input|
  {
    RunFrom(input, step, 0, [])
  }

  /** The values a sequence of decisions keeps, in order. */
  function Kept<Out>(t: seq<Decision<Out>>): (r: seq<Out>)
    ensures |r| <= |t|
  {
    if t == [] then [] else Kept(t[..|t| - 1]) + Contribution(t[|t| - 1])
  }

  /** The element errors a sequence of decisions records, the decision at position j speaking for `input[j]`. */
  function Recorded<In, Out>(input: seq<In>, t: seq<Decision<Out>>): seq<ElemError<In>>
    requires |t| <= |input|
  {
    if t == [] then [] else Recorded(input, t[..|t| - 1]) + Signalled(|t| - 1, input[|t| - 1], t[|t| - 1])
  }

  /** The error value `Collect` returns: nil when nothing was recorded. */
  function Aggregate<In>(es: seq<ElemError<In>>): (r: Option<SliceError<In>>)
    ensures r.None? <==> es == []
    ensures r.Some? ==> r.value.elems == es
  {
    if |es| == 0 then None else Some(SliceError(es))
  }

  /** The values kept by two stretches of decisions, one after the other. */
  lemma {:induction false} KeptAppend<Out>(a: seq<Decision<Out>>, b: seq<Decision<Out>>)
    ensures Kept(a + b) == Kept(a) + Kept(b)
  {
    if b == [] {
      assert a + b == a;
    } else {
      assert (a + b)[..|a + b| - 1] == a + b[..|b| - 1];
      KeptAppend(a, b[..|b| - 1]);
    }
  }

  /** The values kept by the first k decisions: those of the first k - 1, then the k-th decision's. */
  lemma KeptPrefix<Out>(t: seq<Decision<Out>>, k: nat)
    requires 0 < k <= |t|
    ensures Kept(t[..k]) == Kept(t[..k - 1]) + Contribution(t[k - 1])
  {
    assert t[..k][..k - 1] == t[..k - 1];
  }

  /** The errors recorded by the first k decisions: those of the first k - 1, then the k-th decision's. */
  lemma RecordedPrefix<In, Out>(input: seq<In>, t: seq<Decision<Out>>, k: nat)
    requires 0 < k <= |t| <= |input|
    ensures Recorded(input, t[..k]) == Recorded(input, t[..k - 1]) + Signalled(k - 1, input[k - 1], t[k - 1])
  {
    assert t[..k][..k - 1] == t[..k - 1];
  }

  /** One step of a run: the decision at index `i` and, unless it halts, the rest of the run. */
  lemma RunFromStep<In, Out>(input: seq<In>, step: Step<In, Out>, i: nat, result: seq<Out>)
    requires i < |input|
    ensures var d := step(View(input, i, input[i], result));
      RunFrom(input, step, i, result) == if d.Halt? then [d] else [d] + RunFrom(input, step, i + 1, result + Contribution(d))
  {
  }

  /** One more decision adds its own element errors after those recorded so far. */
  lemma RecordedSnoc<In, Out>(input: seq<In>, t: seq<Decision<Out>>, d: Decision<Out>)
    requires |t| < |input|
    ensures Recorded(input, t + [d]) == Recorded(input, t) + Signalled(|t|, input[|t|], d)
  {
    assert (t + [d])[..|t|] == t;
  }

  /**
   * How a run advances by one visited index: the decisions made so far, then
   * the decision `d` at index |t|, then (unless `d` halts) the rest of the run.
   */
  lemma RunAdvance<In, Out>(input: seq<In>, step: Step<In, Out>, t: seq<Decision<Out>>, result: seq<Out>)
    requires |t| < |input|
    requires Run(input, step) == t + RunFrom(input, step, |t|, result)
    ensures var d := step(View(input, |t|, input[|t|], result));
      && (d.Halt? ==> Run(input, step) == t + [d])
      && (!d.Halt? ==> Run(input, step) == (t + [d]) + RunFrom(input, step, |t| + 1, result + Contribution(d)))
  {
    var d := step(View(input, |t|, input[|t|], result));
    RunFromStep(input, step, |t|, result);
    if !d.Halt? {
      assert t + ([d] + RunFrom(input, step, |t| + 1, result + Contribution(d)))
          == (t + [d]) + RunFrom(input, step, |t| + 1, result + Contribution(d));
    }
  }

  /** One iteration of `Collect`'s loop: how the decision at the next index extends the run, the kept values and the entries. */
  lemma CollectStep<In, Out>(input: seq<In>, step: Step<In, Out>, t: seq<Decision<Out>>, result: seq<Out>, d: Decision<Out>)
    requires |t| < |input|
    requires Run(input, step) == t + RunFrom(input, step, |t|, result)
    requires result == Kept(t)
    requires d == step(View(input, |t|, input[|t|], result))
    ensures d.Halt? ==> Run(input, step) == t + [d]
    ensures !d.Halt? ==> Run(input, step) == (t + [d]) + RunFrom(input, step, |t| + 1, Kept(t + [d]))
    ensures !d.Keep? ==> Kept(t + [d]) == result
    ensures d.Keep? && d.value.None? ==> Kept(t + [d]) == result
    ensures d.Keep? && d.value.Some? ==> Kept(t + [d]) == result + [d.value.value]
    ensures d.Keep? ==> Recorded(input, t + [d]) == Recorded(input, t)
    ensures !d.Keep? ==> Recorded(input, t + [d]) == Recorded(input, t) + Tag(|t|, input[|t|], d.errs)
  {
    RunAdvance(input, step, t, result);
    KeptAppend(t, [d]);
    assert Kept([d]) == Contribution(d) by {
      assert [d][..0] == [];
    }
    assert result + [] == result;
    RecordedSnoc(input, t, d);
  }

  /**
   * `Collect`: visit the elements in order, resetting the per-element state
   * before each invocation of the step function; keep the set value of
   * every element whose step returned normally, record the non-nil errors
   * of every `Continue` and `Stop`, and end the run at the first `Stop`.
   * `trace` holds the decisions of the invocations made, one per visited index.
   */
  method Collect<In, Out>(input: seq<In>, handler: Option<Step<In, Out>>)
    returns (result: seq<Out>, err: Option<SliceError<In>>, ghost trace: seq<Decision<Out>>)
    ensures handler.None? ==> result == [] && err == None
    ensures handler.Some? ==> result == Kept(Run(input, handler.value))
    ensures handler.Some? ==> err == Aggregate(Recorded(input, Run(input, handler.value)))
    ensures |input| == 0 || handler.None? ==> trace == []
    ensures |input| > 0 && handler.Some? ==> trace == Run(input, handler.value)
  {
    result, err, trace := [], None, [];
    if |input| == 0 || handler.None? {
      assert handler.Some? ==> Run(input, handler.value) == [];
      return;
    }
    var errs;
    result, errs, trace := Visit(input, handler.value);
    err := if |errs| == 0 then None else Some(SliceError(errs));
    assert err == Aggregate(errs);
  }

  /**
   * The loop of `Collect`: the values kept and the
   * entries recorded by the run of the step function, which `trace` holds.
   */
  method Visit<In, Out>(input: seq<In>, step: Step<In, Out>)
    returns (result: seq<Out>, errs: seq<ElemError<In>>, ghost trace: seq<Decision<Out>>)
    ensures trace == Run(input, step)
    ensures result == Kept(Run(input, step))
    ensures errs == Recorded(input, Run(input, step))
  {
    result, errs, trace := [], [], [];
    var c := new Context(input);
    for i := 0 to |input|
      invariant |trace| == i
      invariant Run(input, step) == trace + RunFrom(input, step, i, result)
      invariant result == Kept(trace)
      invariant errs == Recorded(input, trace)
    {
      var d := c.Invoke(step, i, result);
      CollectStep(input, step, trace, result, d);
      trace := trace + [d];

      if c.stopped {
        if |c.errOnStopped| > 0 {
          errs := errs + c.errOnStopped;
        }
        break;
      }
      if c.continued {
        if |c.errOnContinued| > 0 {
          errs := errs + c.errOnContinued;
        }
        continue;
      }
      if c.value.Some? {
        result := result + [c.value.value];
      }
    }
    assert Run(input, step) == trace;
  }

  /** The decision at position `j` is the one the step makes on the view at `j`. */
  ghost predicate DecidedAt<In, Out>(input: seq<In>, step: Step<In, Out>, t: seq<Decision<Out>>, j: nat)
    requires j < |t| <= |input|
  {
    t[j] == step(View(input, j, input[j], Kept(t[..j])))
  }

  /**
   * What a run over `input` is: position j holds the decision of the step
   * function at index j, made with the values kept before it; every index
   * is visited in order until the first halt, which ends the run.
   */
  ghost predicate IsRunOf<In, Out>(input: seq<In>, step: Step<In, Out>, t: seq<Decision<Out>>)
  {
    && |t| <= |input|
    && (forall j :: 0 <= j < |t| ==> DecidedAt(input, step, t, j))
    && (forall j :: 0 <= j < |t| - 1 ==> !t[j].Halt?)
    && (|t| < |input| ==> |t| > 0 && t[|t| - 1].Halt?)
  }

  /** Dropping the first decision of a run shifts the values kept before position `j` by its contribution. */
  lemma KeptAfterFirst<Out>(result: seq<Out>, d: Decision<Out>, rest: seq<Decision<Out>>, j: nat)
    requires 0 < j <= |rest|
    ensures result + Kept(([d] + rest)[..j]) == (result + Contribution(d)) + Kept(rest[..j - 1])
  {
    assert ([d] + rest)[..j] == [d] + rest[..j - 1];
    KeptAppend([d], rest[..j - 1]);
    assert [d][..0] == [];
  }

  /**
   * The step from index `i + 1` to index `i`: when the run from `i` does not
   * halt at once, its position j is position j - 1 of the run from `i + 1`,
   * which starts with the first decision's contribution already kept.
   */
  lemma ViewShift<In, Out>(input: seq<In>, step: Step<In, Out>, i: nat, result: seq<Out>, j: nat)
    requires i < |input| && 0 < j < |RunFrom(input, step, i, result)|
    ensures var d := step(View(input, i, input[i], result));
      var next := result + Contribution(d);
      && !d.Halt?
      && j - 1 < |RunFrom(input, step, i + 1, next)|
      && RunFrom(input, step, i, result)[j] == RunFrom(input, step, i + 1, next)[j - 1]
      && result + Kept(RunFrom(input, step, i, result)[..j]) == next + Kept(RunFrom(input, step, i + 1, next)[..j - 1])
  {
    var d := step(View(input, i, input[i], result));
    var next := result + Contribution(d);
    RunFromStep(input, step, i, result);
    var rest := RunFrom(input, step, i + 1, next);
    KeptAfterFirst(result, d, rest, j);
  }

  /** Position j of `t`, a run from index `i`, is the step's decision at index i + j, given the values kept before it. */
  ghost predicate DecidedFrom<In, Out>(input: seq<In>, step: Step<In, Out>, i: nat, result: seq<Out>, t: seq<Decision<Out>>, j: nat)
    requires j < |t| && i + j < |input|
  {
    t[j] == step(View(input, i + j, input[i + j], result + Kept(t[..j])))
  }

  /** The first decision of a run from index `i` is made on the view at `i` with `result` kept so far. */
  lemma RunFromFirst<In, Out>(input: seq<In>, step: Step<In, Out>, i: nat, result: seq<Out>)
    requires i <= |input| && 0 < |RunFrom(input, step, i, result)|
    ensures DecidedFrom(input, step, i, result, RunFrom(input, step, i, result), 0)
  {
    RunFromStep(input, step, i, result);
    assert RunFrom(input, step, i, result)[..0] == [];
    assert result + [] == result;
  }

  /** A position decided in the rest of a run is decided in the run that extends it by one decision. */
  lemma DecidedShift<In, Out>(input: seq<In>, step: Step<In, Out>, i: nat, result: seq<Out>, next: seq<Out>,
                              t: seq<Decision<Out>>, rest: seq<Decision<Out>>, j: nat)
    requires 0 < j < |t| && j - 1 < |rest| && i + j < |input|
    requires t[j] == rest[j - 1]
    requires result + Kept(t[..j]) == next + Kept(rest[..j - 1])
    requires DecidedFrom(input, step, i + 1, next, rest, j - 1)
    ensures DecidedFrom(input, step, i, result, t, j)
  {
    assert i + 1 + (j - 1) == i + j;
  }

  /** Every position of a run from index `i` is decided as `DecidedFrom` says. */
  lemma {:induction false} RunFromViewAt<In, Out>(input: seq<In>, step: Step<In, Out>, i: nat, result: seq<Out>, j: nat)
    requires i <= |input| && j < |RunFrom(input, step, i, result)|
    ensures DecidedFrom(input, step, i, result, RunFrom(input, step, i, result), j)
    decreases j
  {
    if j == 0 {
      RunFromFirst(input, step, i, result);
    } else {
      var d := step(View(input, i, input[i], result));
      var next := result + Contribution(d);
      ViewShift(input, step, i, result, j);
      RunFromViewAt(input, step, i + 1, next, j - 1);
      DecidedShift(input, step, i, result, next, RunFrom(input, step, i, result), RunFrom(input, step, i + 1, next), j);
    }
  }

  /** A run from index `i` halts at most once, at its end, and stops short of the input's end only by halting. */
  lemma {:induction false} RunFromHalts<In, Out>(input: seq<In>, step: Step<In, Out>, i: nat, result: seq<Out>)
    requires i <= |input|
    ensures var t := RunFrom(input, step, i, result);
      && (forall j :: 0 <= j < |t| - 1 ==> !t[j].Halt?)
      && (|t| < |input| - i ==> |t| > 0 && t[|t| - 1].Halt?)
    decreases |input| - i
  {
    if i < |input| {
      var d := step(View(input, i, input[i], result));
      RunFromStep(input, step, i, result);
      if !d.Halt? {
        RunFromHalts(input, step, i + 1, result + Contribution(d));
      }
    }
  }

  /** `Run` is a run of the engine over `input` in the sense of `IsRunOf`. */
  lemma RunShape<In, Out>(input: seq<In>, step: Step<In, Out>)
    ensures IsRunOf(input, step, Run(input, step))
  {
    var t := Run(input, step);
    RunFromHalts(input, step, 0, []);
    forall j | 0 <= j < |t|
      ensures DecidedAt(input, step, t, j)
    {
      RunFromViewAt(input, step, 0, [], j);
      assert DecidedFrom(input, step, 0, [], t, j);
      assert [] + Kept(t[..j]) == Kept(t[..j]);
    }
  }

  /** Two runs that agree before index `k` make the same decision at `k`. */
  lemma {:induction false} RunsAgree<In, Out>(input: seq<In>, step: Step<In, Out>, t: seq<Decision<Out>>, u: seq<Decision<Out>>, n: nat)
    requires IsRunOf(input, step, t) && IsRunOf(input, step, u)
    requires n <= |t| && n <= |u|
    ensures t[..n] == u[..n]
  {
    if n > 0 {
      RunsAgree(input, step, t, u, n - 1);
      var k := n - 1;
      assert DecidedAt(input, step, t, k) && DecidedAt(input, step, u, k);
      assert t[..n] == t[..k] + [t[k]];
      assert u[..n] == u[..k] + [u[k]];
    }
  }

  /** A run that is shorter than another ends with a halt the other would also have made. */
  lemma RunsSameLength<In, Out>(input: seq<In>, step: Step<In, Out>, t: seq<Decision<Out>>, u: seq<Decision<Out>>)
    requires IsRunOf(input, step, t) && IsRunOf(input, step, u)
    requires |t| <= |u|
    ensures |t| == |u|
  {
    if |t| < |u| {
      RunsAgree(input, step, t, u, |t|);
      assert false;
    }
  }

  /** There is only one run: the engine's behaviour is determined by the input and the step function. */
  lemma RunUnique<In, Out>(input: seq<In>, step: Step<In, Out>, t: seq<Decision<Out>>)
    requires IsRunOf(input, step, t)
    ensures t == Run(input, step)
  {
    var r := Run(input, step);
    RunShape(input, step);
    if |t| <= |r| {
      RunsSameLength(input, step, t, r);
    } else {
      RunsSameLength(input, step, r, t);
    }
    RunsAgree(input, step, t, r, |t|);
    assert t == t[..|t|] && r == r[..|r|];
  }

  /**
   * A halt at index `k` ends the run: no later index is visited, the value
   * possibly set at `k` is discarded, and only the halt's own errors are
   * added to those recorded before it.
   */
  lemma HaltEndsRun<In, Out>(input: seq<In>, step: Step<In, Out>, k: nat)
    requires k < |Run(input, step)| && Run(input, step)[k].Halt?
    ensures |Run(input, step)| == k + 1
    ensures Kept(Run(input, step)) == Kept(Run(input, step)[..k])
    ensures Recorded(input, Run(input, step)) == Recorded(input, Run(input, step)[..k]) + Tag(k, input[k], Run(input, step)[k].errs)
  {
    RunShape(input, step);
  }

  /** Every recorded element error comes from a non-nil error of a `Continue` or `Stop` at its index. */
  lemma {:induction false} RecordedSound<In, Out>(input: seq<In>, t: seq<Decision<Out>>, e: ElemError<In>)
    requires |t| <= |input| && e in Recorded(input, t)
    ensures 0 <= e.index < |t| && e.value == input[e.index]
    ensures !t[e.index].Keep? && e.err.Some? && e.err in t[e.index].errs
  {
    var n := |t| - 1;
    var d := t[n];
    if e in Recorded(input, t[..n]) {
      RecordedSound(input, t[..n], e);
      assert t[..n][e.index] == t[e.index];
    } else {
      assert e in Signalled(n, input[n], d);
      TagSound(n, input[n], d.errs, e);
    }
  }

  /** Every non-nil error passed to `Continue` or `Stop` during the run is recorded, tagged with its index and element. */
  lemma {:induction false} RecordedComplete<In, Out>(input: seq<In>, t: seq<Decision<Out>>, j: nat, x: Error)
    requires |t| <= |input| && j < |t| && !t[j].Keep? && Some(x) in t[j].errs
    ensures ElemError(j, input[j], Some(x)) in Recorded(input, t)
  {
    var n := |t| - 1;
    var e := ElemError(j, input[j], Some(x));
    assert Recorded(input, t) == Recorded(input, t[..n]) + Signalled(n, input[n], t[n]);
    if j < n {
      assert t[..n][j] == t[j];
      RecordedComplete(input, t[..n], j, x);
    } else {
      TagComplete(n, input[n], t[n].errs, x);
    }
  }

  /** Element errors listed by non-decreasing index. */
  predicate IndexOrdered<In>(es: seq<ElemError<In>>)
  {
    forall p, q :: 0 <= p < q < |es| ==> es[p].index <= es[q].index
  }

  /** Appending errors at index `n` to ordered errors all below `n` keeps them ordered. */
  lemma OrderedAppend<In>(a: seq<ElemError<In>>, b: seq<ElemError<In>>, n: int)
    requires IndexOrdered(a)
    requires forall k :: 0 <= k < |a| ==> a[k].index < n
    requires forall k :: 0 <= k < |b| ==> b[k].index == n
    ensures IndexOrdered(a + b)
  {
    var r := a + b;
    forall p, q | 0 <= p < q < |r|
      ensures r[p].index <= r[q].index
    {
      if q < |a| {
        assert r[p] == a[p] && r[q] == a[q];
      } else if p < |a| {
        assert r[p] == a[p] && r[q] == b[q - |a|];
      } else {
        assert r[p] == b[p - |a|] && r[q] == b[q - |a|];
      }
    }
  }

  /** Element errors are recorded in the order of the elements they belong to. */
  lemma {:induction false} RecordedOrdered<In, Out>(input: seq<In>, t: seq<Decision<Out>>)
    requires |t| <= |input|
    ensures IndexOrdered(Recorded(input, t))
  {
    if t != [] {
      var n := |t| - 1;
      RecordedOrdered(input, t[..n]);
      var a, b := Recorded(input, t[..n]), Signalled(n, input[n], t[n]);
      forall k | 0 <= k < |a|
        ensures a[k].index < n
      {
        RecordedSound(input, t[..n], a[k]);
      }
      if !t[n].Keep? {
        TagEntries(n, input[n], t[n].errs);
      }
      OrderedAppend(a, b, n);
    }
  }

  /**
   * The aggregate is empty exactly when no `Continue` or `Stop` of the run
   * was given a non-nil error.
   */
  lemma ErrorIffSignalledError<In, Out>(input: seq<In>, step: Step<In, Out>)
    ensures var t := Run(input, step);
      |t| <= |input| &&
      (Recorded(input, t) == [] <==>
        forall j, i :: 0 <= j < |t| && !t[j].Keep? && 0 <= i < |t[j].errs| ==> t[j].errs[i].None?)
  {
    var t := Run(input, step);
    RunShape(input, step);
    if Recorded(input, t) == [] {
      forall j, i | 0 <= j < |t| && !t[j].Keep? && 0 <= i < |t[j].errs|
        ensures t[j].errs[i].None?
      {
        if t[j].errs[i].Some? {
          RecordedComplete(input, t, j, t[j].errs[i].value);
        }
      }
    } else {
      RecordedSound(input, t, Recorded(input, t)[0]);
    }
  }

  /** A decision with any value set before `Continue` or `Stop` forgotten. */
  function Erased<Out>(d: Decision<Out>): Decision<Out>
  {
    match d
    case Keep(v) => Keep(v)
    case Skip(_, es) => Skip(None, es)
    case Halt(_, es) => Halt(None, es)
  }

  /** Step functions that agree once erased make runs of the same length that agree once erased. */
  lemma {:induction false} RunFromErased<In, Out>(input: seq<In>, s1: Step<In, Out>, s2: Step<In, Out>, i: nat, result: seq<Out>)
    requires i <= |input|
    requires forall v :: Erased(s1(v)) == Erased(s2(v))
    ensures var t1, t2 := RunFrom(input, s1, i, result), RunFrom(input, s2, i, result);
      |t1| == |t2| && forall j :: 0 <= j < |t1| ==> Erased(t1[j]) == Erased(t2[j])
    decreases |input| - i
  {
    if i < |input| {
      var v := View(input, i, input[i], result);
      assert Erased(s1(v)) == Erased(s2(v));
      assert Contribution(s1(v)) == Contribution(s2(v));
      RunFromErased(input, s1, s2, i + 1, result + Contribution(s1(v)));
    }
  }

  /** Decisions that agree once erased keep the same values and record the same errors. */
  lemma ErasedAgree<In, Out>(index: int, value: In, d1: Decision<Out>, d2: Decision<Out>)
    requires Erased(d1) == Erased(d2)
    ensures Contribution(d1) == Contribution(d2)
    ensures Signalled(index, value, d1) == Signalled(index, value, d2)
  {
  }

  /** Decisions that agree once erased keep the same values and record the same errors, position by position. */
  lemma {:induction false} SummaryErased<In, Out>(input: seq<In>, t1: seq<Decision<Out>>, t2: seq<Decision<Out>>)
    requires |t1| == |t2| <= |input|
    requires forall j :: 0 <= j < |t1| ==> Erased(t1[j]) == Erased(t2[j])
    ensures Kept(t1) == Kept(t2) && Recorded(input, t1) == Recorded(input, t2)
  {
    if t1 != [] {
      var n := |t1| - 1;
      forall j | 0 <= j < n
        ensures Erased(t1[..n][j]) == Erased(t2[..n][j])
      {
        assert t1[..n][j] == t1[j] && t2[..n][j] == t2[j];
      }
      SummaryErased(input, t1[..n], t2[..n]);
      ErasedAgree(n, input[n], t1[n], t2[n]);
      assert Kept(t1) == Kept(t1[..n]) + Contribution(t1[n]);
      assert Kept(t2) == Kept(t2[..n]) + Contribution(t2[n]);
    }
  }

  /**
   * A value set before `Continue` or `Stop` never reaches the result: two
   * step functions that differ only in such values give the same result
   * and the same errors.
   */
  lemma SignalledValueIgnored<In, Out>(input: seq<In>, s1: Step<In, Out>, s2: Step<In, Out>)
    requires forall v :: Erased(s1(v)) == Erased(s2(v))
    ensures Kept(Run(input, s1)) == Kept(Run(input, s2))
    ensures Recorded(input, Run(input, s1)) == Recorded(input, Run(input, s2))
  {
    RunFromErased(input, s1, s2, 0, []);
    RunShape(input, s1);
    SummaryErased(input, Run(input, s1), Run(input, s2));
  }

  /** The elements of `s` that satisfy `p`, in their original order. */
  function Select<In>(s: seq<In>, p: In -> bool): (r: seq<In>)
    ensures |r| <= |s|
  {
    if s == [] then [] else Select(s[..|s| - 1], p) + if p(s[|s| - 1]) then [s[|s| - 1]] else []
  }

  /** The selection holds elements of `s` that satisfy `p`, and every element of `s` that does. */
  lemma {:induction false} SelectMembers<In>(s: seq<In>, p: In -> bool)
    ensures forall i :: 0 <= i < |Select(s, p)| ==> Select(s, p)[i] in s && p(Select(s, p)[i])
    ensures forall i :: 0 <= i < |s| && p(s[i]) ==> s[i] in Select(s, p)
  {
    if s != [] {
      var init, x := s[..|s| - 1], s[|s| - 1];
      SelectMembers(init, p);
      var a := Select(init, p);
      var r := a + if p(x) then [x] else [];
      assert Select(s, p) == r;
      forall i | 0 <= i < |r|
        ensures r[i] in s && p(r[i])
      {
        if i < |a| {
          assert r[i] == a[i] && a[i] in init;
          var j :| 0 <= j < |init| && init[j] == a[i];
          assert s[j] == init[j];
        }
      }
      forall i | 0 <= i < |s| && p(s[i])
        ensures s[i] in r
      {
        if i < |init| {
          assert s[i] == init[i] && init[i] in a;
          var j :| 0 <= j < |a| && a[j] == init[i];
          assert r[j] == a[j];
        }
      }
    }
  }

  /** Selecting from the first k elements: the selection from the first k - 1, then the k-th element if it qualifies. */
  lemma SelectPrefix<In>(s: seq<In>, p: In -> bool, k: nat)
    requires 0 < k <= |s|
    ensures Select(s[..k], p) == Select(s[..k - 1], p) + if p(s[k - 1]) then [s[k - 1]] else []
  {
    assert s[..k][..k - 1] == s[..k - 1];
  }

  /** The step function `Filter` passes to `Collect`: `Continue()` when the predicate fails, else `SetValue(elem)`. */
  function Matching<In>(p: In -> bool): Step<In, In>
  {
    (v: View<In, In>) => MatchDecision(p, v.elem)
  }

  /** `SetValue(x)` when `x` satisfies the predicate, `Continue()` otherwise. */
  function MatchDecision<In>(p: In -> bool, x: In): (d: Decision<In>)
    ensures !d.Halt?
    ensures d.Keep? <==> p(x)
    ensures d.Keep? ==> d.value == Some(x)
    ensures d.Skip? ==> d.errs == []
  {
    if p(x) then Keep(Some(x)) else Skip(None, [])
  }

  /** With the decisions of `Matching(p)` throughout, the first k decisions keep the selection from the first k elements. */
  lemma {:induction false} MatchingKept<In>(input: seq<In>, p: In -> bool, t: seq<Decision<In>>, k: nat)
    requires |t| == |input| && k <= |t|
    requires forall j :: 0 <= j < |t| ==> t[j] == MatchDecision(p, input[j])
    ensures Kept(t[..k]) == Select(input[..k], p)
  {
    if k > 0 {
      MatchingKept(input, p, t, k - 1);
      KeptPrefix(t, k);
      SelectPrefix(input, p, k);
      var x := input[k - 1];
      assert t[k - 1] == MatchDecision(p, x);
      assert Contribution(MatchDecision(p, x)) == if p(x) then [x] else [];
    } else {
      assert t[..0] == [] && input[..0] == [];
    }
  }

  /** With the decisions of `Matching(p)` throughout, no error is recorded. */
  lemma {:induction false} MatchingRecorded<In>(input: seq<In>, p: In -> bool, t: seq<Decision<In>>, k: nat)
    requires |t| == |input| && k <= |t|
    requires forall j :: 0 <= j < |t| ==> t[j] == MatchDecision(p, input[j])
    ensures Recorded(input, t[..k]) == []
  {
    if k > 0 {
      MatchingRecorded(input, p, t, k - 1);
      RecordedPrefix(input, t, k);
      assert Present([]) == [];
      assert Signalled(k - 1, input[k - 1], t[k - 1]) == [];
    } else {
      assert t[..0] == [];
    }
  }

  /** Collecting with `Matching(p)` keeps exactly the elements satisfying `p`, visits every index and records no error. */
  lemma MatchingRun<In>(input: seq<In>, p: In -> bool)
    ensures |Run(input, Matching(p))| == |input|
    ensures Kept(Run(input, Matching(p))) == Select(input, p)
    ensures Recorded(input, Run(input, Matching(p))) == []
  {
    var t := Run(input, Matching(p));
    RunShape(input, Matching(p));
    forall j | 0 <= j < |t|
      ensures t[j] == MatchDecision(p, input[j])
    {
      assert DecidedAt(input, Matching(p), t, j);
    }
    assert |t| > 0 ==> !t[|t| - 1].Halt?;
    MatchingKept(input, p, t, |t|);
    MatchingRecorded(input, p, t, |t|);
    assert t[..|t|] == t && input[..|input|] == input;
  }

  /**
   * `Filter`: the input itself when it is empty or the predicate is nil,
   * otherwise the elements satisfying the predicate, in order.
   */
  method Filter<In>(input: seq<In>, pred: Option<In -> bool>) returns (r: seq<In>)
    ensures |input| == 0 || pred.None? ==> r == input
    ensures pred.Some? ==> r == Select(input, pred.value)
  {
    if |input| == 0 || pred.None? {
      return input;
    }
    var err: Option<SliceError<In>>;
    ghost var trace: seq<Decision<In>>;
    r, err, trace := Collect(input, Some(Matching(pred.value)));
    MatchingRun(input, pred.value);
  }

  /** Whether an integer is even. */
  function Even(x: int): bool
  {
    x % 2 == 0
  }

  /** The even elements of [1, 2, 3, 4, 5] are [2, 4]. */
  lemma SelectEvens()
    ensures Select([1, 2, 3, 4, 5], Even) == [2, 4]
  {
    var input := [1, 2, 3, 4, 5];
    assert input[..0] == [];
    SelectPrefix(input, Even, 1);
    assert Select(input[..1], Even) == [];
    SelectPrefix(input, Even, 2);
    assert Select(input[..2], Even) == [2];
    SelectPrefix(input, Even, 3);
    SelectPrefix(input, Even, 4);
    assert Select(input[..4], Even) == [2, 4];
    SelectPrefix(input, Even, 5);
    assert input[..5] == input;
  }

  /** Keeping the even elements of [1, 2, 3, 4, 5] and skipping the others gives [2, 4] and no error. */
  lemma KeepEvens()
    ensures Kept(Run([1, 2, 3, 4, 5], Matching(Even))) == [2, 4]
    ensures Recorded([1, 2, 3, 4, 5], Run([1, 2, 3, 4, 5], Matching(Even))) == []
  {
    MatchingRun([1, 2, 3, 4, 5], Even);
    SelectEvens();
  }

  /** The step of the source's test that stops at the third element and keeps every other element. */
  function StopAtThird(): Step<int, int>
  {
    (v: View<int, int>) => if v.index == 2 then Halt(None, []) else Keep(Some(v.elem))
  }

  /** The run of `StopAtThird`: two keeps, then the halt at index 2. */
  lemma StopAtThirdRun(input: seq<int>)
    requires |input| >= 3
    ensures Run(input, StopAtThird()) == [Keep(Some(input[0])), Keep(Some(input[1])), Halt(None, [])]
  {
    var step := StopAtThird();
    var d0 := step(View(input, 0, input[0], []));
    var r1 := [] + Contribution(d0);
    var d1 := step(View(input, 1, input[1], r1));
    var r2 := r1 + Contribution(d1);
    assert d0 == Keep(Some(input[0])) && d1 == Keep(Some(input[1]));
    RunFromStep(input, step, 2, r2);
    RunFromStep(input, step, 1, r1);
    RunFromStep(input, step, 0, []);
  }

  /** Stopping at index 2 keeps the first two elements; on [1, 2, 3, 4, 5] that is [1, 2]. */
  lemma StopAtThirdKeepsTwo(input: seq<int>)
    requires |input| >= 3
    ensures Kept(Run(input, StopAtThird())) == [input[0], input[1]]
  {
    StopAtThirdRun(input);
    var t := Run(input, StopAtThird());
    assert t[..3] == t && t[..0] == [];
    KeptPrefix(t, 1);
    KeptPrefix(t, 2);
    KeptPrefix(t, 3);
  }

  /** Stopping at index 2 with no errors records nothing. */
  lemma StopAtThirdRecordsNothing(input: seq<int>)
    requires |input| >= 3
    ensures Recorded(input, Run(input, StopAtThird())) == []
  {
    StopAtThirdRun(input);
    var t := Run(input, StopAtThird());
    assert t[..3] == t && t[..0] == [];
    RecordedPrefix(input, t, 1);
    RecordedPrefix(input, t, 2);
    RecordedPrefix(input, t, 3);
    assert Tag(2, input[2], []) == [];
  }

  /** The step of the source's test that stops with `err` at the element 2 and keeps every other element. */
  function StopAtTwo(err: Error): Step<int, int>
  {
    (v: View<int, int>) => if v.elem == 2 then Halt(None, [Some(err)]) else Keep(Some(v.elem))
  }

  /** The run of `StopAtTwo` on an input whose second element is the first 2: a keep, then the halt. */
  lemma StopAtTwoRun(input: seq<int>, err: Error)
    requires |input| >= 2 && input[0] != 2 && input[1] == 2
    ensures Run(input, StopAtTwo(err)) == [Keep(Some(input[0])), Halt(None, [Some(err)])]
  {
    var step := StopAtTwo(err);
    var d0 := step(View(input, 0, input[0], []));
    var r1 := [] + Contribution(d0);
    assert d0 == Keep(Some(input[0]));
    RunFromStep(input, step, 1, r1);
    RunFromStep(input, step, 0, []);
  }

  /** Stopping at the element 2 keeps what came before it; on [1, 2, 3] that is [1]. */
  lemma StopAtTwoKeepsOne(input: seq<int>, err: Error)
    requires |input| >= 2 && input[0] != 2 && input[1] == 2
    ensures Kept(Run(input, StopAtTwo(err))) == [input[0]]
  {
    StopAtTwoRun(input, err);
    var t := Run(input, StopAtTwo(err));
    assert t[..2] == t && t[..0] == [];
    KeptPrefix(t, 1);
    KeptPrefix(t, 2);
  }

  /** The error passed to `Stop` at index 1 is recorded with that index and the element 2. */
  lemma StopAtTwoRecordsError(input: seq<int>, err: Error)
    requires |input| >= 2 && input[0] != 2 && input[1] == 2
    ensures Recorded(input, Run(input, StopAtTwo(err))) == [ElemError(1, 2, Some(err))]
  {
    StopAtTwoRun(input, err);
    var t := Run(input, StopAtTwo(err));
    assert t[..2] == t && t[..0] == [];
    RecordedPrefix(input, t, 1);
    RecordedPrefix(input, t, 2);
    assert [Some(err)][..0] == [];
    assert Present([Some(err)]) == [err];
    assert Tag(1, 2, [Some(err)]) == [ElemError(1, 2, Some(err))];
  }
}
