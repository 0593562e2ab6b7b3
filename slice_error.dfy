/**
 * The per-element error and the ordered error aggregate returned by the
 * collector engine (slice/error.go).
 */
module SliceErrors {
  import opened Wrappers

  /** A Go `error`, represented by the message its `Error()` method returns. */
  datatype Error = Error(message: string)

  /** The non-nil errors of `errs`, in their order. */
  function Present(errs: seq<Option<Error>>): (r: seq<Error>)
    ensures |r| <= |errs|
    ensures forall e :: e in r <==> Some(e) in errs
  {
    if errs == [] then []
    else
      var init := errs[..|errs| - 1];
      assert errs == init + [errs[|errs| - 1]];
      match errs[|errs| - 1]
      case None => Present(init)
      case Some(e) => Present(init) + [e]
  }

  /** When no error is nil, `Present` keeps every one of them, position by position. */
  lemma {:induction false} PresentAllSome(errs: seq<Option<Error>>)
    requires forall i :: 0 <= i < |errs| ==> errs[i].Some?
    ensures |Present(errs)| == |errs|
    ensures forall i :: 0 <= i < |errs| ==> errs[i] == Some(Present(errs)[i])
  {
    if errs != [] {
      PresentAllSome(errs[..|errs| - 1]);
    }
  }

  /**
   * `errors.Join`: nil when every argument is nil (or there is none),
   * otherwise an error wrapping the non-nil arguments in order.
   */
  function Join(errs: seq<Option<Error>>): (r: Option<seq<Error>>)
    ensures r.None? <==> forall i :: 0 <= i < |errs| ==> errs[i].None?
    ensures r.Some? ==> r.value == Present(errs) && |r.value| > 0
  {
    var present := Present(errs);
    if present == [] then
      None
    else
      assert Some(present[0]) in errs;
      Some(present)
  }

  /** `ElemError`: the error recorded for the element `value` at position `index`. */
  datatype ElemError<In> = ElemError(index: int, value: In, err: Option<Error>)
  {
    /** `Error()`: the underlying error's message, or "" when it is nil. */
    function Message(): (s: string)
      ensures Unwrap().Some? ==> s == Unwrap().value.message
      ensures Unwrap().None? ==> s == ""
    {
      if err.Some? then err.value.message else ""
    }

    /** `Unwrap()`: the underlying error. */
    function Unwrap(): Option<Error>
    {
      err
    }
  }

  /** The text of a non-empty aggregate: each element's message followed by a newline. */
  function Lines<In>(es: seq<ElemError<In>>): (s: string)
    ensures |s| >= |es|
  {
    if es == [] then "" else Lines(es[..|es| - 1]) + es[|es| - 1].Message() + "\n"
  }

  /** Appending an element appends its line. */
  lemma LinesSnoc<In>(es: seq<ElemError<In>>, e: ElemError<In>)
    ensures Lines(es + [e]) == Lines(es) + (e.Message() + "\n")
  {
    assert (es + [e])[..|es|] == es;
  }

  /** The underlying errors of `es`, nil ones included, in element order. */
  function Causes<In>(es: seq<ElemError<In>>): (r: seq<Option<Error>>)
    ensures |r| == |es|
    ensures forall i :: 0 <= i < |es| ==> r[i] == es[i].Unwrap()
  {
    seq(|es|, i requires 0 <= i < |es| => es[i].err)
  }

  /** `SliceError`: the ordered list of element errors gathered by one run. */
  datatype SliceError<In> = SliceError(elems: seq<ElemError<In>>)
  {
    /** `At(index)`: the element error at `index`, nil when out of range. */
    function At(index: int): (r: Option<ElemError<In>>)
      ensures r.Some? <==> 0 <= index < |elems|
      ensures r.Some? ==> r.value == elems[index]
    {
      if |elems| == 0 then
        None
      else if index < 0 || index >= |elems| then
        None
      else
        Some(elems[index])
    }

    /** `OriginAt(index)`: the underlying error at `index`, the same as unwrapping `At(index)`. */
    function OriginAt(index: int): (r: Option<Error>)
      ensures r == match At(index) case None => None case Some(e) => e.Unwrap()
    {
      if |elems| == 0 then
        None
      else if index < 0 || index >= |elems| then
        None
      else
        elems[index].err
    }

    /** `Error()`: "" for an empty aggregate, otherwise every element's message followed by a newline. */
    method Message() returns (s: string)
      ensures s == Lines(elems)
      ensures s == "" <==> |elems| == 0
    {
      if |elems| == 0 {
        return "";
      }
      s := "";
      for i := 0 to |elems|
        invariant s == Lines(elems[..i])
      {
        assert elems[..i + 1] == elems[..i] + [elems[i]];
        LinesSnoc(elems[..i], elems[i]);
        s := s + elems[i].Message();
        s := s + "\n";
      }
      assert elems[..|elems|] == elems;
    }

    /**
     * `Unwrap()`: nil for an empty aggregate, otherwise `errors.Join` of the
     * underlying errors in element order.
     */
    method Unwrap() returns (r: Option<seq<Error>>)
      ensures r.None? <==> forall i :: 0 <= i < |elems| ==> elems[i].err.None?
      ensures r.Some? ==> r.value == Present(Causes(elems))
      ensures |elems| > 0 && (forall i :: 0 <= i < |elems| ==> elems[i].err.Some?) ==>
                r.Some? && |r.value| == |elems| &&
                forall i :: 0 <= i < |elems| ==> OriginAt(i) == Some(r.value[i])
    {
      if |elems| == 0 {
        return None;
      }
      var errs: seq<Option<Error>> := [];
      for i := 0 to |elems|
        invariant errs == Causes(elems[..i])
      {
        errs := errs + [elems[i].err];
      }
      assert elems[..|elems|] == elems;
      r := Join(errs);
      if forall i :: 0 <= i < |elems| ==> elems[i].err.Some? {
        PresentAllSome(errs);
      }
    }
  }
}
