/** Outcome datatypes shared by the modules of the lookup pipeline. */
module Wrappers {

  datatype Option<+T> = None | Some(value: T)

  datatype Result<+T, +E> = Success(value: T) | Failure(error: E)

  /** What a call into code outside the model (a language-model request, a JSON
      parser) did: it returned a value, or it raised an exception whose text
      (Python's `str(e)`) is `msg`. */
  datatype Attempt<+T> = Returned(value: T) | Raised(msg: string)

  /** The user-visible text the program builds from an exception, `f"Error: {e}"`. */
  function ErrorText(msg: string): (t: string)
    ensures |t| == |msg| + 7
    ensures t[..7] == "Error: " && t[7..] == msg
  {
    "Error: " + msg
  }

  /** `f` succeeds on every element of `xs`. */
  predicate AllSucceed<T, U, E>(xs: seq<T>, f: T -> Result<U, E>) {
    forall i :: 0 <= i < |xs| ==> f(xs[i]).Success?
  }

  /** A Python list comprehension `[f(x) for x in xs]` whose `f` may raise:
      every result in order, or the error of the first element on which `f`
      raises, after which no later element is looked at. */
  function TryMap<T, U, E>(xs: seq<T>, f: T -> Result<U, E>): (r: Result<seq<U>, E>)
    ensures r.Success? <==> AllSucceed(xs, f)
    ensures r.Success? ==>
      && |r.value| == |xs|
      && forall i :: 0 <= i < |xs| ==> r.value[i] == f(xs[i]).value
    ensures r.Failure? ==>
      exists i :: && 0 <= i < |xs|
                  && f(xs[i]).Failure? && f(xs[i]).error == r.error
                  && AllSucceed(xs[..i], f)
  {
    if xs == [] then Success([])
    else
      var head := f(xs[0]);
      if head.Failure? then
        assert AllSucceed(xs[..0], f);
        Failure(head.error)
      else
        var tail := TryMap(xs[1..], f);
        if tail.Failure? then
          assert exists i :: && 0 <= i < |xs|
                             && f(xs[i]).Failure? && f(xs[i]).error == tail.error
                             && AllSucceed(xs[..i], f)
          by {
            var i :| && 0 <= i < |xs[1..]|
                     && f(xs[1..][i]).Failure? && f(xs[1..][i]).error == tail.error
                     && AllSucceed(xs[1..][..i], f);
            assert xs[..i + 1] == [xs[0]] + xs[1..][..i];
            assert xs[i + 1] == xs[1..][i];
          }
          Failure(tail.error)
        else
          var r := [head.value] + tail.value;
          assert forall i :: 0 < i < |xs| ==> xs[i] == xs[1..][i - 1] && r[i] == tail.value[i - 1];
          Success(r)
  }
}
