/** Failure-compatible wrappers: the model's stand-in for Go's nil pointers and for the
    panics and fatal `check(err)` exits of the generator. */
module Wrappers {

  datatype Option<+T> = None | Some(value: T) {
    function GetOr(default: T): T {
      match this
      case Some(v) => v
      case None => default
    }
  }

  datatype Result<+T> = Ok(value: T) | Err(message: string) {
    predicate IsFailure() {
      Err?
    }

    function PropagateFailure<U>(): Result<U>
      requires Err?
    {
      Err(message)
    }

    function Extract(): T
      requires Ok?
    {
      value
    }
  }

  /** The outcome of a step that either carries on or stops the run with a message. */
  datatype Outcome = Pass | Fail(message: string)

  /** The values of a run of steps in order, or the first step's failure: the shape of
      every Go loop that appends one item per row and returns on the first error. */
  function Collect<T>(rs: seq<Result<T>>): Result<seq<T>> {
    if rs == [] then Ok([])
    else
      var init := Collect(rs[..|rs| - 1]);
      if init.Err? then init
      else if rs[|rs| - 1].Err? then Err(rs[|rs| - 1].message)
      else Ok(init.value + [rs[|rs| - 1].value])
  }

  /** One more step after a run that succeeded so far. */
  lemma CollectSnoc<T>(rs: seq<Result<T>>, i: nat)
    requires i < |rs| && Collect(rs[..i]).Ok?
    ensures Collect(rs[..i + 1]) ==
              if rs[i].Err? then Err(rs[i].message) else Ok(Collect(rs[..i]).value + [rs[i].value])
  {
    assert rs[..i + 1][..i] == rs[..i];
  }

  /** Once a prefix of the steps fails, the whole run fails with the same message. */
  lemma {:induction false} CollectFaultPersists<T>(rs: seq<Result<T>>, n: nat)
    requires n <= |rs| && Collect(rs[..n]).Err?
    ensures Collect(rs) == Collect(rs[..n])
  {
    if n < |rs| {
      var init := rs[..|rs| - 1];
      assert init[..n] == rs[..n];
      CollectFaultPersists(init, n);
    } else {
      assert rs[..n] == rs;
    }
  }

  /** A run succeeds exactly when every step does, and then keeps every value in order. */
  lemma {:induction false} CollectOkIff<T>(rs: seq<Result<T>>)
    ensures Collect(rs).Ok? <==> forall i :: 0 <= i < |rs| ==> rs[i].Ok?
    ensures Collect(rs).Ok? ==>
              |Collect(rs).value| == |rs| && forall i :: 0 <= i < |rs| ==> rs[i] == Ok(Collect(rs).value[i])
  {
    if rs != [] {
      var init := rs[..|rs| - 1];
      CollectOkIff(init);
      assert forall i :: 0 <= i < |init| ==> init[i] == rs[i];
    }
  }

  /** A failed run reports its first failing step. */
  lemma {:induction false} CollectFirstFault<T>(rs: seq<Result<T>>)
    requires Collect(rs).Err?
    ensures exists i :: 0 <= i < |rs| && rs[i].Err? && Collect(rs).message == rs[i].message
                       && forall j :: 0 <= j < i ==> rs[j].Ok?
  {
    var init := rs[..|rs| - 1];
    assert forall i :: 0 <= i < |init| ==> init[i] == rs[i];
    if Collect(init).Err? {
      CollectFirstFault(init);
    } else {
      CollectOkIff(init);
    }
  }
}
