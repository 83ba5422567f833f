/** Option and Result, the model's stand-ins for `undefined`/`null` and for thrown errors. */
module Wrappers {

  /** A value that may be absent: JavaScript `undefined`/`null`, Kotlin `null`. */
  datatype Option<+T> = None | Some(value: T) {

    /** The value, or `default` when absent (JavaScript `x ?? d`, Kotlin `x ?: d`). */
    function GetOr(default: T): T {
      match this
      case Some(v) => v
      case None => default
    }
  }

  /** The outcome of a computation that may throw instead of returning. */
  datatype Result<+T, +E> = Ok(value: T) | Err(error: E)

  /** The present values of a sequence of options, in order: what a loop
      that skips the absent ones collects. */
  function Somes<T>(xs: seq<Option<T>>): (r: seq<T>)
    ensures |r| <= |xs|
    ensures forall k :: 0 <= k < |r| ==> exists j :: 0 <= j < |xs| && xs[j] == Some(r[k])
    decreases |xs|
  {
    if |xs| == 0 then []
    else
      var prev := Somes(xs[..|xs| - 1]);
      assert forall j :: 0 <= j < |xs| - 1 ==> xs[..|xs| - 1][j] == xs[j];
      if xs[|xs| - 1].None? then prev
      else
        var r := prev + [xs[|xs| - 1].value];
        assert forall k :: 0 <= k < |prev| ==> r[k] == prev[k];
        r
  }

  /** No present value is skipped. */
  lemma {:induction false} SomesComplete<T>(xs: seq<Option<T>>, j: nat)
    requires j < |xs| && xs[j].Some?
    ensures exists k :: 0 <= k < |Somes(xs)| && Somes(xs)[k] == xs[j].value
    decreases |xs|
  {
    var init := xs[..|xs| - 1];
    var prev := Somes(init);
    if j < |xs| - 1 {
      assert init[j] == xs[j];
      SomesComplete(init, j);
      var k :| 0 <= k < |prev| && prev[k] == xs[j].value;
      assert Somes(xs)[k] == prev[k];
    } else {
      assert Somes(xs)[|prev|] == xs[j].value;
    }
  }
}
