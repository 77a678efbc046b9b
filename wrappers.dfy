/** Option and Result values shared by every module of the model. */
module Wrappers {

  datatype Option<+T> = None | Some(value: T) {
    function GetOr(default: T): T {
      match this
      case Some(v) => v
      case None => default
    }
  }

  /** An HTTP handler either answers or fails with a status code and a detail text. */
  datatype Result<+T> = Ok(value: T) | Err(status: int, detail: string)

  /** The values of the first `n` options that are present, in order. */
  function SomesUpTo<T>(c: seq<Option<T>>, n: nat): seq<T>
    requires n <= |c|
  {
    if n == 0 then [] else SomesUpTo(c, n - 1) + if c[n - 1].Some? then [c[n - 1].value] else []
  }

  /** A value is kept exactly when some option among the first `n` holds it. */
  lemma {:induction false} SomesUpToSpec<T>(c: seq<Option<T>>, n: nat)
    requires n <= |c|
    ensures forall x :: x in SomesUpTo(c, n) <==> exists i :: 0 <= i < n && c[i] == Some(x)
    ensures |SomesUpTo(c, n)| <= n
  {
    if n > 0 {
      SomesUpToSpec(c, n - 1);
    }
  }
}
