/** Outcomes of the preprocessing routines.  The routines of DataHelpers
    signal failure by throwing a .NET exception; the model returns the
    exception's kind instead, and the first exception raised is the one
    reported. */
module Results {

  /** The exceptions the modelled code can raise. */
  datatype Error =
    | Format               // int.Parse on text that is not an integer
    | Overflow             // int.Parse out of Int32 range; a negative array dimension
    | KeyNotFound          // Dictionary indexer on a missing key
    | IndexOutOfRange      // array index past the end
    | ArgumentOutOfRange   // Substring with a negative length
    | DivideByZero         // integer % by zero

  datatype Result<+T> = Ok(value: T) | Err(error: Error) {
    predicate IsFailure() { Err? }

    function PropagateFailure<U>(): Result<U>
      requires Err?
    {
      Err(error)
    }

    function Extract(): T
      requires Ok?
    {
      value
    }
  }

  datatype Option<+T> = None | Some(value: T)

  /** The Dictionary indexer: the value of a present key, KeyNotFound for
      a missing one. */
  function Lookup<K, V>(m: map<K, V>, k: K): (r: Result<V>)
    ensures r.Ok? <==> k in m
    ensures r.Ok? ==> r.value == m[k]
    ensures r.Err? ==> r.error == KeyNotFound
  {
    if k in m then Ok(m[k]) else Err(KeyNotFound)
  }

  /** xs.Select(f).ToArray(): `f` applied to every element in turn; the
      first element on which `f` throws decides the exception. */
  function SelectAll<T, U>(f: T -> Result<U>, xs: seq<T>): (r: Result<seq<U>>)
    ensures r.Ok? <==> forall i :: 0 <= i < |xs| ==> f(xs[i]).Ok?
    ensures r.Ok? ==> |r.value| == |xs|
                      && forall i :: 0 <= i < |xs| ==> f(xs[i]) == Ok(r.value[i])
  {
    if xs == [] then Ok([])
    else
      match f(xs[0])
      case Err(e) => Err(e)
      case Ok(v) =>
        assert forall i :: 1 <= i < |xs| ==> xs[i] == xs[1..][i - 1];
        match SelectAll(f, xs[1..])
        case Ok(vs) => Ok([v] + vs)
        case Err(e) => Err(e)
  }

  /** When SelectAll fails, its exception is that of the first element
      on which `f` fails. */
  lemma {:induction false} SelectAllFirstError<T, U>(f: T -> Result<U>, xs: seq<T>, k: nat)
    requires k < |xs| && f(xs[k]).Err?
    requires forall j :: 0 <= j < k ==> f(xs[j]).Ok?
    ensures SelectAll(f, xs) == Err(f(xs[k]).error)
  {
    if k > 0 {
      assert f(xs[0]).Ok?;
      assert forall j :: 0 <= j < k - 1 ==> xs[1..][j] == xs[j + 1];
      SelectAllFirstError(f, xs[1..], k - 1);
    }
  }

  /** A counted loop over 0 .. n - 1 that computes f(i) in turn and
      stops at the first exception. */
  function Tabulate<T>(f: nat -> Result<T>, n: nat): (r: Result<seq<T>>)
    ensures r.Ok? ==> |r.value| == n
  {
    if n == 0 then Ok([])
    else
      match Tabulate(f, n - 1)
      case Err(e) => Err(e)
      case Ok(vs) =>
        match f(n - 1)
        case Err(e) => Err(e)
        case Ok(v) => Ok(vs + [v])
  }

  /** The loop gets through exactly when no step throws, and then its
      i-th value is that of step i. */
  lemma {:induction false} TabulateAll<T>(f: nat -> Result<T>, n: nat)
    ensures Tabulate(f, n).Ok? <==> forall i: nat :: i < n ==> f(i).Ok?
    ensures Tabulate(f, n).Ok? ==> forall i: nat :: i < n ==> f(i) == Ok(Tabulate(f, n).value[i])
  {
    if n > 0 {
      TabulateAll(f, n - 1);
    }
  }

  /** The first step that throws decides the exception, however many
      steps follow. */
  lemma {:induction false} TabulateStop<T>(f: nat -> Result<T>, i: nat, n: nat)
    requires i < n && Tabulate(f, i).Ok? && f(i).Err?
    ensures Tabulate(f, n) == Err(f(i).error)
  {
    if n > i + 1 {
      TabulateStop(f, i, n - 1);
    }
  }
}
