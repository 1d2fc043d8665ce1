/** Failure-compatible wrappers shared by every module of the model:
    `Option` stands for a Kotlin/Java nullable value, `Result` for a
    computation that may end in an exception (the error carries the
    exception's message). */
module Common {

  /** A nullable value: `None` is Java's `null`. */
  datatype Option<+T> = None | Some(value: T) {

    /** Kotlin's `?:` operator: the value, or `default` when null. */
    function OrElse(default: T): T {
      match this
      case Some(v) => v
      case None => default
    }
  }

  /** The outcome of an operation that may throw. */
  datatype Result<+T> = Ok(value: T) | Err(message: string) {

    predicate IsFailure() {
      Err?
    }

    function PropagateFailure<U>(): Result<U>
      requires Err?
    {
      Err(message)
    }

    function Extract(): T
      requires Ok?
    {
      value
    }
  }

  /** Java's `Map.get`: the value bound to `k`, or null. */
  function Get<K, V>(m: map<K, V>, k: K): (r: Option<V>)
    ensures r.Some? <==> k in m
    ensures r.Some? ==> r.value == m[k]
  {
    if k in m then Some(m[k]) else None
  }

  /** A function applied element by element distributes over concatenation. */
  lemma MapAppend<A, B>(a: seq<A>, b: seq<A>, f: A -> B)
    ensures seq(|a + b|, i requires 0 <= i < |a + b| => f((a + b)[i]))
         == seq(|a|, i requires 0 <= i < |a| => f(a[i])) + seq(|b|, i requires 0 <= i < |b| => f(b[i]))
  {
  }
}
