/** Term sources as the engines see them.

    Every number is an endless stream of signed integer terms.  An engine
    holds a read cursor into each of its inputs; reading a term hands back the
    term under the cursor and moves the cursor on by one.  The demand channel
    that delivers terms between threads is not modelled: an engine's input is
    the sequence of terms its upstream would emit, in order. */
module Terms {

  datatype Option<T> = None | Some(value: T)

  /** An upstream term source: its terms, and how many have been read. */
  datatype Input = Input(terms: nat -> int, pos: nat) {
    /** The next term `cf_get` would return. */
    function Head(): int {
      terms(pos)
    }

    /** The source after one `cf_get`. */
    function Tail(): (r: Input)
      ensures r.terms == terms && r.pos == pos + 1
    {
      Input(terms, pos + 1)
    }
  }

  /** The next `n` terms of a source, in the order `cf_get` returns them. */
  function Take(inp: Input, n: nat): (r: seq<int>)
    ensures |r| == n && forall i :: 0 <= i < n ==> r[i] == inp.terms(inp.pos + i)
  {
    seq(n, i requires 0 <= i < n => inp.terms(inp.pos + i))
  }

  /** Taking n + 1 terms is reading the head and then taking n more. */
  lemma TakeCons(inp: Input, n: nat)
    ensures Take(inp, n + 1) == [inp.Head()] + Take(inp.Tail(), n)
  {
    assert Take(inp, n + 1)[1..] == Take(inp.Tail(), n);
  }

  /** What one demand on a retrying engine produces: the term it emitted with
      the engine's new state and input cursor; `Stalled` when the fuel bound
      ran out before the engine could decide a term; `Faulted` when the source
      would have divided by zero (the gcd of an all-zero tableau). */
  datatype Demand<S> =
    | Emitted(term: int, state: S, rest: Input)
    | Stalled
    | Faulted

  /** The constant stream `[a0; a, a, a, ...]`. */
  function Periodic(a0: int, a: int): nat -> int {
    (i: nat) => if i == 0 then a0 else a
  }
}
