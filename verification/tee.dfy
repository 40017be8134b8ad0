/** The request path of the tee dispatcher in tee.c.

    A tee splits one upstream term source into two branches, 0 and 1, that
    may read at different speeds.  The dispatcher keeps one backlog (a FIFO
    queue) per branch.  When branch k asks for a term it is served from its
    own backlog if that is non-empty; otherwise one term is read from
    upstream, handed to k, and queued on the other branch's backlog if that
    branch is still registered. */
module Tee {
  import opened Terms

  /** A branch number. */
  type Branch = k: nat | k < 2

  function Other(k: Branch): Branch {
    1 - k
  }

  /** The dispatcher: the two backlogs, which branches are registered, and
      the upstream cursor. */
  datatype Tee = Tee(backlog0: seq<int>, backlog1: seq<int>,
                     live0: bool, live1: bool, upstream: Input)
  {
    function Backlog(k: Branch): seq<int> {
      if k == 0 then backlog0 else backlog1
    }

    predicate Live(k: Branch) {
      if k == 0 then live0 else live1
    }

    function WithBacklog(k: Branch, b: seq<int>): (r: Tee)
      ensures r.Backlog(k) == b && r.Backlog(Other(k)) == Backlog(Other(k))
      ensures r.live0 == live0 && r.live1 == live1 && r.upstream == upstream
    {
      if k == 0 then this.(backlog0 := b) else this.(backlog1 := b)
    }
  }

  /** `cf_tee`: both branches registered, both backlogs empty.  This
      establishes the two invariants the request path keeps: at most one
      backlog holds terms, and the state is consistent with neither branch
      having received anything from the current upstream position. */
  function New(upstream: Input): (t: Tee)
    ensures t.Backlog(0) == [] && t.Backlog(1) == [] && t.Live(0) && t.Live(1)
    ensures t.upstream == upstream
    ensures OneBacklog(t)
    ensures Consistent(t, upstream.terms, upstream.pos, [], [])
  {
    Tee([], [], true, true, upstream)
  }

  /** At most one backlog holds terms. */
  predicate OneBacklog(t: Tee) {
    t.backlog0 == [] || t.backlog1 == []
  }

  /** One request from branch k: the dispatcher's new state and the term
      sent to k. */
  function Request(t: Tee, k: Branch): (r: (Tee, int))
    ensures t.Backlog(k) != [] ==>
      r.1 == t.Backlog(k)[0] && r.0.Backlog(k) == t.Backlog(k)[1..] &&
      r.0.Backlog(Other(k)) == t.Backlog(Other(k)) && r.0.upstream == t.upstream
    ensures t.Backlog(k) == [] ==>
      r.1 == t.upstream.Head() && r.0.upstream == t.upstream.Tail() && r.0.Backlog(k) == [] &&
      r.0.Backlog(Other(k)) == t.Backlog(Other(k)) + (if t.Live(Other(k)) then [r.1] else [])
    ensures r.0.live0 == t.live0 && r.0.live1 == t.live1
  {
    var b := t.Backlog(k);
    if b != [] then
      (t.WithBacklog(k, b[1..]), b[0])
    else
      var z := t.upstream.Head();
      var t1 := t.(upstream := t.upstream.Tail());
      if t.Live(Other(k)) then
        (t1.WithBacklog(Other(k), t.Backlog(Other(k)) + [z]), z)
      else
        (t1, z)
  }

  /** A request keeps at most one backlog non-empty. */
  lemma RequestKeepsOneBacklog(t: Tee, k: Branch)
    requires OneBacklog(t)
    ensures OneBacklog(Request(t, k).0)
  {
    var r := Request(t, k).0;
    if t.Backlog(k) == [] {
      assert r.Backlog(k) == [];
    } else {
      assert t.Backlog(Other(k)) == [] && r.Backlog(Other(k)) == [];
    }
  }

  /** The `n` upstream terms from position `base` on, starting `from` terms in. */
  ghost predicate UpstreamFrom(s: seq<int>, inp: Input, base: nat, from: nat) {
    forall i :: 0 <= i < |s| ==> s[i] == inp.terms(base + from + i)
  }

  function Max(a: nat, b: nat): nat {
    if a < b then b else a
  }

  /** The dispatcher's state after serving `received0` terms to branch 0 and
      `received1` to branch 1, both registered, from an upstream that stood
      at `base`: upstream has been read max(n0, n1) times and each backlog
      holds the terms its branch has not yet received. */
  ghost predicate Consistent(t: Tee, terms: nat -> int, base: nat,
                             received0: seq<int>, received1: seq<int>) {
    var n := Max(|received0|, |received1|);
    t.Live(0) && t.Live(1) &&
    t.upstream.terms == terms && t.upstream.pos == base + n &&
    |t.Backlog(0)| == n - |received0| && |t.Backlog(1)| == n - |received1| &&
    UpstreamFrom(received0, t.upstream, base, 0) && UpstreamFrom(received1, t.upstream, base, 0) &&
    UpstreamFrom(t.Backlog(0), t.upstream, base, |received0|) &&
    UpstreamFrom(t.Backlog(1), t.upstream, base, |received1|)
  }

  /** Received terms with one more term for branch k. */
  function Deliver(received: seq<int>, k: Branch, mine: Branch, z: int): seq<int> {
    if k == mine then received + [z] else received
  }

  /** Serving a request keeps the dispatcher consistent with what the two
      branches have received. */
  lemma RequestKeepsConsistent(t: Tee, terms: nat -> int, base: nat,
                               received0: seq<int>, received1: seq<int>, k: Branch)
    requires Consistent(t, terms, base, received0, received1)
    ensures var (t1, z) := Request(t, k);
      Consistent(t1, terms, base, Deliver(received0, k, 0, z), Deliver(received1, k, 1, z))
  {
    var (t1, z) := Request(t, k);
    var r0, r1 := Deliver(received0, k, 0, z), Deliver(received1, k, 1, z);
    var n := Max(|received0|, |received1|);
    var mine := if k == 0 then received0 else received1;
    var theirs := if k == 0 then received1 else received0;
    var mine1 := mine + [z];
    assert t.Backlog(k) == [] <==> |mine| == n;
    if t.Backlog(k) != [] {
      assert z == terms(base + |mine|);
      assert Max(|r0|, |r1|) == n;
      assert UpstreamFrom(mine1, t1.upstream, base, 0);
      assert UpstreamFrom(t1.Backlog(k), t1.upstream, base, |mine1|);
    } else {
      assert z == terms(base + n);
      assert Max(|r0|, |r1|) == n + 1;
      assert UpstreamFrom(mine1, t1.upstream, base, 0);
      var other := t1.Backlog(Other(k));
      assert other == t.Backlog(Other(k)) + [z];
      assert UpstreamFrom(other, t1.upstream, base, |theirs|);
    }
  }

  /** How many of the requests come from branch k. */
  function Count(requests: seq<Branch>, k: Branch): nat
    ensures Count(requests, k) <= |requests|
  {
    if requests == [] then 0
    else Count(requests[..|requests| - 1], k) + (if requests[|requests| - 1] == k then 1 else 0)
  }

  /** The request path run on a sequence of requests, both branches
      registered: each branch receives exactly the upstream prefix of its
      length, in order, and upstream is read max(n0, n1) times. */
  method Serve(upstream: Input, requests: seq<Branch>)
    returns (t: Tee, received0: seq<int>, received1: seq<int>)
    ensures |received0| == Count(requests, 0) && |received1| == Count(requests, 1)
    ensures t.upstream.terms == upstream.terms
    ensures t.upstream.pos == upstream.pos + Max(|received0|, |received1|)
    ensures forall i :: 0 <= i < |received0| ==> received0[i] == upstream.terms(upstream.pos + i)
    ensures forall i :: 0 <= i < |received1| ==> received1[i] == upstream.terms(upstream.pos + i)
    ensures OneBacklog(t)
  {
    t := New(upstream);
    received0, received1 := [], [];
    var j := 0;
    while j < |requests|
      invariant 0 <= j <= |requests|
      invariant |received0| == Count(requests[..j], 0) && |received1| == Count(requests[..j], 1)
      invariant Consistent(t, upstream.terms, upstream.pos, received0, received1)
      invariant OneBacklog(t)
    {
      var k := requests[j];
      RequestKeepsOneBacklog(t, k);
      RequestKeepsConsistent(t, upstream.terms, upstream.pos, received0, received1, k);
      var step := Request(t, k);
      received0, received1 := Deliver(received0, k, 0, step.1), Deliver(received1, k, 1, step.1);
      t := step.0;
      assert requests[..j + 1][..j] == requests[..j];
      j := j + 1;
    }
    assert requests[..j] == requests;
  }
}
