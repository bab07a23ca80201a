/** Traces of what a driver does: acquiring and releasing host/device
    buffers and queues, and running opaque kernels. The resource part lets
    the model state that every exit path releases what it acquired. */
module Resources {

  /** The buffers and queues the drivers allocate, named after the local
      variables that hold them. */
  datatype Resource =
    | Work      // host workspace (cgetrs `work`)
    | Work2     // host workspace (dsytrd `work2`)
    | DWork     // device workspace (`dwork`)
    | DA        // device copy of A (dgesv_rbt `dA`)
    | DB        // device copy of B (dgesv_rbt `dB`)
    | DAo       // saved transformed A for refinement (dgesv_rbt `dAo`)
    | DBo       // saved transformed B for refinement (dgesv_rbt `dBo`)
    | HU        // host butterfly U (dgesv_rbt `hu`)
    | HV        // host butterfly V (dgesv_rbt `hv`)
    | DV        // device butterfly V (dgesv_rbt `dv`)
    | Queue     // the device queue

  /** One step of a driver: a successful or failed acquisition, a release
      (of a possibly never-acquired, NULL, resource), or a kernel of type K. */
  datatype Event<K> =
    | Acquire(r: Resource)
    | AcquireFailed(r: Resource)
    | Release(r: Resource)
    | Run(k: K)

  /** What a driver returns: the status code and what it did. */
  datatype Outcome<K> = Outcome(info: int, trace: seq<Event<K>>)

  function Update<K>(held: set<Resource>, e: Event<K>): set<Resource>
  {
    match e
    case Acquire(r) => held + {r}
    case AcquireFailed(_) => held
    case Release(r) => held - {r}
    case Run(_) => held
  }

  /** The resources held after running `t` from a state holding `held`. */
  function HeldAfter<K>(held: set<Resource>, t: seq<Event<K>>): set<Resource>
    decreases |t|
  {
    if |t| == 0 then held else HeldAfter(Update(held, t[0]), t[1..])
  }

  /** Resources still held when a trace ends: a leak. */
  function Held<K>(t: seq<Event<K>>): set<Resource>
  {
    HeldAfter({}, t)
  }

  /** The kernels of a trace, in issue order. */
  function Kernels<K>(t: seq<Event<K>>): (ks: seq<K>)
    ensures |ks| <= |t|
  {
    if |t| == 0 then []
    else (if t[0].Run? then [t[0].k] else []) + Kernels(t[1..])
  }

  /** A kernel sequence as trace events. */
  function Runs<K>(ks: seq<K>): (t: seq<Event<K>>)
    ensures |t| == |ks|
    ensures forall i :: 0 <= i < |ks| ==> t[i] == Run(ks[i])
  {
    seq(|ks|, i requires 0 <= i < |ks| => Run(ks[i]))
  }

  lemma {:induction false} HeldAfterAppend<K>(held: set<Resource>, a: seq<Event<K>>, b: seq<Event<K>>)
    ensures HeldAfter(held, a + b) == HeldAfter(HeldAfter(held, a), b)
    decreases |a|
  {
    if |a| > 0 {
      assert (a + b)[1..] == a[1..] + b;
      HeldAfterAppend(Update(held, a[0]), a[1..], b);
    } else {
      assert a + b == b;
    }
  }

  /** Kernels acquire and release nothing. */
  lemma {:induction false} RunsHoldNothing<K>(held: set<Resource>, ks: seq<K>)
    ensures HeldAfter(held, Runs(ks)) == held
    decreases |ks|
  {
    if |ks| > 0 {
      assert Runs(ks)[1..] == Runs(ks[1..]);
      RunsHoldNothing(held, ks[1..]);
    }
  }

  lemma {:induction false} KernelsAppend<K>(a: seq<Event<K>>, b: seq<Event<K>>)
    ensures Kernels(a + b) == Kernels(a) + Kernels(b)
    decreases |a|
  {
    if |a| > 0 {
      assert (a + b)[1..] == a[1..] + b;
      KernelsAppend(a[1..], b);
    } else {
      assert a + b == b;
    }
  }

  lemma {:induction false} KernelsOfRuns<K>(ks: seq<K>)
    ensures Kernels(Runs(ks)) == ks
    decreases |ks|
  {
    if |ks| > 0 {
      assert Runs(ks)[1..] == Runs(ks[1..]);
      KernelsOfRuns(ks[1..]);
    }
  }

  /** A trace of the shape "acquire, kernels, release" (the shape every
      driver's successful path has) holds only what it held before plus what
      `pre` leaves, after `post` has run. */
  lemma {:induction false} Bracket<K>(pre: seq<Event<K>>, ks: seq<K>, post: seq<Event<K>>)
    ensures Held(pre + Runs(ks) + post) == HeldAfter(Held(pre), post)
    ensures Kernels(pre + Runs(ks) + post) == Kernels(pre) + ks + Kernels(post)
  {
    HeldAfterAppend({}, pre + Runs(ks), post);
    HeldAfterAppend({}, pre, Runs(ks));
    RunsHoldNothing(Held(pre), ks);
    KernelsAppend(pre + Runs(ks), post);
    KernelsAppend(pre, Runs(ks));
    KernelsOfRuns(ks);
  }

  /** The kernels of a driver that only creates and destroys its queue
      around them: it runs exactly ks and holds nothing at the end. */
  lemma {:induction false} QueueBracket<K>(ks: seq<K>)
    ensures Held([Acquire(Queue)] + Runs(ks) + [Release(Queue)]) == {}
    ensures Kernels([Acquire(Queue)] + Runs(ks) + [Release(Queue)]) == ks
  {
    var pre: seq<Event<K>> := [Acquire(Queue)];
    var post: seq<Event<K>> := [Release(Queue)];
    Bracket(pre, ks, post);
    assert Held(pre) == {Queue} && Kernels(pre) == [];
    assert HeldAfter({Queue}, post) == {} && Kernels(post) == [];
  }

  /** Allocate rs in order, stopping at the first that fails (the
      short-circuit `||` chains of the drivers); `fails` are the
      allocations that would fail. */
  function TryAll<K>(rs: seq<Resource>, fails: set<Resource>): (t: seq<Event<K>>)
    ensures |t| <= |rs|
  {
    if |rs| == 0 then []
    else if rs[0] in fails then [AcquireFailed(rs[0])]
    else [Acquire(rs[0])] + TryAll(rs[1..], fails)
  }

  /** Every allocation of rs succeeds. */
  predicate Succeeds(rs: seq<Resource>, fails: set<Resource>)
  {
    forall i :: 0 <= i < |rs| ==> rs[i] !in fails
  }

  /** Release each of rs, in order. */
  function Releases<K>(rs: seq<Resource>): (t: seq<Event<K>>)
    ensures |t| == |rs|
    ensures forall i :: 0 <= i < |rs| ==> t[i] == Release(rs[i])
  {
    seq(|rs|, i requires 0 <= i < |rs| => Release(rs[i]))
  }

  /** An allocation chain acquires at most rs, all of rs when every
      allocation succeeds, and runs no kernel. */
  lemma {:induction false} TryAllHolds<K>(held: set<Resource>, rs: seq<Resource>, fails: set<Resource>)
    ensures HeldAfter(held, TryAll<K>(rs, fails)) <= held + (set r | r in rs)
    ensures Succeeds(rs, fails) ==> HeldAfter(held, TryAll<K>(rs, fails)) == held + (set r | r in rs)
    ensures Kernels(TryAll<K>(rs, fails)) == []
    decreases |rs|
  {
    if |rs| > 0 {
      var t := TryAll<K>(rs, fails);
      if rs[0] in fails {
        assert t[1..] == [];
      } else {
        assert t[1..] == TryAll<K>(rs[1..], fails);
        TryAllHolds<K>(held + {rs[0]}, rs[1..], fails);
        assert (set r | r in rs) == {rs[0]} + (set r | r in rs[1..]);
      }
    }
  }

  /** Releasing rs leaves what was held minus rs. */
  lemma {:induction false} ReleasesAll<K>(held: set<Resource>, rs: seq<Resource>)
    ensures HeldAfter(held, Releases<K>(rs)) == held - (set r | r in rs)
    ensures Kernels(Releases<K>(rs)) == []
    decreases |rs|
  {
    if |rs| > 0 {
      assert Releases<K>(rs)[1..] == Releases<K>(rs[1..]);
      ReleasesAll<K>(held - {rs[0]}, rs[1..]);
      assert (set r | r in rs) == {rs[0]} + (set r | r in rs[1..]);
    }
  }

  /** A trace that holds only resources it then releases ends holding
      nothing. */
  lemma {:induction false} CleanedUp<K>(t: seq<Event<K>>, rs: seq<Resource>)
    requires Held(t) <= (set r | r in rs)
    ensures Held(t + Releases(rs)) == {}
    ensures Kernels(t + Releases(rs)) == Kernels(t)
  {
    HeldAfterAppend({}, t, Releases<K>(rs));
    ReleasesAll<K>(Held(t), rs);
    KernelsAppend(t, Releases<K>(rs));
  }

  /** The resources a trace acquires, fails to acquire or releases. */
  function Touched<K>(t: seq<Event<K>>): set<Resource>
  {
    if |t| == 0 then {}
    else (if t[0].Run? then {} else {t[0].r}) + Touched(t[1..])
  }

  lemma {:induction false} TouchedAppend<K>(a: seq<Event<K>>, b: seq<Event<K>>)
    ensures Touched(a + b) == Touched(a) + Touched(b)
    decreases |a|
  {
    if |a| > 0 {
      assert (a + b)[1..] == a[1..] + b;
      TouchedAppend(a[1..], b);
    } else {
      assert a + b == b;
    }
  }

  /** A single event touches its own resource, a kernel none. */
  lemma {:induction false} TouchedOne<K>(e: Event<K>)
    ensures Touched([e]) == if e.Run? then {} else {e.r}
  {
    assert [e][1..] == [];
  }

  /** Two traces that touch only resources of S, one after the other. */
  lemma {:induction false} TouchedJoin<K>(a: seq<Event<K>>, b: seq<Event<K>>, S: set<Resource>)
    requires Touched(a) <= S && Touched(b) <= S
    ensures Touched(a + b) <= S
  {
    TouchedAppend(a, b);
  }

  /** Allocations and releases touch only their own resources; kernels
      touch none. */
  lemma {:induction false} TouchedBy<K>(rs: seq<Resource>, fails: set<Resource>, ks: seq<K>)
    ensures Touched(TryAll<K>(rs, fails)) <= (set r | r in rs)
    ensures Touched(Releases<K>(rs)) == (set r | r in rs)
    ensures Touched(Runs(ks)) == {}
    decreases |rs| + |ks|
  {
    if |rs| > 0 {
      TouchedBy<K>(rs[1..], fails, ks);
      var t := TryAll<K>(rs, fails);
      if rs[0] !in fails {
        assert t[1..] == TryAll<K>(rs[1..], fails);
      } else {
        assert t[1..] == [];
      }
      assert Releases<K>(rs)[1..] == Releases<K>(rs[1..]);
      assert (set r | r in rs) == {rs[0]} + (set r | r in rs[1..]);
    } else if |ks| > 0 {
      TouchedBy<K>(rs, fails, ks[1..]);
      assert Runs(ks)[1..] == Runs(ks[1..]);
    }
  }
}
