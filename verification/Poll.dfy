/** The receive poll: bound sockets are asked in turn, starting after the one served last. */
module Poll {
  import opened Octets

  /** `ready[i]`: socket `i` is bound and has a datagram. */
  type Ready = seq<bool>

  /** `(a + k) % n` for positions below `n`. */
  function Around(a: nat, k: nat, n: nat): (r: nat)
    requires a < n && k <= n
    ensures r < n
  {
    if a + k < n then a + k else a + k - n
  }

  lemma AroundIsMod(a: nat, k: nat, n: nat)
    requires a < n && k <= n
    ensures Around(a, k, n) == (a + k) % n
  {
    var x := a + k;
    var q, r := x / n, x % n;
    assert x == n * q + r;
    if x < n {
      MultipleBetween(q, n);
    } else {
      assert n * (q - 1) == x - n - r;
      MultipleBetween(q - 1, n);
    }
  }

  lemma AtLeast(m: int, n: int)
    requires m >= 1 && n >= 0
    ensures n * m >= n
  {
  }

  lemma MultipleBetween(m: int, n: int)
    requires 0 - n < n * m < n
    ensures m == 0
  {
    if m > 0 {
      AtLeast(m, n);
    } else if m < 0 {
      AtLeast(-m, n);
    }
  }

  /** The first ready socket among those `k` or more places after `next`. */
  function FirstFrom(next: nat, ready: Ready, k: nat): (r: Option<nat>)
    requires next < |ready| && k <= |ready|
    ensures r.Some? ==> r.value < |ready|
    decreases |ready| - k
  {
    if k == |ready| then None
    else if ready[Around(next, k, |ready|)] then Some(Around(next, k, |ready|))
    else FirstFrom(next, ready, k + 1)
  }

  function Serve(next: nat, ready: Ready): Option<nat>
    requires next < |ready|
  {
    FirstFrom(next, ready, 0)
  }

  /** After a datagram the next socket; the poll also rotates when there was none. */
  function After(next: nat, ready: Ready): (r: nat)
    requires next < |ready|
    ensures r < |ready|
  {
    match Serve(next, ready)
    case Some(i) => Around(i, 1, |ready|)
    case None => Around(next, 1, |ready|)
  }

  /** How many places after `next` socket `j` is asked. */
  function Distance(next: nat, j: nat, n: nat): (d: nat)
    requires next < n && j < n
    ensures d < n && Around(next, d, n) == j
  {
    if j >= next then j - next else j + n - next
  }

  lemma {:induction false} ServesNearest(next: nat, ready: Ready, k: nat, j: nat)
    requires next < |ready| && k <= |ready| && j < |ready| && ready[j] && k <= Distance(next, j, |ready|)
    ensures var i := FirstFrom(next, ready, k);
            && i.Some? && ready[i.value]
            && k <= Distance(next, i.value, |ready|) <= Distance(next, j, |ready|)
    decreases |ready| - k
  {
    if !ready[Around(next, k, |ready|)] {
      ServesNearest(next, ready, k + 1, j);
    }
  }

  /** While socket `j` is ready, each call delivers a datagram, and one from another socket
      brings `j` nearer. */
  lemma EachCallBringsNearer(next: nat, ready: Ready, j: nat)
    requires next < |ready| && j < |ready| && ready[j]
    ensures Serve(next, ready).Some?
    ensures Serve(next, ready) != Some(j) ==>
              Distance(After(next, ready), j, |ready|) < Distance(next, j, |ready|)
  {
    hide FirstFrom;
    ServesNearest(next, ready, 0, j);
  }

  /** The socket served by call `k` of a run. */
  function Served(next: nat, calls: seq<Ready>, k: nat, n: nat): Option<nat>
    requires next < n && k < |calls| && forall t :: 0 <= t < |calls| ==> |calls[t]| == n
    decreases k
  {
    if k == 0 then Serve(next, calls[0]) else Served(After(next, calls[0]), calls[1..], k - 1, n)
  }

  /** A socket that always has a datagram is served after at most `n - 1` datagrams from the
      others, whatever they do. */
  lemma {:induction false} NoStarvation(next: nat, calls: seq<Ready>, j: nat, n: nat) returns (k: nat)
    requires next < n && j < n && |calls| >= n
    requires forall t :: 0 <= t < |calls| ==> |calls[t]| == n && calls[t][j]
    ensures k <= Distance(next, j, n) <= n - 1 && Served(next, calls, k, n) == Some(j)
    ensures forall t :: 0 <= t < k ==> Served(next, calls, t, n).Some? && Served(next, calls, t, n) != Some(j)
  {
    k := ServedWithin(next, calls, j, n);
  }

  lemma {:induction false} ServedWithin(next: nat, calls: seq<Ready>, j: nat, n: nat) returns (k: nat)
    requires next < n && j < n && |calls| > Distance(next, j, n)
    requires forall t :: 0 <= t < |calls| ==> |calls[t]| == n && calls[t][j]
    ensures k <= Distance(next, j, n) && Served(next, calls, k, n) == Some(j)
    ensures forall t :: 0 <= t < k ==> Served(next, calls, t, n).Some? && Served(next, calls, t, n) != Some(j)
    decreases Distance(next, j, n)
  {
    hide Serve, After;
    EachCallBringsNearer(next, calls[0], j);
    if Serve(next, calls[0]) == Some(j) {
      k := 0;
    } else {
      var k' := ServedWithin(After(next, calls[0]), calls[1..], j, n);
      k := k' + 1;
      forall t | 0 <= t < k
        ensures Served(next, calls, t, n).Some? && Served(next, calls, t, n) != Some(j)
      {
        if t > 0 {
          assert Served(next, calls, t, n) == Served(After(next, calls[0]), calls[1..], t - 1, n);
        }
      }
    }
  }

  /** The poll as it is held: the bindings and where to look first. */
  class Receiver {
    const bound: seq<bool>
    var nextBinding: nat

    ghost predicate Valid()
      reads this
    {
      bound != [] ==> nextBinding < |bound|
    }

    ghost function ReadyOf(waiting: seq<bool>): (r: Ready)
      requires |waiting| == |bound|
      ensures |r| == |bound|
    {
      seq(|bound|, i requires 0 <= i < |bound| => bound[i] && waiting[i])
    }

    constructor (bound: seq<bool>)
      ensures Valid() && this.bound == bound && nextBinding == 0
    {
      this.bound, nextBinding := bound, 0;
    }

    /** One call: which binding a datagram was taken from; `waiting[i]` says whether a receive
        on socket `i` would return one. */
    method Receive(waiting: seq<bool>) returns (serviced: Option<nat>)
      requires Valid() && |waiting| == |bound|
      modifies this
      ensures Valid()
      ensures bound == [] ==> serviced == None && nextBinding == old(nextBinding)
      ensures bound != [] ==> serviced == Serve(old(nextBinding), ReadyOf(waiting))
      ensures bound != [] ==> nextBinding == After(old(nextBinding), ReadyOf(waiting))
    {
      if |bound| == 0 { return None; }
      var n := |bound|;
      ghost var ready := ReadyOf(waiting);
      for k := 0 to n
        invariant nextBinding == old(nextBinding)
        invariant FirstFrom(nextBinding, ready, k) == Serve(nextBinding, ready)
      {
        AroundIsMod(nextBinding, k, n);
        var i := (nextBinding + k) % n;
        if bound[i] && waiting[i] {
          AroundIsMod(i, 1, n);
          nextBinding := (i + 1) % n;
          return Some(i);
        }
      }
      AroundIsMod(nextBinding, 1, n);
      nextBinding := (nextBinding + 1) % n;
      return None;
    }
  }

  // ---- Idle calls ----

  /** A call that finds nothing still moves on by one. */
  lemma {:induction false} IdleRotates(next: nat, ready: Ready)
    requires next < |ready| && forall i :: 0 <= i < |ready| ==> !ready[i]
    ensures Serve(next, ready) == None && After(next, ready) == (next + 1) % |ready|
  {
    NoneFrom(next, ready, 0);
    AroundIsMod(next, 1, |ready|);
  }

  lemma {:induction false} NoneFrom(next: nat, ready: Ready, k: nat)
    requires next < |ready| && k <= |ready| && forall i :: 0 <= i < |ready| ==> !ready[i]
    ensures FirstFrom(next, ready, k) == None
    decreases |ready| - k
  {
    if k < |ready| {
      NoneFrom(next, ready, k + 1);
    }
  }

  /** After a datagram from a socket that socket is asked last. */
  lemma {:induction false} ServedGoesLast(next: nat, ready: Ready)
    requires next < |ready| && Serve(next, ready).Some?
    ensures var i := Serve(next, ready).value;
            && ready[i] && After(next, ready) == (i + 1) % |ready|
            && Distance(After(next, ready), i, |ready|) == |ready| - 1
  {
    ServedIsReady(next, ready, 0);
    AroundIsMod(Serve(next, ready).value, 1, |ready|);
  }

  lemma {:induction false} ServedIsReady(next: nat, ready: Ready, k: nat)
    requires next < |ready| && k <= |ready| && FirstFrom(next, ready, k).Some?
    ensures ready[FirstFrom(next, ready, k).value]
    decreases |ready| - k
  {
    if !ready[Around(next, k, |ready|)] {
      ServedIsReady(next, ready, k + 1);
    }
  }
}
