/**
  The request-dispatch path of the reverse proxy (main.go): the round-robin
  `LoadBalancer`, construction of the pool from the comma-separated backend
  string, and the per-request handler that tags the request with an
  `X-Request-ID` and builds the forwarding target.
 */
module Proxy {
  import opened Wrappers
  import Strs

  // ---------------------------------------------------------------------
  // Unsigned 32-bit arithmetic, as Go's uint32 and atomic.AddUint32 do it
  // ---------------------------------------------------------------------

  const TWO32: nat := 0x1_0000_0000

  type Uint32 = x: int | 0 <= x < 0x1_0000_0000

  /** atomic.AddUint32(&c, 1): one more, wrapping from 2^32 - 1 to 0. */
  function Increment(c: Uint32): (r: Uint32)
    ensures r == (c + 1) % TWO32
    ensures c < TWO32 - 1 ==> r > c
  {
    if c == TWO32 - 1 then 0 else c + 1
  }

  /** The Go conversion uint32(len(...)), which truncates to the low 32 bits. */
  function LenUint32(n: nat): (r: Uint32)
    ensures r == n % TWO32
    ensures n < TWO32 ==> r == n
  {
    if n < TWO32 then n else n % TWO32
  }

  /**
    `index % uint32(len(Backends))` for a pool of `n` backends: always a valid
    position in the pool, and the plain remainder whenever the length fits
    32 bits. A zero modulus is a Go run-time panic, so it is excluded here and
    handled by the callers.
   */
  function Slot(index: Uint32, n: nat): (i: nat)
    requires LenUint32(n) != 0
    ensures i < n
    ensures n < TWO32 ==> i == index % n
  {
    index % LenUint32(n)
  }

  // ---------------------------------------------------------------------
  // The balancer
  // ---------------------------------------------------------------------

  class LoadBalancer {
    var Backends: seq<string>
    var counter: Uint32

    /** NewLoadBalancer: the list exactly as given, counter at its zero value. */
    constructor (backends: seq<string>)
      ensures Backends == backends && counter == 0
    {
      Backends := backends;
      counter := 0;
    }

    /**
      GetBackend: advance the counter by one (mod 2^32), then index the pool
      with the NEW counter value. `None` is the integer-divide-by-zero panic
      of an empty pool (or one whose length is a multiple of 2^32); the
      counter has already advanced when that happens. The pool never changes.
     */
    method GetBackend() returns (b: Option<string>)
      modifies this`counter
      ensures counter == Increment(old(counter))
      ensures b.None? <==> LenUint32(|Backends|) == 0
      ensures b.Some? ==> b.value == Backends[Slot(counter, |Backends|)]
    {
      counter := Increment(counter);
      var modulus := LenUint32(|Backends|);
      if modulus == 0 {
        b := None;
      } else {
        b := Some(Backends[Slot(counter, |Backends|)]);
      }
    }
  }

  /** On a fresh balancer the first selection is position 1 mod N, not 0. */
  method FirstCallOnFreshPool(backends: seq<string>) returns (b: Option<string>)
    requires 0 < |backends| < TWO32
    ensures b == Some(backends[1 % |backends|])
  {
    var lb := new LoadBalancer(backends);
    b := lb.GetBackend();
  }

  // ---------------------------------------------------------------------
  // Sequences of selections
  // ---------------------------------------------------------------------

  /**
    The positions picked by `k` successive GetBackend calls on a pool of `n`
    backends whose counter starts at `c`: each call is one step of
    GetBackend's contract.
   */
  function Trace(c: Uint32, n: nat, k: nat): (t: seq<nat>)
    requires LenUint32(n) != 0
    ensures |t| == k
    ensures forall j :: 0 <= j < k ==> t[j] < n
    decreases k
  {
    if k == 0 then [] else [Slot(Increment(c), n)] + Trace(Increment(c), n, k - 1)
  }

  /** Advancing once and then `j` more steps is advancing `j + 1` steps. */
  lemma IncrementThenAdd(c: Uint32, j: nat)
    ensures (Increment(c) + j) % TWO32 == (c + j + 1) % TWO32
  {
    if c == TWO32 - 1 {
      ModUnique(c + j + 1, TWO32, j / TWO32 + 1, j % TWO32);
      ModUnique(j, TWO32, j / TWO32, j % TWO32);
    }
  }

  /** The selected sequence is determined by the starting counter and the call count alone. */
  lemma {:induction false} TraceAt(c: Uint32, n: nat, k: nat, j: nat)
    requires LenUint32(n) != 0 && j < k
    ensures Trace(c, n, k)[j] == Slot((c + j + 1) % TWO32, n)
    decreases j
  {
    if j > 0 {
      TraceAt(Increment(c), n, k - 1, j - 1);
      IncrementThenAdd(c, j);
    }
  }

  /** `a + b` calls are `a` calls followed by `b` calls from the counter reached. */
  lemma {:induction false} TraceSplit(c: Uint32, n: nat, a: nat, b: nat)
    requires LenUint32(n) != 0
    ensures Trace(c, n, a + b) == Trace(c, n, a) + Trace((c + a) % TWO32, n, b)
    decreases a
  {
    if a > 0 {
      TraceSplit(Increment(c), n, a - 1, b);
      IncrementThenAdd(c, a - 1);
      assert a + b - 1 == (a - 1) + b;
    }
  }

  /** Without wrap-around, call `j` picks position (c + j + 1) mod n. */
  lemma TraceNoWrap(c: Uint32, n: nat, k: nat, j: nat)
    requires 0 < n < TWO32 && c + k < TWO32 && j < k
    ensures Trace(c, n, k)[j] == (c + j + 1) % n
  {
    TraceAt(c, n, k, j);
    ModUnique(c + j + 1, TWO32, 0, c + j + 1);
  }

  // Integer facts about division by a positive modulus.

  lemma MultipleInOpenInterval(n: int, d: int)
    requires 0 < n && -n < n * d < n
    ensures d == 0
  {
  }

  lemma ModUnique(m: int, n: int, q: int, r: int)
    requires 0 < n && 0 <= r < n && m == n * q + r
    ensures m % n == r && m / n == q
  {
    var d := m / n - q;
    assert m == n * (m / n) + m % n;
    assert n * d == r - m % n by {
      assert n * d == n * (m / n) - n * q;
    }
    MultipleInOpenInterval(n, d);
  }

  lemma ModDistinct(a: int, b: int, n: int)
    requires 0 < n && a < b < a + n
    ensures a % n != b % n
  {
    if a % n == b % n {
      assert a == n * (a / n) + a % n;
      assert b == n * (b / n) + b % n;
      var d := b / n - a / n;
      assert n * d == b - a by {
        assert n * d == n * (b / n) - n * (a / n);
      }
      MultipleInOpenInterval(n, d);
    }
  }

  lemma ModHit(x: nat, n: nat, i: nat) returns (j: nat)
    requires 0 < n && i < n
    ensures j < n && (x + j) % n == i
  {
    var q, r := x / n, x % n;
    assert x == n * q + r;
    if i >= r {
      j := i - r;
      ModUnique(x + j, n, q, i);
    } else {
      j := n - r + i;
      assert x + j == n * (q + 1) + i;
      ModUnique(x + j, n, q + 1, i);
    }
  }

  /** Without wrap-around, at most `n` consecutive calls never pick a position twice. */
  lemma TraceDistinct(c: Uint32, n: nat, k: nat)
    requires 0 < n < TWO32 && k <= n && c + k < TWO32
    ensures forall j1, j2 :: 0 <= j1 < j2 < k ==> Trace(c, n, k)[j1] != Trace(c, n, k)[j2]
  {
    forall j1, j2 | 0 <= j1 < j2 < k
      ensures Trace(c, n, k)[j1] != Trace(c, n, k)[j2]
    {
      TraceNoWrap(c, n, k, j1);
      TraceNoWrap(c, n, k, j2);
      ModDistinct(c + j1 + 1, c + j2 + 1, n);
    }
  }

  /**
    Round robin: while the counter does not wrap, any `n` consecutive calls on
    an `n`-element pool pick every position, and none twice.
   */
  lemma RoundRobinWindow(c: Uint32, n: nat)
    requires 0 < n && c + n < TWO32
    ensures forall j1, j2 :: 0 <= j1 < j2 < n ==> Trace(c, n, n)[j1] != Trace(c, n, n)[j2]
    ensures forall i :: 0 <= i < n ==> i in Trace(c, n, n)
  {
    TraceDistinct(c, n, n);
    forall i | 0 <= i < n
      ensures i in Trace(c, n, n)
    {
      var j := ModHit(c + 1, n, i);
      TraceNoWrap(c, n, n, j);
      assert c + j + 1 == c + 1 + j;
    }
  }

  lemma {:induction false} DistinctCountAtMostOne(t: seq<nat>, i: nat)
    requires forall j1, j2 :: 0 <= j1 < j2 < |t| ==> t[j1] != t[j2]
    ensures multiset(t)[i] <= 1
    decreases |t|
  {
    if t != [] {
      var rest := t[1..];
      assert t == [t[0]] + rest;
      assert forall j1, j2 :: 0 <= j1 < j2 < |rest| ==> rest[j1] != rest[j2] by {
        forall j1, j2 | 0 <= j1 < j2 < |rest| ensures rest[j1] != rest[j2] {
          assert rest[j1] == t[j1 + 1] && rest[j2] == t[j2 + 1];
        }
      }
      DistinctCountAtMostOne(rest, i);
      if t[0] == i {
        assert forall j :: 0 <= j < |rest| ==> rest[j] != i by {
          forall j | 0 <= j < |rest| ensures rest[j] != i {
            assert rest[j] == t[j + 1];
          }
        }
        assert i !in rest;
      }
    }
  }

  /**
    Fairness: while the counter does not wrap, `m` consecutive calls from any
    starting counter pick each of the `n` positions either floor(m/n) or
    ceiling(m/n) times.
   */
  lemma {:induction false} RoundRobinFair(c: Uint32, n: nat, m: nat, i: nat)
    requires 0 < n < TWO32 && c + m < TWO32 && i < n
    ensures m / n <= multiset(Trace(c, n, m))[i] <= (m + n - 1) / n
    decreases m
  {
    if m < n {
      FairShort(c, n, m, i);
    } else {
      RoundRobinFair(c, n, m - n, i);
      FairStep(c, n, m, i);
      DivStep(m, n);
      CeilStep(m, n);
      var now, before := multiset(Trace(c, n, m))[i], multiset(Trace(c, n, m - n))[i];
      var lo, hi := (m - n) / n, ((m - n) + n - 1) / n;
      assert lo <= before <= hi && now == before + 1;
      assert m / n == lo + 1 && (m + n - 1) / n == hi + 1;
    }
  }

  lemma DivStep(m: nat, n: nat)
    requires 0 < n <= m
    ensures m / n == (m - n) / n + 1
  {
    var q, r := (m - n) / n, (m - n) % n;
    assert m - n == n * q + r;
    assert n * (q + 1) == n * q + n;
    ModUnique(m, n, q + 1, r);
  }

  lemma CeilStep(m: nat, n: nat)
    requires 0 < n <= m
    ensures (m + n - 1) / n == ((m - n) + n - 1) / n + 1
  {
    DivStep(m + n - 1, n);
    assert m + n - 1 - n == (m - n) + n - 1;
  }

  /** Fewer than `n` calls pick no position twice. */
  lemma FairShort(c: Uint32, n: nat, m: nat, i: nat)
    requires 0 < n < TWO32 && c + m < TWO32 && i < n && m < n
    ensures m / n == 0 && multiset(Trace(c, n, m))[i] <= 1
    ensures (m + n - 1) / n == if m == 0 then 0 else 1
    ensures m == 0 ==> multiset(Trace(c, n, m))[i] == 0
  {
    ModUnique(m, n, 0, m);
    if m == 0 {
      ModUnique(n - 1, n, 0, n - 1);
    } else {
      ModUnique(m + n - 1, n, 1, m - 1);
    }
    TraceDistinct(c, n, m);
    var t := Trace(c, n, m);
    DistinctCountAtMostOne(t, i);
  }

  /** `n` more calls pick each position once more. */
  lemma FairStep(c: Uint32, n: nat, m: nat, i: nat)
    requires 0 < n < TWO32 && c + m < TWO32 && i < n && n <= m
    ensures multiset(Trace(c, n, m))[i] == multiset(Trace(c, n, m - n))[i] + 1
  {
    var cs := c + (m - n);
    ModUnique(cs, TWO32, 0, cs);
    assert (c + (m - n)) % TWO32 == cs;
    TraceSplit(c, n, m - n, n);
    assert (m - n) + n == m;
    WindowCountsOnce(cs, n, i);
    var t: seq<nat>, t1: seq<nat>, t2: seq<nat> := Trace(c, n, m), Trace(c, n, m - n), Trace(cs, n, n);
    assert t == t1 + t2;
    assert multiset(t) == multiset(t1) + multiset(t2);
  }

  /** In a window of `n` calls without wrap-around each position is picked exactly once. */
  lemma WindowCountsOnce(c: Uint32, n: nat, i: nat)
    requires 0 < n && c + n < TWO32 && i < n
    ensures multiset(Trace(c, n, n))[i] == 1
  {
    RoundRobinWindow(c, n);
    var t := Trace(c, n, n);
    DistinctCountAtMostOne(t, i);
    assert i in t;
    assert i in multiset(t);
  }

  /**
    The no-wrap hypothesis is needed: with three backends, the two calls that
    take the counter from 2^32 - 2 through 2^32 - 1 to 0 both pick position 0,
    because 3 does not divide 2^32.
   */
  lemma WrapBreaksRoundRobin()
    ensures Trace(TWO32 - 2, 3, 2) == [0, 0]
  {
    assert Increment(TWO32 - 2) == TWO32 - 1;
    assert Increment(TWO32 - 1) == 0;
    assert Slot(TWO32 - 1, 3) == 0;
    assert Trace(0, 3, 0) == [];
  }

  /** Incrementing a counter reduced mod 2^32 is reducing the incremented value. */
  lemma IncrementMod(x: nat)
    ensures Increment(x % TWO32) == (x + 1) % TWO32
  {
    var q, r := x / TWO32, x % TWO32;
    assert x == TWO32 * q + r;
    if r < TWO32 - 1 {
      ModUnique(x + 1, TWO32, q, r + 1);
    } else {
      assert TWO32 * (q + 1) == TWO32 * q + TWO32;
      ModUnique(x + 1, TWO32, q + 1, 0);
    }
  }

  /**
    `k` requests served one after another: each calls GetBackend once. The
    backends returned are the pool at the positions of `Trace`, so the
    round-robin lemmas about `Trace` are statements about the balancer.
   */
  method SuccessiveCalls(lb: LoadBalancer, k: nat) returns (picks: seq<string>)
    requires LenUint32(|lb.Backends|) != 0
    modifies lb`counter
    ensures lb.counter == (old(lb.counter) + k) % TWO32
    ensures |picks| == k
    ensures forall j :: 0 <= j < k ==>
              picks[j] == lb.Backends[Trace(old(lb.counter), |lb.Backends|, k)[j]]
  {
    ghost var c0, n := lb.counter, |lb.Backends|;
    ModUnique(c0, TWO32, 0, c0);
    picks := [];
    var i := 0;
    while i < k
      invariant 0 <= i <= k
      invariant lb.counter == (c0 + i) % TWO32
      invariant |picks| == i
      invariant forall j :: 0 <= j < i ==> picks[j] == lb.Backends[Trace(c0, n, k)[j]]
    {
      var b := lb.GetBackend();
      IncrementMod(c0 + i);
      TraceAt(c0, n, k, i);
      assert c0 + i + 1 == (c0 + i) + 1;
      picks := picks + [b.value];
      i := i + 1;
    }
  }

  /** A one-element pool returns its only backend on every call. */
  lemma {:induction false} SingleBackendAlways(c: Uint32, k: nat)
    ensures forall j :: 0 <= j < k ==> Trace(c, 1, k)[j] == 0
  {
  }

  // ---------------------------------------------------------------------
  // Building the pool
  // ---------------------------------------------------------------------

  /** The backend string hard-wired in main. */
  const DefaultBackendString: string := "https://comparable-stormi-tesjiggy-c2c6a289.koyeb.app/"

  /**
    main: split the backend string on ',' and hand the pieces to
    NewLoadBalancer. The pool is never empty, so (for any string shorter than
    2^32 - 1) GetBackend cannot panic, and the pieces join back to the string.
   */
  method NewPool(backendString: string) returns (lb: LoadBalancer)
    ensures fresh(lb) && lb.counter == 0
    ensures lb.Backends == Strs.Split(backendString, ',')
    ensures |lb.Backends| >= 1
    ensures |backendString| + 1 < TWO32 ==> LenUint32(|lb.Backends|) != 0
    ensures Strs.Join(lb.Backends, ',') == backendString
  {
    var backends := Strs.Split(backendString, ',');
    Strs.JoinSplit(backendString, ',');
    lb := new LoadBalancer(backends);
  }

  /** The hard-wired string has no comma, so the running pool has exactly one backend. */
  lemma DefaultPoolIsSingle()
    ensures Strs.Split(DefaultBackendString, ',') == [DefaultBackendString]
  {
    assert DefaultBackendString
        == "https://comparable-" + "stormi-tesjiggy-" + "c2c6a289.koyeb.app/";
    assert ',' !in "https://comparable-";
    assert ',' !in "stormi-tesjiggy-";
    assert ',' !in "c2c6a289.koyeb.app/";
    Strs.SplitWithoutSeparator(DefaultBackendString, ',');
  }

  // ---------------------------------------------------------------------
  // The request handler
  // ---------------------------------------------------------------------

  type Headers = map<string, string>

  const RequestIDHeader: string := "X-Request-ID"

  /** `backend + c.OriginalURL()`: nothing rewritten, nothing inserted. */
  function TargetURL(backend: string, originalURL: string): (t: string)
    ensures |t| == |backend| + |originalURL|
    ensures t[..|backend|] == backend
    ensures t[|backend|..] == originalURL
  {
    backend + originalURL
  }

  /** A backend ending in '/' and a path starting with '/' give a double slash. */
  lemma DoubleSlashKept(backend: string, originalURL: string)
    requires |backend| > 0 && backend[|backend| - 1] == '/'
    requires |originalURL| > 0 && originalURL[0] == '/'
    ensures TargetURL(backend, originalURL)[|backend| - 1..|backend| + 1] == "//"
  {
  }

  /** What the handler hands to the proxy: target URL and both header sets. */
  datatype Forward = Forward(target: string, response: Headers, request: Headers)

  /**
    The handler's work once the backend is chosen: the identifier goes into
    the response headers and the forwarded-request headers, identical in
    both, every other header is left as it was, and the target is the
    backend followed by the original URL.
   */
  function Dispatch(requestID: string, backend: string, originalURL: string,
                    response: Headers, request: Headers): (f: Forward)
    ensures RequestIDHeader in f.response && f.response[RequestIDHeader] == requestID
    ensures RequestIDHeader in f.request && f.request[RequestIDHeader] == f.response[RequestIDHeader]
    ensures f.response.Keys == response.Keys + {RequestIDHeader}
    ensures f.request.Keys == request.Keys + {RequestIDHeader}
    ensures forall h :: h in response && h != RequestIDHeader ==> f.response[h] == response[h]
    ensures forall h :: h in request && h != RequestIDHeader ==> f.request[h] == request[h]
    ensures |f.target| == |backend| + |originalURL|
    ensures f.target[..|backend|] == backend && f.target[|backend|..] == originalURL
  {
    Forward(TargetURL(backend, originalURL),
            response[RequestIDHeader := requestID],
            request[RequestIDHeader := requestID])
  }

  /** Outcome of one request: forwarded, or the selector panicked after the response header was set. */
  datatype Handled = Forwarded(backend: string, forward: Forward) | Panicked(response: Headers)

  /**
    The catch-all `app.All` route handler up to the `proxy.Do` call, with the
    generated identifier and the request's original URL as inputs.
   */
  method Handle(lb: LoadBalancer, requestID: string, originalURL: string,
                response: Headers, request: Headers) returns (h: Handled)
    modifies lb`counter
    ensures lb.counter == Increment(old(lb.counter))
    ensures h.Panicked? <==> LenUint32(|lb.Backends|) == 0
    ensures h.Panicked? ==> h.response == response[RequestIDHeader := requestID]
    ensures h.Forwarded? ==>
              h.backend == lb.Backends[Slot(lb.counter, |lb.Backends|)] &&
              h.forward == Dispatch(requestID, h.backend, originalURL, response, request)
  {
    var resp := response[RequestIDHeader := requestID];
    var backend := lb.GetBackend();
    if backend.None? {
      h := Panicked(resp);
    } else {
      var req := request[RequestIDHeader := requestID];
      h := Forwarded(backend.value, Forward(TargetURL(backend.value, originalURL), resp, req));
    }
  }
}
