# Round-robin reverse proxy: a Dafny model

This project models the core of a small Go reverse proxy in two parts.

- **Dispatch path (`main.go`)**
  - A `LoadBalancer` holds an ordered list of backend base URLs and a 32-bit counter.
  - `GetBackend` bumps the counter and indexes the list with `counter % len`.
  - The pool is built by splitting a comma-separated string.
  - The catch-all handler does three things:
    - it tags the response and the forwarded request with the same `X-Request-ID`;
    - it selects a backend;
    - it forwards to `backend + originalURL`.
- **Config loader (`middlewares/middleware.go`)**
  - `LoadConfig` flattens a decoded JSON object into environment variables.
  - A string is set verbatim; an array of strings is joined with `,`; any other value is skipped with a warning.
  - A non-string array element panics at a type assertion.

Files:

- `wrappers.dfy`: `Option`.
- `strs.dfy` (module `Strs`): `strings.Split` and `strings.Join` for a one-character separator, with round-trip lemmas in both directions.
- `proxy.dfy` (module `Proxy`): covers `main.go`. It has:
  - unsigned 32-bit counter arithmetic;
  - the `LoadBalancer` class;
  - the `Trace` function, which gives the positions picked by successive calls, with the round-robin and fairness lemmas about it;
  - pool construction;
  - the request handler.
- `config.dfy` (module `Config`): `LoadConfig`, with its key loop and the inner array loop as methods.
  - The resulting environment is specified by the function `Applied`.
  - Lemmas state what `Applied` means key by key and that it does not depend on key order.

Modelling choices:

- **Go integer semantics are explicit.**
  - `atomic.AddUint32` wraps at 2^32 (`Increment`).
  - `uint32(len(...))` truncates (`LenUint32`).
  - A zero modulus is Go's integer-divide-by-zero panic. `GetBackend` then returns `None`, after the counter has already advanced.
- **The first call on a fresh balancer returns position `1 mod N`.** This is what the code does, and the model keeps it.
- **The random parts are inputs.** `uuid.New()` is the `requestID` parameter. The result of `os.Open` and of JSON decoding is the `ConfigFile` parameter.
- **The environment is a map.** It is threaded through and returned. The warning log is the set `warned` of skipped keys.
- **Go's map iteration order is unspecified.** The key loop picks keys with `:|`, so its proofs hold for every order.
- **What the code does with an empty pool and a skipped key.**
  - `NewLoadBalancer` accepts an empty list. With an empty list, `GetBackend` panics on its first call.
  - A config value that is neither a string nor an array leaves any existing variable of that name untouched.
- **`os.Setenv` can refuse.** On Unix it refuses an empty name, a name containing `=` or NUL, and a value containing NUL, and then changes nothing. `LoadConfig` discards that error, so such an entry leaves the environment as it was (`Setenv`, `SetenvAccepts`).

## Model

| member | source | states |
|---|---|---|
| Strs.Split | main.go:37 | splitting on ',' gives between 1 and (length of s) + 1 pieces, and none of them contains ',' |
| Strs.Join | middlewares/middleware.go:41 | joining no parts gives "", joining one part gives that part, and the result is exactly as long as all parts plus one separator per gap |
| Strs.JoinSeparatorCount | middlewares/middleware.go:41 | one or more separator-free parts are joined with exactly one separator per gap |
| Strs.JoinAt | middlewares/middleware.go:41 | part i sits in the joined string right after the parts before it and their separators, and is followed by the separator unless it is the last; with Join's length this fixes the whole string |
| Strs.JoinSplit | main.go:37 | joining the pieces of a split with ',' gives back the original backend string |
| Strs.SplitJoin | main.go:37 | splitting a join of one or more comma-free parts gives back exactly those parts |
| Strs.SplitWithoutSeparator | main.go:35-37 | a string without ',' splits into the single piece that is the string itself |
| Proxy.Increment | main.go:27 | the counter after atomic.AddUint32(&counter, 1) is (counter + 1) mod 2^32 |
| Proxy.LenUint32 | main.go:28 | uint32(len) is the length mod 2^32, and the length itself when it is below 2^32 |
| Proxy.Slot | main.go:28 | index % uint32(len) is always a valid position, and it is index mod len whenever len fits 32 bits |
| Proxy.LoadBalancer.constructor | main.go:21-23 | NewLoadBalancer stores the backend list exactly as given and starts the counter at 0 |
| Proxy.LoadBalancer.GetBackend | main.go:26-29 | the counter advances by exactly one mod 2^32 and Backends is untouched; the result is Backends at position (new counter) mod len, or the divide-by-zero panic exactly when uint32(len) is 0 |
| Proxy.FirstCallOnFreshPool | main.go:27-28 | the first call on a freshly built pool of N backends returns Backends[1 mod N], not Backends[0] |
| Proxy.Trace | main.go:27-28 | the positions that k successive GetBackend steps pick from a starting counter (SuccessiveCalls proves that the class returns exactly these): k picks, each a valid position in the pool |
| Proxy.SuccessiveCalls | main.go:26-29 | k GetBackend calls on a balancer return Backends at the positions Trace gives for the starting counter, and leave the counter at (start + k) mod 2^32 |
| Proxy.TraceAt | main.go:27-28 | call j after starting counter c picks position ((c + j + 1) mod 2^32) mod len, so the sequence depends only on the starting counter and the number of calls |
| Proxy.TraceSplit | main.go:27-28 | a + b calls are a calls followed by b calls from the counter the first a calls reached |
| Proxy.TraceNoWrap | main.go:27-28 | while the counter does not wrap, call j picks (c + j + 1) mod n |
| Proxy.TraceDistinct | main.go:27-28 | without wrap-around, at most n consecutive calls never pick the same position twice |
| Proxy.RoundRobinWindow | main.go:27-28 | without wrap-around, any n consecutive calls on an n-element pool pick every position, each exactly once |
| Proxy.WindowCountsOnce | main.go:27-28 | in such a window, each position occurs exactly once in the multiset of picks |
| Proxy.RoundRobinFair | main.go:27-28 | without wrap-around, m consecutive calls pick each of the n positions at least floor(m/n) and at most ceiling(m/n) times |
| Proxy.WrapBreaksRoundRobin | main.go:27-28 | across the 2^32 wrap with 3 backends, two consecutive calls both pick position 0, so the no-wrap hypothesis above is needed |
| Proxy.SingleBackendAlways | main.go:28 | with a one-element pool every call picks position 0, the only backend |
| Proxy.NewPool | main.go:37-40 | the pool built from the split backend string is never empty, starts at counter 0 and joins back to the string; when the string is shorter than 2^32 - 1 characters, GetBackend cannot panic on it |
| Proxy.DefaultPoolIsSingle | main.go:35-37 | the hard-wired backend string has no comma, so the running pool holds exactly that one URL |
| Proxy.TargetURL | main.go:68 | the target is the backend followed by the original URL: the backend is a prefix, the URL is the suffix, nothing is inserted |
| Proxy.DoubleSlashKept | main.go:68 | a backend ending in '/' and a URL starting with '/' give "//" at the join, with no normalisation |
| Proxy.Dispatch | main.go:53-68 | response and forwarded request both carry X-Request-ID with the identical generated value, all other headers are unchanged, and the target is backend + original URL |
| Proxy.Handle | main.go:51-69 | one request advances the counter once; it panics exactly when the pool length is 0 mod 2^32, with the response header already set; otherwise it forwards to the selected backend with Dispatch's headers and target |
| Config.ArrayStrings | middlewares/middleware.go:37-40 | the element strings exist exactly when every element is a string, and they are those strings in array order |
| Config.FlattenArray | middlewares/middleware.go:35-41 | the flattening fails (the type-assertion panic) exactly when some element is not a string; an empty array gives "" |
| Config.ActionFor | middlewares/middleware.go:31-44 | the type switch: a string is assigned verbatim, an all-string array is assigned joined by ',', an array with a non-string element panics, and every other value is skipped |
| Config.Setenv | middlewares/middleware.go:34 | os.Setenv sets the one variable when Unix accepts the name and value, changes nothing when it refuses them, and never touches other variables |
| Config.Applied | middlewares/middleware.go:30-45 | applying entries never removes a variable, and every new variable comes from an applied key whose value Setenv accepts |
| Config.AppliedEntries | middlewares/middleware.go:30-45 | a string value sets the key verbatim; an all-string array sets it to the elements joined by ','; a value Setenv refuses, any other value, and keys outside the config leave the variable as it was |
| Config.RefusedNameLeavesEnv | middlewares/middleware.go:34 | an entry with the empty name, which Setenv refuses, leaves the environment unchanged |
| Config.AppliedStep | middlewares/middleware.go:32-44 | handling one more key is one Setenv call with its flattened value, or no change for a skipped key |
| Config.AppliedThenApplied | middlewares/middleware.go:30 | applying one batch of keys and then a disjoint batch equals applying both together |
| Config.AppliedBatches | middlewares/middleware.go:30 | the two batches can be applied in either order with the same result, so map iteration order does not matter |
| Config.FlattenArraySplitsBack | middlewares/middleware.go:41 | a non-empty array of comma-free strings, once joined, splits back on ',' into exactly its elements |
| Config.JoinStrings | middlewares/middleware.go:37-41 | the inner loop's result is FlattenArray: the ','-joined element strings, or the panic at the first non-string element |
| Config.ApplyConfig | middlewares/middleware.go:30-45 | the loop panics exactly when some array holds a non-string; without a panic every key is applied once (env = Applied over all keys, warned = the skipped keys); on a panic the keys applied so far are applied and a bad key is still unprocessed |
| Config.LoadConfig | middlewares/middleware.go:12-48 | an open or decode failure returns that error with the environment untouched; otherwise the result is Loaded with every entry applied, or the panic; either way only config keys change, each to its own flattened value that Setenv accepts |

## Left out

- Fiber server setup, CORS configuration, `app.Listen` and the fatal exit on bind failure (main.go:43-48, 73-75) are HTTP transport and framework wiring.
- `proxy.Do` (main.go:69) is not modelled. It is a network call into a library outside this model: it forwards the request, relays the backend's status, headers and body, and raises gateway errors. `Handle` ends where that call begins.
- `uuid.New()` is randomness. The identifier is the `requestID` parameter, and its uniqueness is not modelled.
- The counter update is atomic in the source. The model treats it as a plain field update, so concurrency and lost-update freedom are not modelled.
- `log.Printf` and `fmt.Println` output is not modelled. The only trace of it is the `warned` set of keys skipped with a warning.
- `os.Open`, `file.Close` and the JSON decoder are foreign I/O. Their result is the `ConfigFile` input.
- `os.Setenv` is not process state in the model. The environment is a map passed in and returned. Its refusals follow the Unix rules; the other platforms' rules are not modelled.
- HTTP header-name canonicalisation by the HTTP library is not modelled. Header maps are keyed by the literal name `X-Request-ID`.
- A Go panic is an outcome value (`None`, `Panicked`). Stack unwinding and process termination are not modelled.
- Proxy.RoundRobinWindow: stated only while the counter does not wrap. Across the wrap from 2^32 - 1 to 0 the picks restart at position 0, which breaks the window property whenever the pool size does not divide 2^32 (see Proxy.WrapBreaksRoundRobin).
- Proxy.RoundRobinFair: stated only while the counter does not wrap, for the same reason.
