/**
 * `RequestHandler` chaining. A chain is a tree of `AndNext(handler, next)`
 * nodes over leaf handlers; a Java `null` next is `None`, so an `AndNext` can
 * never hold a null part. A leaf either stops or calls
 * `next.handleRequest(exchange, null)`; calling a null next is the
 * NullPointerException the `nullNext` flag of a trace records.
 */
module RequestHandlers {
  import opened Wrappers

  type HandlerId = nat

  datatype Handler =
    | Leaf(id: HandlerId, callsNext: bool)
    | AndNext(handler: Handler, next: Handler)

  /** The leaves invoked, in order, and whether the last of them called a null next. */
  datatype Trace = Trace(reached: seq<HandlerId>, nullNext: bool)

  /** A leaf as it stands in the flattened chain. */
  datatype Step = Step(id: HandlerId, callsNext: bool)

  /** The leaves of a chain, left to right. */
  function Flat(h: Handler): (r: seq<Step>)
    ensures |r| >= 1
  {
    match h
    case Leaf(id, callsNext) => [Step(id, callsNext)]
    case AndNext(first, rest) => Flat(first) + Flat(rest)
  }

  function FlatOpt(next: Option<Handler>): seq<Step>
  {
    if next.None? then [] else Flat(next.value)
  }

  function LeafCount(next: Option<Handler>): nat
  {
    |FlatOpt(next)|
  }

  /** `AndNext.wrap`: pairs `current` with `next`, or gives `current` itself when `next` is null. */
  function Wrap(current: Handler, next: Option<Handler>): (r: Handler)
    ensures next.None? ==> r == current
    ensures next.Some? ==> r.AndNext? && r.handler == current && r.next == next.value
    ensures Flat(r) == Flat(current) + FlatOpt(next)
  {
    if next.Some? then AndNext(current, next.value) else current
  }

  /** `RequestHandler.andThen`. */
  function AndThen(h: Handler, next: Option<Handler>): (r: Handler)
    ensures r == Wrap(h, next)
    ensures Flat(r) == Flat(h) + FlatOpt(next)
  {
    Wrap(h, next)
  }

  function Prepend(id: HandlerId, t: Trace): Trace
  {
    Trace([id] + t.reached, t.nullNext)
  }

  /**
   * `handleRequest(exchange, next)`: a leaf runs; an `AndNext` runs only its
   * `handler`, giving it `wrap(this.next, next)` as its next.
   */
  function HandleRequest(h: Handler, next: Option<Handler>): (t: Trace)
    ensures t.reached != [] && t.reached[0] == Flat(h)[0].id
    decreases |Flat(h)| + LeafCount(next), h
  {
    match h
    case Leaf(id, callsNext) =>
      if !callsNext then Trace([id], false)
      else if next.None? then Trace([id], true)
      else Prepend(id, HandleRequest(next.value, None))
    case AndNext(first, rest) =>
      HandleRequest(first, Some(Wrap(rest, next)))
  }

  /** `UndertowRequestHandler.handleRequest`: the chain is invoked with a null next. */
  function Serve(h: Handler): Trace
  {
    HandleRequest(h, None)
  }

  /** Reference semantics: run the flattened leaves left to right until one stops. */
  function Scan(steps: seq<Step>): Trace
  {
    if steps == [] then Trace([], true)
    else if !steps[0].callsNext then Trace([steps[0].id], false)
    else Prepend(steps[0].id, Scan(steps[1..]))
  }

  /** Running `first` and, if it reached its (null) next, continuing with `second`. */
  function Then(first: Trace, second: Trace): Trace
  {
    if first.nullNext then Trace(first.reached + second.reached, second.nullNext) else first
  }

  function Ids(steps: seq<Step>): seq<HandlerId>
  {
    if steps == [] then [] else [steps[0].id] + Ids(steps[1..])
  }

  predicate AllCallNext(steps: seq<Step>)
  {
    forall i | 0 <= i < |steps| :: steps[i].callsNext
  }

  lemma {:induction false} ScanAppend(xs: seq<Step>, ys: seq<Step>)
    ensures Scan(xs + ys) == Then(Scan(xs), Scan(ys))
  {
    if xs == [] {
      assert xs + ys == ys;
    } else {
      assert (xs + ys)[0] == xs[0];
      assert (xs + ys)[1..] == xs[1..] + ys;
      ScanAppend(xs[1..], ys);
    }
  }

  /** A chain behaves as its leaves run in order, followed by the outer next. */
  lemma {:induction false} HandleRequestIsScan(h: Handler, next: Option<Handler>)
    ensures HandleRequest(h, next) == Scan(Flat(h) + FlatOpt(next))
    decreases |Flat(h)| + LeafCount(next), h
  {
    match h
    case Leaf(id, callsNext) =>
      if callsNext && next.Some? {
        HandleRequestIsScan(next.value, None);
        assert Flat(next.value) + [] == Flat(next.value);
        assert (Flat(h) + FlatOpt(next))[1..] == Flat(next.value);
      }
    case AndNext(first, rest) =>
      HandleRequestIsScan(first, Some(Wrap(rest, next)));
      assert Flat(first) + (Flat(rest) + FlatOpt(next)) == Flat(h) + FlatOpt(next);
  }

  /**
   * `AndNext(h, n)` called with outer next `o`: `h` runs as if alone at the top
   * level, and `n` (followed by `o`) is reached exactly when `h` calls its next.
   */
  lemma AndNextComposes(h: Handler, n: Handler, o: Option<Handler>)
    ensures HandleRequest(AndNext(h, n), o) == Then(Serve(h), HandleRequest(n, o))
  {
    HandleRequestIsScan(AndNext(h, n), o);
    HandleRequestIsScan(h, None);
    HandleRequestIsScan(n, o);
    assert Flat(h) + [] == Flat(h);
    assert Flat(AndNext(h, n)) + FlatOpt(o) == Flat(h) + (Flat(n) + FlatOpt(o));
    ScanAppend(Flat(h), Flat(n) + FlatOpt(o));
  }

  /** At the top level, `h.andThen(n)` serves `h`, then `n` if `h` called its next. */
  lemma ServeAndThen(h: Handler, n: Handler)
    ensures Serve(AndThen(h, Some(n))) == Then(Serve(h), Serve(n))
  {
    AndNextComposes(h, n, None);
  }

  /** Grouping does not matter: `a.andThen(b).andThen(c)` behaves as `a.andThen(b.andThen(c))`. */
  lemma AndThenAssociative(a: Handler, b: Handler, c: Handler, o: Option<Handler>)
    ensures HandleRequest(AndThen(AndThen(a, Some(b)), Some(c)), o)
         == HandleRequest(AndThen(a, Some(AndThen(b, Some(c)))), o)
  {
    var left := AndThen(AndThen(a, Some(b)), Some(c));
    var right := AndThen(a, Some(AndThen(b, Some(c))));
    assert Flat(left) == (Flat(a) + Flat(b)) + Flat(c);
    assert Flat(right) == Flat(a) + (Flat(b) + Flat(c));
    assert Flat(left) == Flat(right);
    HandleRequestIsScan(left, o);
    HandleRequestIsScan(right, o);
  }

  lemma {:induction false} ScanAllCallNext(steps: seq<Step>)
    requires AllCallNext(steps)
    ensures Scan(steps) == Trace(Ids(steps), true)
  {
    if steps != [] {
      ScanAllCallNext(steps[1..]);
    }
  }

  lemma {:induction false} IdsAppend(xs: seq<Step>, ys: seq<Step>)
    ensures Ids(xs + ys) == Ids(xs) + Ids(ys)
  {
    if xs == [] {
      assert xs + ys == ys;
    } else {
      assert (xs + ys)[1..] == xs[1..] + ys;
      IdsAppend(xs[1..], ys);
    }
  }

  /**
   * When every handler calls its next, serving `a.andThen(b).andThen(c)` reaches
   * the leaves of a, then b, then c, and the last one is handed the outer null next.
   */
  lemma ChainReachesInOrder(a: Handler, b: Handler, c: Handler)
    requires AllCallNext(Flat(a)) && AllCallNext(Flat(b)) && AllCallNext(Flat(c))
    ensures Serve(AndThen(AndThen(a, Some(b)), Some(c)))
         == Trace(Ids(Flat(a)) + Ids(Flat(b)) + Ids(Flat(c)), true)
  {
    var chain := AndThen(AndThen(a, Some(b)), Some(c));
    HandleRequestIsScan(chain, None);
    assert Flat(chain) + [] == Flat(a) + Flat(b) + Flat(c);
    ScanAllCallNext(Flat(a) + Flat(b) + Flat(c));
    IdsAppend(Flat(a) + Flat(b), Flat(c));
    IdsAppend(Flat(a), Flat(b));
  }

  /** A handler that stops hides everything after it: `n` is never reached. */
  lemma StopHidesNext(h: Handler, n: Handler, o: Option<Handler>)
    requires !Serve(h).nullNext
    ensures HandleRequest(AndNext(h, n), o) == Serve(h)
  {
    AndNextComposes(h, n, o);
  }
}
