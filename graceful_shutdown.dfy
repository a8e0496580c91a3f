/**
 * `GracefulShutdownHandler`: an admission gate that stops forwarding requests
 * once shutdown is requested, counts the requests in flight, and notifies
 * shutdown listeners once the count has drained to zero.
 *
 * Each public method is one atomic step. Listeners, exchanges and the wrapped
 * handler are identified by numbers; the calls the handler makes on them are
 * recorded in ghost logs.
 */
module GracefulShutdown {
  import opened Wrappers

  type ListenerId = nat
  type ExchangeId = nat
  type HandlerId = nat

  /** `StatusCodes.SERVICE_UNAVAILABLE`. */
  const SERVICE_UNAVAILABLE: int := 503

  /** One call `listener.shutdown(shutdownSuccessful)`. */
  datatype Notification = Notified(listener: ListenerId, shutdownSuccessful: bool)

  /** The calls the handler makes on an exchange and on the wrapped handler. */
  datatype ExchangeCall =
    | StatusCodeSet(exchange: ExchangeId, code: int)
    | ExchangeEnded(exchange: ExchangeId)
    | CompletionListenerAdded(exchange: ExchangeId)
    | Forwarded(exchange: ExchangeId, handler: HandlerId)
    | Proceeded(exchange: ExchangeId)

  /** `awaitShutdown` before `shutdown`: `UndertowMessages.handlerNotShutdown()`. */
  datatype AwaitError = HandlerNotShutdown

  /** The notifications of firing `listeners` in order, each with `true`. */
  function NotifyAll(listeners: seq<ListenerId>): (ns: seq<Notification>)
    ensures |ns| == |listeners|
    ensures forall i | 0 <= i < |ns| :: ns[i] == Notified(listeners[i], true)
  {
    seq(|listeners|, i requires 0 <= i < |listeners| => Notified(listeners[i], true))
  }

  /** The listener of each notification. */
  function NotifiedListeners(ns: seq<Notification>): (ls: seq<ListenerId>)
    ensures |ls| == |ns|
    ensures forall i | 0 <= i < |ns| :: ls[i] == ns[i].listener
  {
    seq(|ns|, i requires 0 <= i < |ns| => ns[i].listener)
  }

  predicate AllSuccessful(ns: seq<Notification>)
  {
    forall i | 0 <= i < |ns| :: ns[i].shutdownSuccessful
  }

  predicate Distinct<T(==)>(s: seq<T>)
  {
    forall i, j | 0 <= i < j < |s| :: s[i] != s[j]
  }

  /** `(int) count`: the low 32 bits of a `long`, as a two's-complement `int`. */
  function Int32(x: int): (r: int)
    ensures -0x8000_0000 <= r < 0x8000_0000
    ensures (r - x) % 0x1_0000_0000 == 0
  {
    var low := x % 0x1_0000_0000;
    if low < 0x8000_0000 then low else low - 0x1_0000_0000
  }

  /** The cast hides a count exactly when the count is a multiple of 2^32. */
  lemma Int32IsZero(x: int)
    ensures Int32(x) == 0 <==> x % 0x1_0000_0000 == 0
    ensures 0 <= x < 0x1_0000_0000 ==> (Int32(x) == 0 <==> x == 0)
  {
  }

  lemma NotifiedListenersDistributes(a: seq<Notification>, b: seq<Notification>)
    ensures NotifiedListeners(a + b) == NotifiedListeners(a) + NotifiedListeners(b)
  {
  }

  lemma NotifyAllLists(listeners: seq<ListenerId>)
    ensures NotifiedListeners(NotifyAll(listeners)) == listeners
  {
  }

  lemma {:induction false} DistinctMultiplicity<T>(s: seq<T>, x: T)
    requires Distinct(s)
    ensures multiset(s)[x] <= 1
  {
    if s != [] {
      assert s == [s[0]] + s[1..];
      assert Distinct(s[1..]) by {
        forall i, j | 0 <= i < j < |s[1..]| ensures s[1..][i] != s[1..][j] {
          assert s[1..][i] == s[i + 1] && s[1..][j] == s[j + 1];
        }
      }
      DistinctMultiplicity(s[1..], x);
      if x == s[0] {
        assert x !in s[1..] by {
          forall k | 0 <= k < |s[1..]| ensures s[1..][k] != x {
            assert s[1..][k] == s[k + 1];
          }
        }
      }
    }
  }

  lemma RepeatedTwice<T>(s: seq<T>, i: nat, j: nat)
    requires i < j < |s| && s[i] == s[j]
    ensures multiset(s)[s[i]] >= 2
  {
    assert s == s[..i] + [s[i]] + s[i + 1..j] + [s[j]] + s[j + 1..];
  }

  lemma {:induction false} MultiplicityDistinct<T>(s: seq<T>)
    requires forall x | x in s :: multiset(s)[x] <= 1
    ensures Distinct(s)
  {
    forall i, j | 0 <= i < j < |s| ensures s[i] != s[j] {
      if s[i] == s[j] {
        RepeatedTwice(s, i, j);
      }
    }
  }

  /**
   * If every registration is accounted for exactly once, as notified or as
   * pending, and no listener was registered twice, then no listener was
   * notified twice and no notified listener is still pending.
   */
  lemma NotifiedAtMostOnce(notified: seq<ListenerId>, pending: seq<ListenerId>, registered: seq<ListenerId>)
    requires multiset(notified) + multiset(pending) == multiset(registered)
    requires Distinct(registered)
    ensures Distinct(notified)
    ensures forall l | l in notified :: l !in pending
  {
    forall x | x in notified ensures multiset(notified)[x] <= 1 {
      DistinctMultiplicity(registered, x);
    }
    MultiplicityDistinct(notified);
    forall l | l in notified ensures l !in pending {
      DistinctMultiplicity(registered, l);
    }
  }

  /** Registering a listener that is then stored keeps every registration accounted for. */
  lemma RegisterPending(notified: seq<ListenerId>, pending: seq<ListenerId>, registered: seq<ListenerId>, l: ListenerId)
    requires multiset(notified) + multiset(pending) == multiset(registered)
    ensures multiset(notified) + multiset(pending + [l]) == multiset(registered + [l])
  {
  }

  /** Registering a listener that is notified at once keeps every registration accounted for. */
  lemma RegisterNotified(ns: seq<Notification>, pending: seq<ListenerId>, registered: seq<ListenerId>, l: ListenerId)
    requires multiset(NotifiedListeners(ns)) + multiset(pending) == multiset(registered)
    requires AllSuccessful(ns)
    ensures multiset(NotifiedListeners(ns + [Notified(l, true)])) + multiset(pending) == multiset(registered + [l])
    ensures AllSuccessful(ns + [Notified(l, true)])
  {
    NotifiedListenersDistributes(ns, [Notified(l, true)]);
  }

  class GracefulShutdownHandler {
    var shutdown: bool
    var activeRequests: int
    var shutdownListeners: seq<ListenerId>
    const next: HandlerId

    /** Every listener passed to `addShutdownListener`, in call order. */
    ghost var registered: seq<ListenerId>
    /** Every `listener.shutdown(..)` call, in order. */
    ghost var notifications: seq<Notification>
    /** Every call on an exchange or on `next`, in order. */
    ghost var exchangeCalls: seq<ExchangeCall>
    /** The exchanges that carry the completion listener and have not completed. */
    ghost var inFlight: multiset<ExchangeId>

    /**
     * Each registration is either pending or has been notified, once; every
     * notification says the shutdown succeeded.
     */
    ghost predicate ListenersValid()
      reads this
    {
      && multiset(NotifiedListeners(notifications)) + multiset(shutdownListeners) == multiset(registered)
      && AllSuccessful(notifications)
    }

    /** Also: the counter is the number of forwarded requests not yet completed. */
    ghost predicate Valid()
      reads this
    {
      && ListenersValid()
      && activeRequests == |inFlight|
    }

    /**
     * Once shutdown is requested and nothing is in flight, no listener is left
     * waiting. The constructor and every method but `Shutdown` keep this.
     */
    ghost predicate NoStrandedListeners()
      reads this
    {
      shutdown && activeRequests == 0 ==> shutdownListeners == []
    }

    /**
     * The listener outcome of lowering the count: if that left a shut-down
     * handler with nothing in flight, the listeners that were pending were
     * fired in order and the list emptied; otherwise nothing was fired.
     */
    ghost predicate FiredIfDrained(before: seq<Notification>, pending: seq<ListenerId>)
      reads this`shutdown, this`activeRequests, this`notifications, this`shutdownListeners
    {
      if shutdown && activeRequests == 0 then
        notifications == before + NotifyAll(pending) && shutdownListeners == []
      else
        notifications == before && shutdownListeners == pending
    }

    constructor (next: HandlerId)
      ensures Valid() && NoStrandedListeners()
      ensures this.next == next
      ensures !shutdown && activeRequests == 0 && shutdownListeners == []
      ensures registered == [] && notifications == [] && exchangeCalls == [] && inFlight == multiset{}
    {
      this.next := next;
      shutdown := false;
      activeRequests := 0;
      shutdownListeners := [];
      registered := [];
      notifications := [];
      exchangeCalls := [];
      inFlight := multiset{};
    }

    /** Every pending listener is told `true`, in list order, and the list is emptied. */
    method ShutdownComplete()
      requires ListenersValid()
      modifies this`shutdownListeners, this`notifications
      ensures ListenersValid()
      ensures notifications == old(notifications) + NotifyAll(old(shutdownListeners))
      ensures shutdownListeners == []
    {
      var i := 0;
      while i < |shutdownListeners|
        invariant 0 <= i <= |shutdownListeners|
        invariant shutdownListeners == old(shutdownListeners)
        invariant notifications == old(notifications) + NotifyAll(shutdownListeners[..i])
      {
        notifications := notifications + [Notified(shutdownListeners[i], true)];
        i := i + 1;
      }
      assert shutdownListeners[..i] == shutdownListeners;
      NotifiedListenersDistributes(old(notifications), NotifyAll(shutdownListeners));
      NotifyAllLists(shutdownListeners);
      shutdownListeners := [];
    }

    /**
     * The count drops by one; if shutdown is requested and the new count is
     * zero, the pending listeners are fired, otherwise they are untouched.
     */
    method DecrementRequests()
      requires ListenersValid()
      modifies this`activeRequests, this`shutdownListeners, this`notifications
      ensures ListenersValid()
      ensures activeRequests == old(activeRequests) - 1
      ensures FiredIfDrained(old(notifications), old(shutdownListeners))
    {
      activeRequests := activeRequests - 1;
      var active := activeRequests;
      if shutdown {
        if active == 0 {
          ShutdownComplete();
        }
      }
    }

    /**
     * `handleRequest`: after shutdown the request is answered 503 and ended,
     * with the count back where it was and nothing forwarded; before shutdown
     * the count goes up by one, the completion listener is attached and the
     * request is forwarded to `next`.
     */
    method HandleRequest(exchange: ExchangeId)
      requires Valid()
      modifies this`activeRequests, this`shutdownListeners, this`notifications, this`exchangeCalls, this`inFlight
      ensures Valid()
      ensures old(NoStrandedListeners()) ==> NoStrandedListeners()
      ensures old(shutdown) ==>
                && activeRequests == old(activeRequests)
                && inFlight == old(inFlight)
                && exchangeCalls == old(exchangeCalls) + [StatusCodeSet(exchange, SERVICE_UNAVAILABLE), ExchangeEnded(exchange)]
      ensures !old(shutdown) ==>
                && activeRequests == old(activeRequests) + 1
                && inFlight == old(inFlight) + multiset{exchange}
                && exchangeCalls == old(exchangeCalls) + [CompletionListenerAdded(exchange), Forwarded(exchange, next)]
      ensures FiredIfDrained(old(notifications), old(shutdownListeners))
    {
      activeRequests := activeRequests + 1;
      if shutdown {
        DecrementRequests();
        exchangeCalls := exchangeCalls + [StatusCodeSet(exchange, SERVICE_UNAVAILABLE), ExchangeEnded(exchange)];
      } else {
        inFlight, exchangeCalls := inFlight + multiset{exchange},
                                   exchangeCalls + [CompletionListenerAdded(exchange), Forwarded(exchange, next)];
      }
    }

    /** `shutdown`: only sets the flag. */
    method Shutdown()
      modifies this`shutdown
      ensures shutdown
    {
      shutdown := true;
    }

    /**
     * Upstream Undertow's `shutdown`: the count is raised and lowered around
     * setting the flag, so a handler with nothing in flight fires its pending
     * listeners at once. Unlike `Shutdown`, it keeps `NoStrandedListeners`.
     */
    method ShutdownAndDrain()
      requires Valid()
      modifies this`shutdown, this`activeRequests, this`shutdownListeners, this`notifications
      ensures Valid()
      ensures NoStrandedListeners()
      ensures shutdown && activeRequests == old(activeRequests)
      ensures FiredIfDrained(old(notifications), old(shutdownListeners))
    {
      activeRequests := activeRequests + 1;
      shutdown := true;
      DecrementRequests();
    }

    /**
     * `forceShutdown`: sets the flag and fires every pending listener with
     * `true` whatever the count, which it leaves alone.
     */
    method ForceShutdown()
      requires Valid()
      modifies this`shutdown, this`shutdownListeners, this`notifications
      ensures Valid()
      ensures NoStrandedListeners()
      ensures shutdown && activeRequests == old(activeRequests)
      ensures notifications == old(notifications) + NotifyAll(old(shutdownListeners))
      ensures shutdownListeners == []
    {
      Shutdown();
      ShutdownComplete();
    }

    /**
     * `addShutdownListener`: before shutdown, or while requests are in flight,
     * the listener is stored; after shutdown with nothing in flight it is told
     * `true` at once and not stored.
     */
    method AddShutdownListener(listener: ListenerId)
      requires Valid()
      modifies this`shutdownListeners, this`notifications, this`registered
      ensures Valid()
      ensures old(NoStrandedListeners()) ==> NoStrandedListeners()
      ensures registered == old(registered) + [listener]
      ensures (!shutdown || activeRequests != 0) ==>
                shutdownListeners == old(shutdownListeners) + [listener] && notifications == old(notifications)
      ensures (shutdown && activeRequests == 0) ==>
                shutdownListeners == old(shutdownListeners) && notifications == old(notifications) + [Notified(listener, true)]
    {
      var pending := shutdownListeners;
      ghost var ns := notifications;
      if shutdown && activeRequests == 0 {
        RegisterNotified(ns, pending, registered, listener);
        ns := ns + [Notified(listener, true)];
      } else {
        RegisterPending(NotifiedListeners(ns), pending, registered, listener);
        pending := pending + [listener];
      }
      shutdownListeners := pending;
      notifications, registered := ns, registered + [listener];
    }

    /**
     * `GracefulShutdownListener.exchangeEvent`: a forwarded exchange completed.
     * The count drops, listeners fire if this drained a shut-down handler, and
     * the next completion listener is called.
     */
    method ExchangeEvent(exchange: ExchangeId)
      requires Valid()
      requires exchange in inFlight
      modifies this`activeRequests, this`shutdownListeners, this`notifications, this`exchangeCalls, this`inFlight
      ensures Valid()
      ensures old(NoStrandedListeners()) ==> NoStrandedListeners()
      ensures activeRequests == old(activeRequests) - 1
      ensures inFlight == old(inFlight) - multiset{exchange}
      ensures exchangeCalls == old(exchangeCalls) + [Proceeded(exchange)]
      ensures FiredIfDrained(old(notifications), old(shutdownListeners))
    {
      DecrementRequests();
      inFlight, exchangeCalls := inFlight - multiset{exchange}, exchangeCalls + [Proceeded(exchange)];
    }

    /**
     * `awaitShutdown(millis)`, with the clock abstracted: `observed` holds the
     * counts read after each wake-up that came before the deadline. It fails
     * before shutdown; otherwise it is true exactly when one of the counts it
     * reads (the current one first) is zero as an `int`.
     */
    method AwaitShutdown(observed: seq<int>) returns (r: Result<bool, AwaitError>)
      ensures !shutdown ==> r == Failure(HandlerNotShutdown)
      ensures shutdown ==> r.Success?
      ensures shutdown ==>
                (r.Success? && r.value <==>
                  Int32(activeRequests) == 0 || exists k | 0 <= k < |observed| :: Int32(observed[k]) == 0)
      ensures shutdown && activeRequests == 0 ==> r == Success(true)
    {
      if !shutdown {
        return Failure(HandlerNotShutdown);
      }
      ghost var counts := [activeRequests] + observed;
      var count := Int32(activeRequests);
      var i := 0;
      while count != 0
        invariant 0 <= i <= |observed|
        invariant count == Int32(counts[i])
        invariant forall k | 0 <= k < i :: Int32(counts[k]) != 0
        decreases |observed| - i
      {
        if i == |observed| {
          assert forall k | 0 <= k < |observed| :: Int32(observed[k]) == Int32(counts[k + 1]);
          return Success(false);
        }
        count := Int32(observed[i]);
        i := i + 1;
      }
      assert i == 0 || Int32(observed[i - 1]) == 0;
      return Success(true);
    }
  }

  /**
   * Across any run of the handler's operations, a listener registered once is
   * notified at most once, and never while it is still pending.
   */
  lemma ListenersNotifiedAtMostOnce(h: GracefulShutdownHandler)
    requires h.Valid() && Distinct(h.registered)
    ensures Distinct(NotifiedListeners(h.notifications))
    ensures forall l | l in NotifiedListeners(h.notifications) :: l !in h.shutdownListeners
    ensures forall n | n in h.notifications :: n.shutdownSuccessful
  {
    NotifiedAtMostOnce(NotifiedListeners(h.notifications), h.shutdownListeners, h.registered);
  }

  /**
   * The stranded listener: registered before `shutdown` on a handler with
   * nothing in flight, it is not notified by `shutdown`, although
   * `awaitShutdown` already reports success. It stays stored until a later
   * request is rejected or shutdown is forced.
   */
  method StrandedListener() returns (h: GracefulShutdownHandler, done: Result<bool, AwaitError>)
    ensures fresh(h)
    ensures h.Valid() && h.shutdown && h.activeRequests == 0
    ensures h.shutdownListeners == [7] && h.notifications == [] && h.exchangeCalls == []
    ensures !h.NoStrandedListeners()
    ensures done == Success(true)
  {
    h := new GracefulShutdownHandler(0);
    h.AddShutdownListener(7);
    h.Shutdown();
    done := h.AwaitShutdown([]);
  }

  /** What finally reaches the stranded listener: the decrement of the next rejected request. */
  method RejectionFiresStrandedListener() returns (h: GracefulShutdownHandler)
    ensures fresh(h)
    ensures h.Valid() && h.NoStrandedListeners()
    ensures h.shutdownListeners == [] && h.notifications == [Notified(7, true)]
    ensures h.exchangeCalls == [StatusCodeSet(1, SERVICE_UNAVAILABLE), ExchangeEnded(1)]
  {
    var done;
    h, done := StrandedListener();
    h.HandleRequest(1);
  }

  /** The same calls with the draining shutdown: the listener is told `true` at once. */
  method DrainedListener() returns (h: GracefulShutdownHandler)
    ensures fresh(h)
    ensures h.Valid() && h.shutdown && h.activeRequests == 0
    ensures h.shutdownListeners == [] && h.notifications == [Notified(7, true)]
  {
    h := new GracefulShutdownHandler(0);
    h.AddShutdownListener(7);
    h.ShutdownAndDrain();
  }
}
