/**
  Waiting between download attempts out of an allowance several calls share.

  A run is any sequence of downloads and listing checks, each drawing on the sleep budget, on the deadline or on
  nothing. `RunCalls` states what holds over all of it: sleep granted and sleep left add up, attempts are bounded by the
  calls and the waits the allowances can grant, and no wait on the deadline ends after the instant fixed when it was
  made.
*/
module RetryAllowance {
  import opened Outcomes

  type Duration = d: real | d >= 0.0

  /** What one request comes to, and how long it takes: a body, or what it failed with in transit. */
  datatype Reply = Reply(took: Duration, result: Result<string, string>)

  /** The registries' answers in the order they are asked for, a clock, and sleeps of exactly the length asked for. */
  class World {
    const replies: nat -> Reply
    var now: real
    var requests: nat
    var slept: real

    constructor (replies: nat -> Reply, now: real)
      ensures this.replies == replies && this.now == now && requests == 0 && slept == 0.0
    {
      this.replies, this.now, requests, slept := replies, now, 0, 0.0;
    }

    method Urlopen() returns (result: Result<string, string>)
      modifies this
      ensures result == replies(old(requests)).result
      ensures requests == old(requests) + 1 && now == old(now) + replies(old(requests)).took && slept == old(slept)
    {
      var reply := replies(requests);
      now, requests := now + reply.took, requests + 1;
      return reply.result;
    }

    method Sleep(d: Duration)
      modifies this
      ensures now == old(now) + d && slept == old(slept) + d && requests == old(requests)
    {
      now, slept := now + d, slept + d;
    }
  }

  // ---------------------------------------------------------------- how many waits fit

  /** How many waits of one delay an amount of time has room for. */
  ghost function Slots(amount: real, delay: real): nat {
    if delay <= 0.0 || amount < delay then 0 else RoomFor(amount, delay)
  }

  ghost function RoomFor(amount: real, delay: real): nat
    requires delay > 0.0 && amount >= delay
  {
    QuotientBounds(amount, delay, 0);
    (amount / delay).Floor
  }

  lemma QuotientBounds(amount: real, delay: real, n: nat)
    requires delay > 0.0
    ensures n as real * delay <= amount <==> n as real <= amount / delay
  {
    var q := amount / delay;
    assert q * delay == amount;
    if n as real <= q {
      assert n as real * delay <= q * delay;
    } else {
      assert n as real * delay > q * delay;
    }
  }

  /** So many waits fit exactly when their sum does. */
  lemma SlotsHold(amount: real, delay: real, n: nat)
    requires delay > 0.0
    ensures n <= Slots(amount, delay) <==> n == 0 || n as real * delay <= amount
  {
    QuotientBounds(amount, delay, n);
    QuotientBounds(amount, delay, 1);
    if 1 <= n && n as real * delay <= amount {
      assert n as real * delay >= delay;
    }
  }

  lemma SlotsShrink(amount: real, delay: real, less: real)
    requires delay > 0.0 && amount >= delay && less <= amount - delay
    ensures Slots(less, delay) < Slots(amount, delay)
  {
    var n := Slots(less, delay);
    SlotsHold(less, delay, n);
    SlotsHold(amount, delay, n + 1);
    assert (n + 1) as real * delay == n as real * delay + delay;
  }

  // ---------------------------------------------------------------- the two allowances

  class RetryBudget {
    const seconds: real
    const delay: real
    const world: World
    var remaining: real
    var waits: nat
    ghost var granted: real

    ghost predicate Valid()
      reads this
    {
      && granted + remaining == seconds && granted == waits as real * delay
      && (waits > 0 ==> delay > 0.0 && remaining >= 0.0)
    }

    constructor (seconds: real, delay: real, world: World)
      ensures Valid() && waits == 0 && granted == 0.0
      ensures this.seconds == seconds == remaining && this.delay == delay && this.world == world
    {
      this.seconds, this.remaining, this.delay, this.world, waits, granted := seconds, seconds, delay, world, 0, 0.0;
    }

    ghost predicate Allows()
      reads this
    {
      delay > 0.0 && remaining >= delay
    }

    method Wait() returns (allowed: bool)
      requires Valid()
      modifies this, world
      ensures Valid()
      ensures allowed == old(Allows())
      ensures allowed ==> waits == old(waits) + 1 && granted == old(granted) + delay && remaining == old(remaining) - delay
      ensures allowed ==> world.slept == old(world.slept) + delay && world.now == old(world.now) + delay
      ensures !allowed ==> waits == old(waits) && granted == old(granted) && remaining == old(remaining)
      ensures !allowed ==> world.slept == old(world.slept) && world.now == old(world.now)
      ensures world.requests == old(world.requests)
    {
      if delay <= 0.0 || remaining < delay {
        return false;
      }
      remaining := remaining - delay;
      waits := waits + 1;
      granted := granted + delay;
      assert waits as real * delay == (waits - 1) as real * delay + delay;
      world.Sleep(delay);
      return true;
    }
  }

  class RetryDeadline {
    const seconds: real
    const delay: real
    const world: World
    const end: real
    var waits: nat
    ghost var granted: real
    ghost var lastEnd: real

    /** The last wait is over, and neither it nor one before it ended past the deadline. */
    ghost predicate Valid()
      reads this, world
    {
      && granted == waits as real * delay
      && end - seconds + granted <= lastEnd <= world.now
      && (waits > 0 ==> delay > 0.0 && lastEnd <= end)
    }

    constructor (seconds: real, delay: real, world: World)
      ensures Valid() && waits == 0 && granted == 0.0
      ensures this.seconds == seconds && this.delay == delay && this.world == world && end == world.now + seconds
    {
      this.seconds, this.delay, this.world, waits, granted := seconds, delay, world, 0, 0.0;
      end := world.now + seconds;
      lastEnd := world.now;
    }

    function Remaining(): real
      reads this, world
    {
      if end - world.now > 0.0 then end - world.now else 0.0
    }

    ghost predicate Allows()
      reads this, world
    {
      delay > 0.0 && Remaining() >= delay
    }

    method Wait() returns (allowed: bool)
      requires Valid()
      modifies this, world
      ensures Valid()
      ensures allowed == old(Allows())
      ensures allowed ==> waits == old(waits) + 1 && granted == old(granted) + delay && lastEnd == world.now <= end
      ensures allowed ==> world.slept == old(world.slept) + delay && world.now == old(world.now) + delay
      ensures !allowed ==> waits == old(waits) && granted == old(granted) && lastEnd == old(lastEnd)
      ensures !allowed ==> world.slept == old(world.slept) && world.now == old(world.now)
      ensures world.requests == old(world.requests)
    {
      var left := Remaining();
      if delay <= 0.0 || left < delay {
        return false;
      }
      waits := waits + 1;
      granted := granted + delay;
      assert waits as real * delay == (waits - 1) as real * delay + delay;
      world.Sleep(delay);
      lastEnd := world.now;
      return true;
    }
  }

  /** What a caller hands fetch: one allowance, the other, or nothing to wait on. */
  datatype Allowance = Nothing | Budget(budget: RetryBudget) | Deadline(deadline: RetryDeadline)

  ghost function Objects(a: Allowance): set<object> {
    match a
    case Nothing => {}
    case Budget(b) => {b}
    case Deadline(d) => {d}
  }

  ghost predicate In(a: Allowance, w: World) {
    match a
    case Nothing => true
    case Budget(b) => b.world == w
    case Deadline(d) => d.world == w
  }

  ghost predicate Valid(a: Allowance, w: World)
    reads Objects(a), w
  {
    In(a, w) &&
    match a
    case Nothing => true
    case Budget(b) => b.Valid()
    case Deadline(d) => d.Valid()
  }

  ghost predicate Allows(a: Allowance, w: World)
    reads Objects(a), w
  {
    match a
    case Nothing => false
    case Budget(b) => b.delay > 0.0 && b.remaining >= b.delay
    case Deadline(d) => d.delay > 0.0 && d.end - w.now >= d.delay
  }

  ghost function Waits(a: Allowance): nat
    reads Objects(a)
  {
    match a
    case Nothing => 0
    case Budget(b) => b.waits
    case Deadline(d) => d.waits
  }

  ghost function Granted(a: Allowance): real
    reads Objects(a)
  {
    match a
    case Nothing => 0.0
    case Budget(b) => b.granted
    case Deadline(d) => d.granted
  }

  /** How many more waits an allowance can grant. */
  ghost function Left(a: Allowance, w: World): nat
    reads Objects(a), w
  {
    match a
    case Nothing => 0
    case Budget(b) => Slots(b.remaining, b.delay)
    case Deadline(d) => Slots(d.end - w.now, d.delay)
  }

  /** An allowance grants a wait exactly when one fits in what is left of it. */
  lemma AllowsIffLeft(a: Allowance, w: World)
    ensures Allows(a, w) <==> Left(a, w) > 0
  {
    match a
    case Nothing =>
    case Budget(b) =>
      if b.delay > 0.0 {
        SlotsHold(b.remaining, b.delay, 1);
      }
    case Deadline(d) =>
      if d.delay > 0.0 {
        SlotsHold(d.end - w.now, d.delay, 1);
      }
  }

  method WaitOn(a: Allowance, w: World) returns (allowed: bool)
    requires Valid(a, w)
    modifies w, Objects(a)
    ensures Valid(a, w)
    ensures allowed == old(Allows(a, w))
    ensures allowed ==> Left(a, w) < old(Left(a, w)) && Waits(a) == old(Waits(a)) + 1
    ensures !allowed ==> !Allows(a, w) && Left(a, w) == old(Left(a, w)) && Waits(a) == old(Waits(a))
    ensures w.slept - old(w.slept) == Granted(a) - old(Granted(a))
    ensures w.requests == old(w.requests) && w.now >= old(w.now)
  {
    hide Slots;
    match a {
      case Nothing =>
        allowed := false;
      case Budget(b) =>
        allowed := b.Wait();
        if allowed {
          SlotsShrink(old(b.remaining), b.delay, b.remaining);
        }
      case Deadline(d) =>
        allowed := d.Wait();
        if allowed {
          SlotsShrink(d.end - old(w.now), d.delay, d.end - w.now);
        }
    }
  }

  // ---------------------------------------------------------------- fetch

  datatype FetchError = FetchError(attempts: nat, cause: string)

  /** A download made of the requests from one to another: failures, and a last one that is its outcome. */
  ghost predicate Fetched(replies: nat -> Reply, from: nat, next: nat, r: Result<string, FetchError>) {
    && from < next
    && (forall k: nat | from <= k < next - 1 :: replies(k).result.Failure?)
    && match r
       case Success(body) => replies(next - 1).result == Success(body)
       case Failure(e) => replies(next - 1).result == Failure(e.cause) && e.attempts == next - from
  }

  lemma LeftShrinksWithTime(a: Allowance, w: World, before: real)
    requires In(a, w) && a.Deadline? && before <= w.now
    ensures Slots(a.deadline.end - w.now, a.deadline.delay) <= Slots(a.deadline.end - before, a.deadline.delay)
  {
    var d := a.deadline;
    if d.delay > 0.0 {
      var n := Slots(d.end - w.now, d.delay);
      SlotsHold(d.end - w.now, d.delay, n);
      SlotsHold(d.end - before, d.delay, n);
    }
  }

  /** urlopen in the loop of fetch: it takes time, so it can only take room from a deadline. */
  method Request(a: Allowance, w: World) returns (result: Result<string, string>)
    requires Valid(a, w)
    modifies w
    ensures Valid(a, w)
    ensures result == w.replies(old(w.requests)).result && w.requests == old(w.requests) + 1
    ensures w.slept == old(w.slept) && Granted(a) == old(Granted(a)) && Waits(a) == old(Waits(a))
    ensures Left(a, w) <= old(Left(a, w)) && w.now >= old(w.now)
  {
    hide Slots;
    result := w.Urlopen();
    if a.Deadline? {
      LeftShrinksWithTime(a, w, old(w.now));
    }
  }

  /** fetch */
  method Fetch(a: Allowance, w: World) returns (r: Result<string, FetchError>)
    requires Valid(a, w)
    modifies w, Objects(a)
    ensures Valid(a, w)
    ensures Fetched(w.replies, old(w.requests), w.requests, r)
    ensures r.Failure? ==> !Allows(a, w)
    ensures w.requests - old(w.requests) == 1 + Waits(a) - old(Waits(a))
    ensures w.slept - old(w.slept) == Granted(a) - old(Granted(a))
    ensures Left(a, w) <= old(Left(a, w)) && w.now >= old(w.now)
  {
    hide Slots, Valid, Allows, Left, Waits, Granted;
    var attempts := 0;
    while true
      invariant Valid(a, w)
      invariant w.requests == old(w.requests) + attempts
      invariant attempts == Waits(a) - old(Waits(a))
      invariant forall k: nat | old(w.requests) <= k < w.requests :: w.replies(k).result.Failure?
      invariant w.slept - old(w.slept) == Granted(a) - old(Granted(a))
      invariant Left(a, w) <= old(Left(a, w)) && w.now >= old(w.now)
      decreases Left(a, w)
    {
      attempts := attempts + 1;
      var result := Request(a, w);
      if result.Success? {
        return Success(result.value);
      }
      var allowed := WaitOn(a, w);
      if !allowed {
        return Failure(FetchError(attempts, result.error));
      }
    }
  }

  // ---------------------------------------------------------------- check_nuget_listing

  /** The versions an index lists, lower-cased, or none when the body is not JSON. */
  type Index = string -> Option<set<string>>

  datatype Problem = CouldNotList | Unlisted(attempts: nat)

  /** A reply a listing check goes on from: in transit it failed, or the index did not list the version yet. */
  ghost predicate Lags(index: Index, wanted: string, reply: Reply) {
    match reply.result
    case Failure(_) => true
    case Success(body) => index(body).Some? && wanted !in index(body).value
  }

  /** What a listing check reports, from the last reply it had and whether it could have waited. */
  ghost predicate ListingReports(index: Index, wanted: string, last: Reply, allows: bool, p: Option<Problem>) {
    match last.result
    case Failure(_) => p == Some(CouldNotList) && !allows
    case Success(body) =>
      match index(body)
      case None => p == Some(CouldNotList)
      case Some(versions) => if wanted in versions then p == None else p.Some? && p.value.Unlisted? && !allows
  }

  /** Every reply from one to another is one a listing check goes on from. */
  ghost predicate AllLag(index: Index, wanted: string, replies: nat -> Reply, first: nat, next: nat) {
    forall k: nat | first <= k < next :: Lags(index, wanted, replies(k))
  }

  lemma FetchedLags(index: Index, wanted: string, replies: nat -> Reply, start: nat, first: nat, next: nat,
                    r: Result<string, FetchError>)
    requires AllLag(index, wanted, replies, start, first) && Fetched(replies, first, next, r) && start <= first
    ensures AllLag(index, wanted, replies, start, next - 1) && next > first
    ensures r.Failure? ==> replies(next - 1).result.Failure?
    ensures r.Success? ==> replies(next - 1).result == Success(r.value)
    ensures r.Success? && index(r.value).Some? && wanted !in index(r.value).value
      ==> AllLag(index, wanted, replies, start, next)
  {}

  ghost function Answered(replies: nat -> Reply, from: nat, next: nat): nat
    decreases next
  {
    if next <= from then 0
    else Answered(replies, from, next - 1) + if replies(next - 1).result.Success? then 1 else 0
  }

  lemma {:induction false} AnsweredOne(replies: nat -> Reply, from: nat, middle: nat, next: nat, r: Result<string, FetchError>)
    requires from <= middle && Fetched(replies, middle, next, r)
    ensures Answered(replies, from, next) == Answered(replies, from, middle) + if r.Success? then 1 else 0
  {
    AnsweredNone(replies, from, middle, next - 1);
  }

  lemma {:induction false} AnsweredNone(replies: nat -> Reply, from: nat, middle: nat, next: nat)
    requires from <= middle <= next && forall k: nat | middle <= k < next :: replies(k).result.Failure?
    ensures Answered(replies, from, next) == Answered(replies, from, middle)
    decreases next
  {
    if middle >= next {
    } else {
      AnsweredNone(replies, from, middle, next - 1);
    }
  }

  lemma AnsweredNothing(replies: nat -> Reply, first: nat)
    ensures Answered(replies, first, first) == 0
  {}

  lemma NothingLags(index: Index, wanted: string, replies: nat -> Reply, first: nat)
    ensures AllLag(index, wanted, replies, first, first)
  {}

  /** check_nuget_listing */
  method CheckNugetListing(index: Index, wanted: string, a: Allowance, w: World) returns (problem: Option<Problem>)
    requires Valid(a, w)
    modifies w, Objects(a)
    ensures Valid(a, w) && w.requests > old(w.requests)
    ensures AllLag(index, wanted, w.replies, old(w.requests), w.requests - 1)
    ensures ListingReports(index, wanted, w.replies(w.requests - 1), Allows(a, w), problem)
    ensures problem.Some? && problem.value.Unlisted?
      ==> problem.value.attempts == Answered(w.replies, old(w.requests), w.requests)
    ensures w.requests - old(w.requests) == 1 + Waits(a) - old(Waits(a))
    ensures w.slept - old(w.slept) == Granted(a) - old(Granted(a))
    ensures Left(a, w) <= old(Left(a, w)) && w.now >= old(w.now)
  {
    hide Slots, Valid, Allows, Left, Waits, Granted, Fetched, Answered, AllLag;
    AnsweredNothing(w.replies, w.requests);
    NothingLags(index, wanted, w.replies, w.requests);
    var attempts := 0;
    while true
      invariant Valid(a, w)
      invariant w.requests - old(w.requests) == Waits(a) - old(Waits(a)) >= 0
      invariant attempts == Answered(w.replies, old(w.requests), w.requests)
      invariant AllLag(index, wanted, w.replies, old(w.requests), w.requests)
      invariant w.slept - old(w.slept) == Granted(a) - old(Granted(a))
      invariant Left(a, w) <= old(Left(a, w)) && w.now >= old(w.now)
      decreases Left(a, w)
    {
      ghost var from := w.requests;
      attempts := attempts + 1;
      var fetched := Fetch(a, w);
      AnsweredOne(w.replies, old(w.requests), from, w.requests, fetched);
      FetchedLags(index, wanted, w.replies, old(w.requests), from, w.requests, fetched);
      if fetched.Failure? {
        return Some(CouldNotList);
      }
      var versions := index(fetched.value);
      if versions.None? {
        return Some(CouldNotList);
      }
      if wanted in versions.value {
        return None;
      }
      var allowed := WaitOn(a, w);
      if !allowed {
        return Some(Unlisted(attempts));
      }
    }
  }

  // ---------------------------------------------------------------- a whole run

  datatype Call = Download | Listing(index: Index, wanted: string)

  datatype Source = OnNothing | OnBudget | OnDeadline

  /** An allowance never grants more waits than fit the seconds it was made with. */
  lemma BudgetBounds(b: RetryBudget)
    requires b.Valid()
    ensures b.granted + b.remaining == b.seconds && b.granted == b.waits as real * b.delay
    ensures b.waits <= Slots(b.seconds, b.delay)
  {
    if b.waits > 0 {
      SlotsHold(b.seconds, b.delay, b.waits);
    }
  }

  /** Every wait granted takes one of those that fit a budget from it, and nothing else does. */
  lemma BudgetLeft(b: RetryBudget)
    requires b.Valid()
    ensures Slots(b.remaining, b.delay) == Slots(b.seconds, b.delay) - b.waits
  {
    BudgetBounds(b);
    if b.delay > 0.0 {
      var n := Slots(b.remaining, b.delay);
      SlotsHold(b.remaining, b.delay, n);
      SlotsHold(b.remaining, b.delay, n + 1);
      SlotsHold(b.seconds, b.delay, n + b.waits);
      SlotsHold(b.seconds, b.delay, n + b.waits + 1);
      hide Slots;
      WaitsAddUp(n, b.waits, b.delay);
      WaitsAddUp(n + 1, b.waits, b.delay);
    }
  }

  lemma WaitsAddUp(n: nat, waits: nat, delay: real)
    ensures (n + waits) as real * delay == n as real * delay + waits as real * delay
  {}

  lemma DeadlineBounds(d: RetryDeadline)
    requires d.Valid()
    ensures d.waits <= Slots(d.seconds, d.delay)
    ensures d.waits > 0 ==> d.lastEnd <= d.end
  {
    if d.waits > 0 {
      SlotsHold(d.seconds, d.delay, d.waits);
    }
  }

  function Drawn(source: Source, budget: RetryBudget, deadline: RetryDeadline): Allowance {
    if source.OnNothing? then Nothing else if source.OnBudget? then Budget(budget) else Deadline(deadline)
  }

  /** What one call made of the requests from one to another, and what it reports. */
  ghost predicate Reports(call: Call, replies: nat -> Reply, first: nat, next: nat, allows: bool, problem: Option<Problem>) {
    && first < next
    && match call
       case Download =>
         && problem == None && (forall k: nat | first <= k < next - 1 :: replies(k).result.Failure?)
         && (replies(next - 1).result.Failure? ==> !allows)
       case Listing(index, wanted) =>
         && AllLag(index, wanted, replies, first, next - 1)
         && ListingReports(index, wanted, replies(next - 1), allows, problem)
         && (problem.Some? && problem.value.Unlisted? ==> problem.value.attempts == Answered(replies, first, next))
  }

  /** One call of a run. */
  method RunCall(call: Call, a: Allowance, w: World) returns (problem: Option<Problem>)
    requires Valid(a, w)
    modifies w, Objects(a)
    ensures Valid(a, w)
    ensures Reports(call, w.replies, old(w.requests), w.requests, Allows(a, w), problem)
    ensures w.requests > old(w.requests)
    ensures w.requests - old(w.requests) == 1 + Waits(a) - old(Waits(a))
    ensures w.slept - old(w.slept) == Granted(a) - old(Granted(a))
    ensures w.now >= old(w.now)
  {
    hide Slots, Valid, Waits, Granted, Left, Allows, AllLag, Answered, ListingReports;
    problem := None;
    if call.Download? {
      var _ := Fetch(a, w);
    } else {
      problem := CheckNugetListing(call.index, call.wanted, a, w);
    }
  }

  /**
    A call of a run in its turn: its first request, the one after its last, and whether it could have waited on; the
    waits each allowance has granted by then, and the clock.
  */
  datatype Turn = Turn(first: nat, next: nat, allows: bool, ofBudget: nat, ofDeadline: nat, now: real)

  /** The turn drew on the allowance asked for and on no other, and could have waited on while a wait was left there. */
  ghost predicate Draws(source: Source, budget: RetryBudget, deadline: RetryDeadline, before: Turn, turn: Turn) {
    && before.now <= turn.now && before.ofBudget <= turn.ofBudget && before.ofDeadline <= turn.ofDeadline
    && (!source.OnBudget? ==> turn.ofBudget == before.ofBudget)
    && (!source.OnDeadline? ==> turn.ofDeadline == before.ofDeadline)
    && turn.next - turn.first == 1 + turn.ofBudget - before.ofBudget + turn.ofDeadline - before.ofDeadline
    && (turn.allows
        <==> || (source.OnBudget? && turn.ofBudget < Slots(budget.seconds, budget.delay))
             || (source.OnDeadline? && Slots(deadline.end - turn.now, deadline.delay) > 0))
  }

  /** Each turn draws as asked, from where the turn before it, or the start, left the allowances. */
  ghost predicate EachDraws(calls: seq<(Source, Call)>, budget: RetryBudget, deadline: RetryDeadline, start: Turn, turns: seq<Turn>)
  {
    && |turns| <= |calls|
    && forall i | 0 <= i < |turns| :: Draws(calls[i].0, budget, deadline, TurnBefore(start, turns, i), turns[i])
  }

  ghost function TurnBefore(start: Turn, turns: seq<Turn>, i: nat): Turn
    requires i <= |turns|
  {
    if i == 0 then start else turns[i - 1]
  }

  lemma OneMoreDraws(calls: seq<(Source, Call)>, budget: RetryBudget, deadline: RetryDeadline, start: Turn, turns: seq<Turn>,
                     turn: Turn)
    requires EachDraws(calls, budget, deadline, start, turns) && |turns| < |calls|
    requires Draws(calls[|turns|].0, budget, deadline, TurnBefore(start, turns, |turns|), turn)
    ensures EachDraws(calls, budget, deadline, start, turns + [turn])
  {
    hide Draws;
    var all := turns + [turn];
    assert forall i | 0 <= i <= |turns| :: TurnBefore(start, all, i) == TurnBefore(start, turns, i);
  }

  /** Each call in turn made the requests up to where the next one began, and reports what they came to. */
  ghost predicate EachReports(calls: seq<(Source, Call)>, replies: nat -> Reply, turns: seq<Turn>, problems: seq<Option<Problem>>) {
    && |problems| == |turns| <= |calls|
    && (forall i | 0 <= i < |turns| - 1 :: turns[i].next == turns[i + 1].first)
    && forall i | 0 <= i < |turns| ::
         Reports(calls[i].1, replies, turns[i].first, turns[i].next, turns[i].allows, problems[i])
  }

  lemma OneMoreReports(calls: seq<(Source, Call)>, replies: nat -> Reply, turns: seq<Turn>, problems: seq<Option<Problem>>,
                       turn: Turn, problem: Option<Problem>)
    requires EachReports(calls, replies, turns, problems) && |turns| < |calls|
    requires turns == [] || turns[|turns| - 1].next == turn.first
    requires Reports(calls[|turns|].1, replies, turn.first, turn.next, turn.allows, problem)
    ensures EachReports(calls, replies, turns + [turn], problems + [problem])
  {
    hide Reports;
  }

  /** One call of a run, as a turn. */
  method TakeTurn(source: Source, call: Call, budget: RetryBudget, deadline: RetryDeadline, w: World, ghost before: Turn)
    returns (problem: Option<Problem>, ghost turn: Turn)
    requires budget.world == w && deadline.world == w && budget.Valid() && deadline.Valid()
    requires before.ofBudget == budget.waits && before.ofDeadline == deadline.waits && before.now == w.now
    modifies w, budget, deadline
    ensures budget.Valid() && deadline.Valid()
    ensures turn.first == old(w.requests) && turn.next == w.requests
    ensures turn.ofBudget == budget.waits && turn.ofDeadline == deadline.waits && turn.now == w.now
    ensures Reports(call, w.replies, turn.first, turn.next, turn.allows, problem)
    ensures Draws(source, budget, deadline, before, turn)
    ensures w.slept - old(w.slept) == budget.granted + deadline.granted - old(budget.granted + deadline.granted)
  {
    hide Slots, Reports;
    var a := Drawn(source, budget, deadline);
    problem := RunCall(call, a, w);
    turn := Turn(old(w.requests), w.requests, Allows(a, w), budget.waits, deadline.waits, w.now);
    AllowsIffLeft(a, w);
    BudgetLeft(budget);
  }

  /** Any calls in any order, each on its own choice of the run's two allowances; one report, or none, per call. */
  method RunCalls(calls: seq<(Source, Call)>, budget: RetryBudget, deadline: RetryDeadline, w: World)
    returns (problems: seq<Option<Problem>>, ghost turns: seq<Turn>)
    requires budget.world == w && deadline.world == w && budget.Valid() && deadline.Valid()
    requires budget.waits == 0 && deadline.waits == 0
    modifies w, budget, deadline
    ensures budget.granted + budget.remaining == budget.seconds
    ensures w.slept - old(w.slept) == budget.granted + deadline.granted
    ensures budget.waits > 0 ==> budget.remaining >= 0.0
    ensures w.requests - old(w.requests) == |calls| + budget.waits + deadline.waits
    ensures w.requests - old(w.requests)
         <= |calls| + Slots(budget.seconds, budget.delay) + Slots(deadline.seconds, deadline.delay)
    ensures deadline.waits > 0 ==> deadline.lastEnd <= deadline.end
    ensures |problems| == |calls| && EachReports(calls, w.replies, turns, problems)
    ensures EachDraws(calls, budget, deadline, Turn(0, old(w.requests), false, 0, 0, old(w.now)), turns)
    ensures calls != [] ==>
              && turns[0].first == old(w.requests) && turns[|calls| - 1].next == w.requests
              && turns[|calls| - 1].ofBudget == budget.waits && turns[|calls| - 1].ofDeadline == deadline.waits
  {
    hide Slots, Reports, EachReports, EachDraws;
    problems, turns := [], [];
    ghost var start := Turn(0, w.requests, false, 0, 0, w.now);
    ghost var last := start;
    NothingReported(calls, w.replies, budget, deadline, start);
    for i := 0 to |calls|
      invariant budget.Valid() && deadline.Valid()
      invariant w.slept - old(w.slept) == budget.granted + deadline.granted
      invariant w.requests - old(w.requests) == i + budget.waits + deadline.waits
      invariant |problems| == |turns| == i && EachReports(calls, w.replies, turns, problems)
      invariant EachDraws(calls, budget, deadline, start, turns)
      invariant last == TurnBefore(start, turns, i)
      invariant last.next == w.requests && (i > 0 ==> turns[0].first == old(w.requests))
      invariant last.ofBudget == budget.waits && last.ofDeadline == deadline.waits && last.now == w.now
    {
      ghost var turn;
      var problem;
      problem, turn := TakeTurn(calls[i].0, calls[i].1, budget, deadline, w, last);
      OneMoreReports(calls, w.replies, turns, problems, turn, problem);
      OneMoreDraws(calls, budget, deadline, start, turns, turn);
      problems, turns, last := problems + [problem], turns + [turn], turn;
    }
    BudgetBounds(budget);
    DeadlineBounds(deadline);
  }

  lemma NothingReported(calls: seq<(Source, Call)>, replies: nat -> Reply, budget: RetryBudget, deadline: RetryDeadline, start: Turn)
    ensures EachReports(calls, replies, [], []) && EachDraws(calls, budget, deadline, start, [])
  {}
}
