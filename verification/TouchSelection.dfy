/** Choosing among several security keys by touch (FIDODevice::SelectByTouch).
    Devices, user and clock are a World of answers; requests sent to the devices
    are counted on a ghost ledger. */
module TouchSelection {

  const CEREMONY_TIMEOUT_MS := 120000

  datatype Status = Ok | InvalidArgument | NotFound | Cancelled | TimedOut | DeviceError(code: int)

  /** The answer of a device to a poll; `touched` is read only without error. */
  datatype Poll = Poll(status: Status, touched: bool)

  datatype World = World(
    open: nat -> Status,
    begin: nat -> Status,
    poll: (nat, nat) -> Poll,
    continues: nat -> bool,
    sleep: nat -> nat)

  // ----- What decides -----

  /** The device is opened and accepts a touch request. */
  predicate Started(devices: nat, w: World, i: nat) {
    i < devices && w.open(i) == Ok && w.begin(i) == Ok
  }

  /** The request is still pending in round `n`: no poll before has failed. */
  ghost predicate Asked(devices: nat, w: World, i: nat, n: nat) {
    Started(devices, w, i) && Survives(w, i, n)
  }

  ghost predicate Survives(w: World, i: nat, n: nat) {
    forall r: nat :: r < n ==> w.poll(r, i).status == Ok
  }

  /** Round `n` leaves the request pending, unless another device is touched. */
  ghost predicate Remains(devices: nat, w: World, i: nat, n: nat) {
    Asked(devices, w, i, n) && w.poll(n, i).status == Ok
  }

  /** The device is asked in round `n` and reports a touch. */
  ghost predicate TouchesIn(devices: nat, w: World, i: nat, n: nat) {
    Asked(devices, w, i, n) && w.poll(n, i) == Poll(Ok, true)
  }

  /** The time that the rounds before round `n` take. */
  function Elapsed(w: World, n: nat): nat {
    if n == 0 then 0 else Elapsed(w, n - 1) + 1 + w.sleep(n - 1)
  }

  ghost predicate NobodyTouchesIn(devices: nat, w: World, n: nat) {
    forall i: nat :: !TouchesIn(devices, w, i, n)
  }

  /** Round `n` takes place and decides nothing: in time, not cancelled, no touch, and
      some request still pending after it. */
  ghost predicate Quiet(devices: nat, w: World, n: nat) {
    && Elapsed(w, n) < CEREMONY_TIMEOUT_MS && w.continues(n)
    && NobodyTouchesIn(devices, w, n)
    && exists i: nat :: Remains(devices, w, i, n)
  }

  ghost predicate QuietBefore(devices: nat, w: World, n: nat) {
    forall m: nat :: m < n ==> Quiet(devices, w, m)
  }

  /** After quiet rounds only, round `n` gives this result: a timeout, a
      cancellation, the first device in order that reports a touch, or the error
      of the last device asked when all of them have failed. */
  ghost predicate Decides(devices: nat, w: World, n: nat, status: Status, selected: nat) {
    && QuietBefore(devices, w, n)
    && if Elapsed(w, n) >= CEREMONY_TIMEOUT_MS then status == TimedOut && selected == 0
       else if !w.continues(n) then status == Cancelled && selected == 0
       else if !NobodyTouchesIn(devices, w, n) then status == Ok && IsFirstTouch(devices, w, selected, n)
       else AllFailIn(devices, w, n, status) && selected == 0
  }

  ghost predicate IsFirstTouch(devices: nat, w: World, i: nat, n: nat) {
    TouchesIn(devices, w, i, n) && forall j: nat :: j < i ==> !TouchesIn(devices, w, j, n)
  }

  /** Every device still asked fails in round `n`, the last one with this error. */
  ghost predicate AllFailIn(devices: nat, w: World, n: nat, status: Status) {
    && (forall i: nat :: !Remains(devices, w, i, n))
    && exists last: nat :: LastAsked(devices, w, last, n) && status == w.poll(n, last).status
  }

  ghost predicate LastAsked(devices: nat, w: World, last: nat, n: nat) {
    Asked(devices, w, last, n) && forall i: nat :: Asked(devices, w, i, n) ==> i <= last
  }

  /** No request is started: the error of the last device opened, or of the last one
      tried when none opens. */
  ghost predicate NoneStarts(devices: nat, w: World, status: Status) {
    && (forall i: nat :: !Started(devices, w, i))
    && ((exists last: nat :: LastOpened(devices, w, last) && status == w.begin(last))
        || ((forall i: nat :: i < devices ==> w.open(i) != Ok) && devices > 0 && status == w.open(devices - 1)))
  }

  ghost predicate LastOpened(devices: nat, w: World, last: nat) {
    last < devices && w.open(last) == Ok && forall i: nat :: last < i < devices ==> w.open(i) != Ok
  }

  lemma DecidesIsNotQuiet(devices: nat, w: World, n: nat, status: Status, selected: nat)
    requires Decides(devices, w, n, status, selected)
    ensures !Quiet(devices, w, n)
  {
  }

  /** The answers of devices, user and clock leave one result only. */
  lemma ResultIsUnique(devices: nat, w: World, n: nat, status: Status, selected: nat, n': nat, status': Status,
                       selected': nat)
    requires Decides(devices, w, n, status, selected) && Decides(devices, w, n', status', selected')
    ensures n == n' && status == status' && selected == selected'
  {
    DecidesIsNotQuiet(devices, w, n, status, selected);
    DecidesIsNotQuiet(devices, w, n', status', selected');
  }

  // ----- The requests -----

  datatype Candidate = Candidate(index: nat, pending: bool)

  /** What was sent to the opened devices: per candidate, how many touch requests
      were started and how many of them were touched, failed or cancelled. */
  datatype Ledger = Ledger(begun: seq<nat>, ended: seq<nat>)

  /** A request is started at most once; it has ended once exactly when it was
      started and is no longer pending. */
  predicate Balanced(candidates: seq<Candidate>, l: Ledger) {
    && |l.begun| == |l.ended| == |candidates|
    && forall k :: 0 <= k < |candidates| ==>
      l.begun[k] <= 1 && l.begun[k] == l.ended[k] + if candidates[k].pending then 1 else 0
  }

  /** Every started request has ended. */
  predicate Settled(l: Ledger) {
    && |l.begun| == |l.ended|
    && forall k :: 0 <= k < |l.begun| ==> l.begun[k] == l.ended[k] <= 1
  }

  predicate NonePending(candidates: seq<Candidate>) {
    forall k :: 0 <= k < |candidates| ==> !candidates[k].pending
  }

  function PendingCount(candidates: seq<Candidate>): nat {
    if candidates == [] then 0
    else PendingCount(candidates[..|candidates| - 1]) + if candidates[|candidates| - 1].pending then 1 else 0
  }

  lemma {:induction false} PendingCountUpdate(candidates: seq<Candidate>, k: nat, pending: bool)
    requires k < |candidates|
    ensures PendingCount(candidates[k := candidates[k].(pending := pending)]) ==
      PendingCount(candidates) - (if candidates[k].pending then 1 else 0) + (if pending then 1 else 0)
  {
    var n := |candidates| - 1;
    var updated := candidates[k := candidates[k].(pending := pending)];
    if k < n {
      PendingCountUpdate(candidates[..n], k, pending);
      assert updated[..n] == candidates[..n][k := candidates[k].(pending := pending)];
    } else {
      assert updated[..n] == candidates[..n];
    }
  }

  lemma {:induction false} ZeroPending(candidates: seq<Candidate>)
    ensures PendingCount(candidates) == 0 <==> NonePending(candidates)
  {
    if candidates != [] {
      ZeroPending(candidates[..|candidates| - 1]);
    }
  }

  /** The opened devices, in ascending order and within the list given. */
  predicate OpenedFrom(candidates: seq<Candidate>, devices: nat, w: World) {
    && (forall k :: 0 <= k < |candidates| ==> candidates[k].index < devices && w.open(candidates[k].index) == Ok)
    && (forall j, k :: 0 <= j < k < |candidates| ==> candidates[j].index < candidates[k].index)
  }

  predicate SameDevices(a: seq<Candidate>, b: seq<Candidate>) {
    |a| == |b| && forall k :: 0 <= k < |a| ==> a[k].index == b[k].index
  }

  method OpenCandidates(devices: nat, w: World) returns (candidates: seq<Candidate>, lastError: Status)
    ensures OpenedFrom(candidates, devices, w) && NonePending(candidates)
    ensures forall i ::
      0 <= i < devices && w.open(i) == Ok ==> exists k :: 0 <= k < |candidates| && candidates[k].index == i
    ensures lastError != Ok && (candidates == [] && devices > 0 ==> lastError == w.open(devices - 1))
  {
    candidates, lastError := [], NotFound;
    for index := 0 to devices
      invariant OpenedFrom(candidates, index, w) && NonePending(candidates)
      invariant forall i ::
        0 <= i < index && w.open(i) == Ok ==> exists k :: 0 <= k < |candidates| && candidates[k].index == i
      invariant lastError != Ok && (candidates == [] && index > 0 ==> lastError == w.open(index - 1))
    {
      var status := w.open(index);
      if status != Ok {
        lastError := status;
      } else {
        ghost var before := candidates;
        candidates := candidates + [Candidate(index, false)];
        assert candidates[|before|].index == index;
        assert forall k :: 0 <= k < |before| ==> candidates[k] == before[k];
      }
    }
  }

  method BeginTouches(reached: seq<Candidate>, error: Status, w: World)
    returns (candidates: seq<Candidate>, pendingCount: nat, lastError: Status, ghost ledger: Ledger)
    requires NonePending(reached) && error != Ok
    ensures SameDevices(reached, candidates) && Balanced(candidates, ledger)
    ensures pendingCount == PendingCount(candidates) && lastError != Ok
    ensures BegunByDevices(candidates, ledger, w)
    ensures forall k :: 0 <= k < |candidates| ==> ledger.ended[k] == 0
    ensures pendingCount == 0 ==>
      lastError == if |reached| == 0 then error else w.begin(reached[|reached| - 1].index)
  {
    candidates, pendingCount, lastError := reached, 0, error;
    ledger := Ledger(seq(|reached|, i => 0), seq(|reached|, i => 0));
    ZeroPending(reached);
    for k := 0 to |candidates|
      invariant SameDevices(reached, candidates) && Balanced(candidates, ledger)
      invariant pendingCount == PendingCount(candidates) && lastError != Ok
      invariant forall i :: 0 <= i < k ==> (ledger.begun[i] == 1 <==> w.begin(candidates[i].index) == Ok)
      invariant forall i :: k <= i < |candidates| ==> !candidates[i].pending && ledger.begun[i] == 0
      invariant forall i :: 0 <= i < |candidates| ==> ledger.ended[i] == 0
      invariant pendingCount == 0 ==> lastError == if k == 0 then error else w.begin(candidates[k - 1].index)
    {
      var status := w.begin(candidates[k].index);
      if status != Ok {
        lastError := status;
      } else {
        PendingCountUpdate(candidates, k, true);
        candidates := candidates[k := candidates[k].(pending := true)];
        pendingCount := pendingCount + 1;
        ledger := ledger.(begun := ledger.begun[k := 1]);
      }
    }
  }

  /** cancelPending: one cancellation for every request that is still pending. */
  method CancelPending(before: seq<Candidate>, ghost l: Ledger)
    returns (candidates: seq<Candidate>, ghost ledger: Ledger)
    requires Balanced(before, l)
    ensures SameDevices(before, candidates) && NonePending(candidates) && Balanced(candidates, ledger)
    ensures Settled(ledger) && ledger.begun == l.begun
  {
    candidates, ledger := before, l;
    for k := 0 to |candidates|
      invariant SameDevices(before, candidates) && Balanced(candidates, ledger) && ledger.begun == l.begun
      invariant forall i :: 0 <= i < k ==> !candidates[i].pending
    {
      if candidates[k].pending {
        candidates := candidates[k := candidates[k].(pending := false)];
        ledger := ledger.(ended := ledger.ended[k := ledger.ended[k] + 1]);
      }
    }
  }

  datatype Round = Pending | Exhausted | Touched(index: nat)

  /** The candidates are the opened devices, in ascending order. */
  ghost predicate Covers(candidates: seq<Candidate>, devices: nat, w: World) {
    && OpenedFrom(candidates, devices, w)
    && forall i: nat :: i < devices && w.open(i) == Ok ==> Includes(candidates, i)
  }

  ghost predicate Includes(candidates: seq<Candidate>, i: nat) {
    exists k :: 0 <= k < |candidates| && candidates[k].index == i
  }

  /** The candidates from `k` on are as round `n` finds them, those before as it
      leaves them. */
  ghost predicate Tracks(candidates: seq<Candidate>, devices: nat, w: World, n: nat, k: nat) {
    && (forall i :: 0 <= i < k && i < |candidates| ==>
          (candidates[i].pending <==> Remains(devices, w, candidates[i].index, n)))
    && (forall i :: k <= i < |candidates| ==>
          (candidates[i].pending <==> Asked(devices, w, candidates[i].index, n)))
  }

  lemma AskedNext(devices: nat, w: World, i: nat, n: nat)
    ensures Asked(devices, w, i, n + 1) <==> Remains(devices, w, i, n)
  {
    if Remains(devices, w, i, n) {
      forall r: nat | r < n + 1
        ensures w.poll(r, i).status == Ok
      {
        assert r < n || r == n;
      }
    }
  }

  lemma TracksNextRound(candidates: seq<Candidate>, devices: nat, w: World, n: nat)
    requires Tracks(candidates, devices, w, n, |candidates|)
    ensures Tracks(candidates, devices, w, n + 1, 0)
  {
    forall i | 0 <= i < |candidates|
      ensures candidates[i].pending <==> Asked(devices, w, candidates[i].index, n + 1)
    {
      AskedNext(devices, w, candidates[i].index, n);
    }
  }

  /** A device that is asked is among the candidates. */
  lemma AskedIsCandidate(candidates: seq<Candidate>, devices: nat, w: World, i: nat, n: nat) returns (k: nat)
    requires Covers(candidates, devices, w) && Asked(devices, w, i, n)
    ensures k < |candidates| && candidates[k].index == i
  {
    assert Includes(candidates, i);
    k :| 0 <= k < |candidates| && candidates[k].index == i;
  }

  /** What a round yields. */
  ghost predicate RoundYields(devices: nat, w: World, n: nat, outcome: Round, lastError: Status) {
    match outcome
    case Touched(i) => IsFirstTouch(devices, w, i, n)
    case Exhausted => NobodyTouchesIn(devices, w, n) && AllFailIn(devices, w, n, lastError)
    case Pending => NobodyTouchesIn(devices, w, n) && exists i: nat :: Remains(devices, w, i, n)
  }

  /** None of the first candidates touches. */
  ghost predicate Untouched(candidates: seq<Candidate>, devices: nat, w: World, n: nat, k: nat) {
    forall i :: 0 <= i < k && i < |candidates| ==> !TouchesIn(devices, w, candidates[i].index, n)
  }

  /** No candidate before the `k`-th touches, so no device with a lower index. */
  lemma TouchIsFirst(candidates: seq<Candidate>, devices: nat, w: World, n: nat, k: nat)
    requires Covers(candidates, devices, w) && k < |candidates| && Untouched(candidates, devices, w, n, k)
    requires TouchesIn(devices, w, candidates[k].index, n)
    ensures IsFirstTouch(devices, w, candidates[k].index, n)
  {
    forall j: nat | j < candidates[k].index
      ensures !TouchesIn(devices, w, j, n)
    {
      if TouchesIn(devices, w, j, n) {
        var i := AskedIsCandidate(candidates, devices, w, j, n);
      }
    }
  }

  /** No candidate touches, and one of them stays pending. */
  lemma RoundPends(candidates: seq<Candidate>, devices: nat, w: World, n: nat)
    requires Covers(candidates, devices, w) && Untouched(candidates, devices, w, n, |candidates|)
    requires PendingCount(candidates) > 0 && Tracks(candidates, devices, w, n, |candidates|)
    ensures forall error :: RoundYields(devices, w, n, Pending, error)
  {
    forall i: nat
      ensures !TouchesIn(devices, w, i, n)
    {
      if TouchesIn(devices, w, i, n) {
        var k := AskedIsCandidate(candidates, devices, w, i, n);
      }
    }
    ZeroPending(candidates);
    var k :| 0 <= k < |candidates| && candidates[k].pending;
    assert Remains(devices, w, candidates[k].index, n);
  }

  /** The candidate that fails last, when no request is pending any more. */
  lemma RoundExhausts(candidates: seq<Candidate>, devices: nat, w: World, n: nat, k: nat)
    requires Covers(candidates, devices, w) && k < |candidates| && NonePending(candidates)
    requires Tracks(candidates, devices, w, n, k + 1) && Untouched(candidates, devices, w, n, k)
    requires Asked(devices, w, candidates[k].index, n)
    ensures RoundYields(devices, w, n, Exhausted, w.poll(n, candidates[k].index).status)
  {
    forall i: nat
      ensures !Remains(devices, w, i, n) && !TouchesIn(devices, w, i, n)
      ensures Asked(devices, w, i, n) ==> i <= candidates[k].index
    {
      if Asked(devices, w, i, n) {
        var j := AskedIsCandidate(candidates, devices, w, i, n);
      }
    }
    assert LastAsked(devices, w, candidates[k].index, n);
  }

  /** A failed poll and a touch end a request. */
  method EndRequest(before: seq<Candidate>, k: nat, count: nat, ghost l: Ledger)
    returns (candidates: seq<Candidate>, pendingCount: nat, ghost ledger: Ledger)
    requires Balanced(before, l) && k < |before| && before[k].pending && count == PendingCount(before) > 0
    ensures candidates == before[k := before[k].(pending := false)] && SameDevices(before, candidates)
    ensures Balanced(candidates, ledger) && ledger.begun == l.begun && pendingCount == PendingCount(candidates)
  {
    PendingCountUpdate(before, k, false);
    candidates := before[k := before[k].(pending := false)];
    ledger := l.(ended := l.ended[k := l.ended[k] + 1]);
    pendingCount := count - 1;
  }

  /** Where a round stands before its `k`-th candidate. */
  ghost predicate Midway(before: seq<Candidate>, candidates: seq<Candidate>, count: nat, begun: seq<nat>, l: Ledger,
                         devices: nat, w: World, n: nat, k: nat) {
    && SameDevices(before, candidates) && Balanced(candidates, l) && l.begun == begun
    && count == PendingCount(candidates) && Covers(candidates, devices, w)
    && Tracks(candidates, devices, w, n, k) && Untouched(candidates, devices, w, n, k)
  }

  lemma StaysMidway(before: seq<Candidate>, candidates: seq<Candidate>, count: nat, begun: seq<nat>, l: Ledger,
                    devices: nat, w: World, n: nat, k: nat)
    requires Midway(before, candidates, count, begun, l, devices, w, n, k) && k < |candidates|
    requires candidates[k].pending ==> w.poll(n, candidates[k].index) == Poll(Ok, false)
    ensures Midway(before, candidates, count, begun, l, devices, w, n, k + 1)
  {
  }

  lemma FailsMidway(before: seq<Candidate>, candidates: seq<Candidate>, count: nat, begun: seq<nat>, l: Ledger,
                    devices: nat, w: World, n: nat, k: nat, after: seq<Candidate>, left: nat, l': Ledger)
    requires Midway(before, candidates, count, begun, l, devices, w, n, k) && k < |candidates|
    requires candidates[k].pending && w.poll(n, candidates[k].index).status != Ok
    requires after == candidates[k := candidates[k].(pending := false)]
    requires Balanced(after, l') && l'.begun == begun && left == PendingCount(after)
    ensures Midway(before, after, left, begun, l', devices, w, n, k + 1)
  {
    SameCovers(candidates, after, devices, w);
  }

  lemma MidwayPends(before: seq<Candidate>, candidates: seq<Candidate>, count: nat, begun: seq<nat>, l: Ledger,
                    devices: nat, w: World, n: nat)
    requires Midway(before, candidates, count, begun, l, devices, w, n, |candidates|) && count > 0
    ensures forall error :: RoundYields(devices, w, n, Pending, error)
    ensures Tracks(candidates, devices, w, n + 1, 0)
  {
    RoundPends(candidates, devices, w, n);
    TracksNextRound(candidates, devices, w, n);
  }

  lemma MidwayExhausts(before: seq<Candidate>, candidates: seq<Candidate>, begun: seq<nat>, l: Ledger, devices: nat,
                       w: World, n: nat, k: nat)
    requires Midway(before, candidates, 0, begun, l, devices, w, n, k + 1) && k < |candidates|
    requires Asked(devices, w, candidates[k].index, n)
    ensures NonePending(candidates)
    ensures RoundYields(devices, w, n, Exhausted, w.poll(n, candidates[k].index).status)
  {
    ZeroPending(candidates);
    RoundExhausts(candidates, devices, w, n, k);
  }

  lemma MidwayTouched(before: seq<Candidate>, candidates: seq<Candidate>, count: nat, begun: seq<nat>, l: Ledger,
                      devices: nat, w: World, n: nat, k: nat)
    requires Midway(before, candidates, count, begun, l, devices, w, n, k) && k < |candidates|
    requires candidates[k].pending && w.poll(n, candidates[k].index) == Poll(Ok, true)
    ensures forall error :: RoundYields(devices, w, n, Touched(candidates[k].index), error)
  {
    TouchIsFirst(candidates, devices, w, n, k);
  }

  /** One poll of the round: Pending when the round goes on. */
  method PollOne(before: seq<Candidate>, k: nat, reached: seq<Candidate>, count: nat, error: Status, round: nat,
                 devices: nat, w: World, ghost begun: seq<nat>, ghost l: Ledger)
    returns (outcome: Round, candidates: seq<Candidate>, pendingCount: nat, lastError: Status, ghost ledger: Ledger)
    requires Midway(before, reached, count, begun, l, devices, w, round, k) && count > 0 && error != Ok
    requires k < |reached| && reached[k].pending
    ensures |candidates| == |reached| && lastError != Ok
    ensures outcome.Pending? ==>
      pendingCount > 0 && Midway(before, candidates, pendingCount, begun, ledger, devices, w, round, k + 1)
    ensures !outcome.Pending? ==> EndedRound(before, candidates, pendingCount, begun, ledger)
    ensures !outcome.Pending? ==> RoundYields(devices, w, round, outcome, lastError)
  {
    candidates, pendingCount, lastError, ledger, outcome := reached, count, error, l, Pending;
    var answer := w.poll(round, reached[k].index);
    if answer.status != Ok {
      lastError := answer.status;
      candidates, pendingCount, ledger := EndRequest(reached, k, count, l);
      FailsMidway(before, reached, count, begun, l, devices, w, round, k, candidates, pendingCount, ledger);
      if pendingCount == 0 {
        MidwayExhausts(before, candidates, begun, ledger, devices, w, round, k);
        outcome := Exhausted;
      }
    } else if answer.touched {
      MidwayTouched(before, reached, count, begun, l, devices, w, round, k);
      candidates, pendingCount, ledger := EndRequest(reached, k, count, l);
      candidates, ledger := CancelPending(candidates, ledger);
      ZeroPending(candidates);
      outcome, pendingCount := Touched(reached[k].index), 0;
    } else {
      StaysMidway(before, reached, count, begun, l, devices, w, round, k);
    }
  }

  /** Nothing is pending any more. */
  ghost predicate EndedRound(before: seq<Candidate>, candidates: seq<Candidate>, count: nat, begun: seq<nat>,
                             l: Ledger) {
    && SameDevices(before, candidates) && NonePending(candidates) && Balanced(candidates, l) && l.begun == begun
    && count == PendingCount(candidates)
  }

  /** The body of the polling loop: asks every pending candidate once. */
  method PollRound(before: seq<Candidate>, count: nat, error: Status, round: nat, devices: nat, w: World,
                   ghost l: Ledger)
    returns (outcome: Round, candidates: seq<Candidate>, pendingCount: nat, lastError: Status, ghost ledger: Ledger)
    requires Midway(before, before, count, l.begun, l, devices, w, round, 0) && count > 0 && error != Ok
    ensures lastError != Ok && RoundYields(devices, w, round, outcome, lastError)
    ensures outcome.Pending? ==>
      pendingCount > 0 && Midway(before, candidates, pendingCount, l.begun, ledger, devices, w, round + 1, 0)
    ensures !outcome.Pending? ==> EndedRound(before, candidates, pendingCount, l.begun, ledger)
  {
    candidates, pendingCount, lastError, ledger, outcome := before, count, error, l, Pending;
    for k := 0 to |candidates|
      invariant |candidates| == |before| && pendingCount > 0 && lastError != Ok && outcome.Pending?
      invariant Midway(before, candidates, pendingCount, l.begun, ledger, devices, w, round, k)
    {
      if candidates[k].pending {
        outcome, candidates, pendingCount, lastError, ledger :=
          PollOne(before, k, candidates, pendingCount, lastError, round, devices, w, l.begun, ledger);
        if !outcome.Pending? {
          return outcome, candidates, pendingCount, lastError, ledger;
        }
      } else {
        StaysMidway(before, candidates, pendingCount, l.begun, ledger, devices, w, round, k);
      }
    }
    MidwayPends(before, candidates, pendingCount, l.begun, ledger, devices, w, round);
  }

  lemma SameCovers(a: seq<Candidate>, b: seq<Candidate>, devices: nat, w: World)
    requires SameDevices(a, b) && Covers(a, devices, w)
    ensures Covers(b, devices, w)
  {
    forall i: nat | i < devices && w.open(i) == Ok
      ensures Includes(b, i)
    {
      assert Includes(a, i);
      var k :| 0 <= k < |a| && a[k].index == i;
      assert b[k].index == i;
    }
  }

  lemma SinceStart(start: seq<Candidate>, before: seq<Candidate>, candidates: seq<Candidate>, count: nat,
                   begun: seq<nat>, l: Ledger, devices: nat, w: World, n: nat)
    requires SameDevices(start, before) && Midway(before, candidates, count, begun, l, devices, w, n, 0)
    ensures Midway(start, candidates, count, begun, l, devices, w, n, 0)
  {
  }

  /** A round that takes place and leaves requests pending is quiet; any other
      outcome decides. */
  lemma RoundDecides(devices: nat, w: World, n: nat, outcome: Round, lastError: Status)
    requires QuietBefore(devices, w, n) && Elapsed(w, n) < CEREMONY_TIMEOUT_MS && w.continues(n)
    requires RoundYields(devices, w, n, outcome, lastError)
    ensures outcome.Pending? ==> QuietBefore(devices, w, n + 1)
    ensures outcome.Exhausted? ==> Decides(devices, w, n, lastError, 0)
    ensures outcome.Touched? ==> Decides(devices, w, n, Ok, outcome.index)
  {
    if outcome.Pending? {
      assert Quiet(devices, w, n);
    } else if outcome.Touched? {
      assert TouchesIn(devices, w, outcome.index, n);
    }
  }

  /** The polling loop, until a touch, the last failure, a cancellation, or the
      deadline; the clock advances with every turn. */
  method WaitForTouch(start: seq<Candidate>, count: nat, error: Status, devices: nat, w: World, ghost l: Ledger)
    returns (status: Status, selected: nat, final: seq<Candidate>, ghost ledger: Ledger, ghost rounds: nat)
    requires Midway(start, start, count, l.begun, l, devices, w, 0, 0) && count > 0 && error != Ok
    ensures EndedRound(start, final, PendingCount(final), l.begun, ledger)
    ensures Decides(devices, w, rounds, status, selected)
  {
    final, selected, ledger := start, 0, l;
    var pendingCount, lastError := count, error;
    var now, round := 0, 0;
    while now < CEREMONY_TIMEOUT_MS
      invariant Midway(start, final, pendingCount, l.begun, ledger, devices, w, round, 0)
      invariant pendingCount > 0 && lastError != Ok && selected == 0 && now == Elapsed(w, round)
      invariant QuietBefore(devices, w, round)
      decreases CEREMONY_TIMEOUT_MS - now
    {
      if !w.continues(round) {
        final, ledger := Abandon(start, final, pendingCount, l.begun, devices, w, round, ledger);
        return Cancelled, 0, final, ledger, round;
      }
      now := now + 1 + w.sleep(round);
      var outcome;
      outcome, final, pendingCount, lastError, ledger :=
        Turn(start, final, pendingCount, lastError, round, devices, w, l.begun, ledger);
      if outcome.Exhausted? {
        return lastError, 0, final, ledger, round;
      }
      if outcome.Touched? {
        return Ok, outcome.index, final, ledger, round;
      }
      round := round + 1;
    }
    final, ledger := Abandon(start, final, pendingCount, l.begun, devices, w, round, ledger);
    status, rounds := TimedOut, round;
  }

  /** A round of the loop. */
  method Turn(start: seq<Candidate>, reached: seq<Candidate>, count: nat, error: Status, round: nat, devices: nat,
              w: World, ghost begun: seq<nat>, ghost l: Ledger)
    returns (outcome: Round, candidates: seq<Candidate>, pendingCount: nat, lastError: Status, ghost ledger: Ledger)
    requires Midway(start, reached, count, begun, l, devices, w, round, 0) && count > 0 && error != Ok
    requires QuietBefore(devices, w, round) && Elapsed(w, round) < CEREMONY_TIMEOUT_MS && w.continues(round)
    ensures lastError != Ok
    ensures outcome.Pending? ==> pendingCount > 0 && QuietBefore(devices, w, round + 1)
    ensures outcome.Pending? ==> Midway(start, candidates, pendingCount, begun, ledger, devices, w, round + 1, 0)
    ensures !outcome.Pending? ==> EndedRound(start, candidates, pendingCount, begun, ledger)
    ensures outcome.Exhausted? ==> Decides(devices, w, round, lastError, 0)
    ensures outcome.Touched? ==> Decides(devices, w, round, Ok, outcome.index)
  {
    StartOfRound(start, reached, count, begun, l, devices, w, round);
    outcome, candidates, pendingCount, lastError, ledger := PollRound(reached, count, error, round, devices, w, l);
    RoundDecides(devices, w, round, outcome, lastError);
    if outcome.Pending? {
      SinceStart(start, reached, candidates, pendingCount, begun, ledger, devices, w, round + 1);
    } else {
      EndedSinceStart(start, reached, candidates, pendingCount, begun, ledger);
    }
  }

  /** cancelPending after the last round. */
  method Abandon(start: seq<Candidate>, reached: seq<Candidate>, ghost count: nat, ghost begun: seq<nat>,
                 ghost devices: nat, ghost w: World, ghost round: nat, ghost l: Ledger)
    returns (candidates: seq<Candidate>, ghost ledger: Ledger)
    requires Midway(start, reached, count, begun, l, devices, w, round, 0)
    ensures EndedRound(start, candidates, PendingCount(candidates), begun, ledger)
  {
    candidates, ledger := CancelPending(reached, l);
  }

  lemma EndedSinceStart(start: seq<Candidate>, before: seq<Candidate>, candidates: seq<Candidate>, count: nat,
                        begun: seq<nat>, l: Ledger)
    requires SameDevices(start, before) && EndedRound(before, candidates, count, begun, l)
    ensures EndedRound(start, candidates, count, begun, l)
  {
  }

  lemma StartOfRound(start: seq<Candidate>, candidates: seq<Candidate>, count: nat, begun: seq<nat>, l: Ledger,
                     devices: nat, w: World, n: nat)
    requires Midway(start, candidates, count, begun, l, devices, w, n, 0)
    ensures Midway(candidates, candidates, count, l.begun, l, devices, w, n, 0) && l.begun == begun
    ensures SameDevices(start, candidates)
  {
  }

  /** The requests started are exactly those the devices accepted. */
  predicate BegunByDevices(candidates: seq<Candidate>, l: Ledger, w: World) {
    |l.begun| == |candidates| && forall k ::
      0 <= k < |candidates| ==> (l.begun[k] == 1 <==> w.begin(candidates[k].index) == Ok)
  }

  lemma AllSettled(before: seq<Candidate>, final: seq<Candidate>, l: Ledger, devices: nat, w: World)
    requires OpenedFrom(before, devices, w) && SameDevices(before, final) && NonePending(final) && Balanced(final, l)
    ensures OpenedFrom(final, devices, w) && Settled(l)
  {
  }

  /** Before the first round the started requests are pending. */
  lemma StartsTracked(candidates: seq<Candidate>, l: Ledger, devices: nat, w: World)
    requires OpenedFrom(candidates, devices, w) && BegunByDevices(candidates, l, w) && Balanced(candidates, l)
    requires forall k :: 0 <= k < |candidates| ==> l.ended[k] == 0
    ensures Tracks(candidates, devices, w, 0, 0)
  {
  }

  lemma SomeoneStarts(candidates: seq<Candidate>, devices: nat, w: World)
    requires PendingCount(candidates) > 0 && Tracks(candidates, devices, w, 0, 0)
    ensures exists i: nat :: Started(devices, w, i)
  {
    ZeroPending(candidates);
    var k :| 0 <= k < |candidates| && candidates[k].pending;
    assert Started(devices, w, candidates[k].index);
  }

  lemma NothingStarted(candidates: seq<Candidate>, devices: nat, w: World, status: Status, error: Status)
    requires Covers(candidates, devices, w) && devices > 0
    requires forall k :: 0 <= k < |candidates| ==> w.begin(candidates[k].index) != Ok
    requires candidates == [] ==> error == w.open(devices - 1)
    requires status == if |candidates| == 0 then error else w.begin(candidates[|candidates| - 1].index)
    ensures NoneStarts(devices, w, status)
  {
    forall i: nat | i < devices && w.open(i) == Ok
      ensures w.begin(i) != Ok && candidates != [] && i <= candidates[|candidates| - 1].index
    {
      assert Includes(candidates, i);
    }
    if candidates != [] {
      assert LastOpened(devices, w, candidates[|candidates| - 1].index);
    }
  }

  /** FIDODevice.cpp, SelectByTouch. Every return leaves nothing pending, and every
      request that was started has ended exactly once. The result is the one that
      the answers decide. */
  method SelectByTouch(devices: nat, w: World)
    returns (status: Status, selected: nat, ghost final: seq<Candidate>, ghost ledger: Ledger, ghost rounds: nat)
    ensures OpenedFrom(final, devices, w) && NonePending(final)
    ensures Settled(ledger) && BegunByDevices(final, ledger, w)
    ensures devices < 2 ==> status == InvalidArgument && selected == 0 && final == []
    ensures devices >= 2 && (forall i: nat :: !Started(devices, w, i)) ==>
      NoneStarts(devices, w, status) && selected == 0
    ensures devices >= 2 && (exists i: nat :: Started(devices, w, i)) ==> Decides(devices, w, rounds, status, selected)
  {
    if devices < 2 {
      return InvalidArgument, 0, [], Ledger([], []), 0;
    }
    var candidates, lastError := OpenCandidates(devices, w);
    ghost var reached, error := candidates, lastError;
    var pendingCount;
    candidates, pendingCount, lastError, ledger := BeginTouches(candidates, lastError, w);
    assert Covers(reached, devices, w);
    SameCovers(reached, candidates, devices, w);
    if pendingCount == 0 {
      ZeroPending(candidates);
      assert forall k :: 0 <= k < |candidates| ==> ledger.begun[k] == 0;
      AllSettled(reached, candidates, ledger, devices, w);
      NothingStarted(candidates, devices, w, lastError, error);
      return lastError, 0, candidates, ledger, 0;
    }
    StartsTracked(candidates, ledger, devices, w);
    SomeoneStarts(candidates, devices, w);
    var last;
    status, selected, last, ledger, rounds := WaitForTouch(candidates, pendingCount, lastError, devices, w, ledger);
    final := last;
    AllSettled(reached, last, ledger, devices, w);
  }

  /** Success names a device of the list that was opened, accepted the request and
      reported a touch. */
  lemma SelectedIsTouched(devices: nat, w: World, n: nat, selected: nat)
    requires Decides(devices, w, n, Ok, selected)
    ensures selected < devices && w.open(selected) == Ok && w.begin(selected) == Ok
    ensures w.poll(n, selected) == Poll(Ok, true)
  {
    if NobodyTouchesIn(devices, w, n) {
      var last: nat :| LastAsked(devices, w, last, n) && Ok == w.poll(n, last).status;
      assert false by { assert Remains(devices, w, last, n); }
    }
  }
}
