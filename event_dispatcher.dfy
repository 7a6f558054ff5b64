/**
 * EventDispatcher (src/core/event_dispatcher.ts): per-event ordered listener lists with run
 * limits, positional insertion, ids from one module-wide counter, and a stop-propagation sentinel.
 *
 * In the source EventDispatcher is an abstract base class of Entity, System and World whose only
 * field is the map from event name to listener array. The model gives each of those classes that
 * field (a `Listeners<C>` value) and states the base class's methods once, here, as methods from
 * the old lists to the new ones. A listener's function is abstracted to a callback value of type
 * `C`; what calling it does to the pass is given by the `react` argument of Dispatch.
 */
module EventDispatcher {
  import opened Outcomes
  import opened Sequences

  /** A listener id: a number drawn from the counter, or a caller-supplied value (a string). */
  datatype Id = Num(n: int) | Text(s: string)

  /** The ids JavaScript treats as false, so that `id || ++currentID` replaces them. */
  predicate Falsy(id: Id) {
    id == Num(0) || id == Text("")
  }

  /** A remaining run count; `Unbounded` stands for `Infinity`. */
  datatype Runs = Unbounded | Limited(n: int)

  /** One listener record: `[fn, {scope, maxRuns, id}]` with `fn` abstracted to `callback`. */
  datatype Listener<C> = Listener(callback: C, maxRuns: Runs, id: Id)

  /** The per-event listener arrays. */
  type Listeners<C> = map<string, seq<Listener<C>>>

  /** What calling a listener does to the pass: nothing, return STOP_PROPAGATION, or throw. */
  datatype Reaction = Proceed | Stop | Throw(error: Error)

  /** How a pass ends; `Stopped` is the pass in which `dispatch` returns STOP_PROPAGATION. */
  datatype Ending = Completed | Stopped | Threw(error: Error)

  /** A pass over one array: the array left behind, the listeners called, and how it ended. */
  datatype PassResult<C> = PassResult(remaining: seq<Listener<C>>, fired: seq<Listener<C>>, ending: Ending)

  /** The module-level `currentID`, shared by all dispatchers. */
  class IdCounter {
    var current: int

    constructor ()
      ensures current == 0
    {
      current := 0;
    }
  }

  /** `maxRuns || Infinity`: an omitted or zero run count is unbounded. */
  function NormalRuns(maxRuns: Option<int>): (r: Runs)
    ensures r.Unbounded? <==> maxRuns.None? || maxRuns.value == 0
    ensures r.Limited? ==> maxRuns == Some(r.n) && r.n != 0
  {
    if maxRuns.None? || maxRuns.value == 0 then Unbounded else Limited(maxRuns.value)
  }

  /**
   * Where `arr.splice(insertAt || Infinity, 0, record)` puts the record in an array of length
   * `len`: an omitted or zero position appends, a negative one counts from the end (stopping at
   * the front), a large one is clamped to the end.
   */
  function InsertPosition(insertAt: Option<int>, len: nat): (p: nat)
    ensures p <= len
    ensures insertAt.None? || insertAt.value == 0 ==> p == len
    ensures insertAt.Some? && 0 < insertAt.value <= len ==> p == insertAt.value
    ensures insertAt.Some? && insertAt.value > len ==> p == len
    ensures insertAt.Some? && insertAt.value < 0 ==> p == if -insertAt.value <= len then len + insertAt.value else 0
  {
    if insertAt.None? || insertAt.value == 0 then len
    else if insertAt.value < 0 then (if len + insertAt.value < 0 then 0 else len + insertAt.value)
    else if insertAt.value < len then insertAt.value
    else len
  }

  /** The array with `x` inserted at position `p`. */
  function Splice<T>(s: seq<T>, p: nat, x: T): (r: seq<T>)
    requires p <= |s|
    ensures |r| == |s| + 1 && r[p] == x
    ensures RemoveAt(r, p) == s
  {
    var r := s[..p] + [x] + s[p..];
    assert RemoveAt(r, p) == s[..p] + s[p..];
    r
  }

  /** `id || ++currentID` keeps a supplied id only when it is truthy. */
  predicate KeepsId(id: Option<Id>) {
    id.Some? && !Falsy(id.value)
  }

  /** Infinity - 1 == Infinity */
  function Decrement(r: Runs): Runs {
    match r
    case Unbounded => Unbounded
    case Limited(n) => Limited(n - 1)
  }

  /** `maxRuns < 2`: the record is spliced out before this call. */
  predicate LastRun<C>(l: Listener<C>) {
    l.maxRuns.Limited? && l.maxRuns.n < 2
  }

  /** What is left of a record once it has been called: nothing, or the record counted down. */
  function Spent<C>(l: Listener<C>): (r: seq<Listener<C>>)
    ensures |r| <= 1
    ensures r != [] ==> r[0].callback == l.callback && r[0].id == l.id
  {
    if LastRun(l) then [] else [l.(maxRuns := Decrement(l.maxRuns))]
  }

  /** What is left of the records of `s` once each has been called once, in order. */
  function Survivors<C>(s: seq<Listener<C>>): seq<Listener<C>> {
    if s == [] then [] else Spent(s[0]) + Survivors(s[1..])
  }

  /**
   * The rest of a pass of `dispatch`: `kept` is what is left of the records already called,
   * `called` those records as they were called, `rest` the records not yet reached. Each record
   * is counted down (or removed) before its callback runs; a callback that stops or throws ends
   * the pass with the records after it untouched.
   */
  function Run<C>(kept: seq<Listener<C>>, called: seq<Listener<C>>, rest: seq<Listener<C>>,
                  react: C -> Reaction): PassResult<C>
    decreases |rest|
  {
    if rest == [] then PassResult(kept, called, Completed)
    else
      match react(rest[0].callback)
      case Proceed => Run(kept + Spent(rest[0]), called + [rest[0]], rest[1..], react)
      case Stop => PassResult(kept + Spent(rest[0]) + rest[1..], called + [rest[0]], Stopped)
      case Throw(e) => PassResult(kept + Spent(rest[0]) + rest[1..], called + [rest[0]], Threw(e))
  }

  /** One pass of `dispatch` over the array `l`, the listeners reacting as `react` says. */
  function Pass<C>(l: seq<Listener<C>>, react: C -> Reaction): PassResult<C> {
    Run([], [], l, react)
  }

  /** The index of the first listener that stops or throws, or |l| if none does. */
  function FirstHalt<C>(l: seq<Listener<C>>, react: C -> Reaction): (k: nat)
    ensures k <= |l|
    ensures forall i :: 0 <= i < k ==> react(l[i].callback) == Proceed
    ensures k < |l| ==> react(l[k].callback) != Proceed
  {
    if l == [] then 0
    else if react(l[0].callback) != Proceed then 0
    else 1 + FirstHalt(l[1..], react)
  }

  lemma {:induction false} SurvivorsAppend<C>(a: seq<Listener<C>>, b: seq<Listener<C>>)
    ensures Survivors(a + b) == Survivors(a) + Survivors(b)
  {
    if a == [] {
      assert a + b == b;
    } else {
      assert (a + b)[1..] == a[1..] + b;
      SurvivorsAppend(a[1..], b);
    }
  }

  /** How many listeners a pass reaches: those that proceed, and the one that halts it. */
  function Reached<C>(l: seq<Listener<C>>, react: C -> Reaction): (n: nat)
    ensures n <= |l|
  {
    var k := FirstHalt(l, react);
    if k < |l| then k + 1 else k
  }

  /** The ending of a pass, read off the first listener that halts it. */
  function EndingOf<C>(l: seq<Listener<C>>, react: C -> Reaction): Ending {
    var k := FirstHalt(l, react);
    if k == |l| then Completed
    else match react(l[k].callback)
      case Throw(e) => Threw(e)
      case _ => Stopped
  }

  /** Reaching past a proceeding head listener is reaching into the rest of the array. */
  lemma ProceedingHead<C>(l: seq<Listener<C>>, react: C -> Reaction)
    requires l != [] && react(l[0].callback) == Proceed
    ensures Reached(l, react) == 1 + Reached(l[1..], react)
    ensures EndingOf(l, react) == EndingOf(l[1..], react)
  {
    var k := FirstHalt(l[1..], react);
    assert FirstHalt(l, react) == 1 + k;
    if k < |l[1..]| {
      assert l[1..][k] == l[k + 1];
    }
  }

  /** Survivors of a reached prefix whose head proceeds, split at the head. */
  lemma SurvivorsOfReached<C>(l: seq<Listener<C>>, n: nat)
    requires 1 <= n <= |l|
    ensures Survivors(l[..n]) == Spent(l[0]) + Survivors(l[1..][..n - 1])
  {
    assert l[..n][0] == l[0];
    assert l[..n][1..] == l[1..][..n - 1];
  }

  /** What RunCharacterised states about one call of Run. */
  ghost predicate RunMatches<C>(kept: seq<Listener<C>>, called: seq<Listener<C>>,
                                rest: seq<Listener<C>>, react: C -> Reaction)
  {
    var p, n := Run(kept, called, rest, react), Reached(rest, react);
    && p.fired == called + rest[..n]
    && p.remaining == kept + Survivors(rest[..n]) + rest[n..]
    && p.ending == EndingOf(rest, react)
  }

  /** The step of RunCharacterised past a head listener that proceeds. */
  lemma RunProceeds<C>(kept: seq<Listener<C>>, called: seq<Listener<C>>,
                       rest: seq<Listener<C>>, react: C -> Reaction)
    requires rest != [] && react(rest[0].callback) == Proceed
    requires RunMatches(kept + Spent(rest[0]), called + [rest[0]], rest[1..], react)
    ensures RunMatches(kept, called, rest, react)
  {
    var n := Reached(rest, react);
    var t := rest[1..];
    ProceedingHead(rest, react);
    var p := Run(kept + Spent(rest[0]), called + [rest[0]], t, react);
    assert Run(kept, called, rest, react) == p;
    assert p.fired == called + [rest[0]] + t[..n - 1];
    assert rest[..n] == [rest[0]] + t[..n - 1];
    assert p.fired == called + rest[..n];
    SurvivorsOfReached(rest, n);
    assert t[n - 1..] == rest[n..];
    assert p.remaining == kept + Spent(rest[0]) + Survivors(t[..n - 1]) + rest[n..];
  }

  /** The step of RunCharacterised at a head listener that stops or throws. */
  lemma RunHalts<C>(kept: seq<Listener<C>>, called: seq<Listener<C>>,
                    rest: seq<Listener<C>>, react: C -> Reaction)
    requires rest != [] && react(rest[0].callback) != Proceed
    ensures RunMatches(kept, called, rest, react)
  {
    assert FirstHalt(rest, react) == 0;
    assert rest[..1] == [rest[0]];
    SurvivorsOfReached(rest, 1);
    assert Survivors(rest[..1]) == Spent(rest[0]);
  }

  /** Run, for any records already handled: the characterisation PassCharacterised states. */
  lemma {:induction false} RunCharacterised<C>(kept: seq<Listener<C>>, called: seq<Listener<C>>,
                                               rest: seq<Listener<C>>, react: C -> Reaction)
    ensures RunMatches(kept, called, rest, react)
    decreases |rest|
  {
    if rest == [] {
      assert rest[..0] == [];
    } else if react(rest[0].callback) == Proceed {
      RunCharacterised(kept + Spent(rest[0]), called + [rest[0]], rest[1..], react);
      RunProceeds(kept, called, rest, react);
    } else {
      RunHalts(kept, called, rest, react);
    }
  }

  /**
   * A pass calls the listeners in array order up to and including the first one that stops or
   * throws; the pass returns the sentinel exactly when that one stopped; every called listener is
   * counted down or removed, and the listeners after it are neither called nor changed.
   */
  lemma PassCharacterised<C>(l: seq<Listener<C>>, react: C -> Reaction)
    ensures var p, k := Pass(l, react), FirstHalt(l, react);
      && p.fired == l[..if k < |l| then k + 1 else k]
      && p.remaining == Survivors(p.fired) + l[|p.fired|..]
      && (k == |l| ==> p.ending == Completed)
      && (k < |l| && react(l[k].callback) == Stop ==> p.ending == Stopped)
      && (k < |l| && react(l[k].callback).Throw? ==> p.ending == Threw(react(l[k].callback).error))
  {
    RunCharacterised([], [], l, react);
    var p, n := Pass(l, react), Reached(l, react);
    assert [] + l[..n] == l[..n];
    assert p.fired == l[..n] && |p.fired| == n;
    assert p.remaining == Survivors(l[..n]) + l[n..];
  }

  /** The ending a pass reports is the sentinel exactly when some listener returned it. */
  lemma StoppedIffSomeListenerStops<C>(l: seq<Listener<C>>, react: C -> Reaction)
    requires forall i :: 0 <= i < |l| ==> !react(l[i].callback).Throw?
    ensures Pass(l, react).ending == Stopped <==> exists i :: 0 <= i < |l| && react(l[i].callback) == Stop
  {
    PassCharacterised(l, react);
    var k := FirstHalt(l, react);
    if exists i :: 0 <= i < |l| && react(l[i].callback) == Stop {
      var i :| 0 <= i < |l| && react(l[i].callback) == Stop;
      assert k <= i;
    }
  }

  /** An unbounded listener that is called stays in the array, unchanged. */
  lemma {:induction false} UnboundedSurvives<C>(s: seq<Listener<C>>, i: nat)
    requires i < |s| && s[i].maxRuns == Unbounded
    ensures s[i] in Survivors(s)
  {
    if i == 0 {
      assert Spent(s[0]) == [s[0]];
    } else {
      UnboundedSurvives(s[1..], i - 1);
    }
  }

  /**
   * The number of the first `m` passes that call record `r`, when every pass reaches it: the
   * record is called, then what Spent leaves of it carries on.
   */
  function Calls<C>(r: Listener<C>, m: nat): nat
    decreases m
  {
    if m == 0 then 0
    else if Spent(r) == [] then 1
    else 1 + Calls(Spent(r)[0], m - 1)
  }

  /**
   * maxRuns n >= 1 means called on exactly n passes; a count that is negative (truthy, so kept)
   * means one call; an unbounded listener is called on every pass. GoneAfterItsRuns states that
   * the limited ones are removed from the array once those calls are made.
   */
  lemma {:induction false} RunLimit<C>(r: Listener<C>, m: nat)
    ensures r.maxRuns == Unbounded ==> Calls(r, m) == m
    ensures r.maxRuns.Limited? && r.maxRuns.n >= 1 ==> Calls(r, m) == if m < r.maxRuns.n then m else r.maxRuns.n
    ensures r.maxRuns.Limited? && r.maxRuns.n < 1 ==> Calls(r, m) == if m == 0 then 0 else 1
    decreases m
  {
    if m > 0 && Spent(r) != [] {
      RunLimit(Spent(r)[0], m - 1);
    }
  }

  /** The listeners called over `m` successive passes, and the array left after them. */
  function Passes<C>(l: seq<Listener<C>>, react: C -> Reaction, m: nat): (seq<Listener<C>>, seq<Listener<C>>)
    decreases m
  {
    if m == 0 then ([], l)
    else
      var p := Pass(l, react);
      var rest := Passes(p.remaining, react, m - 1);
      (p.fired + rest.0, rest.1)
  }

  /** How many records in `s` carry id `x`. */
  function CountId<C>(s: seq<Listener<C>>, x: Id): nat {
    if s == [] then 0 else (if s[0].id == x then 1 else 0) + CountId(s[1..], x)
  }

  lemma {:induction false} CountIdAppend<C>(a: seq<Listener<C>>, b: seq<Listener<C>>, x: Id)
    ensures CountId(a + b, x) == CountId(a, x) + CountId(b, x)
  {
    if a == [] {
      assert a + b == b;
    } else {
      assert (a + b)[1..] == a[1..] + b;
      CountIdAppend(a[1..], b, x);
    }
  }

  /** Every listener of `s` proceeds. */
  ghost predicate AllProceed<C>(s: seq<Listener<C>>, react: C -> Reaction) {
    forall i :: 0 <= i < |s| ==> react(s[i].callback) == Proceed
  }

  lemma AllProceedAppend<C>(a: seq<Listener<C>>, b: seq<Listener<C>>, react: C -> Reaction)
    ensures AllProceed(a + b, react) <==> AllProceed(a, react) && AllProceed(b, react)
  {
    if AllProceed(a, react) && AllProceed(b, react) {
      forall i | 0 <= i < |a + b| ensures react((a + b)[i].callback) == Proceed {
        if i >= |a| { assert (a + b)[i] == b[i - |a|]; }
      }
    }
    if AllProceed(a + b, react) {
      forall i | 0 <= i < |a| ensures react(a[i].callback) == Proceed {
        assert (a + b)[i] == a[i];
      }
      forall i | 0 <= i < |b| ensures react(b[i].callback) == Proceed {
        assert (a + b)[|a| + i] == b[i];
      }
    }
  }

  /** Counting down keeps the callbacks and never adds an id. */
  lemma {:induction false} SurvivorsKeep<C>(s: seq<Listener<C>>, x: Id, react: C -> Reaction)
    requires AllProceed(s, react)
    ensures CountId(Survivors(s), x) <= CountId(s, x)
    ensures AllProceed(Survivors(s), react)
  {
    if s != [] {
      assert AllProceed(s[1..], react);
      SurvivorsKeep(s[1..], x, react);
      CountIdAppend(Spent(s[0]), Survivors(s[1..]), x);
      AllProceedAppend(Spent(s[0]), Survivors(s[1..]), react);
    }
  }

  /** A pass in which every listener proceeds calls all of them and counts all of them down. */
  lemma ProceedingPass<C>(l: seq<Listener<C>>, react: C -> Reaction)
    requires AllProceed(l, react)
    ensures Pass(l, react) == PassResult(Survivors(l), l, Completed)
  {
    PassCharacterised(l, react);
    assert FirstHalt(l, react) == |l|;
    assert l[..|l|] == l && l[|l|..] == [];
  }

  /** A record whose id no listener carries is never called. */
  lemma {:induction false} AbsentIdNeverFires<C>(l: seq<Listener<C>>, react: C -> Reaction, m: nat, x: Id)
    requires AllProceed(l, react)
    requires CountId(l, x) == 0
    ensures CountId(Passes(l, react, m).0, x) == 0
    decreases m
  {
    if m > 0 {
      ProceedingPass(l, react);
      SurvivorsKeep(l, x, react);
      AbsentIdNeverFires(Survivors(l), react, m - 1, x);
      CountIdAppend(l, Passes(Survivors(l), react, m - 1).0, x);
    }
  }

  /** The survivors of `a + [r] + b`, piece by piece. */
  lemma SurvivorsAround<C>(a: seq<Listener<C>>, r: Listener<C>, b: seq<Listener<C>>)
    ensures Survivors(a + [r] + b) == Survivors(a) + Spent(r) + Survivors(b)
  {
    assert [r][1..] == [];
    assert Survivors([r]) == Spent(r);
    SurvivorsAppend(a, [r]);
    assert Survivors(a + [r]) == Survivors(a) + Spent(r);
    SurvivorsAppend(a + [r], b);
  }

  /** One proceeding pass over `a + [r] + b`, where only `r` carries its id. */
  lemma OnePassAround<C>(a: seq<Listener<C>>, r: Listener<C>, b: seq<Listener<C>>, react: C -> Reaction)
    requires AllProceed(a, react) && react(r.callback) == Proceed && AllProceed(b, react)
    requires CountId(a, r.id) == 0 && CountId(b, r.id) == 0
    ensures AllProceed(a + [r] + b, react)
    ensures Survivors(a + [r] + b) == Survivors(a) + Spent(r) + Survivors(b)
    ensures CountId(a + [r] + b, r.id) == 1
    ensures AllProceed(Survivors(a), react) && AllProceed(Survivors(b), react)
    ensures CountId(Survivors(a), r.id) == 0 && CountId(Survivors(b), r.id) == 0
  {
    var x := r.id;
    AllProceedAppend(a, [r], react);
    AllProceedAppend(a + [r], b, react);
    SurvivorsAround(a, r, b);
    SurvivorsKeep(a, x, react);
    SurvivorsKeep(b, x, react);
    CountIdAppend(a + [r], b, x);
    CountIdAppend(a, [r], x);
  }

  /** The listeners called over `m` proceeding passes: the whole array, then the rest over its survivors. */
  lemma PassesProceeding<C>(l: seq<Listener<C>>, react: C -> Reaction, m: nat)
    requires m > 0 && AllProceed(l, react)
    ensures Passes(l, react, m).0 == l + Passes(Survivors(l), react, m - 1).0
  {
    ProceedingPass(l, react);
  }

  /** Two stretches without id `x`, all proceeding, joined. */
  lemma AbsentJoin<C>(a: seq<Listener<C>>, b: seq<Listener<C>>, x: Id, react: C -> Reaction)
    requires AllProceed(a, react) && AllProceed(b, react)
    requires CountId(a, x) == 0 && CountId(b, x) == 0
    ensures AllProceed(a + b, react) && CountId(a + b, x) == 0
  {
    CountIdAppend(a, b, x);
    AllProceedAppend(a, b, react);
  }

  /** After the call that spends it, no survivor carries the listener's id. */
  lemma LastCallLeavesNone<C>(a: seq<Listener<C>>, r: Listener<C>, b: seq<Listener<C>>, react: C -> Reaction)
    requires Spent(r) == []
    requires AllProceed(a, react) && react(r.callback) == Proceed && AllProceed(b, react)
    requires CountId(a, r.id) == 0 && CountId(b, r.id) == 0
    ensures AllProceed(a + [r] + b, react) && CountId(a + [r] + b, r.id) == 1
    ensures AllProceed(Survivors(a + [r] + b), react) && CountId(Survivors(a + [r] + b), r.id) == 0
  {
    OnePassAround(a, r, b, react);
    var sa, sb := Survivors(a), Survivors(b);
    assert sa + Spent(r) + sb == sa + sb;
    AbsentJoin(sa, sb, r.id, react);
  }

  /** The pass on which a listener makes its last call: no later pass calls it. */
  lemma LastCallStep<C>(a: seq<Listener<C>>, r: Listener<C>, b: seq<Listener<C>>, react: C -> Reaction, m: nat)
    requires m > 0 && Spent(r) == []
    requires AllProceed(a, react) && react(r.callback) == Proceed && AllProceed(b, react)
    requires CountId(a, r.id) == 0 && CountId(b, r.id) == 0
    ensures CountId(Passes(a + [r] + b, react, m).0, r.id) == 1
  {
    var l := a + [r] + b;
    LastCallLeavesNone(a, r, b, react);
    PassesProceeding(l, react, m);
    AbsentIdNeverFires(Survivors(l), react, m - 1, r.id);
    CountIdAppend(l, Passes(Survivors(l), react, m - 1).0, r.id);
  }

  /** A pass on which a listener is called and counted down: one call, then the later passes' calls. */
  lemma CountedDownStep<C>(a: seq<Listener<C>>, r: Listener<C>, b: seq<Listener<C>>, react: C -> Reaction, m: nat)
    requires m > 0 && Spent(r) != []
    requires AllProceed(a, react) && react(r.callback) == Proceed && AllProceed(b, react)
    requires CountId(a, r.id) == 0 && CountId(b, r.id) == 0
    ensures var r' := Spent(r)[0];
      && AllProceed(Survivors(a), react) && AllProceed(Survivors(b), react)
      && CountId(Survivors(a), r'.id) == 0 && CountId(Survivors(b), r'.id) == 0
      && CountId(Passes(a + [r] + b, react, m).0, r.id)
         == 1 + CountId(Passes(Survivors(a) + [r'] + Survivors(b), react, m - 1).0, r.id)
  {
    var l, x := a + [r] + b, r.id;
    OnePassAround(a, r, b, react);
    var left := Survivors(l);
    PassesProceeding(l, react, m);
    CountIdAppend(l, Passes(left, react, m - 1).0, x);
    assert left == Survivors(a) + [Spent(r)[0]] + Survivors(b);
  }

  /**
   * Over any number of dispatches in which every listener proceeds, the listener with id `x`
   * (the only one with that id) is called exactly `Calls(r, m)` times, which RunLimit evaluates.
   */
  lemma {:induction false} CalledAsOftenAsItsRuns<C>(a: seq<Listener<C>>, r: Listener<C>, b: seq<Listener<C>>,
                                                     react: C -> Reaction, m: nat)
    requires AllProceed(a, react) && react(r.callback) == Proceed && AllProceed(b, react)
    requires CountId(a, r.id) == 0 && CountId(b, r.id) == 0
    ensures CountId(Passes(a + [r] + b, react, m).0, r.id) == Calls(r, m)
    decreases m
  {
    if m > 0 {
      if Spent(r) == [] {
        LastCallStep(a, r, b, react, m);
      } else {
        CountedDownStep(a, r, b, react, m);
        CalledAsOftenAsItsRuns(Survivors(a), Spent(r)[0], Survivors(b), react, m - 1);
      }
    }
  }

  /** The number of passes a limited listener takes part in: `n` for maxRuns n >= 1, one for a negative count. */
  function Lifespan(n: int): (k: nat)
    ensures k >= 1
  {
    if n < 1 then 1 else n
  }

  /** No record carries `x` exactly when the count of records carrying `x` is zero. */
  lemma {:induction false} CountIdZero<C>(s: seq<Listener<C>>, x: Id)
    ensures CountId(s, x) == 0 <==> forall j :: 0 <= j < |s| ==> s[j].id != x
  {
    if s != [] {
      CountIdZero(s[1..], x);
      if CountId(s, x) == 0 {
        forall j | 0 <= j < |s| ensures s[j].id != x {
          if j > 0 { assert s[j] == s[1..][j - 1]; }
        }
      }
      if forall j :: 0 <= j < |s| ==> s[j].id != x {
        forall j | 0 <= j < |s[1..]| ensures s[1..][j].id != x {
          assert s[1..][j] == s[j + 1];
        }
      }
    }
  }

  /** No pass in which every listener proceeds brings back an id the array lacks. */
  lemma {:induction false} AbsentStaysAbsent<C>(l: seq<Listener<C>>, react: C -> Reaction, m: nat, x: Id)
    requires AllProceed(l, react)
    requires CountId(l, x) == 0
    ensures CountId(Passes(l, react, m).1, x) == 0
    decreases m
  {
    if m > 0 {
      ProceedingPass(l, react);
      SurvivorsKeep(l, x, react);
      AbsentStaysAbsent(Survivors(l), react, m - 1, x);
    }
  }

  /**
   * The array left after `m` dispatches in which every listener proceeds still holds the
   * listener with id `x` (the only one with that id) until it has had its Lifespan of passes,
   * and holds no listener with that id from then on; an unbounded listener is never removed.
   */
  lemma {:induction false} GoneAfterItsRuns<C>(a: seq<Listener<C>>, r: Listener<C>, b: seq<Listener<C>>,
                                               react: C -> Reaction, m: nat)
    requires AllProceed(a, react) && react(r.callback) == Proceed && AllProceed(b, react)
    requires CountId(a, r.id) == 0 && CountId(b, r.id) == 0
    ensures CountId(Passes(a + [r] + b, react, m).1, r.id)
         == if r.maxRuns.Limited? && m >= Lifespan(r.maxRuns.n) then 0 else 1
    decreases m
  {
    var l := a + [r] + b;
    OnePassAround(a, r, b, react);
    if m > 0 {
      ProceedingPass(l, react);
      assert Passes(l, react, m).1 == Passes(Survivors(l), react, m - 1).1;
      if Spent(r) == [] {
        LastCallLeavesNone(a, r, b, react);
        AbsentStaysAbsent(Survivors(l), react, m - 1, r.id);
      } else {
        var r' := Spent(r)[0];
        assert Survivors(l) == Survivors(a) + [r'] + Survivors(b);
        GoneAfterItsRuns(Survivors(a), r', Survivors(b), react, m - 1);
      }
    }
  }

  /**
   * Once a limited listener has had its Lifespan of passes, removing it by id finds nothing:
   * removeEventListener on the array left behind returns false and changes nothing.
   */
  lemma SpentListenerNotRemovable<C>(lists: Listeners<C>, event: string, a: seq<Listener<C>>, r: Listener<C>,
                                     b: seq<Listener<C>>, react: C -> Reaction, m: nat)
    requires AllProceed(a, react) && react(r.callback) == Proceed && AllProceed(b, react)
    requires CountId(a, r.id) == 0 && CountId(b, r.id) == 0
    requires r.maxRuns.Limited? && m >= Lifespan(r.maxRuns.n)
    ensures var left := lists[event := Passes(a + [r] + b, react, m).1];
      && (forall j :: 0 <= j < |left[event]| ==> left[event][j].id != r.id)
      && Unsubscribed(left, event, r.id) == left
  {
    var arr := Passes(a + [r] + b, react, m).1;
    GoneAfterItsRuns(a, r, b, react, m);
    CountIdZero(arr, r.id);
  }

  /** The listener arrays once `record` is in place: a new array, or spliced in at `insertAt`. */
  function Inserted<C>(lists: Listeners<C>, event: string, record: Listener<C>, insertAt: Option<int>): Listeners<C> {
    if event !in lists then lists[event := [record]]
    else lists[event := Splice(lists[event], InsertPosition(insertAt, |lists[event]|), record)]
  }

  /** Without `insertAt` the record goes to the end of the array. */
  lemma AppendedWithoutPosition<C>(lists: Listeners<C>, event: string, record: Listener<C>)
    requires event in lists
    ensures Inserted(lists, event, record, None)[event] == lists[event] + [record]
  {
    var s := lists[event];
    var r := Inserted(lists, event, record, None)[event];
    assert r[|s|] == record && RemoveAt(r, |s|) == s;
    assert r[..|s|] == RemoveAt(r, |s|);
    assert r == r[..|s|] + [r[|s|]];
  }

  /** `insertAt: 0` is falsy, so it appends like an omitted position instead of prepending. */
  lemma ZeroPositionAppends<C>(lists: Listeners<C>, event: string, record: Listener<C>)
    requires event in lists
    ensures Inserted(lists, event, record, Some(0))[event] == lists[event] + [record]
  {
    AppendedWithoutPosition(lists, event, record);
  }

  /** The listener arrays after one `dispatch` of `event`. */
  function Dispatched<C>(lists: Listeners<C>, event: string, react: C -> Reaction): Listeners<C> {
    if event !in lists then lists else lists[event := Pass(lists[event], react).remaining]
  }

  /** How one `dispatch` of `event` ends. */
  function DispatchEnding<C>(lists: Listeners<C>, event: string, react: C -> Reaction): Ending {
    if event !in lists then Completed else Pass(lists[event], react).ending
  }

  /** After `m` dispatches of `event`. */
  function DispatchedTimes<C>(lists: Listeners<C>, event: string, react: C -> Reaction, m: nat): Listeners<C> {
    if event !in lists then lists else lists[event := Passes(lists[event], react, m).1]
  }

  /** The array left by `m + 1` passes is the one left by a pass over what `m` passes left. */
  lemma {:induction false} PassesLast<C>(l: seq<Listener<C>>, react: C -> Reaction, m: nat)
    ensures Passes(l, react, m + 1).1 == Pass(Passes(l, react, m).1, react).remaining
    decreases m
  {
    if m > 0 {
      PassesLast(Pass(l, react).remaining, react, m - 1);
    }
  }

  /** One more dispatch after `m` of them is `m + 1` dispatches. */
  lemma DispatchedOnceMore<C>(lists: Listeners<C>, event: string, react: C -> Reaction, m: nat)
    ensures Dispatched(DispatchedTimes(lists, event, react, m), event, react)
         == DispatchedTimes(lists, event, react, m + 1)
  {
    if event in lists {
      PassesLast(lists[event], react, m);
    }
  }

  /** A listener every one of whose predecessors proceeds is called, in its place in the array. */
  lemma CalledUnlessHaltedBefore<C>(l: seq<Listener<C>>, react: C -> Reaction, i: nat)
    requires i < |l|
    requires forall j :: 0 <= j < i ==> react(l[j].callback) == Proceed
    ensures i < |Pass(l, react).fired| && Pass(l, react).fired[i] == l[i]
  {
    PassCharacterised(l, react);
  }

  /** What `dispatch` does to the operation that called it: an exception propagates. */
  function Raised(e: Ending): (r: Outcome)
    ensures r.Fail? <==> e.Threw?
  {
    if e.Threw? then Fail(e.error) else Done
  }

  /**
   * addEventListener: the options are normalised through `||` (omitted or zero maxRuns is
   * unbounded, omitted or zero insertAt appends, a falsy id takes `++currentID`), and the record
   * is inserted at the splice position into the event's array, or starts a new array.
   */
  method AddEventListener<C>(lists: Listeners<C>, counter: IdCounter, event: string, callback: C,
                             maxRuns: Option<int>, insertAt: Option<int>, id: Option<Id>)
    returns (lists': Listeners<C>, recorded: Id)
    modifies counter
    ensures KeepsId(id) ==> recorded == id.value && counter.current == old(counter.current)
    ensures !KeepsId(id) ==> counter.current == old(counter.current) + 1 && recorded == Num(counter.current)
    ensures event !in lists ==> lists' == lists[event := [Listener(callback, NormalRuns(maxRuns), recorded)]]
    ensures lists' == Inserted(lists, event, Listener(callback, NormalRuns(maxRuns), recorded), insertAt)
    ensures event in lists ==>
      var p := InsertPosition(insertAt, |lists[event]|);
      && lists' == lists[event := Splice(lists[event], p, Listener(callback, NormalRuns(maxRuns), recorded))]
      && |lists'[event]| == |lists[event]| + 1
      && lists'[event][p] == Listener(callback, NormalRuns(maxRuns), recorded)
      && RemoveAt(lists'[event], p) == lists[event]
  {
    var runs := NormalRuns(maxRuns);
    if KeepsId(id) {
      recorded := id.value;
    } else {
      counter.current := counter.current + 1;
      recorded := Num(counter.current);
    }
    var record := Listener(callback, runs, recorded);
    if event !in lists {
      lists' := lists[event := [record]];
    } else {
      var arr := lists[event];
      lists' := lists[event := Splice(arr, InsertPosition(insertAt, |arr|), record)];
    }
  }

  /** The index of the first listener in `arr` that carries `id`, or -1. */
  function FirstWithId<C>(arr: seq<Listener<C>>, id: Id): (i: int)
    ensures -1 <= i < |arr|
    ensures i == -1 <==> forall j :: 0 <= j < |arr| ==> arr[j].id != id
    ensures 0 <= i ==> arr[i].id == id && forall j :: 0 <= j < i ==> arr[j].id != id
  {
    if arr == [] then -1
    else if arr[0].id == id then 0
    else
      var i := FirstWithId(arr[1..], id);
      if i == -1 then -1 else i + 1
  }

  /** The listener arrays once the first listener of `event` carrying `id` is gone, if there is one. */
  function Unsubscribed<C>(lists: Listeners<C>, event: string, id: Id): Listeners<C> {
    if event !in lists || FirstWithId(lists[event], id) == -1 then lists
    else lists[event := RemoveAt(lists[event], FirstWithId(lists[event], id))]
  }

  /**
   * Removing by id undoes an insertion, wherever it was put, when no listener of the event
   * carried that id before: the event is left with its old array, or an empty one if it had none.
   */
  lemma UnsubscribeUndoesInsert<C>(lists: Listeners<C>, event: string, record: Listener<C>, insertAt: Option<int>)
    requires event !in lists || FirstWithId(lists[event], record.id) == -1
    ensures Unsubscribed(Inserted(lists, event, record, insertAt), event, record.id)
         == lists[event := if event in lists then lists[event] else []]
  {
    if event in lists {
      var arr := lists[event];
      var p := InsertPosition(insertAt, |arr|);
      var r := Splice(arr, p, record);
      assert Inserted(lists, event, record, insertAt) == lists[event := r];
      SpliceFoundFirst(arr, p, record);
      assert Unsubscribed(lists[event := r], event, record.id) == lists[event := r][event := RemoveAt(r, p)];
    } else {
      assert Inserted(lists, event, record, insertAt) == lists[event := [record]];
      assert FirstWithId([record], record.id) == 0;
    }
  }

  /** A record spliced into an array where no listener has its id is the first with that id. */
  lemma SpliceFoundFirst<C>(arr: seq<Listener<C>>, p: nat, record: Listener<C>)
    requires p <= |arr| && FirstWithId(arr, record.id) == -1
    ensures FirstWithId(Splice(arr, p, record), record.id) == p
  {
    var r := Splice(arr, p, record);
    forall j | 0 <= j < p ensures r[j].id != record.id {
      assert RemoveAt(r, p)[j] == r[j];
    }
  }

  /**
   * removeEventListener as its contract intends: remove the first listener of the event that
   * carries `id`, keeping the others in order, and report whether one was removed.
   */
  method RemoveEventListener<C>(lists: Listeners<C>, event: string, id: Id)
    returns (lists': Listeners<C>, removed: bool)
    ensures event !in lists ==> !removed && lists' == lists
    ensures removed <==> event in lists && exists j :: 0 <= j < |lists[event]| && lists[event][j].id == id
    ensures !removed ==> lists' == lists
    ensures removed ==> exists i ::
      && 0 <= i < |lists[event]| && lists[event][i].id == id
      && (forall j :: 0 <= j < i ==> lists[event][j].id != id)
      && lists' == lists[event := RemoveAt(lists[event], i)]
    ensures lists' == Unsubscribed(lists, event, id)
  {
    if event !in lists {
      return lists, false;
    }
    var arr := lists[event];
    var i := 0;
    while i < |arr|
      invariant 0 <= i <= |arr|
      invariant forall j :: 0 <= j < i ==> arr[j].id != id
    {
      if arr[i].id == id {
        return lists[event := RemoveAt(arr, i)], true;
      }
      i := i + 1;
    }
    return lists, false;
  }

  /**
   * removeEventListener as written: `for (let i = arr.length; i > -1; i++)` starts past the end
   * and counts up, so its first step reads `arr[arr.length][1]` of `undefined` and throws.
   * `ScanUp` is that loop from index `i`; nothing is spliced before the throw.
   */
  function RemoveEventListenerAsWritten<C>(lists: Listeners<C>, event: string, id: Id): (r: Result<bool>)
    ensures r == Ok(false) <==> event !in lists
    ensures r != Ok(true)
  {
    if event !in lists then Ok(false) else ScanUp(lists[event], |lists[event]|, id)
  }

  /**
   * The loop from index `i` on: it stops early only on a matching id, and otherwise runs off the
   * end and throws; started at a non-negative index it never reaches the `return false` after it.
   */
  function ScanUp<C>(arr: seq<Listener<C>>, i: int, id: Id): (r: Result<bool>)
    ensures i > -1 ==> r != Ok(false)
    ensures r == Err(TypeError) <==> i > -1 && forall j :: i <= j < |arr| ==> arr[j].id != id
    decreases |arr| - i
  {
    if i <= -1 then Ok(false)
    else if i >= |arr| then Err(TypeError)
    else if arr[i].id == id then Ok(true)
    else ScanUp(arr, i + 1, id)
  }

  /**
   * The loop as written throws on every event that has an array, even when the array holds a
   * listener with that id, which the intended version removes.
   */
  lemma RemoveAsWrittenThrows<C>(lists: Listeners<C>, event: string, id: Id)
    requires event in lists
    ensures RemoveEventListenerAsWritten(lists, event, id) == Err(TypeError)
  {
  }

  /** The two versions agree only where the event has no array. */
  lemma RemoveVersionsAgreeWithoutArray<C>(lists: Listeners<C>, event: string, id: Id)
    requires event !in lists
    ensures RemoveEventListenerAsWritten(lists, event, id) == Ok(false)
  {
  }

  /**
   * dispatch: for an event without an array nothing happens and no sentinel is returned;
   * otherwise one pass over the array, as Pass describes, whose array is left in place.
   */
  method Dispatch<C>(lists: Listeners<C>, event: string, react: C -> Reaction)
    returns (lists': Listeners<C>, fired: seq<Listener<C>>, ending: Ending)
    ensures event !in lists ==> lists' == lists && fired == [] && ending == Completed
    ensures event in lists ==>
      var p := Pass(lists[event], react);
      lists' == lists[event := p.remaining] && fired == p.fired && ending == p.ending
    ensures lists' == Dispatched(lists, event, react) && ending == DispatchEnding(lists, event, react)
  {
    if event !in lists {
      return lists, [], Completed;
    }
    var arr := lists[event];
    ghost var orig, kept, j := arr, [], 0;
    fired := [];
    var i := 0;
    while i < |arr|
      invariant 0 <= j <= |orig| && i == |kept|
      invariant arr == kept + orig[j..]
      invariant Pass(orig, react) == Run(kept, fired, orig[j..], react)
      decreases |arr| - i
    {
      var l := arr[i];
      ghost var rest := orig[j..];
      assert rest[0] == l && rest[1..] == orig[j + 1..];
      ghost var before, firedBefore := kept, fired;
      if l.maxRuns.Limited? && l.maxRuns.n < 2 {
        arr := arr[..i] + arr[i + 1..];
        i := i - 1;
      } else {
        arr := arr[i := l.(maxRuns := Decrement(l.maxRuns))];
      }
      kept := kept + Spent(l);
      assert arr == kept + orig[j + 1..];
      fired := fired + [l];
      j := j + 1;
      match react(l.callback)
      case Stop =>
        assert Run(before, firedBefore, rest, react) == PassResult(arr, fired, Stopped);
        return lists[event := arr], fired, Stopped;
      case Throw(e) =>
        assert Run(before, firedBefore, rest, react) == PassResult(arr, fired, Threw(e));
        return lists[event := arr], fired, Threw(e);
      case Proceed =>
        i := i + 1;
    }
    assert orig[j..] == [] && arr == kept;
    assert Pass(orig, react) == PassResult(arr, fired, Completed);
    lists', ending := lists[event := arr], Completed;
  }


}
