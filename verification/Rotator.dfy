/** The antenna rotator's deadband: a request moves the antenna only when it lies two degrees
    or more from the last target on some axis. */
module Rotator {
  import opened CArith

  const MIN_ANGLE_THRESHOLD := 2

  datatype Angles = Angles(az: int, el: int) {
    predicate NonNegative() {
      az >= 0 && el >= 0
    }
  }

  /** How far apart two directions are on the axis where they are further apart. */
  function Gap(a: Angles, b: Angles): nat {
    Max(Abs(a.az - b.az), Abs(a.el - b.el))
  }

  function Taxicab(a: Angles, b: Angles): nat {
    Abs(a.az - b.az) + Abs(a.el - b.el)
  }

  lemma GapTriangle(a: Angles, b: Angles, c: Angles)
    ensures Gap(a, c) <= Gap(a, b) + Gap(b, c)
  {
  }

  // ---------------------------------------------------------------------------------------
  // The driver
  // ---------------------------------------------------------------------------------------

  /** What the serial port does when a command is attempted. */
  datatype PortOutcome = OpenFails | SetupFails | Writes(written: int)

  class Driver {
    var target: Angles         // azi_old and ele_old
    var commands: seq<Angles>  // targets of the attempted commands, in order

    constructor ()
      ensures target == Angles(-1, -1) && commands == []
    {
      target, commands := Angles(-1, -1), [];
    }

    /** A request is ignored when the last target is set and less than two degrees off on both
        axes. Otherwise exactly the requested angles are remembered and commanded. They are
        remembered before the port is opened, so neither depends on what the port does. */
    method SetAzEl(azi: int, ele: int, port: PortOutcome) returns (result: int)
      modifies this
      ensures old(target.az) < 0 || old(target.el) < 0 || Abs(azi - old(target.az)) >= 2 || Abs(ele - old(target.el)) >= 2
              ==> target == Angles(azi, ele) && commands == old(commands) + [Angles(azi, ele)]
                  && result == if port.Writes? then 1 else 0
      ensures old(target.az) >= 0 && old(target.el) >= 0 && Abs(azi - old(target.az)) < 2 && Abs(ele - old(target.el)) < 2
              ==> target == old(target) && commands == old(commands) && result == 0
      ensures State(target, commands) == Step(old(State(target, commands)), Angles(azi, ele))
    {
      if target.az < 0 || target.el < 0 {
        target := Angles(azi, ele);
      } else {
        if Abs(azi - target.az) < MIN_ANGLE_THRESHOLD && Abs(ele - target.el) < MIN_ANGLE_THRESHOLD {
          return 0;
        }
      }
      target := Angles(azi, ele);
      commands := commands + [Angles(azi, ele)];
      if port.OpenFails? {
        return 0;
      }
      if port.SetupFails? {
        return 0;
      }
      return 1;
    }
  }

  // ---------------------------------------------------------------------------------------
  // Runs of requests
  // ---------------------------------------------------------------------------------------

  datatype State = State(target: Angles, commands: seq<Angles>)

  const INITIAL := State(Angles(-1, -1), [])

  /** A request is ignored when the last target is set and the request is within the band. */
  predicate Ignored(s: State, request: Angles) {
    s.target.NonNegative() && Gap(s.target, request) < MIN_ANGLE_THRESHOLD
  }

  function Step(s: State, request: Angles): State {
    if Ignored(s, request) then s else State(request, s.commands + [request])
  }

  function AfterRequests(requests: seq<Angles>): State
    decreases |requests|
  {
    if |requests| == 0 then INITIAL
    else Step(AfterRequests(requests[..|requests| - 1]), requests[|requests| - 1])
  }

  predicate AllNonNegative(requests: seq<Angles>) {
    forall i :: 0 <= i < |requests| ==> requests[i].NonNegative()
  }

  /** The length of the path of requests, each leg measured on its longer axis. */
  function GapTravel(requests: seq<Angles>): nat
    decreases |requests|
  {
    if |requests| < 2 then 0
    else GapTravel(requests[..|requests| - 1]) + Gap(requests[|requests| - 2], requests[|requests| - 1])
  }

  function TaxicabTravel(requests: seq<Angles>): nat
    decreases |requests|
  {
    if |requests| < 2 then 0
    else TaxicabTravel(requests[..|requests| - 1]) + Taxicab(requests[|requests| - 2], requests[|requests| - 1])
  }

  lemma {:induction false} GapTravelShorter(requests: seq<Angles>)
    ensures GapTravel(requests) <= TaxicabTravel(requests)
    decreases |requests|
  {
    if |requests| >= 2 {
      GapTravelShorter(requests[..|requests| - 1]);
    }
  }

  lemma OneMore(requests: seq<Angles>, request: Angles)
    ensures AfterRequests(requests + [request]) == Step(AfterRequests(requests), request)
    ensures GapTravel(requests + [request])
         == GapTravel(requests) + if requests == [] then 0 else Gap(requests[|requests| - 1], request)
    ensures TaxicabTravel(requests + [request])
         == TaxicabTravel(requests) + if requests == [] then 0 else Taxicab(requests[|requests| - 1], request)
  {
    assert (requests + [request])[..|requests|] == requests;
    hide Step, Taxicab, Gap;
  }

  /** The last attempted command is the target, and is within one degree of the latest request
      on both axes: for any requests, negative ones included. */
  lemma {:induction false} LastCommandNear(requests: seq<Angles>)
    requires |requests| > 0
    ensures var s := AfterRequests(requests);
            var last := requests[|requests| - 1];
            && |s.commands| > 0 && s.target == s.commands[|s.commands| - 1]
            && Abs(s.target.az - last.az) <= 1 && Abs(s.target.el - last.el) <= 1
    decreases |requests|
  {
    if |requests| > 1 {
      LastCommandNear(requests[..|requests| - 1]);
    }
  }

  /** The commands are the requests at these positions. */
  predicate AreCommands(requests: seq<Angles>, at: seq<nat>, commands: seq<Angles>) {
    && |at| == |commands|
    && (forall k :: 0 <= k < |at| ==> at[k] < |requests| && commands[k] == requests[at[k]])
    && (forall j, k :: 0 <= j < k < |at| ==> at[j] < at[k])
  }

  /** The request at position i comes after the one at[k], before the next one in `at`, and
      less than two degrees from it on both axes; neither angle at[k] asks for is negative. */
  predicate Covered(requests: seq<Angles>, at: seq<nat>, k: nat, i: nat)
    requires i < |requests|
  {
    && k < |at| && at[k] < i && (k + 1 < |at| ==> i < at[k + 1])
    && requests[at[k]].az >= 0 && requests[at[k]].el >= 0
    && -2 < requests[i].az - requests[at[k]].az < 2 && -2 < requests[i].el - requests[at[k]].el < 2
  }

  lemma StillCommands(before: seq<Angles>, request: Angles, at: seq<nat>, commands: seq<Angles>)
    requires AreCommands(before, at, commands)
    ensures AreCommands(before + [request], at, commands)
    ensures AreCommands(before + [request], at + [|before|], commands + [request])
  {
  }

  lemma StillCovered(before: seq<Angles>, request: Angles, at: seq<nat>, k: nat, i: nat)
    requires i < |before| && Covered(before, at, k, i)
    requires forall j :: 0 <= j < |at| ==> at[j] < |before|
    ensures Covered(before + [request], at, k, i) && Covered(before + [request], at + [|before|], k, i)
  {
  }

  /** The last command covers a request that is ignored. */
  lemma IgnoredIsCovered(before: seq<Angles>, request: Angles, at: seq<nat>)
    requires AreCommands(before, at, AfterRequests(before).commands)
    requires Ignored(AfterRequests(before), request)
    ensures |at| > 0 && Covered(before + [request], at, |at| - 1, |before|)
  {
    hide AfterRequests;
    if |before| == 0 {
      NoRequests(before);
      assert false;
    } else {
      LastCommandNear(before);
      var last := at[|at| - 1];
      assert (before + [request])[last] == before[last];
    }
  }

  /** Every request is a command or covered by one. */
  ghost predicate AllCovered(requests: seq<Angles>, at: seq<nat>) {
    forall i :: 0 <= i < |requests| && i !in at ==> exists k: nat :: Covered(requests, at, k, i)
  }

  lemma StillAllCovered(before: seq<Angles>, request: Angles, at: seq<nat>, now: seq<nat>)
    requires AllCovered(before, at) && forall j :: 0 <= j < |at| ==> at[j] < |before|
    requires now == at + [|before|] || (now == at && exists k: nat :: Covered(before + [request], at, k, |before|))
    ensures AllCovered(before + [request], now)
  {
    hide Covered;
    var requests := before + [request];
    forall i | 0 <= i < |requests| && i !in now
      ensures exists k: nat :: Covered(requests, now, k, i)
    {
      if i < |before| {
        assert i !in at;
        var k: nat :| Covered(before, at, k, i);
        StillCovered(before, request, at, k, i);
      } else {
        assert (at + [|before|])[|at|] == |before|;
      }
    }
  }

  /** Over any run the commands are requests, unchanged and in order, the first request among
      them; a request that is no command lies within the deadband of the command before it. */
  lemma {:induction false} CommandsInOrder(requests: seq<Angles>) returns (at: seq<nat>)
    ensures AreCommands(requests, at, AfterRequests(requests).commands)
    ensures |requests| > 0 ==> |at| > 0 && at[0] == 0
    ensures AllCovered(requests, at)
    decreases |requests|
  {
    if |requests| == 0 {
      return [];
    }
    var before, request := requests[..|requests| - 1], requests[|requests| - 1];
    assert requests == before + [request];
    var s := AfterRequests(before);
    OneMore(before, request);
    hide AfterRequests, Ignored, Covered, AllCovered;
    var earlier := CommandsInOrder(before);
    StillCommands(before, request, earlier, s.commands);
    if Ignored(s, request) {
      IgnoredIsCovered(before, request, earlier);
      at := earlier;
    } else {
      at := earlier + [|before|];
    }
    StillAllCovered(before, request, earlier, at);
  }

  /** Two attempted commands in a row are two degrees or more apart on some axis, or the first
      of them was to a negative angle, which the driver takes for no target at all. */
  lemma {:induction false} CommandsFarApart(requests: seq<Angles>, i: nat)
    requires i + 1 < |AfterRequests(requests).commands|
    ensures var c := AfterRequests(requests).commands;
            !c[i].NonNegative() || Gap(c[i], c[i + 1]) >= MIN_ANGLE_THRESHOLD
    decreases |requests|
  {
    if |requests| > 0 {
      var before := requests[..|requests| - 1];
      var s := AfterRequests(before);
      if i + 1 < |s.commands| {
        CommandsFarApart(before, i);
      } else {
        LastCommandNear(before);
      }
    }
  }

  /** How many commands follow one to a negative angle. */
  function AfterNegative(commands: seq<Angles>): nat
    decreases |commands|
  {
    if |commands| < 2 then 0
    else AfterNegative(commands[..|commands| - 1]) + if commands[|commands| - 2].NonNegative() then 0 else 1
  }

  lemma OneMoreCommand(commands: seq<Angles>, command: Angles)
    ensures AfterNegative(commands + [command])
         == AfterNegative(commands) + if commands == [] || commands[|commands| - 1].NonNegative() then 0 else 1
  {
    assert (commands + [command])[..|commands|] == commands;
  }

  /** The travel paid for every command that follows one to angles that are not negative, and
      for the way from the last command to the latest request. */
  lemma {:induction false} TravelPaysForCommands(requests: seq<Angles>)
    requires |requests| > 0
    ensures var s := AfterRequests(requests);
            |s.commands| >= 1
            && 2 * (|s.commands| - 1 - AfterNegative(s.commands)) + Gap(s.target, requests[|requests| - 1])
            <= GapTravel(requests)
    decreases |requests|
  {
    var before, request := requests[..|requests| - 1], requests[|requests| - 1];
    assert requests == before + [request];
    OneMore(before, request);
    if |before| == 0 {
      NoRequests(before);
      OneMoreCommand([], request);
      assert AfterNegative([]) == 0;
    } else {
      var s := AfterRequests(before);
      TravelPaysForCommands(before);
      LastCommandNear(before);
      GapTriangle(s.target, before[|before| - 1], request);
      OneMoreCommand(s.commands, request);
      hide AfterRequests, AfterNegative, GapTravel;
    }
  }

  /** The number of commands is at most one more than half the travel of the requests, even
      when each leg is charged only on its longer axis, and one more for every command that
      follows one to a negative angle. */
  lemma CommandsBounded(requests: seq<Angles>)
    ensures var commands := AfterRequests(requests).commands;
            && |commands| <= 1 + GapTravel(requests) / 2 + AfterNegative(commands)
            && |commands| <= 1 + TaxicabTravel(requests) / 2 + AfterNegative(commands)
  {
    if |requests| > 0 {
      TravelPaysForCommands(requests);
      GapTravelShorter(requests);
    }
  }

  /** Every command repeats some request. */
  lemma {:induction false} CommandsAreRequests(requests: seq<Angles>)
    requires AllNonNegative(requests)
    ensures AllNonNegative(AfterRequests(requests).commands)
    decreases |requests|
  {
    if |requests| > 0 {
      CommandsAreRequests(requests[..|requests| - 1]);
    }
  }

  lemma {:induction false} NoneAfterNegative(commands: seq<Angles>)
    requires AllNonNegative(commands)
    ensures AfterNegative(commands) == 0
    decreases |commands|
  {
    if |commands| >= 2 {
      NoneAfterNegative(commands[..|commands| - 1]);
    }
  }

  /** Requests that are not negative are bounded by their travel alone. */
  lemma NonNegativeBounded(requests: seq<Angles>)
    requires AllNonNegative(requests)
    ensures |AfterRequests(requests).commands| <= 1 + GapTravel(requests) / 2
  {
    CommandsBounded(requests);
    CommandsAreRequests(requests);
    NoneAfterNegative(AfterRequests(requests).commands);
  }

  function Sweep(n: nat): seq<Angles> {
    seq(n, i => Angles(2 * i, 0))
  }

  /** The bound is met by a sweep in steps of two degrees, of any length. */
  lemma {:induction false} BoundIsTight(n: nat)
    requires n > 0
    ensures AfterRequests(Sweep(n)) == State(Angles(2 * n - 2, 0), Sweep(n))
    ensures |AfterRequests(Sweep(n)).commands| == 1 + TaxicabTravel(Sweep(n)) / 2
    ensures TaxicabTravel(Sweep(n)) == 2 * n - 2
    decreases n
  {
    var request := Angles(2 * n - 2, 0);
    assert Sweep(n) == Sweep(n - 1) + [request];
    OneMore(Sweep(n - 1), request);
    hide AfterRequests, TaxicabTravel;
    if n > 1 {
      BoundIsTight(n - 1);
    } else {
      NoRequests(Sweep(0));
    }
  }

  lemma NoRequests(requests: seq<Angles>)
    requires requests == []
    ensures AfterRequests(requests) == INITIAL && TaxicabTravel(requests) == 0
  {
  }

  function Repeated(r: Angles, n: nat): seq<Angles> {
    seq(n, _ => r)
  }

  /** A request repeated without change is attempted once, whatever became of the attempt, when
      neither angle is negative; otherwise it is attempted every time. */
  lemma {:induction false} RepeatedRequest(r: Angles, n: nat)
    requires n > 0
    ensures AfterRequests(Repeated(r, n)) == State(r, if r.NonNegative() then [r] else Repeated(r, n))
    decreases n
  {
    assert Repeated(r, n) == Repeated(r, n - 1) + [r];
    OneMore(Repeated(r, n - 1), r);
    hide AfterRequests, TaxicabTravel;
    if n > 1 {
      RepeatedRequest(r, n - 1);
    } else {
      NoRequests(Repeated(r, 0));
      assert Repeated(r, 1) == [r];
    }
  }
}
