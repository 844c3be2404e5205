/**
 * The simulation: the template catalogs of the three drawing phases, the
 * weighted sampler with its acceptance rules, and the `Simulation` object
 * whose `Step` runs one phase, applies every resolved event to the
 * canonical tributes, publishes the phase's events and moves the phase
 * state machine on.
 *
 * Randomness comes from outside: `draws` are the raw values the weighted
 * sampler consumes (one per candidate template), `coins` the values that
 * pick tributes for slots and drive the shuffle.
 */
module Simulation {
  import opened Wrappers
  import opened Text
  import opened Tribute
  import opened District
  import opened Event
  import opened Random
  import opened Seqs

  datatype SimulationError =
    | NoDistricts
    | NoEvents
    | EventError(eventError: EventError)
    | WeightedRandomError(source: WeightedError)
    | MissingTributesError(event: string)
      /** The supplied draws ran out before a template was accepted. */
    | RandomnessExhausted

  // ---- the catalog of one phase ----

  /** The templates of one phase and their weights. */
  datatype EventData = EventData(events: seq<Event>, weights: seq<int>) {

    /** `EventData::create`: the templates in order, with their weights beside them. */
    static method Create(evs: seq<Event>) returns (ed: EventData)
      ensures ed.events == evs && Aligned(ed)
    {
      var events: seq<Event> := [];
      var weights: seq<int> := [];
      for i := 0 to |evs|
        invariant events == evs[..i]
        invariant |weights| == i && forall k :: 0 <= k < i ==> weights[k] == evs[k].weight
      {
        weights := weights + [evs[i].weight];
        events := events + [evs[i]];
      }
      assert evs[..|evs|] == evs;
      ed := EventData(events, weights);
    }

    /** `EventData::has_fatal`: some template of the phase names a victim. */
    method HasFatal() returns (b: bool)
      ensures b <==> Fatal(this)
    {
      for i := 0 to |events|
        invariant forall k :: 0 <= k < i ==> |events[k].killed| == 0
      {
        if |events[i].killed| > 0 {
          return true;
        }
      }
      return false;
    }

    /**
     * `EventData::get_random_event` with the pool `tributes` and `living`
     * tributes left this step; `used` is the number of draws consumed. The
     * source subtracts one from `living`, so it must be positive.
     */
    method GetRandomEvent(tributes: seq<Tribute>, living: nat, forceFatal: bool, draws: seq<nat>)
      returns (r: Result<Option<Event>, SimulationError>, used: nat)
      requires Aligned(this) && living >= 1
      ensures r.Ok? ==> r.value.Some?
      ensures RandomEvent(this, |tributes|, living, forceFatal, draws)
           == if r.Ok? then Ok(Drawn(r.value.value, used)) else Err(r.error)
    {
      var check := CheckWeights(weights);
      if check.Some? {
        return Err(WeightedRandomError(check.value)), 0;
      }
      var loops := 0;
      var k := 0;
      while k < |draws|
        invariant 0 <= k <= |draws|
        invariant RandomEvent(this, |tributes|, living, forceFatal, draws)
               == ShiftBy(SampleFrom(this, |tributes|, living, forceFatal, draws[k..], loops), k)
        decreases |draws| - k
      {
        assert draws[k..][1..] == draws[k + 1..];
        var ev := events[Sample(weights, draws[k])];
        var req := GetNumTributesRequired(ev);
        ghost var rest := SampleFrom(this, |tributes|, living, forceFatal, draws[k + 1..], loops);
        ShiftTwice(rest, k);
        ghost var counted := SampleFrom(this, |tributes|, living, forceFatal, draws[k + 1..], loops + 1);
        ShiftTwice(counted, k);
        if loops >= 25 {
          if req <= |tributes| && |ev.killed| == 0 {
            return Ok(Some(ev)), k + 1;
          }
        }
        if req <= |tributes| && |ev.killed| <= living - 1 {
          if forceFatal && |ev.killed| == 0 {
            k := k + 1;
            continue;
          }
          if living == 2 {
            if |ev.killed| == 1 {
              return Ok(Some(ev)), k + 1;
            } else {
              k := k + 1;
              continue;
            }
          } else {
            return Ok(Some(ev)), k + 1;
          }
        }
        loops := loops + 1;
        k := k + 1;
      }
      return Err(RandomnessExhausted), |draws|;
    }
  }

  /** The weights are the templates' own, position by position. */
  predicate Aligned(ed: EventData) {
    && |ed.weights| == |ed.events|
    && forall i :: 0 <= i < |ed.events| ==> ed.weights[i] == ed.events[i].weight
  }

  /** Some template of the phase names a victim. */
  predicate Fatal(ed: EventData) {
    exists i :: 0 <= i < |ed.events| && |ed.events[i].killed| > 0
  }

  // ---- acceptance rules of the sampler ----

  /** The pool has a tribute for every distinct slot of the template. */
  ghost predicate Fits(ev: Event, poolLen: nat) {
    RequiredCount(ev.text) <= poolLen
  }

  /**
   * The ordinary test: the template fits the pool, leaves at least one
   * living tribute, kills when a kill is forced, and kills exactly one when
   * two are left.
   */
  ghost predicate NormalAccept(ev: Event, poolLen: nat, living: nat, forceFatal: bool) {
    && Fits(ev, poolLen)
    && |ev.killed| <= living - 1
    && !(forceFatal && |ev.killed| == 0)
    && (living == 2 ==> |ev.killed| == 1)
  }

  /** The escape valve, open after 25 counted rejections: any harmless template that fits. */
  ghost predicate EscapeAccept(ev: Event, poolLen: nat) {
    Fits(ev, poolLen) && |ev.killed| == 0
  }

  /** An accepted template and the number of draws spent on finding it. */
  datatype Drawn = Drawn(event: Event, used: nat)

  function ShiftBy(r: Result<Drawn, SimulationError>, k: nat): Result<Drawn, SimulationError> {
    match r
    case Ok(d) => Ok(d.(used := d.used + k))
    case Err(e) => Err(e)
  }

  /** What the sampling loop does with a drawn template. */
  datatype Verdict = Accept | Retry | Count

  /**
   * The verdict of `get_random_event` on the template `ev` with the
   * rejection counter at `loops`. Only a template failing the size-and-kill
   * test is counted; one turned away because a kill is forced, or because
   * two are left and it does not kill exactly one, is drawn again without
   * counting.
   */
  ghost function Judge(ev: Event, poolLen: nat, living: nat, forceFatal: bool, loops: nat): Verdict {
    if loops >= 25 && EscapeAccept(ev, poolLen) then Accept
    else if Fits(ev, poolLen) && |ev.killed| <= living - 1 then
      if (forceFatal && |ev.killed| == 0) || (living == 2 && |ev.killed| != 1) then Retry else Accept
    else Count
  }

  /** The sampling loop from the draws `draws`, one template per draw. */
  ghost function SampleFrom(ed: EventData, poolLen: nat, living: nat, forceFatal: bool, draws: seq<nat>, loops: nat)
    : Result<Drawn, SimulationError>
    requires Aligned(ed) && Samplable(ed.weights)
    decreases |draws|
  {
    if draws == [] then Err(RandomnessExhausted)
    else
      var ev := ed.events[Sample(ed.weights, draws[0])];
      match Judge(ev, poolLen, living, forceFatal, loops)
      case Accept => Ok(Drawn(ev, 1))
      case Retry => ShiftBy(SampleFrom(ed, poolLen, living, forceFatal, draws[1..], loops), 1)
      case Count => ShiftBy(SampleFrom(ed, poolLen, living, forceFatal, draws[1..], loops + 1), 1)
  }

  /**
   * The rejections that move the counter before the sampler accepts, when
   * the draws are judged in turn from the counter value `loops`: a retried
   * draw is not counted, and counting stops at the accepted draw.
   */
  ghost function Counted(ed: EventData, poolLen: nat, living: nat, forceFatal: bool, draws: seq<nat>, loops: nat): nat
    requires Aligned(ed) && Samplable(ed.weights)
    decreases |draws|
  {
    if draws == [] then 0
    else
      var ev := ed.events[Sample(ed.weights, draws[0])];
      match Judge(ev, poolLen, living, forceFatal, loops)
      case Accept => 0
      case Retry => Counted(ed, poolLen, living, forceFatal, draws[1..], loops)
      case Count => 1 + Counted(ed, poolLen, living, forceFatal, draws[1..], loops + 1)
  }

  lemma ShiftTwice(r: Result<Drawn, SimulationError>, k: nat)
    ensures ShiftBy(ShiftBy(r, 1), k) == ShiftBy(r, k + 1)
  {
  }

  /** `get_random_event`: the weighted index is built first; its failure is the call's failure. */
  ghost function RandomEvent(ed: EventData, poolLen: nat, living: nat, forceFatal: bool, draws: seq<nat>)
    : Result<Drawn, SimulationError>
    requires Aligned(ed)
  {
    match CheckWeights(ed.weights)
    case Some(err) => Err(WeightedRandomError(err))
    case None => SampleFrom(ed, poolLen, living, forceFatal, draws, 0)
  }

  /**
   * A template the sampler returns is one of the phase's own templates with
   * a positive weight, obtained either by the ordinary test or by the
   * escape valve, after at least one and at most all of the draws.
   */
  lemma {:induction false} SampleAccepted(ed: EventData, poolLen: nat, living: nat, forceFatal: bool, draws: seq<nat>, loops: nat)
    requires Aligned(ed) && Samplable(ed.weights)
    ensures var r := SampleFrom(ed, poolLen, living, forceFatal, draws, loops);
      r.Ok? ==>
        && 1 <= r.value.used <= |draws|
        && (exists i :: 0 <= i < |ed.events| && ed.weights[i] > 0 && ed.events[i] == r.value.event)
        && (NormalAccept(r.value.event, poolLen, living, forceFatal) || EscapeAccept(r.value.event, poolLen))
    ensures SampleFrom(ed, poolLen, living, forceFatal, draws, loops).Err? ==>
      SampleFrom(ed, poolLen, living, forceFatal, draws, loops).error == RandomnessExhausted
    decreases |draws|
  {
    if draws != [] {
      var i := Sample(ed.weights, draws[0]);
      var ev := ed.events[i];
      match Judge(ev, poolLen, living, forceFatal, loops)
      case Accept =>
      case Retry => SampleAccepted(ed, poolLen, living, forceFatal, draws[1..], loops);
      case Count => SampleAccepted(ed, poolLen, living, forceFatal, draws[1..], loops + 1);
    }
  }

  /**
   * The counter at acceptance: the sampler accepts its template at the
   * counter value reached by the counted rejections before it, and there
   * are fewer of those than draws spent.
   */
  lemma {:induction false} AcceptedAtCount(ed: EventData, poolLen: nat, living: nat, forceFatal: bool, draws: seq<nat>, loops: nat)
    requires Aligned(ed) && Samplable(ed.weights)
    ensures var r := SampleFrom(ed, poolLen, living, forceFatal, draws, loops);
      var c := Counted(ed, poolLen, living, forceFatal, draws, loops);
      r.Ok? ==>
        && c <= r.value.used - 1
        && Judge(r.value.event, poolLen, living, forceFatal, loops + c) == Accept
    decreases |draws|
  {
    if draws != [] {
      var ev := ed.events[Sample(ed.weights, draws[0])];
      match Judge(ev, poolLen, living, forceFatal, loops)
      case Accept =>
        JudgeAt(ev, poolLen, living, forceFatal, loops, loops + 0);
      case Retry =>
        AcceptedAtCount(ed, poolLen, living, forceFatal, draws[1..], loops);
      case Count =>
        AcceptedAtCount(ed, poolLen, living, forceFatal, draws[1..], loops + 1);
        var r' := SampleFrom(ed, poolLen, living, forceFatal, draws[1..], loops + 1);
        var c' := Counted(ed, poolLen, living, forceFatal, draws[1..], loops + 1);
        assert SampleFrom(ed, poolLen, living, forceFatal, draws, loops) == ShiftBy(r', 1);
        assert Counted(ed, poolLen, living, forceFatal, draws, loops) == 1 + c';
        if r'.Ok? {
          JudgeAt(r'.value.event, poolLen, living, forceFatal, loops + 1 + c', loops + (1 + c'));
        }
    }
  }

  /** The size-and-kill test of `get_random_event`: the only test whose failure moves the counter. */
  ghost predicate FailsSize(ev: Event, poolLen: nat, living: nat) {
    !(Fits(ev, poolLen) && |ev.killed| <= living - 1)
  }

  /** How many of the draws `ds` pick a template that fails the size-and-kill test. */
  ghost function SizeFailures(ed: EventData, poolLen: nat, living: nat, ds: seq<nat>): nat
    requires Aligned(ed) && Samplable(ed.weights)
  {
    if ds == [] then 0
    else
      (if FailsSize(ed.events[Sample(ed.weights, ds[0])], poolLen, living) then 1 else 0)
      + SizeFailures(ed, poolLen, living, ds[1..])
  }

  /**
   * The counter counts exactly the draws before the accepted one whose
   * template fails the size-and-kill test: a draw turned away by the forced
   * kill or the two-left rule leaves it alone.
   */
  lemma {:induction false} CountedFailures(ed: EventData, poolLen: nat, living: nat, forceFatal: bool, draws: seq<nat>, loops: nat)
    requires Aligned(ed) && Samplable(ed.weights)
    ensures var r := SampleFrom(ed, poolLen, living, forceFatal, draws, loops);
      r.Ok? ==>
        && 1 <= r.value.used <= |draws|
        && Counted(ed, poolLen, living, forceFatal, draws, loops)
           == SizeFailures(ed, poolLen, living, draws[..r.value.used - 1])
    decreases |draws|
  {
    if draws != [] {
      var ev := ed.events[Sample(ed.weights, draws[0])];
      var next := if Judge(ev, poolLen, living, forceFatal, loops) == Count then loops + 1 else loops;
      if Judge(ev, poolLen, living, forceFatal, loops) != Accept {
        CountedFailures(ed, poolLen, living, forceFatal, draws[1..], next);
        var r' := SampleFrom(ed, poolLen, living, forceFatal, draws[1..], next);
        assert SampleFrom(ed, poolLen, living, forceFatal, draws, loops) == ShiftBy(r', 1);
        if r'.Ok? {
          var u := r'.value.used;
          assert draws[..u][1..] == draws[1..][..u - 1];
        }
      }
    }
  }

  lemma JudgeAt(ev: Event, poolLen: nat, living: nat, forceFatal: bool, a: nat, b: nat)
    requires a == b && Judge(ev, poolLen, living, forceFatal, a) == Accept
    ensures Judge(ev, poolLen, living, forceFatal, b) == Accept
  {
  }

  /**
   * What an acceptance means: the ordinary test passed, or the counter had
   * reached 25 and the template is harmless and fits.
   */
  lemma JudgeAccepts(ev: Event, poolLen: nat, living: nat, forceFatal: bool, loops: nat)
    ensures Judge(ev, poolLen, living, forceFatal, loops) == Accept <==>
      NormalAccept(ev, poolLen, living, forceFatal) || (loops >= 25 && EscapeAccept(ev, poolLen))
  {
  }

  /**
   * The escape valve needs 25 counted rejections: a template that fails the
   * ordinary test is accepted only once the counted rejections before it
   * bring the counter to 25, which from a fresh counter takes at least 26
   * draws, at least 25 of them failing the size-and-kill test.
   */
  lemma EscapeCounted(ed: EventData, poolLen: nat, living: nat, forceFatal: bool, draws: seq<nat>)
    requires Aligned(ed) && Samplable(ed.weights)
    ensures var r := SampleFrom(ed, poolLen, living, forceFatal, draws, 0);
      r.Ok? && !NormalAccept(r.value.event, poolLen, living, forceFatal) ==>
        && EscapeAccept(r.value.event, poolLen)
        && Counted(ed, poolLen, living, forceFatal, draws, 0) >= 25
        && 26 <= r.value.used <= |draws|
        && SizeFailures(ed, poolLen, living, draws[..r.value.used - 1]) >= 25
  {
    CountedFailures(ed, poolLen, living, forceFatal, draws, 0);
    AcceptedAtCount(ed, poolLen, living, forceFatal, draws, 0);
    SampleAccepted(ed, poolLen, living, forceFatal, draws, 0);
    var r := SampleFrom(ed, poolLen, living, forceFatal, draws, 0);
    if r.Ok? {
      JudgeAccepts(r.value.event, poolLen, living, forceFatal, Counted(ed, poolLen, living, forceFatal, draws, 0));
    }
  }


  /**
   * The outcome of `get_random_event`: a broken weight vector is reported as
   * the library's error; otherwise the template is accepted as above, or the
   * draws ran out; a template accepted by the escape valve comes only after
   * 25 counted rejections.
   */
  lemma RandomEventOutcome(ed: EventData, poolLen: nat, living: nat, forceFatal: bool, draws: seq<nat>)
    requires Aligned(ed)
    ensures var r := RandomEvent(ed, poolLen, living, forceFatal, draws);
      && (CheckWeights(ed.weights).Some? ==> r == Err(WeightedRandomError(CheckWeights(ed.weights).value)))
      && (r.Err? && CheckWeights(ed.weights).None? ==> r.error == RandomnessExhausted)
      && (r.Ok? ==>
        && 1 <= r.value.used <= |draws|
        && r.value.event in ed.events
        && (NormalAccept(r.value.event, poolLen, living, forceFatal) || EscapeAccept(r.value.event, poolLen)))
    ensures var r := RandomEvent(ed, poolLen, living, forceFatal, draws);
      r.Ok? && !NormalAccept(r.value.event, poolLen, living, forceFatal) ==>
        && Samplable(ed.weights)
        && Counted(ed, poolLen, living, forceFatal, draws, 0) >= 25
        && 26 <= r.value.used <= |draws|
        && SizeFailures(ed, poolLen, living, draws[..r.value.used - 1]) >= 25
  {
    if CheckWeights(ed.weights).None? {
      SampleAccepted(ed, poolLen, living, forceFatal, draws, 0);
      EscapeCounted(ed, poolLen, living, forceFatal, draws);
    }
  }

  /** Whichever path accepted it, a template leaves at least one tribute of the step alive. */
  lemma AcceptedLeavesOne(ev: Event, poolLen: nat, living: nat, forceFatal: bool)
    requires living >= 1
    requires NormalAccept(ev, poolLen, living, forceFatal) || EscapeAccept(ev, poolLen)
    ensures living - |ev.killed| >= 1
    ensures RequiredCount(ev.text) <= poolLen
  {
  }

  // ---- the districts as a whole ----

  /** Every tribute, district after district. */
  function AllTributes(ds: seq<District>): seq<Tribute> {
    if ds == [] then [] else AllTributes(ds[..|ds| - 1]) + ds[|ds| - 1].tributes
  }

  lemma {:induction false} AllTributesAppend(a: seq<District>, b: seq<District>)
    ensures AllTributes(a + b) == AllTributes(a) + AllTributes(b)
    decreases |b|
  {
    if b == [] {
      assert a + b == a;
    } else {
      var c := b[..|b| - 1];
      assert (a + b)[..|a + b| - 1] == a + c;
      AllTributesAppend(a, c);
    }
  }

  lemma AllTributesStep(ds: seq<District>, i: nat)
    requires i < |ds|
    ensures AllTributes(ds[..i + 1]) == AllTributes(ds[..i]) + ds[i].tributes
  {
    assert ds[..i + 1][..i] == ds[..i];
  }

  /** The alive tributes of all districts, in district order, as `get_living_tributes` collects them. */
  function LivingOf(ds: seq<District>): seq<Tribute> {
    AliveOnly(AllTributes(ds))
  }

  /** The number of alive tributes, as `has_winner` counts them. */
  function CountLiving(ds: seq<District>): nat {
    CountAlive(AllTributes(ds))
  }

  /**
   * The living pool: exactly the alive tributes of the districts, one entry
   * per alive tribute, and empty iff nobody is alive.
   */
  lemma LivingOfMeans(ds: seq<District>)
    ensures |LivingOf(ds)| == CountLiving(ds)
    ensures forall t :: t in LivingOf(ds) <==> t in AllTributes(ds) && t.isAlive
    ensures LivingOf(ds) == [] <==> CountLiving(ds) == 0
  {
    AliveOnlyExactly(AllTributes(ds));
  }

  /** The first alive tribute of `ts`. */
  function FirstAlive(ts: seq<Tribute>): Option<Tribute> {
    if ts == [] then None else if ts[0].isAlive then Some(ts[0]) else FirstAlive(ts[1..])
  }

  /**
   * `FirstAlive` gives an alive tribute preceded only by dead ones, and
   * gives none iff no tribute is alive.
   */
  lemma {:induction false} FirstAliveMeans(ts: seq<Tribute>)
    ensures FirstAlive(ts).None? <==> !SomeAlive(ts)
    ensures FirstAlive(ts).Some? ==>
      exists k :: 0 <= k < |ts| && ts[k] == FirstAlive(ts).value && ts[k].isAlive &&
        forall j :: 0 <= j < k ==> !ts[j].isAlive
  {
    if ts != [] && !ts[0].isAlive {
      FirstAliveMeans(ts[1..]);
      if FirstAlive(ts).Some? {
        var k :| 0 <= k < |ts[1..]| && ts[1..][k] == FirstAlive(ts).value && ts[1..][k].isAlive &&
          forall j :: 0 <= j < k ==> !ts[1..][j].isAlive;
        assert ts[k + 1] == ts[1..][k];
        forall j | 0 <= j < k + 1 ensures !ts[j].isAlive {
          if j > 0 { assert ts[j] == ts[1..][j - 1]; }
        }
      }
      if SomeAlive(ts) {
        var i :| 0 <= i < |ts| && ts[i].isAlive;
        assert ts[1..][i - 1].isAlive;
      }
      if SomeAlive(ts[1..]) {
        var i :| 0 <= i < |ts[1..]| && ts[1..][i].isAlive;
        assert ts[i + 1].isAlive;
      }
    }
  }

  lemma {:induction false} FirstAliveAppend(a: seq<Tribute>, b: seq<Tribute>)
    ensures FirstAlive(a + b) == if FirstAlive(a).Some? then FirstAlive(a) else FirstAlive(b)
  {
    if a == [] {
      assert a + b == b;
    } else {
      assert (a + b)[0] == a[0] && (a + b)[1..] == a[1..] + b;
      FirstAliveAppend(a[1..], b);
    }
  }

  /** The districts holds a tribute with identity `id`. */
  predicate HasId(ts: seq<Tribute>, id: nat) {
    exists j :: 0 <= j < |ts| && ts[j].id == id
  }

  /** The name of the first district holding a tribute with identity `id`, or "Unknown District". */
  function DistName(ds: seq<District>, id: nat): string {
    if ds == [] then "Unknown District"
    else if HasId(ds[0].tributes, id) then ds[0].name
    else DistName(ds[1..], id)
  }

  /**
   * A tribute's district is the first one holding a tribute with its
   * identity; with no such district the name is "Unknown District".
   */
  lemma {:induction false} DistNameMeans(ds: seq<District>, id: nat)
    ensures (forall k :: 0 <= k < |ds| ==> !HasId(ds[k].tributes, id)) ==> DistName(ds, id) == "Unknown District"
    ensures (exists k :: 0 <= k < |ds| && HasId(ds[k].tributes, id)) ==>
      exists k :: 0 <= k < |ds| && HasId(ds[k].tributes, id) && DistName(ds, id) == ds[k].name &&
        forall j :: 0 <= j < k ==> !HasId(ds[j].tributes, id)
  {
    if ds != [] && !HasId(ds[0].tributes, id) {
      DistNameMeans(ds[1..], id);
      assert forall k :: 1 <= k < |ds| ==> ds[k] == ds[1..][k - 1];
      if exists k :: 0 <= k < |ds| && HasId(ds[k].tributes, id) {
        var k :| 0 <= k < |ds| && HasId(ds[k].tributes, id);
        assert HasId(ds[1..][k - 1].tributes, id);
        var k' :| 0 <= k' < |ds[1..]| && HasId(ds[1..][k'].tributes, id) && DistName(ds[1..], id) == ds[1..][k'].name &&
          forall j :: 0 <= j < k' ==> !HasId(ds[1..][j].tributes, id);
        assert ds[k' + 1] == ds[1..][k'];
      }
    }
  }

  // ---- the fallen-tributes report ----

  const Distance := " can be heard in the distance.\n"

  /** The header line of a fallen-tributes report for `n` deaths. */
  function CannonShots(n: nat): string {
    if n < 1 then "No cannon shots" + Distance
    else if n == 1 then "1 cannon shot" + Distance
    else NatToString(n) + " cannon shots" + Distance
  }

  /** The header tells the number of deaths: different counts give different headers. */
  lemma CannonShotsInjective(m: nat, n: nat)
    requires CannonShots(m) == CannonShots(n)
    ensures m == n
  {
    if m >= 2 && n >= 2 {
      var tail := " cannon shots" + Distance;
      assert CannonShots(m) == NatToString(m) + tail && CannonShots(n) == NatToString(n) + tail;
      SuffixCancel(NatToString(m), NatToString(n), tail);
      NatToStringInjective(m, n);
    } else if m >= 2 {
      ManyShotsHead(m, n);
    } else if n >= 2 {
      ManyShotsHead(n, m);
    }
  }

  lemma SuffixCancel(a: string, b: string, t: string)
    requires a + t == b + t
    ensures a == b
  {
    assert a == (a + t)[..|a|] && b == (b + t)[..|b|];
  }

  /** A header for two or more deaths starts with the count's digits, unlike the other two. */
  lemma ManyShotsHead(k: nat, other: nat)
    requires k >= 2 && other < 2
    ensures CannonShots(k) != CannonShots(other)
  {
    var a := NatToString(k);
    var h := CannonShots(k);
    assert h == a + (" cannon shots" + Distance);
    assert h[0] == a[0];
    if other == 0 {
      var none := "No cannon shots";
      assert CannonShots(0)[0] == none[0] == 'N';
    } else {
      var one := "1 cannon shot";
      assert CannonShots(1)[0] == one[0] == '1';
      assert CannonShots(1)[1] == one[1] == ' ';
      if |a| == 1 {
        assert k < 10;
        assert a == [DigitChar(k)];
      } else {
        assert h[1] == a[1];
      }
    }
  }

  /** The report line of one fallen tribute: "name from district", with the tribute attached. */
  function FallenLine(t: Tribute, ds: seq<District>): EventResult {
    EventResult(t.name + " from " + DistName(ds, t.id), [], [], [t])
  }

  /** One "name from district" line per tribute killed today, in the order they died. */
  function FallenLines(killed: seq<Tribute>, ds: seq<District>): (r: seq<EventResult>)
    ensures |r| == |killed|
  {
    if killed == [] then []
    else
      var t := killed[|killed| - 1];
      FallenLines(killed[..|killed| - 1], ds) + [FallenLine(t, ds)]
  }

  /** The fallen-tributes report: the header, then the lines. */
  function FallenReport(killed: seq<Tribute>, ds: seq<District>): seq<EventResult> {
    [NewResult(CannonShots(|killed|))] + FallenLines(killed, ds)
  }

  /** Line i + 1 of the report is about the i-th tribute killed, and holds only that tribute. */
  lemma {:induction false} FallenLinesAt(killed: seq<Tribute>, ds: seq<District>, i: nat)
    requires i < |killed|
    ensures FallenLines(killed, ds)[i] == FallenLine(killed[i], ds)
    decreases |killed|
  {
    if i < |killed| - 1 {
      FallenLinesAt(killed[..|killed| - 1], ds, i);
    }
  }

  // ---- phases ----

  /** `step_cat`'s table: Bloodbath, Day, FallenTributes, Night, then Day again; End stays. */
  function NextPhase(c: EventCategory): EventCategory {
    match c
    case Bloodbath => Day
    case Day => FallenTributes
    case FallenTributes => Night
    case Night => Day
    case End => End
  }

  /** After the Bloodbath the phases cycle Day, FallenTributes, Night; the Bloodbath never returns. */
  lemma PhaseCycle(c: EventCategory)
    requires c != End
    ensures NextPhase(c) != Bloodbath && NextPhase(c) != End
    ensures c != Bloodbath ==> NextPhase(NextPhase(NextPhase(c))) == c
  {
  }

  /** `get_category_title`. */
  function CategoryTitle(c: EventCategory, day: nat): string {
    match c
    case Bloodbath => "The Bloodbath"
    case Day => "Day " + NatToString(day)
    case FallenTributes => "Fallen Tributes - Day " + NatToString(day)
    case Night => "Night " + NatToString(day)
    case End => "The Winner"
  }

  lemma PrefixCancel(p: string, a: string, b: string)
    requires p + a == p + b
    ensures a == b
  {
    assert a == (p + a)[|p|..];
    assert b == (p + b)[|p|..];
  }

  /**
   * Titles tell the phase, and for Day, FallenTributes and Night also the
   * day: two equal titles come from the same phase, and from the same day
   * when the phase is numbered.
   */
  lemma TitleInjective(c1: EventCategory, d1: nat, c2: EventCategory, d2: nat)
    requires CategoryTitle(c1, d1) == CategoryTitle(c2, d2)
    ensures c1 == c2
    ensures c1 == Day || c1 == FallenTributes || c1 == Night ==> d1 == d2
  {
    var t1, t2 := CategoryTitle(c1, d1), CategoryTitle(c2, d2);
    assert t1[0] == t2[0];
    if c1 == Bloodbath || c1 == End || c2 == Bloodbath || c2 == End {
      assert t1[4] == t2[4];
    } else if c1 == c2 {
      match c1 {
        case Day => PrefixCancel("Day ", NatToString(d1), NatToString(d2));
        case FallenTributes => PrefixCancel("Fallen Tributes - Day ", NatToString(d1), NatToString(d2));
        case Night => PrefixCancel("Night ", NatToString(d1), NatToString(d2));
      }
      NatToStringInjective(d1, d2);
    }
  }

  /** Every phase and day with the same title as phase `c` on day `d` is `c`, and day `d` when `c` is numbered. */
  lemma TitleDetermines(c: EventCategory, d: nat)
    ensures forall c2, d2 :: CategoryTitle(c2, d2) == CategoryTitle(c, d) ==>
      c2 == c && (c2 != Bloodbath && c2 != End ==> d2 == d)
  {
    forall c2, d2 | CategoryTitle(c2, d2) == CategoryTitle(c, d)
      ensures c2 == c && (c2 != Bloodbath && c2 != End ==> d2 == d)
    {
      TitleInjective(c, d, c2, d2);
    }
  }

  /** The templates of category `c`, in catalog order, as `Simulation::new` filters them. */
  function OfCategory(evs: seq<Event>, c: EventCategory): (r: seq<Event>)
    ensures |r| <= |evs|
    ensures forall ev :: ev in r <==> ev in evs && ev.category == c
  {
    if evs == [] then []
    else (if evs[0].category == c then [evs[0]] else []) + OfCategory(evs[1..], c)
  }

  // ---- applying a resolved event to the districts ----

  /** How often `id` occurs in `ids`. */
  function Occurrences(ids: seq<nat>, id: nat): nat {
    if ids == [] then 0
    else Occurrences(ids[..|ids| - 1], id) + (if ids[|ids| - 1] == id then 1 else 0)
  }

  /** An id occurs in a list iff it is listed. */
  lemma {:induction false} OccurrencesZero(ids: seq<nat>, id: nat)
    ensures Occurrences(ids, id) == 0 <==> id !in ids
  {
    if ids != [] {
      OccurrencesZero(ids[..|ids| - 1], id);
      assert ids == ids[..|ids| - 1] + [ids[|ids| - 1]];
    }
  }

  /** In a list without repeats an id occurs at most once. */
  lemma {:induction false} OccurrencesDistinct(ids: seq<nat>, id: nat)
    requires forall i, j :: 0 <= i < j < |ids| ==> ids[i] != ids[j]
    ensures Occurrences(ids, id) == if id in ids then 1 else 0
  {
    if ids != [] {
      var init := ids[..|ids| - 1];
      OccurrencesDistinct(init, id);
      OccurrencesZero(init, id);
      assert ids == init + [ids[|ids| - 1]];
      if ids[|ids| - 1] == id {
        assert id !in init;
      }
    }
  }

  lemma OccurrencesStep(ids: seq<nat>, k: nat, id: nat)
    requires k < |ids|
    ensures Occurrences(ids[..k + 1], id) == Occurrences(ids[..k], id) + (if ids[k] == id then 1 else 0)
  {
    assert ids[..k + 1][..k] == ids[..k];
  }

  /**
   * A tribute after the event `res`: killed if its id is among the victims,
   * credited once for every time its id is listed among the killers.
   */
  function Applied(t: Tribute, res: EventResult): (u: Tribute)
    ensures u.id == t.id && u.name == t.name && u.avatarUrl == t.avatarUrl && u.pronouns == t.pronouns
    ensures u.isAlive <==> t.isAlive && t.id !in res.killed
    ensures u.kills == t.kills + Occurrences(res.killers, t.id)
    ensures t.id !in res.killed && t.id !in res.killers ==> u == t
  {
    OccurrencesZero(res.killed, t.id);
    OccurrencesZero(res.killers, t.id);
    t.(isAlive := t.isAlive && Occurrences(res.killed, t.id) == 0,
       kills := t.kills + Occurrences(res.killers, t.id))
  }

  /** `n` copies of `t`. */
  function Repeat(t: Tribute, n: nat): (r: seq<Tribute>)
    ensures |r| == n && forall i :: 0 <= i < n ==> r[i] == t
  {
    seq(n, _ => t)
  }

  /** The copies of `t` that join the killed-today list: one dead copy per listing among the victims. */
  function KilledCopies(t: Tribute, res: EventResult): seq<Tribute> {
    Repeat(Kill(t), Occurrences(res.killed, t.id))
  }

  /**
   * `res` applied to one tribute as the source's two inner loops do it: for
   * every victim id equal to the tribute's, kill it and record a copy; then
   * for every killer id equal to it, credit a kill.
   */
  method ApplyToTribute(t: Tribute, res: EventResult) returns (u: Tribute, copies: seq<Tribute>)
    ensures u == Applied(t, res)
    ensures copies == KilledCopies(t, res)
  {
    u, copies := t, [];
    for k := 0 to |res.killed|
      invariant u == t.(isAlive := t.isAlive && Occurrences(res.killed[..k], t.id) == 0)
      invariant copies == Repeat(Kill(t), Occurrences(res.killed[..k], t.id))
    {
      OccurrencesStep(res.killed, k, t.id);
      if GetId(u) == res.killed[k] {
        u := Kill(u);
        copies := copies + [u];
      }
    }
    assert res.killed[..|res.killed|] == res.killed;
    ghost var v := u;
    for k := 0 to |res.killers|
      invariant u == v.(kills := t.kills + Occurrences(res.killers[..k], t.id))
    {
      OccurrencesStep(res.killers, k, t.id);
      if GetId(u) == res.killers[k] {
        u := AddKill(u);
      }
    }
    assert res.killers[..|res.killers|] == res.killers;
    OccurrencesZero(res.killed, t.id);
  }

  /** Every tribute of `ts` after `res`. */
  function ApplyTributes(ts: seq<Tribute>, res: EventResult): (r: seq<Tribute>)
    ensures |r| == |ts| && forall i :: 0 <= i < |ts| ==> r[i] == Applied(ts[i], res)
  {
    seq(|ts|, i requires 0 <= i < |ts| => Applied(ts[i], res))
  }

  /** The copies recorded while applying `res` to `ts`, tribute after tribute. */
  function PushedOf(ts: seq<Tribute>, res: EventResult): seq<Tribute> {
    if ts == [] then [] else PushedOf(ts[..|ts| - 1], res) + KilledCopies(ts[|ts| - 1], res)
  }

  lemma PushedOfStep(ts: seq<Tribute>, res: EventResult, j: nat)
    requires j < |ts|
    ensures PushedOf(ts[..j + 1], res) == PushedOf(ts[..j], res) + KilledCopies(ts[j], res)
  {
    assert ts[..j + 1][..j] == ts[..j];
  }

  lemma {:induction false} PushedOfAppend(a: seq<Tribute>, b: seq<Tribute>, res: EventResult)
    ensures PushedOf(a + b, res) == PushedOf(a, res) + PushedOf(b, res)
    decreases |b|
  {
    if b == [] {
      assert a + b == a;
    } else {
      var c := b[..|b| - 1];
      assert (a + b)[..|a + b| - 1] == a + c;
      PushedOfAppend(a, c, res);
    }
  }

  /**
   * The recorded copies are exactly the dead copies of the tributes whose id
   * is among the victims: each is `Kill(t)` for such a `t`, and every such
   * `t` has its copy recorded.
   */
  lemma {:induction false} PushedOfMeans(ts: seq<Tribute>, res: EventResult)
    ensures forall x :: x in PushedOf(ts, res) ==> !x.isAlive && x.id in res.killed
    ensures forall x :: x in PushedOf(ts, res) <==> exists t :: t in ts && t.id in res.killed && x == Kill(t)
  {
    if ts != [] {
      var init, last := ts[..|ts| - 1], ts[|ts| - 1];
      PushedOfMeans(init, res);
      OccurrencesZero(res.killed, last.id);
      assert ts == init + [last];
      forall x ensures x in PushedOf(ts, res) <==> exists t :: t in ts && t.id in res.killed && x == Kill(t) {
        if x in KilledCopies(last, res) {
          assert last in ts;
        }
        if exists t :: t in ts && t.id in res.killed && x == Kill(t) {
          var t :| t in ts && t.id in res.killed && x == Kill(t);
          if t != last {
            assert t in init;
          } else {
            assert KilledCopies(last, res)[0] == x;
          }
        }
      }
    }
  }

  /** A district after `res`. */
  function ApplyDistrict(d: District, res: EventResult): District {
    d.(tributes := ApplyTributes(d.tributes, res))
  }

  /** `res` applied to one district, tribute by tribute in place. */
  method ApplyToDistrict(d: District, res: EventResult) returns (e: District, copies: seq<Tribute>)
    ensures e == ApplyDistrict(d, res)
    ensures copies == PushedOf(d.tributes, res)
  {
    var ts := d.tributes;
    copies := [];
    for j := 0 to |ts|
      invariant |ts| == |d.tributes|
      invariant forall i :: 0 <= i < j ==> ts[i] == Applied(d.tributes[i], res)
      invariant forall i :: j <= i < |ts| ==> ts[i] == d.tributes[i]
      invariant copies == PushedOf(d.tributes[..j], res)
    {
      var u, c := ApplyToTribute(ts[j], res);
      PushedOfStep(d.tributes, res, j);
      ts := ts[j := u];
      copies := copies + c;
    }
    assert d.tributes[..|ts|] == d.tributes;
    e := d.(tributes := ts);
  }

  /** Every district after `res`. */
  function ApplyDistricts(ds: seq<District>, res: EventResult): (r: seq<District>)
    ensures |r| == |ds| && forall i :: 0 <= i < |ds| ==> r[i] == ApplyDistrict(ds[i], res)
  {
    seq(|ds|, i requires 0 <= i < |ds| => ApplyDistrict(ds[i], res))
  }

  /** Applying to the districts one by one applies to all their tributes, in the same order. */
  lemma {:induction false} ApplyAll(ds: seq<District>, res: EventResult)
    ensures AllTributes(ApplyDistricts(ds, res)) == ApplyTributes(AllTributes(ds), res)
  {
    if ds != [] {
      var init := ds[..|ds| - 1];
      ApplyAll(init, res);
      assert ApplyDistricts(ds, res)[..|ds| - 1] == ApplyDistricts(init, res);
      var a, b := AllTributes(init), ds[|ds| - 1].tributes;
      var l, r := ApplyTributes(a, res), ApplyTributes(b, res);
      assert ApplyTributes(a + b, res) == l + r;
    }
  }

  /** Applying to district `i` in place extends the applied prefix by one. */
  lemma ApplyNext(cur: seq<District>, ds: seq<District>, i: nat, res: EventResult)
    requires i < |ds| && cur == ApplyDistricts(ds[..i], res) + ds[i..]
    ensures cur[i := ApplyDistrict(ds[i], res)] == ApplyDistricts(ds[..i + 1], res) + ds[i + 1..]
  {
    var next := cur[i := ApplyDistrict(ds[i], res)];
    var want := ApplyDistricts(ds[..i + 1], res) + ds[i + 1..];
    assert |next| == |want|;
    forall k | 0 <= k < |next| ensures next[k] == want[k] {
      if k > i {
        assert next[k] == ds[i..][k - i] == ds[k];
      }
    }
  }

  /** The copies recorded for district `i` follow those of the districts before it. */
  lemma PushedNext(k: seq<Tribute>, before: seq<Tribute>, ds: seq<District>, i: nat, res: EventResult)
    requires i < |ds| && k == before + PushedOf(AllTributes(ds[..i]), res)
    ensures k + PushedOf(ds[i].tributes, res) == before + PushedOf(AllTributes(ds[..i + 1]), res)
  {
    AllTributesStep(ds, i);
    PushedOfAppend(AllTributes(ds[..i]), ds[i].tributes, res);
  }

  /** Applying a result only kills and credits: nothing else about any district changes. */
  lemma ApplyEvolves(ds: seq<District>, res: EventResult)
    ensures Evolves(ds, ApplyDistricts(ds, res))
  {
  }

  // ---- how the districts may change during a run ----

  /** `u` is `t` later in the game: same identity, dead if it was dead, at least as many kills. */
  ghost predicate TributeEvolves(t: Tribute, u: Tribute) {
    && u.id == t.id && u.name == t.name && u.avatarUrl == t.avatarUrl && u.pronouns == t.pronouns
    && (u.isAlive ==> t.isAlive)
    && u.kills >= t.kills
  }

  ghost predicate TributesEvolve(ts: seq<Tribute>, us: seq<Tribute>) {
    |us| == |ts| && forall j :: 0 <= j < |ts| ==> TributeEvolves(ts[j], us[j])
  }

  /** The districts `b` are `a` later in the game: the same districts holding the same tributes, evolved. */
  ghost predicate Evolves(a: seq<District>, b: seq<District>) {
    && |b| == |a|
    && (forall i :: 0 <= i < |a| ==> b[i].name == a[i].name && b[i].fileName == a[i].fileName)
    && (forall i :: 0 <= i < |a| ==> TributesEvolve(a[i].tributes, b[i].tributes))
  }

  lemma EvolvesTrans(a: seq<District>, b: seq<District>, c: seq<District>)
    requires Evolves(a, b) && Evolves(b, c)
    ensures Evolves(a, c)
  {
    forall i | 0 <= i < |a| ensures TributesEvolve(a[i].tributes, c[i].tributes) {
      assert TributesEvolve(a[i].tributes, b[i].tributes) && TributesEvolve(b[i].tributes, c[i].tributes);
    }
  }

  lemma {:induction false} CountAliveEvolves(ts: seq<Tribute>, us: seq<Tribute>)
    requires TributesEvolve(ts, us)
    ensures CountAlive(us) <= CountAlive(ts)
  {
    if ts != [] {
      assert TributesEvolve(ts[1..], us[1..]) by {
        forall j | 0 <= j < |ts[1..]| ensures TributeEvolves(ts[1..][j], us[1..][j]) {
          assert TributeEvolves(ts[j + 1], us[j + 1]);
        }
      }
      CountAliveEvolves(ts[1..], us[1..]);
      assert TributeEvolves(ts[0], us[0]);
    }
  }

  /** No tribute comes back to life: the number alive never goes up. */
  lemma {:induction false} EvolvesLiving(a: seq<District>, b: seq<District>)
    requires Evolves(a, b)
    ensures CountLiving(b) <= CountLiving(a)
  {
    if a != [] {
      var n := |a| - 1;
      assert Evolves(a[..n], b[..n]);
      EvolvesLiving(a[..n], b[..n]);
      assert TributesEvolve(a[n].tributes, b[n].tributes);
      CountAliveEvolves(a[n].tributes, b[n].tributes);
      AliveOnlyAppend(AllTributes(a[..n]), a[n].tributes);
      AliveOnlyAppend(AllTributes(b[..n]), b[n].tributes);
    }
  }

  /** `b` is `a` with dead tributes appended: what the killed-today list may become. */
  ghost predicate Extends(a: seq<Tribute>, b: seq<Tribute>) {
    |a| <= |b| && b[..|a|] == a && forall i :: |a| <= i < |b| ==> !b[i].isAlive
  }

  lemma PushedExtends(k: seq<Tribute>, ts: seq<Tribute>, res: EventResult)
    ensures Extends(k, k + PushedOf(ts, res))
  {
    PushedOfMeans(ts, res);
    var p := PushedOf(ts, res);
    forall i | |k| <= i < |k + p| ensures !(k + p)[i].isAlive {
      assert (k + p)[i] == p[i - |k|];
      assert p[i - |k|] in p;
    }
  }

  lemma ExtendsTrans(a: seq<Tribute>, b: seq<Tribute>, c: seq<Tribute>)
    requires Extends(a, b) && Extends(b, c)
    ensures Extends(a, c)
  {
    assert c[..|a|] == c[..|b|][..|a|];
  }

  // ---- a run of results ----

  /** The districts after the results `rs`, applied one after another. */
  function ApplySeq(ds: seq<District>, rs: seq<EventResult>): seq<District> {
    if rs == [] then ds else ApplyDistricts(ApplySeq(ds, rs[..|rs| - 1]), rs[|rs| - 1])
  }

  /** The dead copies recorded while the results `rs` are applied one after another. */
  function PushedSeq(ds: seq<District>, rs: seq<EventResult>): seq<Tribute> {
    if rs == [] then []
    else PushedSeq(ds, rs[..|rs| - 1]) + PushedOf(AllTributes(ApplySeq(ds, rs[..|rs| - 1])), rs[|rs| - 1])
  }

  lemma ApplySeqSnoc(ds: seq<District>, rs: seq<EventResult>, res: EventResult)
    ensures ApplySeq(ds, rs + [res]) == ApplyDistricts(ApplySeq(ds, rs), res)
    ensures PushedSeq(ds, rs + [res]) == PushedSeq(ds, rs) + PushedOf(AllTributes(ApplySeq(ds, rs)), res)
  {
    assert (rs + [res])[..|rs|] == rs;
  }

  /** Whether one of the results `rs` lists `id` among the victims. */
  predicate KilledIn(rs: seq<EventResult>, id: nat) {
    rs != [] && (KilledIn(rs[..|rs| - 1], id) || id in rs[|rs| - 1].killed)
  }

  /** How often the results `rs` list `id` among the killers. */
  function KillsIn(rs: seq<EventResult>, id: nat): nat {
    if rs == [] then 0 else KillsIn(rs[..|rs| - 1], id) + Occurrences(rs[|rs| - 1].killers, id)
  }

  /**
   * A run of results, tribute by tribute: every tribute keeps its identity,
   * is alive afterwards iff it was alive and no result named it as a victim,
   * and is credited once for every listing among the killers.
   */
  lemma {:induction false} ApplySeqMeans(ds: seq<District>, rs: seq<EventResult>)
    ensures |AllTributes(ApplySeq(ds, rs))| == |AllTributes(ds)|
    ensures forall j :: 0 <= j < |AllTributes(ds)| ==>
      var t, u := AllTributes(ds)[j], AllTributes(ApplySeq(ds, rs))[j];
      && u.id == t.id && u.name == t.name && u.avatarUrl == t.avatarUrl && u.pronouns == t.pronouns
      && (u.isAlive <==> t.isAlive && !KilledIn(rs, t.id))
      && u.kills == t.kills + KillsIn(rs, t.id)
  {
    if rs != [] {
      var init := rs[..|rs| - 1];
      ApplySeqMeans(ds, init);
      ApplyAll(ApplySeq(ds, init), rs[|rs| - 1]);
    }
  }

  // ---- identities ----

  /** No two tributes of `ts` share an id. */
  ghost predicate DistinctIds(ts: seq<Tribute>) {
    forall i, j :: 0 <= i < j < |ts| ==> ts[i].id != ts[j].id
  }

  /** No two tributes of the districts share an id, as ids handed out by `new_id` do not. */
  ghost predicate UniqueIds(ds: seq<District>) {
    DistinctIds(AllTributes(ds))
  }

  lemma {:induction false} EvolvesAll(a: seq<District>, b: seq<District>)
    requires Evolves(a, b)
    ensures TributesEvolve(AllTributes(a), AllTributes(b))
  {
    if a != [] {
      var n := |a| - 1;
      assert Evolves(a[..n], b[..n]);
      EvolvesAll(a[..n], b[..n]);
      assert TributesEvolve(a[n].tributes, b[n].tributes);
      var x := AllTributes(a[..n]);
      forall j | 0 <= j < |AllTributes(a)| ensures TributeEvolves(AllTributes(a)[j], AllTributes(b)[j]) {
        if j >= |x| {
          assert AllTributes(a)[j] == a[n].tributes[j - |x|];
          assert AllTributes(b)[j] == b[n].tributes[j - |x|];
        }
      }
    }
  }

  /** Tributes keep their ids as the game goes on, so distinct ids stay distinct. */
  lemma EvolvesUnique(a: seq<District>, b: seq<District>)
    requires Evolves(a, b) && UniqueIds(a)
    ensures UniqueIds(b)
  {
    EvolvesAll(a, b);
  }

  /** The ids of the alive tributes of `ts` that `res` lists among the victims. */
  ghost function KilledIds(ts: seq<Tribute>, res: EventResult): set<nat> {
    set i | 0 <= i < |ts| && ts[i].isAlive && ts[i].id in res.killed :: ts[i].id
  }

  lemma KilledIdsCons(ts: seq<Tribute>, res: EventResult)
    requires ts != []
    ensures KilledIds(ts, res) ==
      (if ts[0].isAlive && ts[0].id in res.killed then {ts[0].id} else {}) + KilledIds(ts[1..], res)
  {
    assert forall i :: 0 <= i < |ts[1..]| ==> ts[1..][i] == ts[i + 1];
  }

  /** With distinct ids, the tributes `res` kills are as many as the ids of them it lists. */
  lemma {:induction false} KilledIdsCount(ts: seq<Tribute>, res: EventResult)
    requires DistinctIds(ts)
    ensures CountAlive(ts) == CountAlive(ApplyTributes(ts, res)) + |KilledIds(ts, res)|
  {
    if ts != [] {
      var rest := ts[1..];
      assert DistinctIds(rest) by {
        assert forall i :: 0 <= i < |rest| ==> rest[i] == ts[i + 1];
      }
      assert ApplyTributes(ts, res)[1..] == ApplyTributes(rest, res);
      KilledIdsCount(rest, res);
      KilledIdsCons(ts, res);
      assert ts[0].id !in KilledIds(rest, res);
    }
  }

  /**
   * With distinct ids a result kills at most as many tributes as it lists
   * victims, so the number alive drops by at most `|res.killed|`.
   */
  lemma KillsAtMost(ds: seq<District>, res: EventResult)
    requires UniqueIds(ds)
    ensures CountLiving(ds) <= CountLiving(ApplyDistricts(ds, res)) + |res.killed|
  {
    ApplyAll(ds, res);
    var ts := AllTributes(ds);
    KilledIdsCount(ts, res);
    assert KilledIds(ts, res) <= set x | x in res.killed;
    SubsetSize(KilledIds(ts, res), set x | x in res.killed);
    ElementsSize(res.killed);
  }

  /**
   * One pass of the drawing loop keeps its tally of the living below the
   * truth: when at least `living` tributes are alive and ids are distinct,
   * a result listing at most `n` victims leaves at least `living - n` alive.
   */
  lemma ResultKeepsLiving(ds: seq<District>, res: EventResult, living: nat, n: nat)
    requires UniqueIds(ds) && living <= CountLiving(ds) && |res.killed| <= n
    ensures UniqueIds(ApplyDistricts(ds, res))
    ensures living - n <= CountLiving(ApplyDistricts(ds, res))
  {
    KillsAtMost(ds, res);
    ApplyEvolves(ds, res);
    EvolvesUnique(ds, ApplyDistricts(ds, res));
  }

  // ---- the pool after a result ----

  /** The pool without the tributes whose id is in `ids`, in the same order. */
  function Keep(pool: seq<Tribute>, ids: set<nat>): (r: seq<Tribute>)
    ensures |r| <= |pool|
  {
    if pool == [] then [] else (if pool[0].id in ids then [] else [pool[0]]) + Keep(pool[1..], ids)
  }

  /** A tribute stays in the pool iff it was there and its id is not excluded. */
  lemma {:induction false} KeepMeans(pool: seq<Tribute>, ids: set<nat>)
    ensures forall t :: t in Keep(pool, ids) <==> t in pool && t.id !in ids
  {
    if pool != [] {
      KeepMeans(pool[1..], ids);
      assert forall t :: t in pool <==> t == pool[0] || t in pool[1..];
    }
  }

  /** Excluding nothing keeps the pool. */
  lemma {:induction false} KeepNone(pool: seq<Tribute>)
    ensures Keep(pool, {}) == pool
  {
    if pool != [] {
      KeepNone(pool[1..]);
      assert pool == [pool[0]] + pool[1..];
    }
  }

  /** Excluding twice is excluding the union once. */
  lemma {:induction false} KeepTwice(pool: seq<Tribute>, a: set<nat>, b: set<nat>)
    ensures Keep(Keep(pool, a), b) == Keep(pool, a + b)
  {
    if pool != [] {
      KeepTwice(pool[1..], a, b);
      var k := Keep(pool, a);
      var head := if pool[0].id in b then [] else [pool[0]];
      if pool[0].id !in a {
        assert k == [pool[0]] + Keep(pool[1..], a);
        assert k[0] == pool[0] && k[1..] == Keep(pool[1..], a);
        assert Keep(k, b) == head + Keep(k[1..], b);
        assert Keep(pool, a + b) == head + Keep(pool[1..], a + b);
      } else {
        assert k == Keep(pool[1..], a);
        assert Keep(pool, a + b) == Keep(pool[1..], a + b);
      }
    }
  }

  /** The identities of `ts`. */
  function IdsOf(ts: seq<Tribute>): set<nat> {
    set i | 0 <= i < |ts| :: ts[i].id
  }

  /** `retain`, once per bound tribute: every pool member sharing an id with one of them leaves. */
  method Retain(pool: seq<Tribute>, bound: seq<Tribute>) returns (left: seq<Tribute>)
    ensures left == Keep(pool, IdsOf(bound))
  {
    left := pool;
    KeepNone(pool);
    assert IdsOf(bound[..0]) == {};
    for i := 0 to |bound|
      invariant left == Keep(pool, IdsOf(bound[..i]))
    {
      KeepTwice(pool, IdsOf(bound[..i]), {bound[i].id});
      assert IdsOf(bound[..i + 1]) == IdsOf(bound[..i]) + {bound[i].id} by {
        assert forall k :: 0 <= k < i ==> bound[..i + 1][k] == bound[..i][k];
      }
      left := Keep(left, {bound[i].id});
    }
    assert bound[..|bound|] == bound;
  }

  // ---- the kill quota ----

  datatype RateValue = RateValue(num: int, den: nat)

  /** `death_rate`, the share of the living to be killed in a step, as the fraction num / den. */
  type Rate = r: RateValue | r.den > 0 witness RateValue(0, 1)

  /**
   * `(living as f64 * death_rate) as i32`: the product, truncated toward
   * zero as the cast truncates.
   */
  function Quota(living: nat, rate: Rate): int {
    TruncDiv(living * rate.num, rate.den)
  }

  lemma DivPositive(p: nat, d: nat)
    requires d > 0
    ensures p / d > 0 <==> p >= d
  {
    var q := p / d;
    assert p == d * q + p % d;
    if q >= 1 {
      assert d * q >= d * 1;
    }
  }

  lemma DivAtMost(p: nat, d: nat, n: nat)
    requires d > 0 && p <= n * d
    ensures p / d <= n
  {
  }

  /** Division truncating toward zero, as a float-to-integer cast rounds. */
  function TruncDiv(p: int, d: nat): int
    requires d > 0
  {
    if p >= 0 then p / d else -((-p) / d)
  }

  /**
   * A kill is owed iff the product reaches one; a rate between 0 and 1 owes
   * at most everyone alive; a rate of at most 0 owes nothing.
   */
  lemma QuotaBounds(living: nat, rate: Rate)
    ensures Quota(living, rate) > 0 <==> living * rate.num >= rate.den
    ensures 0 <= rate.num <= rate.den ==> 0 <= Quota(living, rate) <= living
    ensures rate.num <= 0 ==> Quota(living, rate) <= 0
  {
    var n, d := rate.num, rate.den;
    var p := living * n;
    assert Quota(living, rate) == TruncDiv(p, d);
    TruncDivSign(p, d);
    if 0 <= n <= d {
      ProductAtMost(living, n, d);
      DivAtMost(p, d, living);
    }
    if n <= 0 {
      ProductNonPositive(living, n);
    }
  }

  lemma TruncDivSign(p: int, d: nat)
    requires d > 0
    ensures TruncDiv(p, d) > 0 <==> p >= d
    ensures p <= 0 ==> TruncDiv(p, d) <= 0
  {
    if p >= 0 {
      DivPositive(p, d);
    }
  }

  lemma ProductAtMost(a: nat, b: int, c: nat)
    requires 0 <= b <= c
    ensures 0 <= a * b <= a * c
  {
  }

  lemma ProductNonPositive(a: nat, b: int)
    requires b <= 0
    ensures a * b <= 0
  {
  }

  // ---- facts the simulation object relies on ----

  /** Districts before `i` without a tribute of identity `id` do not affect its district's name. */
  lemma {:induction false} DistNameFrom(ds: seq<District>, i: nat, id: nat)
    requires i <= |ds|
    requires forall k :: 0 <= k < i ==> !HasId(ds[k].tributes, id)
    ensures DistName(ds, id) == DistName(ds[i..], id)
  {
    if i > 0 {
      assert forall k :: 0 <= k < i - 1 ==> ds[1..][k] == ds[k + 1];
      DistNameFrom(ds[1..], i - 1, id);
      assert ds[1..][i - 1..] == ds[i..];
    }
  }

  /** With exactly one tribute alive, the first alive tribute is the only one: the winner. */
  lemma {:induction false} SoleSurvivor(ts: seq<Tribute>)
    requires CountAlive(ts) == 1
    ensures FirstAlive(ts).Some? && AliveOnly(ts) == [FirstAlive(ts).value]
  {
    if ts[0].isAlive {
      AliveOnlyExactly(ts[1..]);
    } else {
      SoleSurvivor(ts[1..]);
    }
  }

  /**
   * `get_winner` finds nobody iff nobody is alive, and when one tribute is
   * left it finds that one.
   */
  lemma WinnerMeans(ds: seq<District>)
    ensures FirstAlive(AllTributes(ds)).None? <==> CountLiving(ds) == 0
    ensures CountLiving(ds) == 1 ==> LivingOf(ds) == [FirstAlive(AllTributes(ds)).value]
  {
    FirstAliveMeans(AllTributes(ds));
    AliveOnlyEmptyIff(AllTributes(ds));
    if CountLiving(ds) == 1 {
      SoleSurvivor(AllTributes(ds));
    }
  }

  /** The report is the header for the number of deaths, then one line per death, in order. */
  lemma FallenReportShape(killed: seq<Tribute>, ds: seq<District>)
    ensures |FallenReport(killed, ds)| == |killed| + 1
    ensures FallenReport(killed, ds)[0] == NewResult(CannonShots(|killed|))
    ensures forall i :: 0 <= i < |killed| ==> FallenReport(killed, ds)[i + 1] == FallenLine(killed[i], ds)
  {
    var lines := FallenLines(killed, ds);
    Prepended(NewResult(CannonShots(|killed|)), lines);
    forall i | 0 <= i < |killed| ensures lines[i] == FallenLine(killed[i], ds) {
      FallenLinesAt(killed, ds, i);
    }
  }

  lemma Prepended<T>(h: T, s: seq<T>)
    ensures |[h] + s| == |s| + 1 && ([h] + s)[0] == h
    ensures forall i :: 0 <= i < |s| ==> ([h] + s)[i + 1] == s[i]
  {
  }

  /** Report lines name no victims and no killers, so none of them is asymmetric. */
  lemma FallenReportSymmetric(killed: seq<Tribute>, ds: seq<District>)
    ensures forall e :: e in FallenReport(killed, ds) ==> !Asymmetric(e)
  {
    var report := FallenReport(killed, ds);
    FallenReportShape(killed, ds);
    forall e | e in report ensures !Asymmetric(e) {
      var i :| 0 <= i < |report| && report[i] == e;
      if i > 0 {
        assert report[i] == FallenLine(killed[i - 1], ds);
      }
    }
  }

  /**
   * The three catalogs built from a template list hold between them exactly
   * its Bloodbath, Day and Night templates, and no more templates than it has.
   */
  lemma {:induction false} LoadedCatalogs(evs: seq<Event>)
    ensures forall ev :: (ev in OfCategory(evs, Bloodbath) + OfCategory(evs, Day) + OfCategory(evs, Night)
      <==> ev in evs && ev.category != FallenTributes && ev.category != End)
    ensures |OfCategory(evs, Bloodbath)| + |OfCategory(evs, Day)| + |OfCategory(evs, Night)| <= |evs|
  {
    if evs != [] {
      LoadedCatalogs(evs[1..]);
    }
  }

  /** A phase's three catalogs. */
  datatype SimEvents = SimEvents(bloodbath: EventData, day: EventData, night: EventData)

  /**
   * A running simulation: the districts with the canonical tributes, the
   * catalogs, the phase and day, the tributes killed since the last
   * FallenTributes phase, the events of the last step not yet read, the
   * death rate, and the phase before the last step.
   */
  class Simulation {
    var districts: seq<District>
    var events: SimEvents
    var state: EventCategory
    var day: nat
    var killedToday: seq<Tribute>
    var nextEvents: seq<EventResult>
    var deathRate: Rate
    var prevState: EventCategory

    /** Each catalog's weights are its templates' weights. */
    predicate Valid()
      reads this
    {
      Aligned(events.bloodbath) && Aligned(events.day) && Aligned(events.night)
    }

    /** `Simulation::new`: the templates split by phase, at the Bloodbath of day 1. */
    constructor (districts: seq<District>, evs: seq<Event>, deathRate: Rate)
      ensures Valid()
      ensures this.districts == districts && this.deathRate == deathRate
      ensures events.bloodbath.events == OfCategory(evs, Bloodbath)
      ensures events.day.events == OfCategory(evs, Day)
      ensures events.night.events == OfCategory(evs, Night)
      ensures state == Bloodbath && day == 1 && prevState == Bloodbath
      ensures killedToday == [] && nextEvents == []
    {
      var b := EventData.Create(OfCategory(evs, Bloodbath));
      var d := EventData.Create(OfCategory(evs, Day));
      var n := EventData.Create(OfCategory(evs, Night));
      this.districts := districts;
      events := SimEvents(b, d, n);
      state := Bloodbath;
      day := 1;
      killedToday := [];
      nextEvents := [];
      this.deathRate := deathRate;
      prevState := Bloodbath;
    }

    /** `get_all_events`: the Bloodbath, Day and Night catalogs, in that order. */
    method GetAllEvents() returns (all: seq<Event>)
      ensures all == events.bloodbath.events + events.day.events + events.night.events
    {
      all := [];
      all := all + events.bloodbath.events;
      all := all + events.day.events;
      all := all + events.night.events;
    }

    /** `step_cat`: the phase table; the day advances only from Night to Day. */
    method StepCat()
      modifies this`state, this`day
      ensures state == NextPhase(old(state))
      ensures day == if old(state) == Night then old(day) + 1 else old(day)
    {
      match state {
        case Bloodbath => state := Day;
        case Day => state := FallenTributes;
        case FallenTributes => state := Night;
        case Night =>
          day := day + 1;
          state := Day;
        case End =>
      }
    }

    /** `get_category_title`. */
    function GetCategoryTitle(): (t: string)
      reads this
      ensures state == Bloodbath ==> t == "The Bloodbath"
      ensures state == End ==> t == "The Winner"
      ensures state != Bloodbath && state != End ==>
        |NatToString(day)| < |t| && t[|t| - |NatToString(day)|..] == NatToString(day)
      ensures forall c, d :: CategoryTitle(c, d) == t ==> c == state && (c != Bloodbath && c != End ==> d == day)
    {
      TitleDetermines(state, day);
      CategoryTitle(state, day)
    }

    /** `is_end`: the game is over exactly when the title announces the winner. */
    predicate IsEnd(): (b: bool)
      reads this
      ensures b <==> GetCategoryTitle() == "The Winner"
    {
      assert CategoryTitle(End, day) == "The Winner";
      state == End
    }

    /** `has_next_events`: whether the buffer holds a result for `get_clear_next_events` to hand out. */
    predicate HasNextEvents(): (b: bool)
      reads this
      ensures b <==> exists e :: e in nextEvents
    {
      if |nextEvents| > 0 then assert nextEvents[0] in nextEvents; true else false
    }

    /** `get_clear_next_events`: hands out the buffer and empties it, so a second call gets nothing. */
    method GetClearNextEvents() returns (evs: seq<EventResult>)
      modifies this`nextEvents
      ensures evs == old(nextEvents)
      ensures nextEvents == [] && !HasNextEvents()
    {
      evs := nextEvents;
      nextEvents := [];
    }

    /** `has_winner`: counts the alive tributes of the districts that have any; at most one is a win. */
    method HasWinner() returns (b: bool)
      ensures b <==> CountLiving(districts) <= 1
    {
      var living := 0;
      for i := 0 to |districts|
        invariant living == CountAlive(AllTributes(districts[..i]))
      {
        var d := districts[i];
        AllTributesStep(districts, i);
        AliveOnlyAppend(AllTributes(districts[..i]), d.tributes);
        var some := HasLivingTributes(d);
        if some {
          for j := 0 to |d.tributes|
            invariant living == CountAlive(AllTributes(districts[..i])) + CountAlive(d.tributes[..j])
          {
            AliveOnlyAppend(d.tributes[..j], [d.tributes[j]]);
            assert d.tributes[..j + 1] == d.tributes[..j] + [d.tributes[j]];
            if d.tributes[j].isAlive {
              living := living + 1;
            }
          }
          assert d.tributes[..|d.tributes|] == d.tributes;
        } else {
          AliveOnlyEmptyIff(d.tributes);
        }
      }
      assert districts[..|districts|] == districts;
      b := living <= 1;
    }

    /** `get_winner`: the first alive tribute of the first district that has one. */
    method GetWinner() returns (w: Option<Tribute>)
      ensures w == FirstAlive(AllTributes(districts))
    {
      for i := 0 to |districts|
        invariant FirstAlive(AllTributes(districts[..i])).None?
      {
        var d := districts[i];
        AllTributesStep(districts, i);
        FirstAliveAppend(AllTributes(districts[..i]), d.tributes);
        var some := HasLivingTributes(d);
        if some {
          for j := 0 to |d.tributes|
            invariant FirstAlive(d.tributes[..j]).None?
          {
            if d.tributes[j].isAlive {
              FirstAliveAppend(d.tributes[..j], d.tributes[j..]);
              assert d.tributes[..j] + d.tributes[j..] == d.tributes;
              AllTributesAppend(districts[..i + 1], districts[i + 1..]);
              assert districts[..i + 1] + districts[i + 1..] == districts;
              FirstAliveAppend(AllTributes(districts[..i + 1]), AllTributes(districts[i + 1..]));
              return Some(d.tributes[j]);
            }
            FirstAliveAppend(d.tributes[..j], [d.tributes[j]]);
            assert d.tributes[..j + 1] == d.tributes[..j] + [d.tributes[j]];
          }
          assert d.tributes[..|d.tributes|] == d.tributes;
        } else {
          FirstAliveMeans(d.tributes);
        }
      }
      assert districts[..|districts|] == districts;
      return None;
    }

    /** `get_trib_dist_name`: the first district holding a tribute with the same identity. */
    method GetTribDistName(t: Tribute) returns (name: string)
      ensures name == DistName(districts, t.id)
    {
      for i := 0 to |districts|
        invariant forall k :: 0 <= k < i ==> !HasId(districts[k].tributes, t.id)
      {
        var d := districts[i];
        for j := 0 to |d.tributes|
          invariant forall k :: 0 <= k < j ==> d.tributes[k].id != t.id
        {
          if GetId(d.tributes[j]) == GetId(t) {
            DistNameFrom(districts, i, t.id);
            return d.name;
          }
        }
      }
      DistNameFrom(districts, |districts|, t.id);
      return "Unknown District";
    }

    /** `get_living_tributes`: the alive tributes of every district that has any, district by district. */
    method GetLivingTributes() returns (living: seq<Tribute>)
      ensures living == LivingOf(districts)
    {
      living := [];
      for i := 0 to |districts|
        invariant living == AliveOnly(AllTributes(districts[..i]))
      {
        var d := districts[i];
        AllTributesStep(districts, i);
        AliveOnlyAppend(AllTributes(districts[..i]), d.tributes);
        var some := HasLivingTributes(d);
        if some {
          var ls := GetLiving(d);
          living := living + ls;
        } else {
          AliveOnlyEmptyIff(d.tributes);
        }
      }
      assert districts[..|districts|] == districts;
    }

    /** The catalog of the current phase; FallenTributes and End draw no templates. */
    function CurrentData(): Option<EventData>
      reads this
    {
      match state
      case Bloodbath => Some(events.bloodbath)
      case Day => Some(events.day)
      case Night => Some(events.night)
      case _ => None
    }

    /** `has_fatal`: the current catalog has a template with a victim; false outside the drawing phases. */
    method HasFatal() returns (b: bool)
      ensures b <==> CurrentData().Some? && Fatal(CurrentData().value)
    {
      match state {
        case Bloodbath => b := events.bloodbath.HasFatal();
        case Day => b := events.day.HasFatal();
        case Night => b := events.night.HasFatal();
        case _ => b := false;
      }
    }

    /** `get_rand_event`: draws from the current catalog; outside the drawing phases there is nothing to draw. */
    method GetRandEvent(tributes: seq<Tribute>, living: nat, forceFatal: bool, draws: seq<nat>)
      returns (r: Result<Option<Event>, SimulationError>, used: nat)
      requires Valid() && (CurrentData().Some? ==> living >= 1)
      ensures CurrentData().None? ==> r == Ok(None) && used == 0
      ensures CurrentData().Some? ==>
        && (r.Ok? ==> r.value.Some?)
        && RandomEvent(CurrentData().value, |tributes|, living, forceFatal, draws)
           == if r.Ok? then Ok(Drawn(r.value.value, used)) else Err(r.error)
    {
      match state {
        case Bloodbath => r, used := events.bloodbath.GetRandomEvent(tributes, living, forceFatal, draws);
        case Day => r, used := events.day.GetRandomEvent(tributes, living, forceFatal, draws);
        case Night => r, used := events.night.GetRandomEvent(tributes, living, forceFatal, draws);
        case _ => r, used := Ok(None), 0;
      }
    }

    /**
     * One draw of `step`: a kill is forced when the catalog has a fatal
     * template and the quota is not yet met; the accepted template's number
     * of victims comes off both the living count and the quota, and at least
     * one tribute of the step stays alive.
     */
    method DrawEvent(pool: seq<Tribute>, living: nat, quota: int, draws: seq<nat>)
      returns (r: Result<Event, SimulationError>, used: nat, livingAfter: nat, quotaAfter: int)
      requires Valid() && CurrentData().Some? && living >= 1
      ensures r.Ok? ==> 1 <= used <= |draws| && r.value in CurrentData().value.events
      ensures r.Ok? ==>
        var forceFatal := Fatal(CurrentData().value) && quota > 0;
        NormalAccept(r.value, |pool|, living, forceFatal) || EscapeAccept(r.value, |pool|)
      ensures r.Ok? ==> RequiredCount(r.value.text) <= |pool|
      ensures r.Ok? ==> livingAfter >= 1 && livingAfter == living - |r.value.killed| && quotaAfter == quota - |r.value.killed|
      ensures r.Err? ==> r.error.WeightedRandomError? || r.error == RandomnessExhausted
    {
      var fatal := HasFatal();
      var forceFatal := fatal && quota > 0;
      var drawn;
      drawn, used := GetRandEvent(pool, living, forceFatal, draws);
      RandomEventOutcome(CurrentData().value, |pool|, living, forceFatal, draws);
      if drawn.Err? {
        return Err(drawn.error), used, living, quota;
      }
      var ev := drawn.value.value;
      AcceptedLeavesOne(ev, |pool|, living, forceFatal);
      r, livingAfter, quotaAfter := Ok(ev), living - |ev.killed|, quota - |ev.killed|;
    }

    /**
     * The application loops of `step`: every district tribute listed as a
     * victim is killed and a copy joins `killedToday`; every one listed as a
     * killer is credited.
     */
    method ApplyResult(res: EventResult)
      modifies this`districts, this`killedToday
      ensures districts == ApplyDistricts(old(districts), res)
      ensures killedToday == old(killedToday) + PushedOf(AllTributes(old(districts)), res)
    {
      ghost var ds := districts;
      ghost var before := killedToday;
      for i := 0 to |districts|
        invariant districts == ApplyDistricts(ds[..i], res) + ds[i..]
        invariant killedToday == before + PushedOf(AllTributes(ds[..i]), res)
      {
        assert districts[i] == ds[i];
        var d, copies := ApplyToDistrict(districts[i], res);
        PushedNext(killedToday, before, ds, i, res);
        ApplyNext(districts, ds, i, res);
        districts := districts[i := d];
        killedToday := killedToday + copies;
      }
      assert ds[..|ds|] == ds && ds[|ds|..] == [];
    }

    /** The FallenTributes listing: the cannon-shot header, then each tribute killed today and its district. */
    method ReportFallen() returns (report: seq<EventResult>)
      ensures report == FallenReport(killedToday, districts)
    {
      report := [NewResult(CannonShots(|killedToday|))];
      for i := 0 to |killedToday|
        invariant report == [NewResult(CannonShots(|killedToday|))] + FallenLines(killedToday[..i], districts)
      {
        var t := killedToday[i];
        var name := GetTribDistName(t);
        var line := NewResult(t.name + " from " + name);
        line := line.(tributes := line.tributes + [t]);
        assert line == FallenLine(t, districts);
        assert killedToday[..i + 1][..i] == killedToday[..i] && killedToday[..i + 1][i] == t;
        report := report + [line];
      }
      assert killedToday[..|killedToday|] == killedToday;
    }

    /**
     * `ApplyResult` inside the drawing loop, which started from `start` and
     * `startKilled` and has applied `published`: the result joins the applied
     * run, the districts only evolve, the killed-today list only grows, and
     * with distinct ids a result listing at most `n` victims leaves at least
     * `living - n` alive when `living` were.
     */
    method ApplyInRun(res: EventResult, ghost start: seq<District>, ghost startKilled: seq<Tribute>,
                      ghost published: seq<EventResult>, ghost living: nat, ghost n: nat)
      requires districts == ApplySeq(start, published)
      requires killedToday == startKilled + PushedSeq(start, published)
      requires Evolves(start, districts) && Extends(startKilled, killedToday)
      requires |res.killed| <= n
      requires UniqueIds(start) ==> UniqueIds(districts) && living <= CountLiving(districts)
      modifies this`districts, this`killedToday
      ensures districts == ApplySeq(start, published + [res])
      ensures killedToday == startKilled + PushedSeq(start, published + [res])
      ensures Evolves(start, districts) && Extends(startKilled, killedToday)
      ensures UniqueIds(start) ==> UniqueIds(districts) && living - n <= CountLiving(districts)
    {
      ghost var ds, kt := districts, killedToday;
      ApplyResult(res);
      ApplyEvolves(ds, res);
      EvolvesTrans(start, ds, districts);
      PushedExtends(kt, AllTributes(ds), res);
      ExtendsTrans(startKilled, kt, killedToday);
      if UniqueIds(start) {
        ResultKeepsLiving(ds, res, living, n);
      }
      ApplySeqSnoc(start, published, res);
      AppendAssoc(startKilled, PushedSeq(start, published), PushedOf(AllTributes(ds), res));
    }

    /**
     * The drawing loop of `step` in a phase that draws templates: while the
     * pool is not empty, draw a template, resolve it against the pool, apply
     * the result to the districts, drop its tributes from the pool and keep
     * the result. An error ends the loop; what was applied before it stays
     * applied. `applied` is every result applied, in order: the districts and
     * the killed-today list are those results applied one after another, and
     * on success they are the returned results. With distinct ids, the loop's
     * tally of the living never exceeds the number alive, so a run that starts
     * with someone alive ends with someone alive.
     */
    method RunEvents(draws: seq<nat>, coins: nat -> nat, pos: nat)
      returns (r: Result<seq<EventResult>, SimulationError>, next: nat, ghost applied: seq<EventResult>)
      requires Valid() && CurrentData().Some?
      modifies this`districts, this`killedToday
      ensures districts == ApplySeq(old(districts), applied)
      ensures killedToday == old(killedToday) + PushedSeq(old(districts), applied)
      ensures r.Ok? ==> r.value == applied
      ensures Evolves(old(districts), districts)
      ensures Extends(old(killedToday), killedToday)
      ensures forall e :: e in applied ==> !Asymmetric(e)
      ensures UniqueIds(old(districts)) ==> UniqueIds(districts)
      ensures r.Ok? && UniqueIds(old(districts)) && CountLiving(old(districts)) >= 1 ==> CountLiving(districts) >= 1
      ensures r.Err? ==> r.error.EventError? || r.error.WeightedRandomError? || r.error == RandomnessExhausted
    {
      var pool := GetLivingTributes();
      LivingOfMeans(districts);
      var living := |pool|;
      var quota := Quota(living, deathRate);
      var published: seq<EventResult> := [];
      var k := 0;
      next := pos;
      while |pool| != 0
        invariant k <= |draws|
        invariant |pool| == 0 || living >= 1
        invariant districts == ApplySeq(old(districts), published)
        invariant killedToday == old(killedToday) + PushedSeq(old(districts), published)
        invariant Evolves(old(districts), districts)
        invariant Extends(old(killedToday), killedToday)
        invariant forall e :: e in published ==> !Asymmetric(e)
        invariant UniqueIds(old(districts)) ==> UniqueIds(districts) && living <= CountLiving(districts)
        invariant CountLiving(old(districts)) >= 1 ==> living >= 1
        decreases |draws| - k
      {
        var drawn, used, livingAfter, quotaAfter := DrawEvent(pool, living, quota, draws[k..]);
        if drawn.Err? {
          return Err(drawn.error), next, published;
        }
        var ev := drawn.value;
        ghost var before := living;
        k, living, quota := k + used, livingAfter, quotaAfter;
        var res, left, after, bound, kept := GetResult(ev, pool, coins, next);
        next := after;
        if res.Err? {
          return Err(EventError(res.error)), next, published;
        }
        ResolveKeepsRoles(ev, bound);
        ResolvedAtMost(ev, bound);
        ApplyInRun(res.value, old(districts), old(killedToday), published, before, |ev.killed|);
        pool := Retain(left, res.value.tributes);
        published := published + [res.value];
      }
      return Ok(published), next, published;
    }

    /**
     * `step`. At End nothing happens. In FallenTributes the one pass of the
     * loop lists the day's dead, if anyone is alive, and clears the list. In
     * the other phases the drawing loop runs and its results are shuffled.
     * Then the results become the readable buffer and the phase moves on, to
     * End when at most one tribute is alive. `next` is the next unused coin.
     */
    method Step(draws: seq<nat>, coins: nat -> nat, pos: nat)
      returns (r: Result<(), SimulationError>, next: nat, ghost applied: seq<EventResult>)
      requires Valid()
      modifies this
      ensures Valid() && events == old(events) && deathRate == old(deathRate)
      ensures old(state) == End ==>
        && r == Ok(()) && next == pos
        && state == End && day == old(day) && prevState == old(prevState)
        && districts == old(districts) && killedToday == old(killedToday) && nextEvents == old(nextEvents)
      ensures Evolves(old(districts), districts)
      ensures r.Err? ==>
        && old(state) != End && old(state) != FallenTributes
        && (r.error.EventError? || r.error.WeightedRandomError? || r.error == RandomnessExhausted)
        && state == old(state) && day == old(day) && prevState == old(prevState) && nextEvents == old(nextEvents)
      ensures r.Ok? && old(state) != End ==>
        && (state == End <==> CountLiving(districts) <= 1)
        && (state == End ==> prevState == End && day == old(day))
        && (state != End ==>
              && prevState == old(state) && state == NextPhase(old(state))
              && day == if old(state) == Night then old(day) + 1 else old(day))
        && (forall e :: e in nextEvents ==> !Asymmetric(e))
      ensures old(state) == FallenTributes ==>
        && r.Ok? && districts == old(districts)
        && (CountLiving(old(districts)) == 0 ==> nextEvents == [] && killedToday == old(killedToday))
        && (CountLiving(old(districts)) > 0 ==>
              nextEvents == FallenReport(old(killedToday), old(districts)) && killedToday == [])
      ensures old(state) != FallenTributes ==> Extends(old(killedToday), killedToday)
      ensures old(state) != End && old(state) != FallenTributes ==>
        && districts == ApplySeq(old(districts), applied)
        && killedToday == old(killedToday) + PushedSeq(old(districts), applied)
        && (r.Ok? ==> multiset(nextEvents) == multiset(applied))
      ensures UniqueIds(old(districts)) ==> UniqueIds(districts)
      ensures old(state) != FallenTributes && r.Ok? && UniqueIds(old(districts)) && CountLiving(old(districts)) >= 1 ==>
        CountLiving(districts) >= 1
    {
      next, applied := pos, [];
      if state == End {
        return Ok(()), next, applied;
      }
      var published;
      published, next, applied := Collect(draws, coins, pos);
      if published.Err? {
        return Err(published.error), next, applied;
      }
      Advance(published.value);
      return Ok(()), next, applied;
    }

    /**
     * The part of `step` that produces the phase's results: the
     * FallenTributes listing, or the drawing loop followed by the shuffle.
     * The loop of `step` tests the phase on its first pass and stops there
     * in FallenTributes, so that phase is handled before any draw.
     */
    method Collect(draws: seq<nat>, coins: nat -> nat, pos: nat)
      returns (r: Result<seq<EventResult>, SimulationError>, next: nat, ghost applied: seq<EventResult>)
      requires Valid() && state != End
      modifies this`districts, this`killedToday
      ensures Evolves(old(districts), districts)
      ensures r.Ok? ==> forall e :: e in r.value ==> !Asymmetric(e)
      ensures r.Err? ==>
        && state != FallenTributes
        && (r.error.EventError? || r.error.WeightedRandomError? || r.error == RandomnessExhausted)
      ensures state == FallenTributes ==>
        && r.Ok? && districts == old(districts)
        && (CountLiving(old(districts)) == 0 ==> r.value == [] && killedToday == old(killedToday))
        && (CountLiving(old(districts)) > 0 ==>
              r.value == FallenReport(old(killedToday), old(districts)) && killedToday == [])
      ensures state != FallenTributes ==> Extends(old(killedToday), killedToday)
      ensures state != FallenTributes ==>
        && districts == ApplySeq(old(districts), applied)
        && killedToday == old(killedToday) + PushedSeq(old(districts), applied)
        && (r.Ok? ==> multiset(r.value) == multiset(applied))
      ensures UniqueIds(old(districts)) ==> UniqueIds(districts)
      ensures state != FallenTributes && r.Ok? && UniqueIds(old(districts)) && CountLiving(old(districts)) >= 1 ==>
        CountLiving(districts) >= 1
    {
      next, applied := pos, [];
      if state == FallenTributes {
        var pool := GetLivingTributes();
        LivingOfMeans(districts);
        if |pool| != 0 {
          var report := ReportFallen();
          FallenReportSymmetric(killedToday, districts);
          killedToday := [];
          return Ok(report), next, applied;
        }
        return Ok([]), next, applied;
      }
      var run;
      run, next, applied := RunEvents(draws, coins, pos);
      if run.Err? {
        return Err(run.error), next, applied;
      }
      var shuffled;
      shuffled, next := Shuffle(run.value, coins, next);
      forall e | e in shuffled ensures !Asymmetric(e) {
        assert e in multiset(shuffled);
      }
      return Ok(shuffled), next, applied;
    }

    /**
     * The end of `step`: the results become the readable buffer, and the
     * phase moves to End when at most one tribute is alive, on by the phase
     * table otherwise.
     */
    method Advance(published: seq<EventResult>)
      requires state != End
      modifies this`nextEvents, this`prevState, this`state, this`day
      ensures nextEvents == published
      ensures state == End <==> CountLiving(districts) <= 1
      ensures state == End ==> prevState == End && day == old(day)
      ensures state != End ==>
        && prevState == old(state) && state == NextPhase(old(state))
        && day == if old(state) == Night then old(day) + 1 else old(day)
    {
      nextEvents := published;
      prevState := state;
      var won := HasWinner();
      if won {
        state := End;
        prevState := End;
      } else {
        StepCat();
      }
    }
  }

  /**
   * The checks `build_sim` makes before building: a simulation needs at
   * least one template and at least one district, tested in that order.
   */
  method Build(districts: seq<District>, evs: seq<Event>, deathRate: Rate)
    returns (r: Result<Simulation, SimulationError>)
    ensures evs == [] ==> r == Err(NoEvents)
    ensures evs != [] && districts == [] ==> r == Err(NoDistricts)
    ensures evs != [] && districts != [] ==>
      && r.Ok? && fresh(r.value) && r.value.Valid()
      && r.value.districts == districts && r.value.deathRate == deathRate
      && r.value.state == Bloodbath && r.value.day == 1
      && r.value.killedToday == [] && r.value.nextEvents == []
  {
    if |evs| < 1 {
      return Err(NoEvents);
    }
    if |districts| < 1 {
      return Err(NoDistricts);
    }
    var sim := new Simulation(districts, evs, deathRate);
    r := Ok(sim);
  }
}
