/** SoundEmojiSynthesizer: effects rendered step by step, over any split into buffers. */
module Synth {
  import opened Arith

  const TONE_EFFECTS: nat := 3
  const TONE_WIDTH: real := 1024.0

  /** What effect functions may change: the instantaneous frequency and volume, and their own
      parameters. */
  datatype Voice = Voice(frequency: real, volume: real, parameters: seq<real>)

  /** active: there is a function to call; step counts from 0. */
  datatype ToneEffect = ToneEffect(active: bool, apply: (Voice, nat) -> Voice, steps: int)

  /** A negative duration means that the sequence starts over when it ends. */
  datatype SoundEffect = SoundEffect(frequency: real, volume: real, duration: real, tone: int -> int,
                                     effects: seq<ToneEffect>)

  predicate SoundOk(fx: SoundEffect) { |fx.effects| == TONE_EFFECTS }

  datatype Event = Sample(value: bv16) | Callback(effect: nat, step: nat)

  /** The fixed output settings: samples per second, and how a tone value becomes a sample. */
  datatype Output = Output(sampleRate: Positive, mix: (int, real) -> bv16)

  type Positive = n: nat | n > 0 witness 1

  /** One effect being rendered: samplesToWrite, samplesWritten, position, voice and steps. */
  datatype Render = Render(fx: SoundEffect, count: nat, written: nat, position: real, voice: Voice, step: seq<nat>)

  function Steps(fx: SoundEffect, i: nat): (r: nat)
    requires SoundOk(fx) && i < TONE_EFFECTS
    ensures r > 0
  {
    if fx.effects[i].steps > 1 then fx.effects[i].steps else 1
  }

  /** Where step k of so many ends: evenly spaced, and the last at the end. */
  function StepEnd(count: nat, steps: nat, k: nat): nat
    requires steps > 0
  {
    if k == steps - 1 then count else count * k / steps
  }

  /** The source multiplies by the samples per step; over the reals that is the same. */
  lemma SamplesPerStep(count: nat, steps: nat, k: nat)
    requires steps > 0
    ensures (count as real / steps as real * k as real).Floor == count * k / steps
  {
    var x := count as real / steps as real * k as real;
    var q, m := count * k / steps, count * k % steps;
    assert x * steps as real == (count * k) as real by {
      assert count as real / steps as real * steps as real == count as real;
      Exchange(count as real / steps as real, k as real, steps as real);
    }
    FloorOfQuotient(x, count * k, steps, q, m);
  }

  lemma Exchange(a: real, b: real, c: real)
    ensures a * b * c == a * c * b
  {}

  lemma FloorOfQuotient(x: real, n: nat, d: nat, q: nat, m: nat)
    requires d > 0 && x * d as real == n as real && n == q * d + m && m < d
    ensures x.Floor == q
  {
    RealProduct(q, d);
    RealProduct(q + 1, d);
    MulAhead(q, q + 1, d);
    Between(x, q as real, q as real + 1.0, d as real, n as real);
  }

  lemma RealProduct(a: nat, b: nat)
    ensures (a * b) as real == a as real * b as real
  {}

  lemma Between(x: real, lo: real, hi: real, d: real, n: real)
    requires d > 0.0 && x * d == n && lo * d <= n < hi * d
    ensures lo <= x < hi
  {
    TimesLess(x, lo, d);
    TimesLess(x, hi, d);
  }

  lemma TimesLess(x: real, y: real, d: real)
    requires d > 0.0
    ensures x < y <==> x * d < y * d
  {}

  lemma TimesAtMost(a: nat, b: nat, c: nat)
    requires a <= b
    ensures c * a <= c * b
  {
    assert c * b == c * a + c * (b - a);
  }

  lemma TimesOrdered(a: nat, b: nat, c: nat)
    ensures a <= b ==> a * c <= b * c
  {
    if a <= b {
      TimesAtMost(a, b, c);
    }
  }

  lemma Euclid(x: nat, d: nat)
    requires d > 0
    ensures x == x / d * d + x % d
  {}

  lemma DivideMonotone(a: nat, b: nat, d: nat)
    requires d > 0 && a <= b
    ensures a / d <= b / d
  {
    var p, q := a / d, b / d;
    Euclid(a, d);
    Euclid(b, d);
    if q < p {
      MulAhead(q, p, d);
      assert false;
    }
  }

  lemma EvenStep(count: nat, steps: nat, k: nat)
    requires steps > 0
    ensures count * k / steps <= count * (k + 1) / steps
    ensures k <= steps ==> count * k / steps <= count
    ensures count * steps / steps == count && count * 0 / steps == 0
  {
    TimesAtMost(k, k + 1, count);
    DivideMonotone(count * k, count * (k + 1), steps);
    QuotientUnique(count * steps, steps, count, 0);
    QuotientUnique(count * 0, steps, 0, 0);
    if k <= steps {
      TimesAtMost(k, steps, count);
      DivideMonotone(count * k, count * steps, steps);
    }
  }

  lemma StepEndFacts(count: nat, steps: nat, k: nat)
    requires steps > 0 && k <= steps
    ensures StepEnd(count, steps, k) <= count
    ensures k < steps ==> StepEnd(count, steps, k) <= StepEnd(count, steps, k + 1)
    ensures k >= steps - 1 ==> StepEnd(count, steps, k) == count
    ensures StepEnd(count, steps, 0) == if steps == 1 then count else 0
  {
    EvenStep(count, steps, k);
  }

  function End(r: Render, i: nat): nat
    requires SoundOk(r.fx) && |r.step| == TONE_EFFECTS && i < TONE_EFFECTS
  {
    StepEnd(r.count, Steps(r.fx, i), r.step[i])
  }

  function Lower(a: nat, b: nat): nat { if a < b then a else b }

  /** The end of the next effect step. */
  function NextEnd(r: Render): nat
    requires SoundOk(r.fx) && |r.step| == TONE_EFFECTS
  {
    Lower(Lower(End(r, 0), End(r, 1)), End(r, 2))
  }

  ghost predicate EffectOk(r: Render, i: nat)
    requires SoundOk(r.fx) && |r.step| == TONE_EFFECTS && i < TONE_EFFECTS
  {
    && r.step[i] <= Steps(r.fx, i) && r.written <= End(r, i) <= r.count
    && (r.step[i] == Steps(r.fx, i) ==> r.written == r.count)
  }

  /** No effect step that is due has been passed over. */
  ghost predicate RenderOk(r: Render)
  {
    && SoundOk(r.fx) && |r.step| == TONE_EFFECTS && r.written <= r.count
    && EffectOk(r, 0) && EffectOk(r, 1) && EffectOk(r, 2)
  }

  /** Nothing is left: neither samples, nor the calls at the very end. An effect without
      samples makes no calls. */
  predicate Done(r: Render)
    requires SoundOk(r.fx) && |r.step| == TONE_EFFECTS
  {
    r.count == 0 || (r.written == r.count && r.step[0] == Steps(r.fx, 0) && r.step[1] == Steps(r.fx, 1)
                     && r.step[2] == Steps(r.fx, 2))
  }

  // ----- what is still to come

  /** Keeps the tone print pointer in range. */
  function Wrap(position: real): real
    decreases position.Floor
  {
    if position > TONE_WIDTH then Wrap(position - TONE_WIDTH) else position
  }

  function Skip(o: Output, frequency: real): real
  {
    TONE_WIDTH * frequency / o.sampleRate as real
  }

  function SampleOf(o: Output, r: Render): bv16 { o.mix(r.fx.tone(r.position.Floor), r.voice.volume) }

  function AfterSample(o: Output, r: Render): Render
  {
    r.(written := r.written + 1, position := Wrap(r.position + Skip(o, r.voice.frequency)))
  }

  predicate Due(r: Render, i: nat)
    requires SoundOk(r.fx) && |r.step| == TONE_EFFECTS && i < TONE_EFFECTS
  {
    r.written == End(r, i) && r.step[i] < Steps(r.fx, i)
  }

  function Calls(r: Render, i: nat): seq<Event>
    requires SoundOk(r.fx) && |r.step| == TONE_EFFECTS && i < TONE_EFFECTS
  {
    if Due(r, i) && r.fx.effects[i].active then [Callback(i, r.step[i])] else []
  }

  function AfterEffect(r: Render, i: nat): Render
    requires SoundOk(r.fx) && |r.step| == TONE_EFFECTS && i < TONE_EFFECTS
  {
    if Due(r, i) then
      r.(voice := if r.fx.effects[i].active then r.fx.effects[i].apply(r.voice, r.step[i])
         else r.voice, step := r.step[i := r.step[i] + 1])
    else r
  }

  function StepsLeft(r: Render, i: nat): int
    requires SoundOk(r.fx) && |r.step| == TONE_EFFECTS && i < TONE_EFFECTS
  {
    Steps(r.fx, i) - r.step[i]
  }

  function Measure(r: Render): int
    requires SoundOk(r.fx) && |r.step| == TONE_EFFECTS
  {
    r.count - r.written + StepsLeft(r, 0) + StepsLeft(r, 1) + StepsLeft(r, 2)
  }

  /** Running effect i keeps the state in order, and uses up a step if one was due. */
  lemma EffectRun(r: Render, i: nat)
    requires SoundOk(r.fx) && |r.step| == TONE_EFFECTS && i < TONE_EFFECTS && EffectOk(r, i)
    ensures var r' := AfterEffect(r, i);
            && SoundOk(r'.fx) && |r'.step| == TONE_EFFECTS
            && (r'.fx, r'.count, r'.written) == (r.fx, r.count, r.written)
            && (forall j :: 0 <= j < TONE_EFFECTS && j != i ==> r'.step[j] == r.step[j])
            && r'.step[i] == r.step[i] + (if Due(r, i) then 1 else 0)
            && EffectOk(r', i)
  {
    StepEndFacts(r.count, Steps(r.fx, i), r.step[i]);
    assert EffectOk(r, i);
    hide StepEnd;
    if Due(r, i) {
      StepEndFacts(r.count, Steps(r.fx, i), r.step[i] + 1);
    }
  }

  /** All effects that are due, in order. */
  function AfterTurn(r: Render): Render
    requires SoundOk(r.fx) && |r.step| == TONE_EFFECTS
  {
    AfterEffect(AfterEffect(AfterEffect(r, 0), 1), 2)
  }

  function TurnCalls(r: Render): seq<Event>
    requires SoundOk(r.fx) && |r.step| == TONE_EFFECTS
  {
    Calls(r, 0) + Calls(AfterEffect(r, 0), 1) + Calls(AfterEffect(AfterEffect(r, 0), 1), 2)
  }

  /** Each effect takes its step if it was due before the turn; at least one was. */
  lemma TurnRun(r: Render)
    requires RenderOk(r) && !Done(r) && r.written == NextEnd(r)
    ensures var r' := AfterTurn(r);
            && RenderOk(r') && Measure(r') < Measure(r)
            && (r'.fx, r'.count, r'.written) == (r.fx, r.count, r.written)
            && forall i :: 0 <= i < TONE_EFFECTS ==> r'.step[i] == r.step[i] + (if Due(r, i) then 1 else 0)
    ensures TurnCalls(r) == Calls(r, 0) + Calls(r, 1) + Calls(r, 2)
  {
    var r1 := AfterEffect(r, 0);
    var r2 := AfterEffect(r1, 1);
    hide End, StepEnd, Steps, AfterEffect;
    EffectRun(r, 0);
    EffectSame(r, r1, 1);
    EffectSame(r, r1, 2);
    EffectRun(r1, 1);
    EffectSame(r1, r2, 0);
    EffectSame(r1, r2, 2);
    EffectRun(r2, 2);
    EffectSame(r2, AfterTurn(r), 0);
    EffectSame(r2, AfterTurn(r), 1);
  }

  /** An effect only depends on its own step. */
  lemma EffectSame(r: Render, r': Render, i: nat)
    requires SoundOk(r.fx) && |r.step| == |r'.step| == TONE_EFFECTS && i < TONE_EFFECTS
    requires (r'.fx, r'.count, r'.written) == (r.fx, r.count, r.written) && r'.step[i] == r.step[i]
    ensures EffectOk(r', i) == EffectOk(r, i) && Due(r', i) == Due(r, i) && Calls(r', i) == Calls(r, i)
            && End(r', i) == End(r, i)
  {}

  lemma SampleRun(o: Output, r: Render)
    requires RenderOk(r) && r.written < NextEnd(r)
    ensures RenderOk(AfterSample(o, r)) && Measure(AfterSample(o, r)) < Measure(r)
    ensures forall i :: 0 <= i < TONE_EFFECTS ==> End(AfterSample(o, r), i) == End(r, i)
  {
    StepEndFacts(r.count, Steps(r.fx, 0), r.step[0]);
    hide StepEnd, Wrap, Skip;
  }

  /** The samples and effect calls that are still to come in this effect. */
  ghost function Rest(o: Output, r: Render): seq<Event>
    requires RenderOk(r)
    decreases Measure(r)
  {
    if Done(r) then []
    else if r.written < NextEnd(r) then
      SampleRun(o, r);
      [Sample(SampleOf(o, r))] + Rest(o, AfterSample(o, r))
    else
      TurnRun(r);
      TurnCalls(r) + Rest(o, AfterTurn(r))
  }

  /** The state when the effect is over. */
  ghost function Final(o: Output, r: Render): (f: Render)
    requires RenderOk(r)
    ensures RenderOk(f) && Done(f)
    decreases Measure(r)
  {
    if Done(r) then r
    else if r.written < NextEnd(r) then
      SampleRun(o, r);
      Final(o, AfterSample(o, r))
    else
      TurnRun(r);
      Final(o, AfterTurn(r))
  }

  // ----- what a trace consists of

  function Samples(trace: seq<Event>): nat
  {
    if trace == [] then 0 else (if trace[0].Sample? then 1 else 0) + Samples(trace[1..])
  }

  /** The calls of effect i in a trace: which step, and behind how many samples. */
  function CallsOf(trace: seq<Event>, i: nat, position: nat): seq<(nat, nat)>
  {
    if trace == [] then []
    else match trace[0]
      case Sample(_) => CallsOf(trace[1..], i, position + 1)
      case Callback(j, step) => (if j == i then [(step, position)] else []) + CallsOf(trace[1..], i, position)
  }

  /** Steps k and on, each where it ends. */
  function Schedule(count: nat, steps: nat, k: nat): seq<(nat, nat)>
    requires steps > 0
    decreases steps - k
  {
    if k >= steps then [] else [(k, StepEnd(count, steps, k))] + Schedule(count, steps, k + 1)
  }

  lemma {:induction false} SamplesConcat(s: seq<Event>, t: seq<Event>)
    ensures Samples(s + t) == Samples(s) + Samples(t)
  {
    if s == [] {
      assert s + t == t;
    } else {
      assert (s + t)[1..] == s[1..] + t;
      SamplesConcat(s[1..], t);
    }
  }

  lemma {:induction false} CallsConcat(s: seq<Event>, t: seq<Event>, i: nat, position: nat)
    ensures CallsOf(s + t, i, position) == CallsOf(s, i, position) + CallsOf(t, i, position + Samples(s))
  {
    if s == [] {
      assert s + t == t;
    } else {
      assert (s + t)[1..] == s[1..] + t;
      CallsConcat(s[1..], t, i, if s[0].Sample? then position + 1 else position);
    }
  }

  lemma CallsInTurn(r: Render, i: nat, position: nat)
    requires SoundOk(r.fx) && |r.step| == TONE_EFFECTS && i < TONE_EFFECTS
    ensures var trace := Calls(r, 0) + Calls(r, 1) + Calls(r, 2);
            && Samples(trace) == 0
            && CallsOf(trace, i, position) == if Due(r, i) && r.fx.effects[i].active then [(r.step[i], position)]
            else []
  {
    var a, b, c := Calls(r, 0), Calls(r, 1), Calls(r, 2);
    SamplesConcat(a + b, c);
    SamplesConcat(a, b);
    CallsConcat(a + b, c, i, position);
    CallsConcat(a, b, i, position);
    OneCall(r, 0, i, position);
    OneCall(r, 1, i, position);
    OneCall(r, 2, i, position);
  }

  lemma OneCall(r: Render, j: nat, i: nat, position: nat)
    requires SoundOk(r.fx) && |r.step| == TONE_EFFECTS && i < TONE_EFFECTS && j < TONE_EFFECTS
    ensures Samples(Calls(r, j)) == 0
    ensures CallsOf(Calls(r, j), i, position) == if j == i && Due(r, j)
            && r.fx.effects[j].active then [(r.step[j], position)] else []
  {
    hide Due;
    if Due(r, j) && r.fx.effects[j].active {
      assert Calls(r, j)[1..] == [];
    }
  }

  /** Exactly the samples that are left come out, and an effect's remaining steps are called
      exactly once each, at the positions where they end. */
  lemma RestSchedule(o: Output, r: Render, i: nat)
    requires RenderOk(r) && i < TONE_EFFECTS && r.fx.effects[i].active
    ensures Samples(Rest(o, r)) == r.count - r.written
    ensures r.count > 0 ==>
              var n := r.fx.effects[i].steps;
              CallsOf(Rest(o, r), i, r.written) == Schedule(r.count, if n > 1 then n else 1, r.step[i])
    ensures r.count == 0 ==> Rest(o, r) == []
  {
    hide Rest, Samples, CallsOf, Schedule, RenderOk;
    RestCount(o, r);
    RestCalls(o, r, i);
    NothingToDo(o, r);
  }

  lemma NothingToDo(o: Output, r: Render)
    requires RenderOk(r)
    ensures r.count == 0 ==> Rest(o, r) == []
  {}

  lemma {:induction false} RestCalls(o: Output, r: Render, i: nat)
    requires RenderOk(r) && i < TONE_EFFECTS && r.fx.effects[i].active
    ensures r.count > 0 ==> CallsOf(Rest(o, r), i, r.written) == Schedule(r.count, Steps(r.fx, i), r.step[i])
    decreases Measure(r)
  {
    assert EffectOk(r, i);
    if Done(r) {
    } else if r.written < NextEnd(r) {
      hide StepEnd, Steps, EffectOk, NextEnd;
      SampleRun(o, r);
      RestCalls(o, AfterSample(o, r), i);
      SampleFirst(SampleOf(o, r), Rest(o, AfterSample(o, r)), i, r.written);
    } else {
      TurnRun(r);
      RestCalls(o, AfterTurn(r), i);
      TurnFirst(o, r, i);
      hide StepEnd, Steps, EffectOk, NextEnd, AfterTurn, TurnCalls;
    }
  }

  /** A turn calls effect i if it is due, and puts that in front of what follows. */
  lemma TurnFirst(o: Output, r: Render, i: nat)
    requires RenderOk(r) && !Done(r) && r.written == NextEnd(r) && i < TONE_EFFECTS && r.fx.effects[i].active
             && RenderOk(AfterTurn(r))
    requires AfterTurn(r).step[i] == r.step[i] + (if Due(r, i) then 1 else 0)
    requires CallsOf(Rest(o, AfterTurn(r)), i, r.written) == Schedule(r.count, Steps(r.fx, i), AfterTurn(r).step[i])
    ensures var trace := TurnCalls(r) + Rest(o, AfterTurn(r));
            && Samples(trace) == Samples(Rest(o, AfterTurn(r)))
            && CallsOf(trace, i, r.written) == Schedule(r.count, Steps(r.fx, i), r.step[i])
  {
    hide StepEnd, Steps, NextEnd, Rest, AfterTurn, TurnCalls, Measure, CallsOf, Samples, Due, Schedule, End, EffectOk,
         Calls;
    TurnRun(r);
    CallsInTurn(r, i, r.written);
    SamplesConcat(TurnCalls(r), Rest(o, AfterTurn(r)));
    CallsConcat(TurnCalls(r), Rest(o, AfterTurn(r)), i, r.written);
    ScheduleStep(r, i);
  }

  lemma ScheduleStep(r: Render, i: nat)
    requires SoundOk(r.fx) && |r.step| == TONE_EFFECTS && i < TONE_EFFECTS
    ensures var k := r.step[i] + (if Due(r, i) then 1 else 0);
            Schedule(r.count, Steps(r.fx, i), r.step[i]) == (if Due(r, i) then [(r.step[i], r.written)] else [])
                + Schedule(r.count, Steps(r.fx, i), k)
  {
    hide StepEnd;
  }

  lemma SampleFirst(v: bv16, trace: seq<Event>, i: nat, position: nat)
    ensures Samples([Sample(v)] + trace) == 1 + Samples(trace)
    ensures CallsOf([Sample(v)] + trace, i, position) == CallsOf(trace, i, position + 1)
  {
    assert ([Sample(v)] + trace)[1..] == trace;
  }

  /** Step k of the schedule is called once, where it ends: at count * k / steps samples, and
      the last step behind the last sample. */
  lemma {:induction false} ScheduleAt(count: nat, steps: nat, from: nat, k: nat)
    requires steps > 0 && from <= k < steps
    ensures |Schedule(count, steps, from)| == steps - from
    ensures Schedule(count, steps, from)[k - from] == (k, if k == steps - 1 then count else count * k / steps)
    decreases steps - from
  {
    ScheduleLength(count, steps, from);
    if from < k {
      ScheduleAt(count, steps, from + 1, k);
    }
  }

  lemma {:induction false} ScheduleLength(count: nat, steps: nat, from: nat)
    requires steps > 0 && from <= steps
    ensures |Schedule(count, steps, from)| == steps - from
    decreases steps - from
  {
    if from < steps {
      ScheduleLength(count, steps, from + 1);
    }
  }

  // ----- what a trace sounds like

  /** A trace replayed from some voice and position up to others, with nothing but the effect's
      own functions: a call applies the function to the voice, and a sample is the tone at the
      position with the volume of the voice, and moves the position on by the frequency. */
  ghost predicate Sounds(o: Output, fx: SoundEffect, voice: Voice, position: real, trace: seq<Event>, voice': Voice,
                         position': real)
    decreases |trace|
  {
    if trace == [] then voice' == voice && position' == position
    else match trace[0]
      case Sample(v) =>
        && v == o.mix(fx.tone(position.Floor), voice.volume)
        && Sounds(o, fx, voice, Wrap(position + 1024.0 * voice.frequency / o.sampleRate as real), trace[1..], voice',
                  position')
      case Callback(j, k) =>
        && j < |fx.effects| && fx.effects[j].active
        && Sounds(o, fx, fx.effects[j].apply(voice, k), position, trace[1..], voice', position')
  }

  /** The position comes back into the range of the tone by whole widths. */
  lemma WrapFacts(position: real) returns (n: nat)
    ensures Wrap(position) == position - 1024.0 * n as real && Wrap(position) <= 1024.0
    ensures if position <= 1024.0 then n == 0 else Wrap(position) > 0.0
    decreases position.Floor
  {
    n := 0;
    if position > 1024.0 {
      var m := WrapFacts(position - 1024.0);
      n := m + 1;
    }
  }

  lemma {:induction false} SoundsConcat(o: Output, fx: SoundEffect, voice: Voice, position: real, s: seq<Event>,
                                        voice1: Voice, position1: real, t: seq<Event>, voice2: Voice, position2: real)
    requires Sounds(o, fx, voice, position, s, voice1, position1)
             && Sounds(o, fx, voice1, position1, t, voice2, position2)
    ensures Sounds(o, fx, voice, position, s + t, voice2, position2)
    decreases |s|
  {
    if s == [] {
      assert s + t == t;
    } else {
      assert (s + t)[1..] == s[1..] + t;
      match s[0]
      case Sample(v) =>
        SoundsConcat(o, fx, voice, Wrap(position + 1024.0 * voice.frequency / o.sampleRate as real), s[1..], voice1,
                     position1, t, voice2, position2);
      case Callback(j, k) =>
        SoundsConcat(o, fx, fx.effects[j].apply(voice, k), position, s[1..], voice1, position1, t, voice2, position2);
    }
  }

  /** The calls of a turn leave the voice that its functions make. */
  lemma TurnSounds(o: Output, r: Render)
    requires SoundOk(r.fx) && |r.step| == TONE_EFFECTS
    ensures Sounds(o, r.fx, r.voice, r.position, TurnCalls(r), AfterTurn(r).voice, r.position)
  {
    hide Due, Wrap;
    var r1 := AfterEffect(r, 0);
    var r2 := AfterEffect(r1, 1);
    EffectSounds(o, r, 0);
    EffectSounds(o, r1, 1);
    EffectSounds(o, r2, 2);
    hide Calls, Sounds, AfterEffect;
    SoundsConcat(o, r.fx, r.voice, r.position, Calls(r, 0), r1.voice, r.position, Calls(r1, 1), r2.voice, r.position);
    SoundsConcat(o, r.fx, r.voice, r.position, Calls(r, 0) + Calls(r1, 1), r2.voice, r.position, Calls(r2, 2),
                 AfterTurn(r).voice, r.position);
  }

  lemma EffectSounds(o: Output, r: Render, i: nat)
    requires SoundOk(r.fx) && |r.step| == TONE_EFFECTS && i < TONE_EFFECTS
    ensures Sounds(o, r.fx, r.voice, r.position, Calls(r, i), AfterEffect(r, i).voice, r.position)
            && AfterEffect(r, i).fx == r.fx && AfterEffect(r, i).position == r.position
            && |AfterEffect(r, i).step| == TONE_EFFECTS
  {
    hide Due, Wrap;
    if Calls(r, i) != [] {
      assert Calls(r, i)[1..] == [];
    }
  }

  /** What is left of an effect sounds as its tone and its effect functions say. */
  lemma {:induction false} RestSounds(o: Output, r: Render)
    requires RenderOk(r)
    ensures Sounds(o, r.fx, r.voice, r.position, Rest(o, r), Final(o, r).voice, Final(o, r).position)
    decreases Measure(r)
  {
    if Done(r) {
    } else if r.written < NextEnd(r) {
      hide StepEnd, Steps, EffectOk, NextEnd, Wrap;
      SampleRun(o, r);
      RestSounds(o, AfterSample(o, r));
      assert ([Sample(SampleOf(o, r))] + Rest(o, AfterSample(o, r)))[1..] == Rest(o, AfterSample(o, r));
    } else {
      TurnRun(r);
      RestSounds(o, AfterTurn(r));
      TurnSounds(o, r);
      TurnPosition(r);
      hide StepEnd, Steps, EffectOk, NextEnd, AfterTurn, TurnCalls, Sounds;
      SoundsConcat(o, r.fx, r.voice, r.position, TurnCalls(r), AfterTurn(r).voice, r.position, Rest(o, AfterTurn(r)),
                   Final(o, r).voice, Final(o, r).position);
    }
  }

  lemma TurnPosition(r: Render)
    requires SoundOk(r.fx) && |r.step| == TONE_EFFECTS
    ensures AfterTurn(r).position == r.position
  {
    hide Due;
  }

  // ----- sequences of effects

  function SampleCount(o: Output, duration: real): nat
  {
    (o.sampleRate as real * ((if duration < 0.0 then -duration else duration) / 1000.0)).Floor
  }

  /** The start of an effect; the tone print goes on from where it was. */
  function Begin(o: Output, fx: SoundEffect, position: real, parameters: seq<real>): (r: Render)
  {
    Render(fx, SampleCount(o, fx.duration), 0, position, Voice(fx.frequency, fx.volume, parameters), [0, 0, 0])
  }

  lemma BeginOk(o: Output, fx: SoundEffect, position: real, parameters: seq<real>)
    requires SoundOk(fx)
    ensures RenderOk(Begin(o, fx, position, parameters))
    ensures var r := Begin(o, fx, position, parameters); r.written == r.count ==> Done(r)
  {
    var n := SampleCount(o, fx.duration);
    StepEndFacts(n, Steps(fx, 0), 0);
    StepEndFacts(n, Steps(fx, 1), 0);
    StepEndFacts(n, Steps(fx, 2), 0);
  }

  ghost predicate AllOk(effects: seq<SoundEffect>)
  {
    forall i :: 0 <= i < |effects| ==> SoundOk(effects[i])
  }

  /** The whole of what is left of an effect and then of others. */
  ghost function Script(o: Output, r: Render, played: seq<SoundEffect>): seq<Event>
    requires RenderOk(r) && AllOk(played)
  {
    if played == [] then Rest(o, r)
    else
      var n := |played| - 1;
      var f := ScriptEnd(o, r, played[..n]);
      BeginOk(o, played[n], f.position, f.voice.parameters);
      Script(o, r, played[..n]) + Rest(o, Begin(o, played[n], f.position, f.voice.parameters))
  }

  ghost function ScriptEnd(o: Output, r: Render, played: seq<SoundEffect>): (f: Render)
    requires RenderOk(r) && AllOk(played)
    ensures RenderOk(f) && Done(f)
  {
    if played == [] then Final(o, r)
    else
      var n := |played| - 1;
      var f := ScriptEnd(o, r, played[..n]);
      BeginOk(o, played[n], f.position, f.voice.parameters);
      Final(o, Begin(o, played[n], f.position, f.voice.parameters))
  }

  /** trace is the sound of what is left of r's effect, and then of effects from their start:
      each with its own frequency and volume, the position and the parameters going on, and as
      many samples as it lasts. */
  ghost predicate Performs(o: Output, r: Render, played: seq<SoundEffect>, trace: seq<Event>, voice': Voice,
                           position': real)
    decreases |played|
  {
    if played == [] then
      Sounds(o, r.fx, r.voice, r.position, trace, voice', position') && Samples(trace) == r.count - r.written
    else
      var n := |played| - 1;
      exists cut, v, p :: 0 <= cut <= |trace| && Performs(o, r, played[..n], trace[..cut], v, p)
        && PerformsOne(o, played[n], v, p, trace[cut..], voice', position')
  }

  ghost predicate PerformsOne(o: Output, fx: SoundEffect, v: Voice, p: real, trace: seq<Event>, voice': Voice,
                              position': real)
  {
    && Sounds(o, fx, Voice(fx.frequency, fx.volume, v.parameters), p, trace, voice', position')
    && var ms := if fx.duration < 0.0 then -fx.duration else fx.duration;
       Samples(trace) == (o.sampleRate as real * (ms / 1000.0)).Floor
  }

  /** The script is the sound of all of its effects. */
  lemma {:induction false} ScriptPerforms(o: Output, r: Render, played: seq<SoundEffect>)
    requires RenderOk(r) && AllOk(played)
    ensures var f := ScriptEnd(o, r, played); Performs(o, r, played, Script(o, r, played), f.voice, f.position)
    decreases |played|
  {
    hide Rest, Final, Sounds, Samples, RenderOk, SampleCount;
    if played == [] {
      RestSounds(o, r);
      RestCount(o, r);
    } else {
      var n := |played| - 1;
      var f := ScriptEnd(o, r, played[..n]);
      ScriptPerforms(o, r, played[..n]);
      var before := Script(o, r, played[..n]);
      BeginOk(o, played[n], f.position, f.voice.parameters);
      var b := Begin(o, played[n], f.position, f.voice.parameters);
      BegunPerforms(o, played[n], f.voice, f.position);
      var all := Script(o, r, played);
      assert all == before + Rest(o, b);
      assert all[..|before|] == before && all[|before|..] == Rest(o, b);
    }
  }

  lemma BegunPerforms(o: Output, fx: SoundEffect, v: Voice, p: real)
    requires SoundOk(fx)
    ensures RenderOk(Begin(o, fx, p, v.parameters))
    ensures var b := Begin(o, fx, p, v.parameters);
            PerformsOne(o, fx, v, p, Rest(o, b), Final(o, b).voice, Final(o, b).position)
  {
    hide Rest, Final, Sounds, Samples, RenderOk, Done, NextEnd, Measure;
    BeginOk(o, fx, p, v.parameters);
    RestSounds(o, Begin(o, fx, p, v.parameters));
    RestCount(o, Begin(o, fx, p, v.parameters));
  }

  lemma {:induction false} RestCount(o: Output, r: Render)
    requires RenderOk(r)
    ensures Samples(Rest(o, r)) == r.count - r.written
    decreases Measure(r)
  {
    if Done(r) {
    } else if r.written < NextEnd(r) {
      hide StepEnd, Steps, EffectOk, NextEnd;
      SampleRun(o, r);
      RestCount(o, AfterSample(o, r));
      SampleFirst(SampleOf(o, r), Rest(o, AfterSample(o, r)), 0, 0);
    } else {
      TurnRun(r);
      RestCount(o, AfterTurn(r));
      hide StepEnd, Steps, EffectOk, NextEnd, AfterTurn, TurnCalls;
      CallsInTurn(r, 0, 0);
      SamplesConcat(TurnCalls(r), Rest(o, AfterTurn(r)));
    }
  }

  /** The effect after the one at e: the sequence starts over if its first effect has a
      negative duration and nobody is waiting to play another; -1 for none. */
  function Next(effects: seq<SoundEffect>, e: int, waiting: bool): (r: int)
    requires -1 <= e < |effects|
    ensures -1 <= r < |effects|
  {
    if e + 1 < |effects| then e + 1 else if effects != [] && effects[0].duration < 0.0 && !waiting then 0 else -1
  }

  /** played are the effects that follow e, and now is the one being rendered. */
  ghost predicate Follows(effects: seq<SoundEffect>, e: int, waiting: bool, played: seq<SoundEffect>, now: int)
    requires -1 <= e < |effects|
  {
    if played == [] then now == e
    else exists before :: -1 <= before < |effects| && Follows(effects, e, waiting, played[..|played| - 1], before)
                          && now == Next(effects, before, waiting) && now >= 0 && played[|played| - 1] == effects[now]
  }

  function ValueOf(e: Event): seq<bv16> { if e.Sample? then [e.value] else [] }

  function Values(trace: seq<Event>): seq<bv16>
  {
    if trace == [] then [] else ValueOf(trace[0]) + Values(trace[1..])
  }

  lemma Associate(a: seq<bv16>, b: seq<bv16>, c: seq<bv16>)
    ensures a + b + c == a + (b + c)
  {}

  lemma {:induction false} ValuesConcat(s: seq<Event>, t: seq<Event>)
    ensures Values(s + t) == Values(s) + Values(t)
  {
    hide ValueOf;
    if s == [] {
      assert s + t == t;
    } else {
      ValuesConcat(s[1..], t);
      var u := s + t;
      assert u[0] == s[0] && u[1..] == s[1..] + t;
      assert Values(u) == ValueOf(u[0]) + Values(u[1..]) && Values(s) == ValueOf(s[0]) + Values(s[1..]);
      Associate(ValueOf(s[0]), Values(s[1..]), Values(t));
    }
  }

  lemma NoValues(r: Render)
    requires SoundOk(r.fx) && |r.step| == TONE_EFFECTS
    ensures Values(Calls(r, 0) + Calls(r, 1) + Calls(r, 2)) == []
  {
    ValuesConcat(Calls(r, 0) + Calls(r, 1), Calls(r, 2));
    ValuesConcat(Calls(r, 0), Calls(r, 1));
    hide Due;
  }

  // ----- independence of the buffer size

  function Concat(traces: seq<seq<Event>>): seq<Event>
  {
    if traces == [] then [] else Concat(traces[..|traces| - 1]) + traces[|traces| - 1]
  }

  lemma OneMoreTrace(traces: seq<seq<Event>>, trace: seq<Event>)
    ensures Concat(traces + [trace]) == Concat(traces) + trace
            && (trace == [] ==> Concat(traces + [trace]) == Concat(traces))
  {
    assert (traces + [trace])[..|traces|] == traces;
  }

  /** With trace, what came out since r0 was being rendered, and with what is left of the
      current effect, the script of the effects begun since is complete. now is the effect
      being rendered, in state r; or it is negative, and the sequence has been played. */
  ghost predicate Along(o: Output, r0: Render, effects: seq<SoundEffect>, e: int, waiting: bool, trace: seq<Event>,
                        played: seq<SoundEffect>,
                        now: int, r: Render)
    requires RenderOk(r0) && 0 <= e < |effects| && (now >= 0 ==> RenderOk(r))
  {
    && AllOk(played) && trace + (if now < 0 then [] else Rest(o, r)) == Script(o, r0, played)
    && if now < 0 then PlayedAll(effects, e, waiting, played)
       else Follows(effects, e, waiting, played, now) && Final(o, r) == ScriptEnd(o, r0, played)
  }

  /** What is scripted after some effects is the script from the state they leave. */
  lemma {:induction false} ScriptSplit(o: Output, r0: Render, played: seq<SoundEffect>, trace: seq<Event>, r: Render,
                                       more: seq<SoundEffect>)
    requires RenderOk(r0) && RenderOk(r) && AllOk(played) && AllOk(more)
    requires trace + Rest(o, r) == Script(o, r0, played) && Final(o, r) == ScriptEnd(o, r0, played)
    ensures AllOk(played + more)
    ensures Script(o, r0, played + more) == trace + Script(o, r, more)
            && ScriptEnd(o, r0, played + more) == ScriptEnd(o, r, more)
  {
    hide Rest, Final, Script, ScriptEnd;
    if more == [] {
      assert played + more == played;
      ScriptBegin(o, r);
    } else {
      var n := |more| - 1;
      ScriptSplit(o, r0, played, trace, r, more[..n]);
      assert played + more == played + more[..n] + [more[n]] && more[..n] + [more[n]] == more;
      ScriptNext(o, r0, played + more[..n], more[n]);
      ScriptNext(o, r, more[..n], more[n]);
      var f := ScriptEnd(o, r, more[..n]);
      Reassociate(trace, Script(o, r, more[..n]), Rest(o, Begin(o, more[n], f.position, f.voice.parameters)));
    }
  }

  lemma Reassociate(a: seq<Event>, b: seq<Event>, c: seq<Event>)
    ensures a + b + c == a + (b + c)
  {}

  lemma {:induction false} FollowsOn(effects: seq<SoundEffect>, e: int, waiting: bool, played: seq<SoundEffect>,
                                     now: int, more: seq<SoundEffect>, last: int)
    requires -1 <= e < |effects| && Follows(effects, e, waiting, played, now) && -1 <= now < |effects|
             && Follows(effects, now, waiting, more, last)
    ensures Follows(effects, e, waiting, played + more, last)
  {
    if more == [] {
      assert played + more == played;
    } else {
      var n := |more| - 1;
      var before :| -1 <= before < |effects| && Follows(effects, now, waiting, more[..n], before)
                    && last == Next(effects, before, waiting) && last >= 0 && more[n] == effects[last];
      FollowsOn(effects, e, waiting, played, now, more[..n], before);
      assert (played + more)[..|played + more| - 1] == played + more[..n];
    }
  }

  /** A pull that takes up where others left off goes along the same script. */
  lemma AlongJoin(o: Output, r0: Render, effects: seq<SoundEffect>, e: int, waiting: bool, trace: seq<Event>,
                  played: seq<SoundEffect>,
                  now: int, r: Render, trace2: seq<Event>, played2: seq<SoundEffect>, now2: int, r2: Render)
    requires RenderOk(r0) && 0 <= e < |effects| && 0 <= now < |effects| && RenderOk(r) && (now2 >= 0 ==> RenderOk(r2))
    requires Along(o, r0, effects, e, waiting, trace, played, now, r)
    requires Along(o, r, effects, now, waiting, trace2, played2, now2, r2)
    ensures Along(o, r0, effects, e, waiting, trace + trace2, played + played2, now2, r2)
  {
    hide Rest, Final, Script, ScriptEnd, Follows;
    ScriptSplit(o, r0, played, trace, r, played2);
    Reassociate(trace, trace2, if now2 < 0 then [] else Rest(o, r2));
    if now2 < 0 {
      var last :| -1 <= last < |effects| && Follows(effects, now, waiting, played2, last)
          && Next(effects, last, waiting) < 0;
      FollowsOn(effects, e, waiting, played, now, played2, last);
    } else {
      FollowsOn(effects, e, waiting, played, now, played2, now2);
    }
  }

  /** Which effects follow is determined, but for how many. */
  lemma {:induction false} FollowsUnique(effects: seq<SoundEffect>, e: int, waiting: bool, p: seq<SoundEffect>, a: int,
                                         q: seq<SoundEffect>, b: int)
    requires -1 <= e < |effects| && Follows(effects, e, waiting, p, a) && Follows(effects, e, waiting, q, b)
             && |p| <= |q|
    requires -1 <= a < |effects| && -1 <= b < |effects|
    ensures p <= q && (|p| == |q| ==> a == b) && (|p| < |q| ==> Next(effects, a, waiting) >= 0)
  {
    if |p| < |q| {
      var b' :| -1 <= b' < |effects| && Follows(effects, e, waiting, q[..|q| - 1], b')
          && b == Next(effects, b', waiting) && b >= 0;
      FollowsUnique(effects, e, waiting, p, a, q[..|q| - 1], b');
    } else if p != [] {
      var n := |p| - 1;
      var a' :| -1 <= a' < |effects| && Follows(effects, e, waiting, p[..n], a') && a == Next(effects, a', waiting)
          && a >= 0 && p[n] == effects[a];
      var b' :| -1 <= b' < |effects| && Follows(effects, e, waiting, q[..n], b') && b == Next(effects, b', waiting)
          && b >= 0 && q[n] == effects[b];
      FollowsUnique(effects, e, waiting, p[..n], a', q[..n], b');
      assert p == p[..n] + [p[n]] && q == q[..n] + [q[n]];
    }
  }

  lemma {:induction false} ScriptPrefix(o: Output, r: Render, p: seq<SoundEffect>, q: seq<SoundEffect>)
    requires RenderOk(r) && AllOk(q) && p <= q
    ensures AllOk(p) && Script(o, r, p) <= Script(o, r, q)
  {
    hide Script, ScriptEnd, Rest, Final;
    if |p| < |q| {
      var n := |q| - 1;
      PrefixShorter(p, q, n);
      ScriptPrefix(o, r, p, q[..n]);
      ScriptNext(o, r, q[..n], q[n]);
    } else {
      assert p == q;
    }
  }

  lemma PrefixShorter(p: seq<SoundEffect>, q: seq<SoundEffect>, n: nat)
    requires p <= q && |p| <= n && n + 1 == |q|
    ensures p <= q[..n] && q[..n] + [q[n]] == q && (AllOk(q) ==> AllOk(q[..n]) && AllOk(p) && SoundOk(q[n]))
  {
    hide SoundOk;
  }

  lemma Played(effects: seq<SoundEffect>, e: int, waiting: bool, played: seq<SoundEffect>, now: int) returns (last: int)
    requires 0 <= e < |effects| && now < |effects|
    requires if now < 0 then PlayedAll(effects, e, waiting, played) else Follows(effects, e, waiting, played, now)
    ensures -1 <= last < |effects| && Follows(effects, e, waiting, played, last)
    ensures now < 0 ==> Next(effects, last, waiting) < 0
  {
    if now >= 0 {
      last := now;
    } else {
      last :| -1 <= last < |effects| && Follows(effects, e, waiting, played, last) && Next(effects, last, waiting) < 0;
    }
  }

  /** However a sequence is split into buffers, across effects and over its repetitions, the
      same samples and calls come out in the same order: of two runs of pulls, one has got no
      further than the other. Two runs to the end have come out the same. */
  lemma BufferIndependence(o: Output, r0: Render, effects: seq<SoundEffect>, e: int, waiting: bool,
                           trace: seq<Event>, played: seq<SoundEffect>, now: int, r: Render,
                           trace': seq<Event>, played': seq<SoundEffect>, now': int, r': Render)
    requires RenderOk(r0) && 0 <= e < |effects| && now < |effects| && now' < |effects|
    requires (now >= 0 ==> RenderOk(r)) && (now' >= 0 ==> RenderOk(r'))
    requires Along(o, r0, effects, e, waiting, trace, played, now, r)
             && Along(o, r0, effects, e, waiting, trace', played', now', r')
    ensures trace <= trace' || trace' <= trace
    ensures now < 0 ==> trace' <= trace
    ensures now' < 0 ==> trace <= trace'
  {
    hide Rest, Final, Script, ScriptEnd, Follows, Along, Next;
    var last := AlongScript(o, r0, effects, e, waiting, trace, played, now, r);
    var last' := AlongScript(o, r0, effects, e, waiting, trace', played', now', r');
    if |played| <= |played'| {
      FollowsUnique(effects, e, waiting, played, last, played', last');
      ScriptPrefix(o, r0, played, played');
      PrefixesCompare(trace, Script(o, r0, played), trace', Script(o, r0, played'));
      if |played| == |played'| {
        assert played == played';
      }
    } else {
      FollowsUnique(effects, e, waiting, played', last', played, last);
      ScriptPrefix(o, r0, played', played);
      PrefixesCompare(trace', Script(o, r0, played'), trace, Script(o, r0, played));
    }
  }

  lemma PrefixesCompare(a: seq<Event>, s: seq<Event>, b: seq<Event>, t: seq<Event>)
    requires a <= s && s <= t && b <= t
    ensures a <= t && (a <= b || b <= a)
  {}

  lemma AlongScript(o: Output, r0: Render, effects: seq<SoundEffect>, e: int, waiting: bool, trace: seq<Event>,
                    played: seq<SoundEffect>,
                    now: int, r: Render) returns (last: int)
    requires RenderOk(r0) && 0 <= e < |effects| && now < |effects| && (now >= 0 ==> RenderOk(r))
    requires Along(o, r0, effects, e, waiting, trace, played, now, r)
    ensures AllOk(played) && trace <= Script(o, r0, played)
    ensures -1 <= last < |effects| && Follows(effects, e, waiting, played, last)
    ensures now < 0 ==> Next(effects, last, waiting) < 0 && trace == Script(o, r0, played)
  {
    hide Rest, Final, Script, ScriptEnd, Follows, Next;
    last := Played(effects, e, waiting, played, now);
    assert trace + [] == trace;
  }

  class SoundEmojiSynthesizer {
    const output: Output
    const silence: bv16
    const silenceAsEmpty: bool
    var effectBuffer: seq<SoundEffect>
    var effect: int              // index in effectBuffer; -1 while there is nothing to play
    var samplesToWrite: nat
    var samplesWritten: nat
    var position: real
    var voice: Voice
    var step: seq<nat>

    constructor (output: Output, silence: bv16, silenceAsEmpty: bool)
      ensures Valid() && effect == -1 && this.output == output && this.silence == silence
              && this.silenceAsEmpty == silenceAsEmpty
    {
      this.output, this.silence, this.silenceAsEmpty := output, silence, silenceAsEmpty;
      effectBuffer, effect, samplesToWrite, samplesWritten, position := [], -1, 0, 0, 0.0;
      voice, step := Voice(0.0, 0.0, []), [0, 0, 0];
    }

    function State(): Render
      requires 0 <= effect < |effectBuffer|
      reads this
    {
      Render(effectBuffer[effect], samplesToWrite, samplesWritten, position, voice, step)
    }

    ghost predicate Busy()
      reads this
    {
      AllOk(effectBuffer) && 0 <= effect < |effectBuffer| && RenderOk(State())
          && (samplesWritten == samplesToWrite ==> Done(State()))
    }

    ghost predicate Valid()
      reads this
    {
      Busy() || (effect == -1 && effectBuffer == [] && samplesWritten == samplesToWrite == 0)
    }

    /** What is left of the current effect. */
    ghost function Remaining(): seq<Event>
      requires Valid()
      reads this
    {
      if effect < 0 then [] else Rest(output, State())
    }

    /** The current effect is at its very start, and nothing else has changed. */
    ghost predicate EffectBegun(position0: real, voice0: Voice)
      requires 0 <= effect < |effectBuffer|
      reads this
    {
      var fx := effectBuffer[effect];
      var ms := if fx.duration < 0.0 then -fx.duration else fx.duration;
      && samplesToWrite == (output.sampleRate as real * (ms / 1000.0)).Floor
      && samplesWritten == 0 && step == [0, 0, 0] && position == position0
      && voice.frequency == fx.frequency && voice.volume == fx.volume && voice.parameters == voice0.parameters
    }

    /** Moves on to the next effect, if there is one. The result tells that the last effect of
        a sequence is over. */
    method NextSoundEffect(waiting: bool) returns (renderComplete: bool)
      requires AllOk(effectBuffer) && -1 <= effect < |effectBuffer|
      modifies this
      ensures Valid() && var next := Next(old(effectBuffer), old(effect), waiting);
              if next < 0 then effect == -1
              else && effect == next && effectBuffer == old(effectBuffer)
                   && State() == Begin(output, effectBuffer[next], old(position), old(voice.parameters))
      ensures effect == (if old(effect) + 1 < |old(effectBuffer)| then old(effect) + 1
                         else if old(effectBuffer) != [] && old(effectBuffer)[0].duration < 0.0 && !waiting then 0
                         else -1)
      ensures effect >= 0 ==> effectBuffer == old(effectBuffer) && EffectBegun(old(position), old(voice))
      ensures effect < 0 ==> effectBuffer == [] && samplesWritten == samplesToWrite == 0 && position == 0.0
      ensures renderComplete <==> effect < 0 && old(effect) >= 0
    {
      hide RenderOk, Done, SoundOk;
      var hadEffect := effect >= 0;
      effect := effect + 1;
      if effect >= |effectBuffer| {
        if effectBuffer == [] || effectBuffer[0].duration >= 0.0 || waiting {
          effect, effectBuffer := -1, [];
          samplesWritten, samplesToWrite, position := 0, 0, 0.0;
          return hadEffect;
        }
        effect := 0;
      }
      var fx := effectBuffer[effect];
      BeginOk(output, fx, position, voice.parameters);
      samplesToWrite := SampleCount(output, fx.duration);
      voice := Voice(fx.frequency, fx.volume, voice.parameters);
      samplesWritten := 0;
      step := [0, 0, 0];
      return false;
    }

    /** Schedules a sequence of effects; playing has to be over. */
    method Play(sound: seq<SoundEffect>)
      requires Valid() && effect == -1 && sound != [] && AllOk(sound)
      modifies this
      ensures Valid() && effect == 0 && effectBuffer == sound
              && State() == Begin(output, sound[0], old(position), old(voice.parameters))
              && EffectBegun(old(position), old(voice))
    {
      effectBuffer := sound;
      var r := NextSoundEffect(false);
    }

    method WrapPosition()
      modifies this`position
      ensures position == Wrap(old(position))
    {
      while position > TONE_WIDTH
        invariant Wrap(position) == Wrap(old(position))
        decreases position.Floor
      {
        position := position - TONE_WIDTH;
      }
    }

    /** The state to continue from; of no meaning while there is nothing to play. */
    ghost function Current(): Render
      requires Valid()
      reads this
    {
      if effect < 0 then Render(SoundEffect(0.0, 0.0, 0.0, x => x, []), 0, 0, 0.0, voice, []) else State()
    }

    /** The pulls since r0 was being rendered have gone along the script of the sequence. */
    ghost predicate Tracks(r0: Render, effects: seq<SoundEffect>, e: int, waiting: bool, trace: seq<Event>,
                           played: seq<SoundEffect>)
      requires Valid() && RenderOk(r0) && 0 <= e < |effects|
      reads this
    {
      Along(output, r0, effects, e, waiting, trace, played, effect, Current())
          && (effect >= 0 ==> effectBuffer == effects)
    }

    /** A buffer of the given size that holds the samples of a trace, and silence behind them; or
        an empty one, if there are none and silence is to be so. */
    ghost predicate Padded(buffer: seq<bv16>, bufferSize: nat, trace: seq<Event>)
    {
      && Values(trace) <= buffer && (forall i :: |Values(trace)| <= i < |buffer| ==> buffer[i] == silence)
      && |buffer| == if silenceAsEmpty && Values(trace) == [] then 0 else bufferSize
    }

    /** Any number of pulls, of any sizes: what comes out of them together goes along the script. */
    method PullAll(bufferSizes: seq<nat>, waiting: bool)
      returns (buffers: seq<seq<bv16>>, ghost traces: seq<seq<Event>>, ghost played: seq<SoundEffect>)
      requires Busy()
      modifies this
      ensures Valid() && |buffers| == |traces| == |bufferSizes|
      ensures forall k :: 0 <= k < |buffers| ==> Padded(buffers[k], bufferSizes[k], traces[k])
      ensures Tracks(old(State()), old(effectBuffer), old(effect), waiting, Concat(traces), played)
    {
      ghost var r0, effects, e := State(), effectBuffer, effect;
      hide StepEnd, Steps, EffectOk, NextEnd, Rest, Final, Script, ScriptEnd, Follows, PlayedAll, RenderOk, Along,
           Values;
      buffers, traces, played := [], [], [];
      AlongItself(output, r0, effects, e, waiting);
      while |buffers| < |bufferSizes|
        invariant Valid() && |buffers| == |traces| <= |bufferSizes| && RenderOk(r0) && 0 <= e < |effects|
        invariant forall k :: 0 <= k < |buffers| ==> Padded(buffers[k], bufferSizes[k], traces[k])
        invariant Tracks(r0, effects, e, waiting, Concat(traces), played)
      {
        ghost var now, r := effect, Current();
        var buffer, part, more := Pull(bufferSizes[|buffers|], waiting);
        OneMoreTrace(traces, part);
        if now >= 0 {
          AlongJoin(output, r0, effects, e, waiting, Concat(traces), played, now, r, part, more, effect, Current());
          played := played + more;
        }
        traces, buffers := traces + [part], buffers + [buffer];
      }
    }

    /** Fills a buffer: rendering goes on from where it was, through as many effects as it
        takes. played are the effects that were begun. */
    method Pull(bufferSize: nat, waiting: bool) returns (buffer: seq<bv16>, ghost trace: seq<Event>,
                                                         ghost played: seq<SoundEffect>)
      requires Valid()
      modifies this
      ensures Valid() && Padded(buffer, bufferSize, trace)
      ensures old(effect) < 0 ==> trace == [] && played == [] && effect < 0
      ensures old(effect) >= 0 ==> Tracks(old(State()), old(effectBuffer), old(effect), waiting, trace, played)
      ensures effect >= 0 && samplesToWrite > 0 ==> buffer == Values(trace) && |buffer| == bufferSize
    {
      if effect < 0 {
        trace, played := [], [];
        var r := NextSoundEffect(waiting);
        buffer := if silenceAsEmpty then [] else seq(bufferSize, i => silence);
        return;
      }
      var created;
      created, buffer, trace, played := PullEffects(bufferSize, waiting);
      if created {
        buffer := buffer + seq(bufferSize - |buffer|, i => silence);
      }
    }

    /** The loop of pull while there is something to play. */
    method PullEffects(bufferSize: nat, waiting: bool) returns (created: bool, buffer: seq<bv16>,
          ghost trace: seq<Event>, ghost played: seq<SoundEffect>)
      requires Busy()
      modifies this
      ensures Valid() && buffer == Values(trace) && |buffer| <= bufferSize
      ensures if silenceAsEmpty && bufferSize > 0 then created <==> buffer != [] else created || buffer == []
      ensures !silenceAsEmpty ==> created
      ensures effect >= 0 && samplesToWrite > 0 ==> |buffer| == bufferSize
      ensures Tracks(old(State()), old(effectBuffer), old(effect), waiting, trace, played)
    {
      trace, played, buffer, created := [], [], [], false;
      var done := false;
      ghost var e, effects, r0 := effect, effectBuffer, State();
      ScriptBegin(output, r0);
      assert Tracks(r0, effects, e, waiting, trace, played);
      hide StepEnd, Steps, EffectOk, NextEnd, Rest, Final, Script, ScriptEnd, Follows, PlayedAll;
      while !done
        invariant Valid() && buffer == Values(trace) && |buffer| <= bufferSize && (effect < 0 ==> done)
        invariant if silenceAsEmpty && bufferSize > 0 then created <==> buffer != [] else created || buffer == []
        invariant Tracks(r0, effects, e, waiting, trace, played)
        invariant done ==> (created || silenceAsEmpty) && (effect >= 0 ==> samplesToWrite == 0)
        decreases !done, bufferSize - |buffer|
      {
        if samplesWritten == samplesToWrite {
          played := Advance(waiting, r0, effects, e, trace, played);
          if samplesToWrite == 0 {
            done := true;
          }
        }
        if samplesWritten < samplesToWrite || !silenceAsEmpty {
          created := true;
        }
        var full := false;
        if effect >= 0 {
          full, buffer, trace := GoOn(bufferSize, buffer, r0, effects, e, waiting, trace, played);
        }
        if full {
          return;
        }
      }
    }

    /** nextSoundEffect, when the current effect is over. */
    method Advance(waiting: bool, ghost r0: Render, ghost effects: seq<SoundEffect>, ghost e: int,
                   ghost trace: seq<Event>, ghost played: seq<SoundEffect>)
      returns (ghost played': seq<SoundEffect>)
      requires Busy() && Done(State()) && RenderOk(r0) && 0 <= e < |effects|
               && Tracks(r0, effects, e, waiting, trace, played)
      modifies this
      ensures Valid() && Tracks(r0, effects, e, waiting, trace, played') && (effect >= 0 ==> samplesWritten == 0)
              && (effect < 0 ==> samplesWritten == samplesToWrite == 0)
    {
      NothingLeft(output, State());
      ghost var f, last, fxs := State(), effect, effectBuffer;
      assert trace + [] == trace;
      hide StepEnd, Steps, EffectOk, NextEnd, Rest, Final, Done, AfterTurn, TurnCalls;
      var r := NextSoundEffect(waiting);
      if effect >= 0 {
        played' := played + [effectBuffer[effect]];
        ScriptNext(output, r0, played, effectBuffer[effect]);
        FollowsNext(effects, e, waiting, played, last, effect);
      } else {
        played' := played;
        assert trace + Remaining() == trace;
      }
    }

    method GoOn(bufferSize: nat, buffer: seq<bv16>, ghost r0: Render, ghost effects: seq<SoundEffect>, ghost e: int,
                ghost waiting: bool, ghost trace: seq<Event>, ghost played: seq<SoundEffect>)
      returns (full: bool, b: seq<bv16>, ghost trace': seq<Event>)
      requires Busy() && |buffer| <= bufferSize && buffer == Values(trace)
      requires RenderOk(r0) && 0 <= e < |effects| && Tracks(r0, effects, e, waiting, trace, played)
      modifies this`samplesWritten, this`position, this`voice, this`step
      ensures |b| - |buffer| == samplesWritten - old(samplesWritten)
      ensures Busy() && |buffer| <= |b| <= bufferSize && b == Values(trace')
              && Tracks(r0, effects, e, waiting, trace', played)
      ensures full ==> |b| == bufferSize && samplesWritten < samplesToWrite
      ensures !full ==> samplesWritten == samplesToWrite && (old(samplesWritten < samplesToWrite) ==> |b| > |buffer|)
    {
      hide StepEnd, Steps, EffectOk, NextEnd, Rest, Final, Done, AfterTurn, TurnCalls, Script, ScriptEnd, Follows;
      ghost var part;
      full, b, part := RenderEffect(bufferSize, buffer);
      trace' := trace + part;
      ValuesConcat(trace, part);
      assert trace' + Remaining() == trace + (part + Rest(output, State()));
    }

    /** Calls the effect functions that are due. */
    method RunEffects()
      requires 0 <= effect < |effectBuffer| && SoundOk(effectBuffer[effect]) && |step| == TONE_EFFECTS
      modifies this`voice, this`step
      ensures State() == AfterTurn(old(State()))
      ensures Sounds(output, effectBuffer[effect], old(voice), position, TurnCalls(old(State())), voice, position)
    {
      ghost var r := State();
      var effectStepEnd := [End(State(), 0), End(State(), 1), End(State(), 2)];
      var fx := effectBuffer[effect];
      var i := 0;
      hide StepEnd, Steps, Sounds, TurnCalls;
      while i < TONE_EFFECTS
        invariant 0 <= i <= TONE_EFFECTS && |step| == TONE_EFFECTS && State() == AfterFirst(r, i)
      {
        EffectSame(r, AfterFirst(r, i), i);
        if samplesWritten == effectStepEnd[i] {
          if step[i] < Steps(fx, i) {
            if fx.effects[i].active {
              voice := fx.effects[i].apply(voice, step[i]);
            }
            step := step[i := step[i] + 1];
          }
        }
        i := i + 1;
      }
      AllEffects(r);
      TurnSounds(output, r);
      TurnPosition(r);
    }

    /** Renders the current effect until it is over or the buffer is full. */
    method RenderEffect(bufferSize: nat, buffer: seq<bv16>) returns (full: bool, b: seq<bv16>, ghost trace: seq<Event>)
      requires Busy() && |buffer| <= bufferSize
      modifies this`samplesWritten, this`position, this`voice, this`step
      ensures Busy() && |buffer| <= |b| <= bufferSize && b == buffer + Values(trace)
      ensures |b| - |buffer| == samplesWritten - old(samplesWritten)
      ensures trace + Rest(output, State()) == old(Rest(output, State()))
              && Final(output, State()) == old(Final(output, State()))
      ensures full ==> |b| == bufferSize && samplesWritten < samplesToWrite
      ensures !full ==>
                && Done(State()) && samplesWritten == samplesToWrite
                && (old(samplesWritten < samplesToWrite) ==> |b| > |buffer|)
    {
      b, trace := buffer, [];
      assert trace + Rest(output, State()) == Rest(output, State());
      ghost var written := samplesWritten;
      hide StepEnd, Steps, EffectOk, NextEnd, Rest, Final, Done, AfterTurn, TurnCalls;
      while samplesWritten < samplesToWrite
        invariant Busy() && |b| <= bufferSize && b == buffer + Values(trace)
        invariant trace + Rest(output, State()) == old(Rest(output, State()))
                  && Final(output, State()) == old(Final(output, State()))
        invariant |b| - |buffer| == samplesWritten - written && written <= samplesWritten
        decreases Measure(State())
      {
        full, b, trace := RenderStep(bufferSize, b, trace, buffer);
        if full {
          return;
        }
      }
      full := false;
    }

    /** One turn: samples up to the end of a step, then the calls that are due there. */
    method RenderStep(bufferSize: nat, buffer: seq<bv16>, ghost trace0: seq<Event>, ghost buffer0: seq<bv16>)
      returns (full: bool, b: seq<bv16>, ghost trace: seq<Event>)
      requires Busy() && |buffer| <= bufferSize && samplesWritten < samplesToWrite && buffer == buffer0 + Values(trace0)
      modifies this`samplesWritten, this`position, this`voice, this`step
      ensures Busy() && |b| <= bufferSize && b == buffer0 + Values(trace)
              && |b| - |buffer| == samplesWritten - old(samplesWritten) >= 0
      ensures trace + Rest(output, State()) == trace0 + old(Rest(output, State()))
              && Final(output, State()) == old(Final(output, State()))
      ensures full ==> |b| == bufferSize && samplesWritten < samplesToWrite
      ensures !full ==> Measure(State()) < old(Measure(State()))
    {
      hide StepEnd, Steps, EffectOk, NextEnd, Rest, Final, Done, AfterTurn, TurnCalls, Values;
      ghost var part, r0 := [], State();
      full, b, part := WriteSamples(NextEnd(State()), bufferSize, buffer);
      trace := trace0 + part;
      ValuesConcat(trace0, part);
      assert trace + Rest(output, State()) == trace0 + (part + Rest(output, State()));
      if full {
        return;
      }
      StillToDo(r0, State());
      TurnStep(output, State(), trace);
      trace := trace + TurnCalls(State());
      RunEffects();
    }

    /** Writes samples up to the end of the effect step, or of the buffer. */
    method WriteSamples(stepEndPosition: nat, bufferSize: nat, buffer: seq<bv16>) returns (full: bool, b: seq<bv16>,
        ghost trace: seq<Event>)
      requires 0 <= effect < |effectBuffer| && RenderOk(State()) && stepEndPosition == NextEnd(State())
               && |buffer| <= bufferSize
      requires samplesWritten < samplesToWrite
      modifies this`samplesWritten, this`position
      ensures RenderOk(State()) && samplesWritten >= old(samplesWritten)
      ensures trace + Rest(output, State()) == old(Rest(output, State()))
              && Final(output, State()) == old(Final(output, State()))
      ensures b == buffer + Values(trace) && |b| <= bufferSize && |b| - |buffer| == samplesWritten - old(samplesWritten)
      ensures full ==> |b| == bufferSize && samplesWritten < samplesToWrite
      ensures !full ==> samplesWritten == NextEnd(State()) == stepEndPosition
    {
      hide EffectOk, Done, Rest, Final, Wrap, Skip, NextEnd, SampleOf, AfterSample, Values, Measure;
      b, trace := buffer, [];
      NothingOut(buffer, Rest(output, State()));
      NextEndReached(State());
      while samplesWritten < stepEndPosition
        invariant RenderOk(State()) && stepEndPosition == NextEnd(State())
                  && old(samplesWritten) <= samplesWritten <= stepEndPosition
        invariant |b| <= bufferSize && b == buffer + Values(trace)
                  && |b| - |buffer| == samplesWritten - old(samplesWritten)
        invariant trace + Rest(output, State()) == old(Rest(output, State()))
                  && Final(output, State()) == old(Final(output, State()))
      {
        if |b| == bufferSize {
          NextEndBound(State());
          return true, b, trace;
        }
        SampleStep(output, State(), trace, buffer);
        var sample := WriteSample();
        b := b + [sample];
        trace := trace + [Sample(sample)];
      }
      full := false;
    }

    /** One sample of the tone, and on to the next position. */
    method WriteSample() returns (sample: bv16)
      requires 0 <= effect < |effectBuffer|
      modifies this`samplesWritten, this`position
      ensures sample == SampleOf(output, old(State())) && State() == AfterSample(output, old(State()))
      ensures samplesWritten == old(samplesWritten) + 1
    {
      hide Wrap, Skip;
      sample := SampleOf(output, State());
      samplesWritten := samplesWritten + 1;
      position := position + Skip(output, voice.frequency);
      WrapPosition();
    }
  }

  /** The state after the first n effects of a turn. */
  function AfterFirst(r: Render, n: nat): (r': Render)
    requires SoundOk(r.fx) && |r.step| == TONE_EFFECTS && n <= TONE_EFFECTS
    ensures SoundOk(r'.fx) && |r'.step| == TONE_EFFECTS && (r'.fx, r'.count, r'.written) == (r.fx, r.count, r.written)
    ensures forall i :: n <= i < TONE_EFFECTS ==> r'.step[i] == r.step[i]
  {
    if n == 0 then r else AfterEffect(AfterFirst(r, n - 1), n - 1)
  }

  lemma AllEffects(r: Render)
    requires SoundOk(r.fx) && |r.step| == TONE_EFFECTS
    ensures AfterFirst(r, TONE_EFFECTS) == AfterTurn(r)
  {
    assert AfterFirst(r, 1) == AfterEffect(r, 0);
    assert AfterFirst(r, 2) == AfterEffect(AfterFirst(r, 1), 1);
    assert AfterFirst(r, 3) == AfterEffect(AfterFirst(r, 2), 2);
    hide AfterEffect;
  }

  /** A turn moves its calls from what is left to the trace. */
  lemma TurnStep(o: Output, r: Render, trace: seq<Event>)
    requires RenderOk(r) && !Done(r) && r.written == NextEnd(r)
    ensures var r' := AfterTurn(r);
            && RenderOk(r') && Measure(r') < Measure(r) && r'.written == r.written
            && trace + TurnCalls(r) + Rest(o, r') == trace + Rest(o, r) && Final(o, r') == Final(o, r)
            && Values(trace + TurnCalls(r)) == Values(trace)
            && (r'.written == r'.count ==> Done(r'))
  {
    hide EffectOk, AfterTurn, TurnCalls, Due, Done, NextEnd, Rest, Final, Measure, Values, Calls;
    TurnRun(r);
    NoValues(r);
    ValuesConcat(trace, TurnCalls(r));
    LastTurn(r);
    TurnRest(o, r);
    Reassociate(trace, TurnCalls(r), Rest(o, AfterTurn(r)));
  }

  lemma TurnRest(o: Output, r: Render)
    requires RenderOk(r) && !Done(r) && r.written == NextEnd(r)
    ensures var r' := AfterTurn(r);
            RenderOk(r') && Rest(o, r) == TurnCalls(r) + Rest(o, r') && Final(o, r') == Final(o, r)
  {
    hide AfterTurn, TurnCalls, EffectOk, NextEnd, Done;
    TurnRun(r);
  }

  /** At the end of the effect every effect has its last step due. */
  lemma LastTurn(r: Render)
    requires RenderOk(r) && !Done(r) && r.written == NextEnd(r)
    ensures r.written == r.count ==> Done(AfterTurn(r))
  {
    TurnRun(r);
    if r.written == r.count {
      LastStep(r, 0);
      LastStep(r, 1);
      LastStep(r, 2);
      hide StepEnd, Steps, AfterTurn, End;
    }
  }

  lemma LastStep(r: Render, i: nat)
    requires RenderOk(r) && i < TONE_EFFECTS && r.written == r.count > 0
    ensures r.step[i] + (if Due(r, i) then 1 else 0) == Steps(r.fx, i)
  {
    assert EffectOk(r, i);
    var n, k := Steps(r.fx, i), r.step[i];
    if k < n - 1 {
      EarlyEnd(r.count, n, k);
    }
  }

  /** Only the last step ends at the end. */
  lemma EarlyEnd(count: nat, steps: nat, k: nat)
    requires steps > 0 && count > 0 && k < steps - 1
    ensures StepEnd(count, steps, k) < count
  {
    TimesAtMost(k + 1, steps, count);
    assert count * (k + 1) == count * k + count;
    QuotientBelow(count * k, steps, count);
  }

  lemma QuotientBelow(a: nat, d: nat, c: nat)
    requires d > 0 && a < c * d
    ensures a / d < c
  {
    Euclid(a, d);
    TimesOrdered(c, a / d, d);
  }

  /** Before the end of the effect, no effect has taken its last step. */
  lemma StillToDo(r0: Render, r: Render)
    requires RenderOk(r0) && r0.written < r0.count && (r.fx, r.count, r.step) == (r0.fx, r0.count, r0.step)
    ensures !Done(r)
  {}

  /** Nothing has come out yet. */
  lemma AlongItself(o: Output, r: Render, effects: seq<SoundEffect>, e: int, waiting: bool)
    requires RenderOk(r) && 0 <= e < |effects|
    ensures Along(o, r, effects, e, waiting, [], [], e, r)
  {
    ScriptBegin(o, r);
    hide Rest, Final, Script, ScriptEnd;
  }

  lemma NothingOut(buffer: seq<bv16>, rest: seq<Event>)
    ensures buffer == buffer + Values([]) && [] + rest == rest
  {}

  lemma ScriptBegin(o: Output, r: Render)
    requires RenderOk(r)
    ensures Script(o, r, []) == Rest(o, r) && ScriptEnd(o, r, []) == Final(o, r) && [] + Rest(o, r) == Rest(o, r)
  {}

  lemma NothingLeft(o: Output, r: Render)
    requires RenderOk(r) && Done(r)
    ensures Rest(o, r) == [] && Final(o, r) == r
  {}

  /** One more effect is begun. */
  lemma ScriptNext(o: Output, r: Render, played: seq<SoundEffect>, fx: SoundEffect)
    requires RenderOk(r) && AllOk(played) && SoundOk(fx)
    ensures var f := ScriptEnd(o, r, played); var b := Begin(o, fx, f.position, f.voice.parameters);
            && AllOk(played + [fx]) && RenderOk(b)
            && Script(o, r, played + [fx]) == Script(o, r, played) + Rest(o, b)
            && ScriptEnd(o, r, played + [fx]) == Final(o, b)
  {
    var f := ScriptEnd(o, r, played);
    BeginOk(o, fx, f.position, f.voice.parameters);
    assert (played + [fx])[..|played|] == played;
  }

  lemma FollowsNext(effects: seq<SoundEffect>, e: int, waiting: bool, played: seq<SoundEffect>, last: int, next: int)
    requires -1 <= e < |effects| && Follows(effects, e, waiting, played, last) && -1 <= last < |effects|
    requires next == Next(effects, last, waiting) >= 0
    ensures Follows(effects, e, waiting, played + [effects[next]], next)
  {
    assert (played + [effects[next]])[..|played|] == played;
  }

  /** The effects played are all there are: none follows the last. */
  ghost predicate PlayedAll(effects: seq<SoundEffect>, e: int, waiting: bool, played: seq<SoundEffect>)
    requires -1 <= e < |effects|
  {
    exists last :: -1 <= last < |effects| && Follows(effects, e, waiting, played, last)
        && Next(effects, last, waiting) < 0
  }

  lemma NextEndBound(r: Render)
    requires RenderOk(r)
    ensures NextEnd(r) <= r.count
  {}

  lemma NextEndReached(r: Render)
    requires RenderOk(r)
    ensures r.written <= NextEnd(r)
  {}

  /** One sample moves from what is left to the trace. */
  lemma SampleStep(o: Output, r: Render, trace: seq<Event>, buffer: seq<bv16>)
    requires RenderOk(r) && r.written < NextEnd(r)
    ensures var r' := AfterSample(o, r); var v := SampleOf(o, r);
            && RenderOk(r') && NextEnd(r') == NextEnd(r)
            && trace + [Sample(v)] + Rest(o, r') == trace + Rest(o, r) && Final(o, r') == Final(o, r)
            && buffer + Values(trace + [Sample(v)]) == buffer + Values(trace) + [v]
  {
    hide Rest, Final, RenderOk, AfterSample, SampleOf, NextEnd, Values, ValueOf;
    var v := SampleOf(o, r);
    SampleRest(o, r);
    Reassociate(trace, [Sample(v)], Rest(o, AfterSample(o, r)));
    ValuesConcat(trace, [Sample(v)]);
    OneValue(v);
  }

  lemma OneValue(v: bv16)
    ensures Values([Sample(v)]) == [v]
  {
    assert [Sample(v)][1..] == [];
  }

  lemma SampleRest(o: Output, r: Render)
    requires RenderOk(r) && r.written < NextEnd(r)
    ensures var r' := AfterSample(o, r);
            && RenderOk(r') && NextEnd(r') == NextEnd(r) && Rest(o, r) == [Sample(SampleOf(o, r))] + Rest(o, r')
            && Final(o, r') == Final(o, r)
  {
    hide End, EffectOk, Wrap, Skip, SampleOf;
    SampleRun(o, r);
    NotDoneYet(r);
  }

  lemma NotDoneYet(r: Render)
    requires RenderOk(r) && r.written < NextEnd(r)
    ensures !Done(r)
  {}
}
