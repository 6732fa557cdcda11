/** The playback driver: `setup` and `loop` of src/main.cpp as a state
    machine.

    `setup` brings up the SD card and opens the animation; if either fails
    the board idles forever (`while (1) delay(100)`), which is the terminal
    state `Halted`. Each `loop` call plays one frame and reacts to the
    integer `playFrame` returns: positive means more frames follow, zero
    means the animation ended and the decoder is rewound with `reset`,
    negative means an error, after which the animation is closed and opened
    again; if that reopen fails the board halts. */
module Player {

  /** Why the board idles: no usable SD card, or the animation could not be
      opened (at start-up or on a reopen). */
  datatype HaltReason = NoCard | NoAnimation

  datatype Player = Playing | Halted(reason: HaltReason)

  /** The reaction to one `playFrame` result: nothing, `gif.reset()`, or
      `gif.close()` followed by a fresh `initGIF()`. */
  datatype Action = Continue | Rewind | Reopen

  /** One `loop` call's inputs from the outside: what `playFrame` returned
      and, used only after an error, whether the reopen succeeded. */
  datatype Tick = Tick(result: int, reopened: bool)

  /** `setup`: the SD card is brought up first; the animation is opened only
      when that succeeded. */
  function Setup(cardReady: bool, animationOpened: bool): (p: Player)
    ensures p == Playing <==> cardReady && animationOpened
    ensures p == Halted(NoCard) <==> !cardReady
  {
    if !cardReady then Halted(NoCard)
    else if !animationOpened then Halted(NoAnimation)
    else Playing
  }

  /** The action `loop` takes for a `playFrame` result. */
  function Response(result: int): (a: Action)
    ensures a == Continue <==> result > 0
    ensures a == Rewind <==> result == 0
    ensures a == Reopen <==> result < 0
  {
    if result == 0 then Rewind
    else if result < 0 then Reopen
    else Continue
  }

  /** A tick that ends playback: an error followed by a failed reopen. */
  predicate Fatal(t: Tick) {
    t.result < 0 && !t.reopened
  }

  /** One `loop` call: the next state and the actions taken (none once
      halted, since a halted board never returns to `loop`). */
  function Step(p: Player, t: Tick): (r: (Player, seq<Action>))
    ensures p.Halted? ==> r == (p, [])
    ensures p == Playing ==> r.1 == [Response(t.result)]
    ensures p == Playing ==> (r.0 == Playing <==> !Fatal(t))
    ensures p == Playing && Fatal(t) ==> r.0 == Halted(NoAnimation)
  {
    match p
    case Halted(_) => (p, [])
    case Playing =>
      var a := Response(t.result);
      if a == Reopen && !t.reopened then (Halted(NoAnimation), [a]) else (Playing, [a])
  }

  /** A sequence of `loop` calls: the final state and every action taken. */
  function Run(p: Player, ts: seq<Tick>): (r: (Player, seq<Action>))
    ensures |r.1| <= |ts|
    decreases |ts|
  {
    if ts == [] then (p, [])
    else
      var (q, acts) := Step(p, ts[0]);
      var (final, rest) := Run(q, ts[1..]);
      (final, acts + rest)
  }

  /** The actions taken for a run of ticks while the board keeps playing. */
  function Responses(ts: seq<Tick>): (acts: seq<Action>)
    ensures |acts| == |ts|
    ensures forall i :: 0 <= i < |ts| ==> acts[i] == Response(ts[i].result)
  {
    if ts == [] then [] else [Response(ts[0].result)] + Responses(ts[1..])
  }

  /** The Arduino main loop over a finite sequence of ticks, leaving the
      loop once the board halts. */
  method Loop(p: Player, ts: seq<Tick>) returns (final: Player, acts: seq<Action>)
    ensures (final, acts) == Run(p, ts)
  {
    final := p;
    acts := [];
    var i := 0;
    assert ts[i..] == ts;
    assert acts + Run(p, ts).1 == Run(p, ts).1;
    if p.Halted? {
      HaltedStays(p, ts);
    }
    while i < |ts| && final == Playing
      invariant 0 <= i <= |ts|
      invariant final.Halted? ==> Run(final, ts[i..]) == (final, [])
      invariant Run(p, ts).0 == Run(final, ts[i..]).0
      invariant Run(p, ts).1 == acts + Run(final, ts[i..]).1
    {
      assert ts[i..][1..] == ts[i + 1..];
      var (q, a) := Step(final, ts[i]);
      var rest := Run(q, ts[i + 1..]);
      assert Run(final, ts[i..]) == (rest.0, a + rest.1);
      assert acts + (a + rest.1) == (acts + a) + rest.1;
      acts := acts + a;
      final := q;
      i := i + 1;
      if final.Halted? {
        HaltedStays(final, ts[i..]);
      }
    }
    if i < |ts| {
      HaltedStays(final, ts[i..]);
    } else {
      assert ts[i..] == [];
    }
    assert acts + [] == acts;
  }

  /** A halted board stays halted and does nothing more, whatever follows. */
  lemma {:induction false} HaltedStays(p: Player, ts: seq<Tick>)
    requires p.Halted?
    ensures Run(p, ts) == (p, [])
  {
    if ts != [] {
      HaltedStays(p, ts[1..]);
    }
  }
}
