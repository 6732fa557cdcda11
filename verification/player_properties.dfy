/** Properties of the playback driver over whole runs of `loop` calls. */
module PlayerProperties {
  import opened Player

  /** A playing board ends up halted exactly when some tick was an error
      whose reopen failed; such a halt always names the animation. */
  lemma {:induction false} HaltsIffSomeReopenFails(ts: seq<Tick>)
    ensures Run(Playing, ts).0.Halted? <==> exists i :: 0 <= i < |ts| && Fatal(ts[i])
    ensures Run(Playing, ts).0 in {Playing, Halted(NoAnimation)}
  {
    if ts != [] {
      var (q, acts) := Step(Playing, ts[0]);
      if Fatal(ts[0]) {
        HaltedStays(q, ts[1..]);
      } else {
        HaltsIffSomeReopenFails(ts[1..]);
        if exists i :: 0 <= i < |ts| && Fatal(ts[i]) {
          var i :| 0 <= i < |ts| && Fatal(ts[i]);
          assert ts[1..][i - 1] == ts[i];
        }
        if exists i :: 0 <= i < |ts[1..]| && Fatal(ts[1..][i]) {
          var i :| 0 <= i < |ts[1..]| && Fatal(ts[1..][i]);
          assert ts[i + 1] == ts[1..][i];
        }
      }
    }
  }

  /** While no reopen fails, the board keeps playing and answers every
      `playFrame` result with its response: continue, rewind or reopen. */
  lemma {:induction false} PlaysThroughWithoutFatalTicks(ts: seq<Tick>)
    requires forall i :: 0 <= i < |ts| ==> !Fatal(ts[i])
    ensures Run(Playing, ts) == (Playing, Responses(ts))
  {
    if ts != [] {
      PlaysThroughWithoutFatalTicks(ts[1..]);
    }
  }

  /** The first failed reopen halts the board: every tick up to and
      including it is answered, and nothing after it is. */
  lemma {:induction false} StopsAtFirstFatalTick(ts: seq<Tick>, k: nat)
    requires k < |ts| && Fatal(ts[k])
    requires forall i :: 0 <= i < k ==> !Fatal(ts[i])
    ensures Run(Playing, ts) == (Halted(NoAnimation), Responses(ts[..k + 1]))
  {
    if k == 0 {
      HaltedStays(Halted(NoAnimation), ts[1..]);
      assert ts[..1] == [ts[0]];
    } else {
      StopsAtFirstFatalTick(ts[1..], k - 1);
      assert ts[1..][..k] == ts[..k + 1][1..];
    }
  }

  /** Ending the animation never stops playback: a run of ticks that all
      report the end of the animation rewinds once per tick. */
  lemma EndOfAnimationRewindsForever(ts: seq<Tick>)
    requires forall i :: 0 <= i < |ts| ==> ts[i].result == 0
    ensures Run(Playing, ts).0 == Playing
    ensures |Run(Playing, ts).1| == |ts|
    ensures forall i :: 0 <= i < |ts| ==> Run(Playing, ts).1[i] == Rewind
  {
    PlaysThroughWithoutFatalTicks(ts);
  }
}
