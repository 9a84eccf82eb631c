/** Script checks that ConnectBlock hands to the check queue are decided as if it had run them itself. */
module ScriptQueue {
  import opened BlockRules
  import opened CheckQueueProtocol
  import opened Connecting

  /** From an idle queue, let the master add these checks in any portions and wait, while any number of workers
      interleave with it. The verdict that Wait returns is the one ConnectBlock goes by. */
  lemma WaitDecides(rules: Rules, queued: seq<ScriptCheck>, s: State, ls: seq<Label>, mid: State, l: Label)
    requires CheckQueueProtocol.Inv(s) && s.added == [] && IsRun(s, ls, mid) && mid.waits == s.waits
    requires Enabled(mid, l) && Added(ls) == Verdicts(rules, queued)
    ensures (RunsKeepInv(s, ls, mid); StepKeeps(mid, l);
             Step(mid, l).waits != mid.waits ==> Step(mid, l).verdict == AllPass(rules, queued))
  {
    hide CheckQueueProtocol.Inv;
    RoundVerdict(s, ls, mid, l);
  }
}
