/**
 When a state of the LALR recognizer that has not been rejected is live: exactly when no limit blocks it.  Liveness
 asks for the candidates and for acceptance; either question can run into a limit, and only then the answer is no.
 */
module LalrLiveness {
  import opened Grammars
  import opened Runtime
  import opened Lalr
  import opened LalrDriver
  import opened LalrAutomaton
  import opened LalrTermination
  import opened LalrTheorems

  // At a token boundary: the candidates cannot be had and the end is not accepted, or there are none and the end
  // cannot be settled.
  predicate Blocked(cf: Config, st: State) {
    st.candidates == [] &&
    ((StartCandidates(cf, st.stack).Failed? && !StackAccepts(cf, st)) ||
     (Settle(cf, st.stack, Eof, cf.fuel).Failed? && StartCandidates(cf, st.stack) == Done((), [])))
  }

  // Exactly when a reached state is live.
  lemma LiveUnlessBlocked(cf: Config, first: seq<set<nat>>, a: Automaton, st: State, u: seq<Token>, k: nat, v: Word)
    requires Ready(cf, first, a) && StateFor(cf, st, u, k, v)
    ensures StackLives(cf, st) <==> !Blocked(cf, st)
  {
    hide Ready, StateFor, Settle, StartCandidates;
    LiveUnlessLimited(cf, first, a, st, u, k, v);
    var start := StartCandidates(cf, st.stack);
    assert start.state == ();
  }

  // With room for one more byte nothing blocks, so the state is live.
  lemma RoomyIsLive(cf: Config, first: seq<set<nat>>, a: Automaton, st: State, u: seq<Token>, k: nat, v: Word)
    requires Ready(cf, first, a) && StateFor(cf, st, u, k, v) && Roomy(cf, st)
    ensures StackLives(cf, st)
  {
    hide Ready, Settle, Candidates, ReductionBound, StateFor, ReachedBy, TokensFor;
    StateFacts(cf, st, u, k, v);
    CandidatesSucceed(cf, st.stack, 0, []);
    SettleSucceeds(cf, first, a, st.stack, u, k, Eof);
    if Candidates(cf, st.stack, 0, []).Failed? {
      var s :| Settle(cf, st.stack, On(s), cf.fuel).Failed?
               && Settle(cf, st.stack, On(s), cf.fuel).error == Candidates(cf, st.stack, 0, []).error;
      SettleSucceeds(cf, first, a, st.stack, u, k, On(s));
    }
    LiveUnlessLimited(cf, first, a, st, u, k, v);
  }
}
