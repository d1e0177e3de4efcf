/**
 The token index of a certified byte DFA: from every state that tokens reach, the tokens that lead to a live
 state, and the state they lead to.
 */
module Indexes {
  import opened Grammars
  import opened Terminals
  import opened Tries
  import opened LexicalSafety

  datatype Index = Index(
    initialState: nat, finalStates: set<nat>, transitions: map<nat, map<nat, nat>>, eosTokenId: nat) {

    function Row(state: nat): map<nat, nat> {
      if state in transitions then transitions[state] else map[]
    }

    function NextState(state: nat, token: nat): Option<nat> {
      if token == eosTokenId || token !in Row(state) then None else Some(Row(state)[token])
    }
  }

  datatype ProjectionError = IncompatibleVocabulary(state: nat) | AmbiguousTransition(token: nat)

  datatype Projection = Projected(index: Index) | Unprojectable(error: ProjectionError)

  // ---------- What a row means ----------

  // The bytes `w` lead from `s` through states that are not dead to the live state `q`.
  predicate LeadsLive(d: ByteDfa, s: nat, w: Word, q: nat) {
    Run(Dfa(d), AtState(s), w) == Some(AtState(q)) && d.IsLive(q)
  }

  ghost predicate TokenLeads(d: ByteDfa, tokens: map<Word, seq<nat>>, s: nat, id: nat, q: nat) {
    exists w: Word :: HasToken(tokens, w, id) && LeadsLive(d, s, w, q)
  }

  // Some token of the vocabulary leads from `s` to `q`.
  ghost predicate Steps(d: ByteDfa, tokens: map<Word, seq<nat>>, s: nat, q: nat) {
    exists w: Word :: w in tokens && LeadsLive(d, s, w, q)
  }

  // `path` is a run of token steps from the start state.
  ghost predicate Trail(d: ByteDfa, tokens: map<Word, seq<nat>>, path: seq<nat>) {
    path != [] && path[0] == 0 && forall i :: 0 < i < |path| ==> Steps(d, tokens, path[i - 1], path[i])
  }

  ghost predicate Reachable(d: ByteDfa, tokens: map<Word, seq<nat>>, s: nat) {
    exists path :: Trail(d, tokens, path) && path[|path| - 1] == s
  }

  ghost predicate RowExact(d: ByteDfa, tokens: map<Word, seq<nat>>, s: nat, row: map<nat, nat>) {
    forall id: nat, q: nat {:trigger TokenLeads(d, tokens, s, id, q)} :: (id in row && row[id] == q) <==>
      TokenLeads(d, tokens, s, id, q)
  }

  // No token leads on from `s`, and the input cannot end there either.
  ghost predicate Stuck(d: ByteDfa, tokens: map<Word, seq<nat>>, s: nat) {
    !d.IsAccepting(s) && forall q: nat :: !Steps(d, tokens, s, q)
  }

  ghost predicate TwoWays(d: ByteDfa, tokens: map<Word, seq<nat>>, s: nat, id: nat) {
    exists p: nat, q: nat :: p != q && TokenLeads(d, tokens, s, id, p) && TokenLeads(d, tokens, s, id, q)
  }

  // What the projection of `d` over `tokens` is.
  ghost predicate ProjectionOf(index: Index, d: ByteDfa, tokens: map<Word, seq<nat>>, eos: nat) {
    && index.initialState == 0 && index.eosTokenId == eos
    && (forall s: nat :: s in index.finalStates <==> Reachable(d, tokens, s) && d.IsAccepting(s))
    && (forall s: nat :: Reachable(d, tokens, s) ==>
          RowExact(d, tokens, s, index.Row(s) - {eos}) && (eos in index.Row(s) <==> d.IsAccepting(s)))
    && (forall s: nat :: !Reachable(d, tokens, s) ==> index.Row(s) == map[])
    && (forall s: nat :: Reachable(d, tokens, s) ==> !Stuck(d, tokens, s))
  }

  // The end-of-sequence id is no ordinary token.
  ghost predicate EosReserved(tokens: map<Word, seq<nat>>, eos: nat) {
    forall w: Word :: !HasToken(tokens, w, eos)
  }

  lemma ReachesOn(d: ByteDfa, tokens: map<Word, seq<nat>>, s: nat, q: nat)
    requires Reachable(d, tokens, s) && Steps(d, tokens, s, q)
    ensures Reachable(d, tokens, q)
  {
    var path :| Trail(d, tokens, path) && path[|path| - 1] == s;
    assert Trail(d, tokens, path + [q]);
  }

  lemma StartReachable(d: ByteDfa, tokens: map<Word, seq<nat>>)
    ensures Reachable(d, tokens, 0)
  {
    assert Trail(d, tokens, [0]);
  }

  // A set that holds the start and is closed under token steps holds every reachable state.
  lemma {:induction false} ClosedHolds(d: ByteDfa, tokens: map<Word, seq<nat>>, seen: set<nat>, path: seq<nat>)
    requires 0 in seen && forall s: nat, q: nat :: s in seen && Steps(d, tokens, s, q) ==> q in seen
    requires Trail(d, tokens, path)
    ensures path[|path| - 1] in seen
    decreases |path|
  {
    if |path| > 1 {
      ClosedHolds(d, tokens, seen, path[..|path| - 1]);
    }
  }

  // ---------- The projection ----------

  method RunToken(d: ByteDfa, s: nat, w: Word) returns (end: Option<nat>)
    ensures Run(Dfa(d), AtState(s), w) == match end case None => None case Some(q) => Some(AtState(q))
    ensures w != [] && end.Some? ==> end.value < |d.transitions|
  {
    var q: nat := s;
    for k := 0 to |w|
      invariant Run(Dfa(d), AtState(q), w[k..]) == Run(Dfa(d), AtState(s), w)
      invariant k > 0 ==> q < |d.transitions|
    {
      assert w[k..][1..] == w[k + 1..];
      q := d.NextState(q, w[k]);
      if d.IsDead(q) {
        return None;
      }
    }
    end := Some(q);
  }

  // The row of `s` over the words in `done`.
  ghost predicate RowUpto(d: ByteDfa, tokens: map<Word, seq<nat>>, done: set<Word>, s: nat, row: map<nat, nat>) {
    forall id: nat, q: nat {:trigger id in row, LeadsWithin(d, tokens, done, s, id, q)} ::
      (id in row && row[id] == q) <==> LeadsWithin(d, tokens, done, s, id, q)
  }

  ghost predicate LeadsWithin(d: ByteDfa, tokens: map<Word, seq<nat>>, done: set<Word>, s: nat, id: nat, q: nat) {
    exists w <- done :: HasToken(tokens, w, id) && LeadsLive(d, s, w, q)
  }

  lemma LeadsWithinAll(d: ByteDfa, tokens: map<Word, seq<nat>>, s: nat, id: nat, q: nat)
    ensures LeadsWithin(d, tokens, tokens.Keys, s, id, q) <==> TokenLeads(d, tokens, s, id, q)
  {
    if w: Word :| HasToken(tokens, w, id) && LeadsLive(d, s, w, q) {
      assert w in tokens.Keys;
    }
  }

  // One more word that leads from `s` to the live state `q`.
  method AddTargets(d: ByteDfa, tokens: map<Word, seq<nat>>, ghost done: set<Word>, s: nat, word: Word, q: nat,
      row: map<nat, nat>)
    returns (next: map<nat, nat>, error: Option<ProjectionError>)
    requires RowUpto(d, tokens, done, s, row) && word in tokens && word !in done && LeadsLive(d, s, word, q)
    ensures error.None? ==> RowUpto(d, tokens, done + {word}, s, next)
    ensures error.Some? ==> error.value.AmbiguousTransition? && TwoWays(d, tokens, s, error.value.token)
  {
    var ids := tokens[word];
    next := row;
    for k := 0 to |ids|
      invariant next.Keys == row.Keys + set id | id in ids[..k]
      invariant forall id <- ids[..k] :: next[id] == q
      invariant forall id <- row :: id in next && row[id] == next[id]
    {
      var id := ids[k];
      if id in next && next[id] != q {
        assert id in row;
        TargetTwice(d, tokens, done, s, word, id, q, row);
        return next, Some(AmbiguousTransition(id));
      }
      assert ids[..k + 1] == ids[..k] + [id];
      next := next[id := q];
    }
    assert ids[..|ids|] == ids;
    forall id: nat, p: nat ensures (id in next && next[id] == p) <==> LeadsWithin(d, tokens, done + {word}, s, id, p) {
      RowMore(d, tokens, done, s, word, q, row, next, id, p);
    }
    error := None;
  }

  lemma TargetTwice(d: ByteDfa, tokens: map<Word, seq<nat>>, done: set<Word>, s: nat, word: Word, id: nat, q: nat,
      row: map<nat, nat>)
    requires RowUpto(d, tokens, done, s, row) && id in row && row[id] != q && HasToken(tokens, word, id)
    requires LeadsLive(d, s, word, q)
    ensures TwoWays(d, tokens, s, id)
  {
    assert LeadsWithin(d, tokens, done, s, id, row[id]);
    assert TokenLeads(d, tokens, s, id, row[id]) && TokenLeads(d, tokens, s, id, q);
  }

  lemma RowMore(d: ByteDfa, tokens: map<Word, seq<nat>>, done: set<Word>, s: nat, word: Word, q: nat,
      row: map<nat, nat>, next: map<nat, nat>, id: nat, p: nat)
    requires RowUpto(d, tokens, done, s, row) && word in tokens && LeadsLive(d, s, word, q)
    requires next.Keys == row.Keys + set id | id in tokens[word]
    requires forall id <- tokens[word] :: next[id] == q
    requires forall id <- row :: row[id] == next[id]
    ensures (id in next && next[id] == p) <==> LeadsWithin(d, tokens, done + {word}, s, id, p)
  {
    assert (id in row && row[id] == p) <==> LeadsWithin(d, tokens, done, s, id, p);
    if LeadsWithin(d, tokens, done + {word}, s, id, p) {
      var w :| w in done + {word} && HasToken(tokens, w, id) && LeadsLive(d, s, w, p);
      if w in done {
        assert LeadsWithin(d, tokens, done, s, id, p);
      }
    }
    if LeadsWithin(d, tokens, done, s, id, p) {
      var w :| w in done && HasToken(tokens, w, id) && LeadsLive(d, s, w, p);
      assert w in done + {word};
    }
    if id in tokens[word] && p == q {
      assert word in done + {word} && HasToken(tokens, word, id);
    }
  }

  // The states tokens lead to from `s`, over the words in `done`.
  ghost predicate StepsWithin(d: ByteDfa, done: set<Word>, s: nat, q: nat) {
    exists w <- done :: LeadsLive(d, s, w, q)
  }

  // New states go to the back of the worklist once, when they are first seen.
  ghost predicate Discovered(seen: set<nat>, queue: seq<nat>, seen': set<nat>, queue': seq<nat>) {
    && seen <= seen' && queue <= queue'
    && (forall q <- queue'[|queue|..] :: q in seen' && q !in seen)
    && (forall i, j :: |queue| <= i < j < |queue'| ==> queue'[i] != queue'[j])
    && (forall q <- seen' :: q in seen || q in queue'[|queue|..])
    && (seen' == seen ==> queue' == queue)
  }

  lemma DiscoverOne(seen: set<nat>, queue: seq<nat>, seen': set<nat>, queue': seq<nat>, q: nat)
    requires Discovered(seen, queue, seen', queue') && q !in seen'
    ensures Discovered(seen, queue, seen' + {q}, queue' + [q])
  {
    assert forall i :: |queue| <= i < |queue'| ==> queue'[i] == queue'[|queue|..][i - |queue|];
    assert (queue' + [q])[|queue|..] == queue'[|queue|..] + [q];
    assert forall p <- queue'[|queue|..] + [q] :: p in queue'[|queue|..] || p == q;
    assert forall p <- queue'[|queue|..] :: p in queue'[|queue|..] + [q];
    assert q in queue'[|queue|..] + [q];
  }

  predicate InSpace(d: ByteDfa, seen: set<nat>) {
    forall q <- seen :: q <= |d.transitions|
  }

  // All the tokens from one state, in any order.
  method ExpandState(d: ByteDfa, tokens: map<Word, seq<nat>>, s: nat, seen: set<nat>, queue: seq<nat>)
    returns (row: map<nat, nat>, seen': set<nat>, queue': seq<nat>, leadsOn: bool, error: Option<ProjectionError>)
    requires s in seen && InSpace(d, seen)
    ensures error.None? ==> RowExact(d, tokens, s, row) && Discovered(seen, queue, seen', queue') && InSpace(d, seen')
    ensures error.None? ==> forall q: nat :: q in seen' <==> q in seen || Steps(d, tokens, s, q)
    ensures error.None? ==> (leadsOn <==> exists q: nat :: Steps(d, tokens, s, q))
    ensures error.Some? ==> error.value.AmbiguousTransition? && TwoWays(d, tokens, s, error.value.token)
  {
    row, seen', queue', leadsOn := map[], seen, queue, false;
    var left := tokens.Keys;
    while left != {}
      invariant left <= tokens.Keys && RowUpto(d, tokens, tokens.Keys - left, s, row)
      invariant Discovered(seen, queue, seen', queue') && InSpace(d, seen')
      invariant forall q: nat :: q in seen' <==> q in seen || StepsWithin(d, tokens.Keys - left, s, q)
      invariant leadsOn <==> exists q: nat :: StepsWithin(d, tokens.Keys - left, s, q)
      decreases left
    {
      var word :| word in left;
      ghost var done := tokens.Keys - left;
      left := left - {word};
      assert tokens.Keys - left == done + {word};
      var end := RunToken(d, s, word);
      if end.Some? && d.IsLive(end.value) {
        leadsOn := true;
        row, error := AddTargets(d, tokens, done, s, word, end.value, row);
        if error.Some? {
          return;
        }
        WithinMore(d, done, s, word, end.value);
        assert StepsWithin(d, done + {word}, s, end.value);
        if end.value !in seen' {
          DiscoverOne(seen, queue, seen', queue', end.value);
          seen' := seen' + {end.value};
          queue' := queue' + [end.value];
        }
      } else {
        NothingMore(d, tokens, done, s, word, row);
      }
    }
    assert tokens.Keys - left == tokens.Keys;
    forall id: nat, q: nat ensures (id in row && row[id] == q) <==> TokenLeads(d, tokens, s, id, q) {
      LeadsWithinAll(d, tokens, s, id, q);
    }
    forall q: nat ensures StepsWithin(d, tokens.Keys, s, q) <==> Steps(d, tokens, s, q) {
    }
    error := None;
  }

  lemma WithinMore(d: ByteDfa, done: set<Word>, s: nat, word: Word, q: nat)
    requires LeadsLive(d, s, word, q)
    ensures forall p: nat :: StepsWithin(d, done + {word}, s, p) <==> StepsWithin(d, done, s, p) || p == q
  {
    forall p: nat ensures StepsWithin(d, done + {word}, s, p) <==> StepsWithin(d, done, s, p) || p == q {
      if StepsWithin(d, done, s, p) {
        var w :| w in done && LeadsLive(d, s, w, p);
        assert w in done + {word};
      }
      assert word in done + {word};
    }
  }

  lemma NothingMore(d: ByteDfa, tokens: map<Word, seq<nat>>, done: set<Word>, s: nat, word: Word, row: map<nat, nat>)
    requires RowUpto(d, tokens, done, s, row) && forall q: nat :: !LeadsLive(d, s, word, q)
    ensures RowUpto(d, tokens, done + {word}, s, row)
    ensures forall p: nat :: StepsWithin(d, done + {word}, s, p) <==> StepsWithin(d, done, s, p)
  {
    forall id: nat, q: nat ensures (id in row && row[id] == q) <==> LeadsWithin(d, tokens, done + {word}, s, id, q) {
      assert (id in row && row[id] == q) <==> LeadsWithin(d, tokens, done, s, id, q);
      if LeadsWithin(d, tokens, done, s, id, q) {
        var w :| w in done && HasToken(tokens, w, id) && LeadsLive(d, s, w, q);
        assert w in done + {word};
      }
    }
    forall p: nat ensures StepsWithin(d, done + {word}, s, p) <==> StepsWithin(d, done, s, p) {
      if StepsWithin(d, done, s, p) {
        var w :| w in done && LeadsLive(d, s, w, p);
        assert w in done + {word};
      }
    }
  }

  function RowOf(transitions: map<nat, map<nat, nat>>, s: nat): map<nat, nat> {
    if s in transitions then transitions[s] else map[]
  }

  // Everything seen was reached, and every state taken off the worklist is finished.
  ghost predicate Projecting(d: ByteDfa, tokens: map<Word, seq<nat>>, transitions: map<nat, map<nat, nat>>,
      finals: set<nat>, seen: set<nat>, queue: seq<nat>)
  {
    && 0 in seen && (forall s <- seen :: Reachable(d, tokens, s)) && (forall s <- queue :: s in seen)
    && (forall i, j :: 0 <= i < j < |queue| ==> queue[i] != queue[j])
    && (forall s: nat :: s in transitions || s in finals ==> s in seen && s !in queue)
    && (forall s <- seen :: s in queue || Finished(d, tokens, transitions, finals, seen, s))
  }

  ghost predicate Finished(d: ByteDfa, tokens: map<Word, seq<nat>>, transitions: map<nat, map<nat, nat>>,
      finals: set<nat>, seen: set<nat>, s: nat)
  {
    && RowExact(d, tokens, s, RowOf(transitions, s))
    && (s in finals <==> d.IsAccepting(s))
    && (forall q: nat :: Steps(d, tokens, s, q) ==> q in seen)
    && !Stuck(d, tokens, s)
  }

  lemma ProjectingStarts(d: ByteDfa, tokens: map<Word, seq<nat>>)
    ensures Projecting(d, tokens, map[], {}, {0}, [0])
  {
    StartReachable(d, tokens);
  }

  // Finishing the state taken off the worklist.
  lemma ProjectingStep(d: ByteDfa, tokens: map<Word, seq<nat>>, transitions: map<nat, map<nat, nat>>, finals: set<nat>,
      seen: set<nat>, queue: seq<nat>, row: map<nat, nat>, seen': set<nat>, queue': seq<nat>)
    requires Projecting(d, tokens, transitions, finals, seen, queue) && queue != []
    requires var s := queue[|queue| - 1];
             && RowExact(d, tokens, s, row) && Discovered(seen, queue[..|queue| - 1], seen', queue')
             && (forall q: nat :: q in seen' <==> q in seen || Steps(d, tokens, s, q)) && !Stuck(d, tokens, s)
    ensures var s := queue[|queue| - 1];
            Projecting(d, tokens, if row == map[] then transitions else transitions[s := row],
                       if d.IsAccepting(s) then finals + {s} else finals, seen', queue')
  {
    hide Stuck, RowExact, Reachable, Steps;
    var s, rest := queue[|queue| - 1], queue[..|queue| - 1];
    var transitions' := if row == map[] then transitions else transitions[s := row];
    var finals' := if d.IsAccepting(s) then finals + {s} else finals;
    QueueStep(seen, queue, seen', queue');
    forall q <- seen' ensures Reachable(d, tokens, q) {
      if q !in seen {
        ReachesOn(d, tokens, s, q);
      }
    }
    forall q <- seen' ensures q in queue' || Finished(d, tokens, transitions', finals', seen', q) {
      if q == s {
        assert s !in transitions;
        assert RowOf(transitions', s) == row;
      } else if q in seen && q !in queue {
        FinishedStays(d, tokens, transitions, finals, seen, transitions', finals', seen', q);
      }
    }
  }

  lemma FinishedStays(d: ByteDfa, tokens: map<Word, seq<nat>>, transitions: map<nat, map<nat, nat>>, finals: set<nat>,
      seen: set<nat>, transitions': map<nat, map<nat, nat>>, finals': set<nat>, seen': set<nat>, q: nat)
    requires Finished(d, tokens, transitions, finals, seen, q) && seen <= seen'
    requires RowOf(transitions', q) == RowOf(transitions, q) && (q in finals' <==> q in finals)
    ensures Finished(d, tokens, transitions', finals', seen', q)
  {
    hide Stuck, RowExact, Steps;
  }

  // The worklist after its last state is replaced by the newly seen ones.
  lemma QueueStep(seen: set<nat>, queue: seq<nat>, seen': set<nat>, queue': seq<nat>)
    requires queue != [] && (forall q <- queue :: q in seen)
    requires forall i, j :: 0 <= i < j < |queue| ==> queue[i] != queue[j]
    requires Discovered(seen, queue[..|queue| - 1], seen', queue')
    ensures (forall q <- queue' :: q in seen') && forall i, j :: 0 <= i < j < |queue'| ==> queue'[i] != queue'[j]
    ensures var s := queue[|queue| - 1];
            s in seen && s !in queue' && (forall q <- seen' :: q in seen || q in queue')
            && (forall q <- seen :: q in queue ==> q == s || q in queue')
            && (forall q <- seen :: q !in queue ==> q !in queue')
  {
    var s, rest := queue[|queue| - 1], queue[..|queue| - 1];
    var added := queue'[|rest|..];
    assert queue' == rest + added && queue == rest + [s];
    QueueMembers(rest, added, s);
    QueueDistinct(seen, rest, added, s);
    forall i, j | 0 <= i < j < |added| ensures added[i] != added[j] {
      assert added[i] == queue'[|rest| + i] && added[j] == queue'[|rest| + j];
    }
    AddedDistinct(seen, rest, added);
  }

  lemma QueueMembers(rest: seq<nat>, added: seq<nat>, s: nat)
    ensures forall q :: q in rest + added <==> q in rest || q in added
    ensures forall q :: q in rest + [s] <==> q in rest || q == s
  {
  }

  lemma QueueDistinct(seen: set<nat>, rest: seq<nat>, added: seq<nat>, s: nat)
    requires forall q <- rest + [s] :: q in seen
    requires forall i, j :: 0 <= i < j < |rest + [s]| ==> (rest + [s])[i] != (rest + [s])[j]
    requires forall q <- added :: q !in seen
    ensures s in seen && s !in rest + added && (forall q <- rest :: q in seen)
    ensures forall i, j :: 0 <= i < j < |rest| ==> rest[i] != rest[j]
  {
    var all := rest + [s];
    assert all[|rest|] == s && s in all;
    forall i | 0 <= i < |rest| ensures rest[i] != s && rest[i] in seen {
      assert all[i] == rest[i] && all[i] in all;
    }
    forall i, j | 0 <= i < j < |rest| ensures rest[i] != rest[j] {
      assert all[i] == rest[i] && all[j] == rest[j];
    }
  }

  lemma AddedDistinct(seen: set<nat>, rest: seq<nat>, added: seq<nat>)
    requires (forall q <- rest :: q in seen) && (forall q <- added :: q !in seen)
    requires forall i, j :: 0 <= i < j < |rest| ==> rest[i] != rest[j]
    requires forall i, j :: 0 <= i < j < |added| ==> added[i] != added[j]
    ensures forall i, j :: 0 <= i < j < |rest + added| ==> (rest + added)[i] != (rest + added)[j]
  {
    var all := rest + added;
    forall i, j | 0 <= i < j < |all| ensures all[i] != all[j] {
      if j < |rest| {
        assert all[i] == rest[i] && all[j] == rest[j];
      } else {
        assert all[j] == added[j - |rest|] && all[j] in added;
        if i < |rest| {
          assert all[i] == rest[i] && rest[i] in rest;
        } else {
          assert all[i] == added[i - |rest|];
        }
      }
    }
  }

  // When the worklist is empty, what was seen is what is reachable.
  lemma ProjectingEnds(d: ByteDfa, tokens: map<Word, seq<nat>>, transitions: map<nat, map<nat, nat>>, finals: set<nat>,
      seen: set<nat>)
    requires Projecting(d, tokens, transitions, finals, seen, [])
    ensures forall s: nat :: s in seen <==> Reachable(d, tokens, s)
    ensures forall s <- seen :: Finished(d, tokens, transitions, finals, seen, s)
  {
    assert forall s: nat, q: nat :: s in seen && Steps(d, tokens, s, q) ==>
             Finished(d, tokens, transitions, finals, seen, s) && q in seen;
    forall s: nat | Reachable(d, tokens, s) ensures s in seen {
      var path :| Trail(d, tokens, path) && path[|path| - 1] == s;
      ClosedHolds(d, tokens, seen, path);
    }
  }

  lemma EosRow(d: ByteDfa, tokens: map<Word, seq<nat>>, s: nat, row: map<nat, nat>, eos: nat)
    requires RowExact(d, tokens, s, row) && EosReserved(tokens, eos)
    ensures eos !in row && row[eos := s] - {eos} == row && row - {eos} == row
  {
    if eos in row {
      RowToken(d, tokens, s, row, eos);
    }
  }

  lemma RowToken(d: ByteDfa, tokens: map<Word, seq<nat>>, s: nat, row: map<nat, nat>, id: nat)
    requires RowExact(d, tokens, s, row) && id in row
    ensures exists w: Word :: HasToken(tokens, w, id)
  {
    assert TokenLeads(d, tokens, s, id, row[id]);
  }

  lemma Assembled(d: ByteDfa, tokens: map<Word, seq<nat>>, eos: nat, transitions: map<nat, map<nat, nat>>,
      finals: set<nat>, seen: set<nat>, all: map<nat, map<nat, nat>>)
    requires Projecting(d, tokens, transitions, finals, seen, []) && EosReserved(tokens, eos)
    requires all.Keys == transitions.Keys + finals
    requires forall s: nat {:trigger all[s]} :: s in all ==>
               all[s] == if s in finals then RowOf(transitions, s)[eos := s] else RowOf(transitions, s)
    ensures ProjectionOf(Index(0, finals, all, eos), d, tokens, eos)
  {
    ProjectingEnds(d, tokens, transitions, finals, seen);
    var index := Index(0, finals, all, eos);
    forall s: nat | Reachable(d, tokens, s)
      ensures RowExact(d, tokens, s, index.Row(s) - {eos}) && (eos in index.Row(s) <==> d.IsAccepting(s))
      ensures !Stuck(d, tokens, s) && (s in finals <==> d.IsAccepting(s))
    {
      assert s in seen && Finished(d, tokens, transitions, finals, seen, s);
      EosRow(d, tokens, s, RowOf(transitions, s), eos);
    }
    forall s: nat | !Reachable(d, tokens, s) ensures index.Row(s) == map[] && s !in finals {
      assert s !in seen;
    }
  }

  // The end-of-sequence id leads from every final state back to it.
  method AddEos(transitions: map<nat, map<nat, nat>>, finals: set<nat>, eos: nat) returns (all: map<nat, map<nat, nat>>)
    ensures all.Keys == transitions.Keys + finals
    ensures forall s: nat {:trigger all[s]} :: s in all ==>
              all[s] == if s in finals then RowOf(transitions, s)[eos := s] else RowOf(transitions, s)
  {
    all := transitions;
    var left := finals;
    while left != {}
      invariant left <= finals && all.Keys == transitions.Keys + (finals - left)
      invariant forall s: nat {:trigger all[s]} :: s in all ==>
                  all[s] == if s in finals - left then RowOf(transitions, s)[eos := s] else RowOf(transitions, s)
      decreases left
    {
      var s :| s in left;
      left := left - {s};
      all := all[s := RowOf(all, s)[eos := s]];
    }
  }

  // The projection of a certified DFA: exact, or refused because a reachable state is stuck or an id
  // leads two ways from it.
  method Project(d: ByteDfa, tokens: map<Word, seq<nat>>, eos: nat) returns (r: Projection)
    requires EosReserved(tokens, eos)
    ensures !d.IsLive(0) && !d.IsAccepting(0) ==> r == Projected(Index(0, {}, map[], eos))
    ensures (d.IsLive(0) || d.IsAccepting(0)) && r.Projected? ==> ProjectionOf(r.index, d, tokens, eos)
    ensures r.Unprojectable? ==>
              match r.error
              case IncompatibleVocabulary(s) => Reachable(d, tokens, s) && Stuck(d, tokens, s)
              case AmbiguousTransition(id) => exists s: nat :: Reachable(d, tokens, s) && TwoWays(d, tokens, s, id)
  {
    hide Projecting, Stuck, RowExact, Reachable, TwoWays, Steps;
    if !d.IsLive(0) && !d.IsAccepting(0) {
      return Projected(Index(0, {}, map[], eos));
    }
    var transitions: map<nat, map<nat, nat>>, finals: set<nat> := map[], {};
    var seen: set<nat>, queue: seq<nat> := {0}, [0];
    ProjectingStarts(d, tokens);
    while queue != []
      invariant Projecting(d, tokens, transitions, finals, seen, queue) && InSpace(d, seen)
      decreases |d.transitions| + 1 - |seen|, |queue|
    {
      var s := queue[|queue| - 1];
      ProjectingMember(d, tokens, transitions, finals, seen, queue);
      var row, seen', queue', leadsOn, error := ExpandState(d, tokens, s, seen, queue[..|queue| - 1]);
      if error.Some? {
        return Unprojectable(error.value);
      }
      if !leadsOn && !d.IsAccepting(s) {
        StuckHere(d, tokens, s);
        return Unprojectable(IncompatibleVocabulary(s));
      }
      NotStuckHere(d, tokens, s);
      ProjectingStep(d, tokens, transitions, finals, seen, queue, row, seen', queue');
      SpaceBound(d, seen, seen');
      transitions := if row == map[] then transitions else transitions[s := row];
      finals := if d.IsAccepting(s) then finals + {s} else finals;
      seen, queue := seen', queue';
    }
    var all := AddEos(transitions, finals, eos);
    Assembled(d, tokens, eos, transitions, finals, seen, all);
    r := Projected(Index(0, finals, all, eos));
  }

  lemma ProjectingMember(d: ByteDfa, tokens: map<Word, seq<nat>>, transitions: map<nat, map<nat, nat>>,
      finals: set<nat>, seen: set<nat>, queue: seq<nat>)
    requires Projecting(d, tokens, transitions, finals, seen, queue) && queue != []
    ensures queue[|queue| - 1] in seen && Reachable(d, tokens, queue[|queue| - 1])
  {
    assert queue[|queue| - 1] in queue;
  }

  lemma StuckHere(d: ByteDfa, tokens: map<Word, seq<nat>>, s: nat)
    requires !d.IsAccepting(s) && !exists q: nat :: Steps(d, tokens, s, q)
    ensures Stuck(d, tokens, s)
  {
    hide Steps;
  }

  lemma NotStuckHere(d: ByteDfa, tokens: map<Word, seq<nat>>, s: nat)
    requires d.IsAccepting(s) || exists q: nat :: Steps(d, tokens, s, q)
    ensures !Stuck(d, tokens, s)
  {
    hide Steps;
  }

  lemma SpaceBound(d: ByteDfa, seen: set<nat>, seen': set<nat>)
    requires seen <= seen' && InSpace(d, seen')
    ensures |seen'| <= |d.transitions| + 1 && |seen| <= |seen'| && (seen == seen' || |seen| < |seen'|)
  {
    RangeBounds(seen', |d.transitions| + 1);
    SubsetSize(seen, seen');
    if seen != seen' {
      SmallerSet(seen, seen');
    }
  }

  // ---------- What the index is for ----------

  function TokenRun(index: Index, s: nat, ids: seq<nat>): Option<nat>
    decreases |ids|
  {
    if ids == [] then Some(s)
    else
      match index.NextState(s, ids[0])
      case None => None
      case Some(q) => TokenRun(index, q, ids[1..])
  }

  function Concat(words: seq<Word>): Word {
    if words == [] then [] else words[0] + Concat(words[1..])
  }

  ghost predicate OneWordEach(tokens: map<Word, seq<nat>>) {
    forall u: Word, v: Word, id: nat :: HasToken(tokens, u, id) && HasToken(tokens, v, id) ==> u == v
  }

  ghost predicate Spelled(tokens: map<Word, seq<nat>>, ids: seq<nat>, words: seq<Word>) {
    |ids| == |words| && forall i :: 0 <= i < |ids| ==> HasToken(tokens, words[i], ids[i])
  }

  // A token is in the row of a reachable state exactly when its bytes lead to a live state.
  lemma RowLeads(index: Index, d: ByteDfa, tokens: map<Word, seq<nat>>, eos: nat, s: nat, id: nat, w: Word)
    requires ProjectionOf(index, d, tokens, eos) && EosReserved(tokens, eos) && OneWordEach(tokens)
    requires Reachable(d, tokens, s) && HasToken(tokens, w, id)
    ensures forall q: nat :: index.NextState(s, id) == Some(q) <==> LeadsLive(d, s, w, q)
  {
    hide Reachable, Stuck;
    var row := index.Row(s) - {eos};
    assert RowExact(d, tokens, s, row);
    assert id != eos;
    forall q: nat ensures index.NextState(s, id) == Some(q) <==> LeadsLive(d, s, w, q) {
      assert (id in row && row[id] == q) <==> TokenLeads(d, tokens, s, id, q);
      if LeadsLive(d, s, w, q) {
        assert TokenLeads(d, tokens, s, id, q);
      }
    }
  }

  // The index preserves the language: a token sequence ends in a final state exactly when its bytes are a word
  // of the DFA.
  lemma {:induction false} ProjectionPreserves(index: Index, d: ByteDfa, tokens: map<Word, seq<nat>>, eos: nat, s: nat,
      ids: seq<nat>, words: seq<Word>)
    requires ProjectionOf(index, d, tokens, eos) && EosReserved(tokens, eos) && OneWordEach(tokens) && LivenessExact(d)
    requires Reachable(d, tokens, s) && Spelled(tokens, ids, words)
    ensures (TokenRun(index, s, ids).Some? && TokenRun(index, s, ids).value in index.finalStates)
            <==> AcceptsFrom(Dfa(d), AtState(s), Concat(words))
    decreases |ids|
  {
    if ids != [] {
      var id, w, rest := ids[0], words[0], Concat(words[1..]);
      assert HasToken(tokens, w, id);
      RowLeads(index, d, tokens, eos, s, id, w);
      RunAppend(Dfa(d), AtState(s), w, rest);
      match index.NextState(s, id)
      case Some(q) =>
        assert LeadsLive(d, s, w, q);
        assert Steps(d, tokens, s, q);
        ReachesOn(d, tokens, s, q);
        ProjectionPreserves(index, d, tokens, eos, q, ids[1..], words[1..]);
      case None =>
        if AcceptsFrom(Dfa(d), AtState(s), w + rest) {
          RunIsState(d, s, w);
          var q := Run(Dfa(d), AtState(s), w).value.state;
          assert AcceptsFrom(Dfa(d), AtState(q), rest);
          assert LeadsLive(d, s, w, q);
        }
    }
  }

  lemma {:induction false} RunIsState(d: ByteDfa, s: nat, w: Word)
    requires Run(Dfa(d), AtState(s), w).Some?
    ensures Run(Dfa(d), AtState(s), w).value.AtState?
    decreases |w|
  {
    if w != [] {
      RunIsState(d, d.NextState(s, w[0]), w[1..]);
    }
  }
}
