# OC-Earley, verified

OC-Earley turns a JSON Schema into a context-free grammar, picks a byte DFA, an LALR(1) table or an Earley recognizer
with Leo's optimisation for it, and uses that recognizer to mask the tokens of a language model.  This project models
the whole pipeline and proves that it keeps the language: the mask of a guide enables exactly the tokens that keep the
output a prefix of a string the schema admits.

`dafny verify dfyconfig.toml` checks everything.

## How it is laid out

- **Common ground.**  `Grammars` (derivation trees over languages of bytes), `ResidualGrammars`, `Terminals` (literals
  and byte DFAs, byte by byte), `SchemaGrammars` (grammars before collapse), `RegularExpressions`, `Runtime` and
  `CompileErrors` (limits and errors).
- **Earley.**  `Earley` is the step as a function, with its errors and scratch state; `EarleyRecognizers` holds the
  class with the agenda loops that computes it; `EarleyChart`, `EarleyInvariant` and `EarleyTheorems` prove the chart
  exact, `EarleyLimits` that a run is stopped exactly when it needs more than the limits give.
- **LALR(1).**  `Lalr` and `LalrCollection` say what items, closures and merged automata are, `LalrConflicts` what a
  conflict of a grammar is and what its limits measure, `LalrBuild` builds them, `LalrDriver` and `LalrRecognizers`
  drive the table.  `LalrAutomaton`, `LalrSoundness`, `LalrViability` and `LalrTermination` lead to `LalrTheorems`;
  `LalrFuel`, `LalrStops`, `LalrLiveness`, `LalrRoom` and `LalrLimits` say what limits change; `BarrenGrammars` what
  both recognizers do with a grammar that derives nothing.
  `LexicalSafety` decides when tokens may be committed at their first accepting byte.
- **Grammar stages.**  `LoweredRules`, `ArrayLowering`, `ObjectLowering` and `Lowerings`; `GrammarReduction` and
  `GrammarReducer`; `Tarjan`, `TarjanSteps`, `TarjanClosing` and `Sccs`; `Reversals`, `Kleene`, `LinearComponents`,
  `Certification` and `RegularCertificates`; `ByteAutomata` and `Liveness`; `ResidualCollapse` and `ResidualBuild`.
- **Runtime.**  `Recognizers` puts the three machines behind one interface; `Tries`, `VocabularySizes`,
  `VocabularyBuild`, `MaskBits`,
  `Masks`, `MaskTraversals` and `MaskLimits` fill masks and say when they cannot be filled; `Indexes` projects a DFA on
  tokens; `Guides` is the guide as a value and `GuideObjects` the object with its history and its cached mask.
- **The composition.**  `Preparation` and `Compilation` go from a grammar and from a schema to a backend, and
  `BackendChoices` says why one is chosen; `GuidedBackends`, `GuideAnswers` and `SchemaMasks` say what a guide over that
  backend enables, takes, answers and generates.
- **Numbers and pointers.**  `Decimals`, `Numbers`, `ShortestNumbers`, `NumberPatterns` and `Pointers`.

Code that changes things in place is a class or a method with loops, proved against a function of its state; the laws
are lemmas about those functions.  Resource limits are error outcomes, so a language law speaks of every run that no
limit stops, and a law of its own says when a limit stops one.

## What came out

- **A tight parse stack separates "not rejected" from "live".**  `LalrRecognizer::is_live` (src/lalr.rs:508-517) asks
  for the next candidates, and answers no when that question itself runs into a limit.  The mask then leaves out a token
  that committing would accept.  `LalrLimits.PassesWithoutBeingAllowed` gives the input, for a grammar the pipeline hands
  to the table builder, `LalrRoom.LiveUnlessTight` the exact condition in terms of the limits, and
  `GuidedBackends.LalrMaskIsAdvance` the mask law with it.  Measured against README.md:191-195, where a bit is set iff the
  state behind the token is live, every mask is exact (`Masks.MaskExact`).
- **The reverse pattern of `null` is not a reversal.**  src/grammar.rs:159 gives `null` itself as its reverse pattern.
  Certificates stay exact all the same: a left-linear component is solved on the reverse patterns and reversed back, which
  restores the forward patterns whatever the reverse ones are (`Reversals.MirroredTwiceDenotes`).
- **Reduction looks at reachability before it removes productions** (src/grammar.rs:627-647), so a retained nonterminal
  need not be reachable afterwards.  `Reduce` promises what the code does: retained are exactly the productive
  nonterminals reachable in the unreduced grammar.
- **The number pattern wants a sign in every exponent** (src/json_schema/types.rs:8), so `1e5`, a number by section 6 of
  RFC 8259, is not matched while `1e+5` is.  `NumberPatterns.NumbersMatch` says exactly which numbers are.
- **README.md:48-54 claims the canonical encodings of the admitted values.**  The code's number pattern
  (src/json_schema/types.rs:8) also matches spellings that are not canonical; the model follows the code, and a scalar
  schema admits what its pattern matches.

## Model

| member | source | states |
|---|---|---|
| EarleyRecognizers.Build | src/earley.rs:125-220 | builds the dotted-rule table whenever the rules fit the limits and 32 bits, and only then; the table lays out exactly the augmented grammar, and no other error is possible |
| EarleyRecognizers.EarleyRecognizer.AdvanceByte | src/earley.rs:261-319 | the agenda loops, maps and counters, changed in place, leave exactly the state of the step the theorems below are about, errors and scratch state included |
| EarleyTheorems.FeedConsumes | src/earley.rs:222-374 | over every run: the state reached is exact for the bytes consumed, and the only way to stop early is a limit that was really exceeded: the error names the limit of the configuration, or the 32-bit width of positions, and a number above it, so no internal error can happen |
| EarleyTheorems.ChartExact | src/earley.rs:321-399 | with Leo on or off, an item in column j is valid (predicted top-down and its prefix derives the bytes between), and every valid item with a symbol after the dot, or of the accepting production, is in the column |
| EarleyTheorems.ChartExactWithoutLeo | src/earley.rs:321-399 | with Leo off, column j holds exactly the valid items: both directions, for every grammar (nullable chains, cycles, left recursion) and every input |
| EarleyTheorems.ColumnSize | src/earley.rs:469-498 | column j holds at most one item per dotted rule and origin, so saturating a column ends |
| EarleyLimits.FeedExactly | src/earley.rs:261-319 | when a run is stopped, in both directions: with limits worked out from the grammar and the length of x the run goes through; with the given limits it goes through if and only if what that roomy run uses after every prefix (bytes, columns, items of the last column and of the chart, active scans, Leo entries) is within them, and then both runs are the same; otherwise the error names the limit it is over, and the roomy run uses at least the reported number after some prefix |
| EarleyLimits.RoomyFeeds | src/earley.rs:261-319 | the bounds spelled out: one item per dotted rule and origin in each column, their sum over the columns, one active scan per terminal and origin, one Leo entry per nonterminal and column, as many bytes as x has and one column more are enough for every input x |
| EarleyLimits.FeedTallies | src/earley.rs:469-498 | after every run the running counts of items and of Leo entries are those of the chart |
| EarleyLimits.ScansSize | src/earley.rs:310-318 | after x at most one scan per terminal and starting column is active |
| EarleyTheorems.AcceptsExactly | src/earley.rs:552-557 | accepting after x if and only if the grammar derives x |
| EarleyTheorems.LeoEquivalence | src/earley.rs:401-467 | for every grammar and input, Leo on and off agree on all incomplete items, the accepting item, the active scans, acceptance and liveness, and the Leo chart is a subset of the other |
| EarleyTheorems.LiveExactly | src/earley.rs:560-562 | over a grammar whose symbols all derive something: live after x if and only if some y makes x + y a word |
| BarrenGrammars.NeverLive | src/earley.rs:560-562 | over a grammar without productions, which is what an empty language reduces to, the Earley recognizer is never live |
| Earley.AdvanceByteExtends | src/earley.rs:261-319 | a byte never changes an earlier column, whether it succeeds, is rejected or fails |
| Earley.RestoreExact | src/earley.rs:565-596 | restoring a checkpoint whose columns are a prefix of the current chart gives back exactly the saved state |
| LalrBuild.ComputeFirst | src/lalr.rs:550-585 | FIRST is the least family of sets closed under the productions |
| LalrBuild.Closure | src/lalr.rs:588-622 | the worklist returns the least item set that contains the seed and is closed under expansion with the exact lookaheads |
| LalrBuild.MergeCores | src/lalr.rs:721-764 | merged states are the unions of the canonical states with equal cores, and every canonical state maps to its union |
| LalrBuild.BuildTable | src/lalr.rs:766-855 | every action comes from an item of its state, and there is no conflict if and only if every item of every state is served |
| LalrBuild.Build | src/lalr.rs:179-337 | the table stands over a merged automaton that is closed, with consistent transitions and every item explained; the lookaheads of its conflicts are exactly those under which items of canonical states with one core want different things, so there is none if and only if the grammar is LALR(1), and every reported conflict is such a clash and of its kind; the lexical flag is exact; states, entries and conflicts are within their limits, and an error names a limit and a number above it that the items of canonical states, the canonical states, the cores, the clashing items or the entries of the table reach |
| LalrConflicts.ConflictReported | src/lalr.rs:766-855 | a conflict of the merged table comes from two canonical LR(1) states with one core, and its kind says whether two reductions clash, a shift and a reduction, or an acceptance and something else |
| LalrConflicts.ClashTold | src/lalr.rs:721-855 | where every item of the merged automaton gets what it wants or is told of by a conflict, each clash between canonical states with one core is told of under its lookahead: merging hides none |
| LexicalSafety.LexicallySafe | src/lalr.rs:919-994 | true if and only if no accepting state of a terminal accepts anything more, and no bytes are read by two terminals when one of them matches them |
| LexicalSafety.CommitIsForced | src/lalr.rs:387-407 | over safe terminals, a word that is a prefix of a word of another terminal is the same word of the same terminal, so 'accepted multiple terminals' cannot happen and committing at once loses nothing |
| LalrSoundness.NoFault | src/lalr.rs:454-492 | on a stack that spells a path of the automaton, a reduction never underflows and never misses a goto |
| LalrTermination.ReductionsBounded | src/lalr.rs:454-492 | from every reached stack at most `ReductionBound` reductions follow, for every lookahead: the reduction loop terminates |
| LalrRecognizers.LalrRecognizer.AdvanceByte | src/lalr.rs:362-421 | the loops over candidates, changed in place, leave exactly the state of the step the theorems below are about, errors included |
| LalrTheorems.LalrComplete | src/lalr.rs:362-505 | no prefix of a derivable byte string is ever rejected, and at its end the recognizer accepts unless the end meets a limit: through FIRST, closure, goto, merging, table, lexer and driver |
| LalrTheorems.LalrSound | src/lalr.rs:495-505 | what is accepted is derivable |
| LalrTheorems.LalrAliveExactly | src/lalr.rs:362-421 | the recognizer has not been rejected after x if and only if some y makes x + y derivable |
| LalrTheorems.AdvanceByteErrors | src/lalr.rs:362-492 | a byte reports nothing but a limit, with the limit of the configuration and a number above it, and nothing at all in a state with room for one more byte |
| LalrStops.FeedStops | src/lalr.rs:362-492 | over every run: the next byte fails if and only if the limits have no room for it: it is a byte too many, no token is open and the limits shut every token that can come next, the token that it completes does not fit on the stack, or a token goes on beyond 32-bit positions |
| LalrStops.ByteStops | src/lalr.rs:362-492 | the same in every state that stands for some tokens and a part of one |
| BarrenGrammars.FirstByteRejected | src/lalr.rs:362-517 | over such a grammar the LALR recognizer rejects the first byte, unless that byte is over a limit, and never accepts |
| LalrFuel.EndEnough | src/lalr.rs:454-505 | for every input there is an amount of fuel from which on more makes no difference to the run and the reduction loop always comes back, at the end of the input too |
| LalrLiveness.LiveUnlessBlocked | src/lalr.rs:508-517 | a reached state is live if and only if neither of its questions runs into a limit that matters: the candidates cannot be had and the end is not accepted, or there are none and the end cannot be settled |
| LalrRoom.LiveUnlessTight | src/lalr.rs:508-517 | the same condition from the limits alone: a reached state is live unless the stack limit and the active-scan limit shut every token and the end, in terms of how far reductions grow the stack under each lookahead and how many terminals can be shifted |
| LalrRoom.SomeAmple | src/lalr.rs:454-492 | for every input there is an amount of fuel from which on every loop behind it comes back: the byte's, the candidates' and the end's |
| LalrRoom.AmpleForever | src/lalr.rs:454-517 | with that much fuel, more changes neither the run nor whether the recognizer is live behind it |
| LalrLiveness.RoomyIsLive | src/lalr.rs:508-517 | a reached state with room for one more byte is live |
| LalrLimits.PassesWithoutBeingAllowed | src/lalr.rs:508-517 | the input that shows the condition is needed: for S -> a S c, S -> empty and a stack limit of two, advancing over a is not rejected and the state behind it is not live |
| LalrLimits.SmallWellBuilt | src/lalr.rs:179-337 | the table of that input meets the builder's whole contract, for a grammar whose symbols all derive something |
| LalrLimits.SmallCollapses | src/grammar.rs:1873-2068 | its grammar meets the contract of the residual construction for a source grammar without certificates |
| LalrLimits.SmallUncertified | src/grammar.rs:2377-2427 | and that source grammar gets no certificate: its component is linear at neither end |
| Lowerings.Lower | src/grammar.rs:100-234 | the grammar of an arena generates for every schema exactly the strings its keywords admit, and is the least family that does; its sizes are within the limits, and it is there whenever each limit covers what the schemas can add (a sum over their keywords) and none is unsupported; an error is an unsupported schema of the arena, or names a limit and a number above it that the schemas can reach |
| ArrayLowering.LowerArray | src/grammar.rs:325-458 | adds the position automaton of an array schema and touches nothing else, with at most seven things for each position and six for the brackets; it refuses the schema if and only if it is open-ended, and otherwise fails only on a limit that so many things go over |
| ObjectLowering.LowerObject | src/grammar.rs:236-323 | adds the two-track member automaton of an object schema and touches nothing else, with at most twenty-four things for each member and ten more; it refuses the schema if and only if its additional properties are allowed, and otherwise fails only on a limit that so many things go over |
| Lowerings.LoweringExact | src/grammar.rs:141-458 | a lowered schema generates exactly the bracketed lists obeying prefixItems, items, minItems and maxItems, the key-ordered members holding all required keys, the literals, the unions and the references, over the languages of its subschemas |
| Lowerings.LoweringLeast | src/grammar.rs:141-458 | every family of strings that satisfies the schemas contains what the grammar generates, so recursion adds nothing of its own |
| NumberPatterns.IntegersMatch | src/json_schema/types.rs:7-7 | the integer pattern matches exactly the JSON numbers without fraction and exponent |
| NumberPatterns.NumbersMatch | src/json_schema/types.rs:8-8 | the number pattern matches exactly the JSON numbers whose exponent, if there is one, has its sign written |
| NumberPatterns.ScalarsAdmit | src/grammar.rs:141-184 | with a meaning that reads these patterns so, the null, boolean, integer and number types admit exactly the encodings of null, of true and false, of the integers and of such numbers |
| GrammarReduction.ProductiveNonterminals | src/grammar.rs:756-802 | the counting worklist marks every nonterminal that derives some word, and exactly those when every terminal matches something |
| GrammarReduction.ReachableNonterminals | src/grammar.rs:804-825 | marks exactly what the start reaches in the dependency graph |
| GrammarReducer.LoweredGrammar.Reduce | src/grammar.rs:623-754 | the productions of the rewritten grammar are those of the retained nonterminals, renumbered, and it has the same words, every retained nonterminal the same language; when every terminal matches something, the retained ones are exactly the productive ones reachable before the reduction, each still derives something, and an empty language leaves no production |
| Sccs.AnalyzeSccs | src/grammar.rs:856-962 | the iterative search partitions the nonterminals; two share a component if and only if each reaches the other, and a component is marked recursive if and only if it lies on a cycle |
| RegularExpressions.UnionOfDenotes | src/grammar.rs:2567-2585 | flattening, dropping the empty language, sorting and removing duplicates keep the union |
| RegularExpressions.StarOfDenotes | src/grammar.rs:2587-2593 | the simplified star denotes the star |
| Reversals.ReversedDenotes | src/grammar.rs:1088-1112 | a reversed expression denotes the reversals, reading every atom by its reverse pattern |
| LinearComponents.ComponentOrientation | src/grammar.rs:2377-2427 | right-linear is preferred, left-linear otherwise, and a component is refused only when it is neither |
| Kleene.Eliminate | src/grammar.rs:2429-2497 | after eliminating the first pivots every entry denotes exactly the walks through them, and entries that can be reversed stay so |
| RegularCertificates.SolveLinearComponent | src/grammar.rs:2429-2548 | the solution denotes exactly the members' languages in the orientation solved, and it fails only because an atom has no reversal |
| RegularCertificates.CertifyRegular | src/grammar.rs:2226-2307 | every expression found denotes exactly its nonterminal's language; every component gets an answer, and a refusal has a refused dependency, a component that is not linear or an atom without reversal behind it |
| ByteAutomata.RenumberStates | src/grammar.rs:1287-1362 | breadth-first renumbering numbers exactly the states the start reaches, each once, and gives each the row and the acceptance of its raw state; it fails only when the start reaches more states than the limit |
| Liveness.ComputeLiveness | src/grammar.rs:1546-1755 | the backward search over the packed predecessor arrays marks a state live if and only if it reaches acceptance |
| ByteAutomata.CompileByteDfa | src/grammar.rs:1179-1389 | the automaton matches exactly the language of the expression, its liveness is exact and it has exactly the reached states, no more than the limit, given that the library's raw automaton accepts the expression; it fails only in the library or when more states are reached than allowed |
| ResidualCollapse.NullableNonterminals | src/grammar.rs:2161-2209 | whatever is marked derives the empty word, and when no terminal matches it everything that does is marked |
| ResidualBuild.NothingBlocked | src/grammar.rs:2115-2119 | a nullable region is never turned into a terminal: the refusal needs a terminal of the grammar that matches the empty word |
| ResidualCollapse.TerminalTable.CompileTerminal | src/grammar.rs:2071-2159 | equal terminal languages share one compiled terminal; every entry of the table matches exactly its language and never the empty word; the states of all automata are counted, and it fails only on this one's own states, in the library, when the states of the distinct languages together go over their limit, or because the language has the empty word |
| ResidualBuild.BuildResidual | src/grammar.rs:1873-2068 | the residual productions are exactly those of what is retained, with every other certified region turned into a terminal; only the start, what has no certificate and what derives the empty word is retained; every retained nonterminal derives the same byte strings as before, nullable flags are exact, what derived something still does, and the sizes are within the limits; an error is a size that the retained nonterminals, the collapsed productions or the automata of the terminals reach over its limit, the expression compiler's, or due to a terminal that matches the empty word |
| Terminals.LiveMeansExtensible | src/grammar.rs:1818-1827 | a live cursor can be read on to a match |
| Recognizers.AllOrNothing | src/engine.rs:686-714 | a chunk that is rejected or fails leaves the recognizer as it was; otherwise the state is that of all its bytes, and the answer tells acceptance |
| Recognizers.SplitChunk | src/engine.rs:686-714 | a chunk that is not rejected equals any split of it |
| Recognizers.RestoreExact | src/engine.rs:735-773 | restoring is exact from every state reached since the checkpoint, for all three recognizers |
| Masks.MaskExact | src/engine.rs:1406-1548 | a filled mask enables an id if and only if the recognizer takes the bytes of that token and is live behind them, or the id is the end of the sequence and the recognizer accepts |
| MaskTraversals.FillStructuralMask | src/engine.rs:1406-1522 | the loop with its explicit frame stack and checkpoints computes that mask, and puts the recognizer back whether it succeeds or fails; bit id mod 32 of word id / 32, read by shifting, is one exactly for the enabled ids |
| MaskBits.AtReads | src/engine.rs:1537-1548 | what it means that a bit is set: the word shifted right by the bit's place is odd |
| MaskLimits.MaskStops | src/engine.rs:1406-1522 | the mask is filled if and only if the trie edges tried, those whose bytes lead to a live state and one more each, are within the limit and the recognizer fails on none of them; the count it returns is theirs, and an error is the limit with a number above it or the recognizer's own on such an edge |
| Guides.MaskIsAdvance | src/engine.rs:1107-1162 | with the DFA or the Earley recognizer an id is enabled if and only if committing it succeeds |
| GuidedBackends.LalrMaskIsAdvance | src/engine.rs:1107-1162 | with the LALR recognizer an id is enabled if and only if committing it succeeds and the state behind it is not blocked, which with ample fuel means that the limits leave something open there; with room for one more byte behind it, if and only if committing it succeeds |
| GuideObjects.Guide.Advance | src/engine.rs:1189-1269 | one token, all or nothing: the guide stays equal to a fresh one fed its committed tokens, the history gains the checkpoint before the token and drops the oldest over the limit |
| GuideAnswers.EndOnlyLast | src/engine.rs:1189-1269 | in every run that is taken the end of the sequence is the last token, if it is there at all, and the guide is finished exactly then |
| GuideAnswers.EndIsFinal | src/engine.rs:1193-1195 | behind the end every further token, whatever it is, fails with the same error and leaves the guide as it was |
| GuideAnswers.CommitAnswers | src/engine.rs:1189-1269 | every answer of a structural guide with its cause, in this order: finished; too many tokens; at the end, taken if and only if the bytes are a word with room at the end; unknown exactly for an id that no word spells; the recognizer's own limit, really exceeded; taken if and only if the bytes start a word |
| GuideAnswers.IndexCommitAnswers | src/engine.rs:1189-1269 | the same with an index, where no bytes are read: taken if and only if some spelling of the id goes on towards a word |
| GuideObjects.Guide.Rollback | src/engine.rs:1271-1295 | drops exactly k tokens and k entries, or fails and changes nothing when fewer are kept |
| GuideObjects.Guide.Reset | src/engine.rs:1297-1304 | gives the fresh guide back, with an empty history |
| GuideObjects.Guide.FillMask | src/engine.rs:1107-1162 | the buffer has a one at bit id mod 32 of word id / 32, read by shifting, exactly for the ids the guide offers: in the index row, or whose bytes lead to a live state, or the end when accepting; the rest of the buffer is clear; a cached mask equals a recomputed one; on an error, which is the walk's own, the buffer is cleared and the guide is as it was |
| GuideObjects.Guide.GetTokens | src/engine.rs:1164-1178 | the ids the guide offers, ascending |
| GuideObjects.Guide.AcceptsTokens | src/engine.rs:1181-1187 | true if and only if the tokens hold no end and replaying them after the committed ones succeeds; the guide is unchanged |
| Guides.RestorePrefix | src/engine.rs:1329-1394 | restoring the checkpoint of a prefix gives exactly what replaying the prefix gives |
| Indexes.Project | src/index.rs:122-236 | in every state tokens reach, a row maps an id to q if and only if some byte string of that id leads through states that are not dead to the live q, whatever order the vocabulary comes in; a refusal names a reachable stuck state or an id that leads two ways |
| Indexes.ProjectionPreserves | src/index.rs:122-275 | a token sequence ends in a final state of the index if and only if its bytes are a word of the DFA |
| VocabularyBuild.Build | src/vocabulary/reverse.rs:49-250 | the flat trie spells exactly the vocabulary, children come after their parents and the reverse map gives each id its only byte string; there is one if and only if no token is empty, no id has two byte strings, and the longest token, the bytes, the ids, the width and the prefixes of the tokens (one node each, one edge less) are within their limits; a refusal names its cause, with a size the vocabulary reaches |
| Preparation.Prepare | src/engine.rs:278-427 | the grammar is reduced in place and the backend stands for the one that came in: exactly its words; it is the backend the policy and the reduced grammar ask for: without a forced policy there is no whole automaton only if the start reaches a component that is recursive, not right-linear, and not left-linear or held up by an irreversible symbol, and Earley comes only after a clash of the residual grammar, terminals that are not safe, or a table over a limit; 'unavailable' is said only for those causes, and every other error is one of the residual construction, the automaton or the tables with its cause, or due to a terminal matching the empty word |
| Preparation.UnavailableFor | src/engine.rs:324-372 | a backend is called unavailable only when it is forced and there is none: the automaton for a grammar with such a component, the table for a residual grammar with a clash or unsafe terminals |
| BackendChoices.StartRefused | src/engine.rs:334-345 | a grammar whose start gets no expression has such a component, and the start reaches it, however far down the chain of refusals it is |
| Preparation.DfaRoomy | src/engine.rs:686-714 | the automaton reads every input within the byte limit and 32-bit positions without an error |
| Preparation.BackendExact | src/engine.rs:244-267 | for every grammar, also one that derives nothing, and from some amount of fuel on: a run over x fails only on a limit that is really exceeded; otherwise it is alive if and only if x is empty or starts a word, accepting if and only if x is a word and the stack has room at the end, and live behind a byte if and only if the limits leave something open |
| GuidedBackends.MaskTells | src/engine.rs:1406-1548 | over any committed tokens and whenever the mask can be filled: a token is enabled if and only if the committed bytes and its own start a word of the grammar and the limits leave something open behind them, the end if and only if the committed bytes are a word with room at the end; only LALR can lack room, and its fuel is ample |
| GuidedBackends.SomeAmpleAround | src/lalr.rs:454-492 | around any committed bytes and any vocabulary, some amount of fuel is ample from there on |
| GuidedBackends.GuideExact | src/engine.rs:1189-1269 | tokens are taken if and only if there are not too many, reading the bytes they spell meets no limit and those bytes start a word; then the end if and only if they are a word with room at the end; a limit met on the way is the guide's error |
| GuidedBackends.IndexGuideExact | src/index.rs:122-275 | index path: tokens are taken if and only if there are not too many and some bytes they spell start a word, then the end if and only if some bytes they spell are one, also when an id has more than one spelling |
| Compilation.Compile | src/engine.rs:182-230 | the backend of a normalized schema stands for exactly the strings the schema admits and is chosen as `Prepare` says; an error is an unsupported schema, which never gets a backend, a limit that the schemas can go over, or one of `Prepare`'s for the lowered grammar |
| Compilation.CompiledExact | src/engine.rs:244-267 | for every schema, also one that admits nothing, and from some amount of fuel on: a run fails only on a limit; otherwise it is alive exactly on the empty input and the prefixes of the schema's strings, and accepting exactly on the strings with room at the end |
| SchemaMasks.SchemaMaskExact | src/engine.rs:1107-1162 | structural path, end to end: a token is enabled if and only if the committed bytes and its own start a string of the schema and the limits leave something open behind them, the end if and only if the committed bytes are a string with room at the end |
| SchemaMasks.SchemaIndexMaskExact | src/index.rs:122-275 | index path, end to end and without any limit: a token is enabled if and only if the committed bytes and some spelling of it start a string of the schema, the end if and only if the committed bytes are one |
| SchemaMasks.GeneratedIsAdmitted | src/engine.rs:1189-1269 | safety of every run: what a guide has committed is nothing or starts a string of the schema, and once finished it is one |
| SchemaMasks.SchemaGuideExact | src/engine.rs:1189-1269 | tokens are taken if and only if there are not too many, reading their bytes meets no limit and those start a string of the schema; then the end if and only if they are one with room at the end |
| SchemaMasks.SchemaIndexGuideExact | src/engine.rs:1189-1269 | the same with an index, where only the number of tokens is limited and an id may have more than one spelling |
| Numbers.CanonicalSameValue | src/schema.rs:1185-1214 | the canonical text of a JSON number is a JSON number of the same value, reads back as the same sign, digits and scale, and is its own canonical text; with an exponent it has one nonzero digit before the point, no zero at the end and a plain integer behind the e |
| ShortestNumbers.CanonicalShortest | src/schema.rs:1204-1214 | the canonical text is no longer than any spelling of the value without exponent, or with one nonzero digit before the point and a plain integer exponent; and if it has an exponent, every spelling without one is strictly longer |
| Numbers.CanonicalIff | src/schema.rs:1185-1266 | two numbers have equal canonical texts if and only if their values are equal |
| Numbers.CanonicalExists | src/schema.rs:1185-1292 | a JSON number has no canonical text if and only if its exponent, the exponent less the fraction, the scale, the scientific exponent or the plain length leaves its integer range, each worked out from the digits, the zeros at both ends and the exponent |
| Numbers.PlainLengthExact | src/schema.rs:1268-1292 | the predicted length is the length of the plain text |
| Numbers.RenderPlainNumber | src/schema.rs:1294-1327 | writes the plain text, of the predicted length |
| Pointers.DecodeEscape | src/schema.rs:1426-1428 | decoding an escaped pointer segment gives it back |
| Pointers.EscapeDecoded | src/schema.rs:1118-1133 | escaping a decoded segment gives it back, when it held no slash |
| Pointers.DecodeSegment | src/schema.rs:1118-1133 | the loop decodes every escape and fails exactly on a tilde that starts none |

## Left out

- Regular-expression text syntax, NFA construction, determinization and minimization: a library does them; the model
  takes as contract that the raw automaton it returns accepts the expression, or that it returns a limit or an internal
  error, and proves everything from there on.
- What a pattern matches, as far as the library reads it: `meaning` is a parameter; `NumberPatterns` says what it is when
  the integer, number, boolean and null patterns are read as written.  The string pattern is not taken apart.
  `Compilation.Compile` asks that no scalar pattern matches the empty string.
- LalrRecognizers.LalrRecognizer.AdvanceByte: carries fuel for the reduction loop and can report that it ran out, neither
  of which the code has; `LalrTermination` bounds the reductions, and `LalrRoom.SomeAmple` and `AmpleForever` show that from
  some amount on the error never comes and more fuel changes nothing.
- GuidedBackends.MaskTells, and the results built on it: ask for ample fuel, which `GuidedBackends.SomeAmpleAround` gives.
- Preparation.Prepare: says why there is no whole automaton, not that a grammar with such a component never gets one; the
  irreversible symbol is one of the expressions found for the grammar.
- Lowerings.Lower: what the schemas can add is an upper bound, so between it and the sizes of the grammar a limit error
  is neither promised nor excluded.
- LalrLimits.SmallWellBuilt: the table meets the builder's contract; that the builder returns this very table, with its
  states in this order, is not shown.
- Compilation.Compile: starts at the normalized arena, after parsing and normalization.
- GrammarReducer.LoweredGrammar.Reduce: does not promise that every retained nonterminal is reachable afterwards, because
  the code computes reachability before it removes productions.
- Earley.RestoreExact: asks that the current chart extends the saved one, because the code compares the number of columns
  only; every caller in src/engine.rs keeps that discipline, which `Recognizers` and `MaskTraversals` prove.
- Generation counters: a generation is a tag that identifies a recognizer; that two recognizers never share one is taken
  from the atomic counter.
- Integer widths: positions and state numbers are checked against 32 bits where a run can reach them; the state limit of
  a DFA is below 2^32, so that no state takes the dead number; ids of grammar symbols are unbounded, and so is `usize`
  except in `Numbers`.
- FIRST sets are sets instead of packed words, and hash maps are maps; results do not depend on an iteration order.
- Statistics, timings, provenance, report text, byte estimates, failed reservations and the state fingerprint: they do
  not affect the language or the state.
- JSON parsing and normalization of schemas (src/schema.rs:324-1060): the model starts at the normalized arena.
- The legacy projection of src/index.rs, for indexes made from a regular expression.
- The inherited regex generator (src/json_schema/parsing.rs), the tokenizer download, the Python bindings, the kernels
  and the command line.
