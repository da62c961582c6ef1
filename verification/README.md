# A verified model of the edge proxy's engines

The proxy sits between clients, an application and an AI provider. Its hard parts are small engines inside
the process, and this project models them in Dafny and proves what they are for.

- **Reversible masking** (`src/dlp.rs`). Secrets in a request are replaced by placeholders, and the
  placeholders in the reply by the secrets. `Masking` holds the two dictionaries and the whole-buffer
  unmasker. `Streaming` has the frame-by-frame unmasker, and proves for which replies it gives the buffered
  result under every cutting: exactly the ones where no token of the scan ends in a live placeholder that
  opens inside it. `StreamingBytes` extends that to replies that are not UTF-8. `RoundTrip` proves for which
  texts unmasking undoes masking. `Findings` says by a rule which spans are replaced and how the result is laid
  out; `MaskedText` proves that masking does replace them and that its output tells only which values are
  equal. `Redaction` has span merging and irreversible redaction, `MergeNames` which finding names a merged
  span, `Luhn` the card checksum.
- **Hard budgets** (`src/budget.rs`). A request reserves an estimate from every budget and later settles to
  what it spent. `BudgetKeys` has the spelling of store keys and markers, `BudgetStore` the in-process store
  and the two Redis scripts with expiry, `BudgetProtocol` the protocol as a step relation over interleaved
  requests, and `BudgetEngine` the engine over a store whose calls may be lost before or after they apply.
  `BudgetCharges` says in numbers what a request is charged and answered, each budget in its own unit.
  `BudgetRefinement` interleaves any number of engine calls over one store, attempt by attempt, reads off them
  an account (a hold for each reserve the store admitted, closed at nothing by the first rollback that reached
  it, or at what was spent by the first settle that did), and proves that the history is a run of the protocol
  with this account for its ledger, so that conservation and the ceiling hold of the engines.
- **Certificates** (`src/certstore.rs`). `Der` is the DER walker, `DerEncoding` an abstract certificate, its
  encoding and the proof that the walker undoes it. `Sni` is the host index, `SniNames` how host names are
  compared, `Renewal` the renewal loop.
- **Forwarded client certificates** (`src/client_auth.rs`, `src/client_cert_header.rs`). `Xfcc` has the
  header's printer and parser, `XfccElements` the parser on what other proxies write; `Forwarding` follows a certificate's names from its DER through the header to
  the next hop.
- **Smaller engines**: `AccessLog` and `LogPrivacy` (`src/accesslog.rs`), `Cidr` (`src/access.rs`), `CspSink`
  (`src/csp_sink.rs`), and `Throttle`, the compare-and-swap that two files share.

`Bytes`, `Utf8`, `Strings`, `Decimal` and `Wrappers` are shared vocabulary; `Utf8Characters` proves what the
byte tables of `Utf8` mean. Text is UTF-8 bytes where the
source works on byte offsets (`Masking`, `AccessLog`, `Der`) and characters elsewhere. Where the source
mutates (`MaskMap`, `MemoryStore`, the engine, the renewal loop, the sink) the model is a class whose methods
are proved against functions on values; loops are loops, proved against recursive functions; the theorems
are about those functions.

## Where the code does not do what is suggested

Each has a concrete input in `Counterexamples` and an exact condition, for all inputs, beside the code.

- The streaming unmasker promises the buffered result. For UTF-8 replies it gives it under every cutting
  exactly when the reply is `Safe` (`Streaming.StreamingExact`); no prefix inside an open token is enough
  (`Streaming.NoNestingIsSafe`). For arbitrary bytes it gives it exactly when the part before the first
  ill-formed byte is safe and the flush does not find a live placeholder at the end of a token the frames left
  open (`StreamingBytes.StreamingExactBytes`).
- What the stream holds back is meant to be bounded. After one ill-formed byte it holds back everything until
  the reply ends. A bound of a placeholder and three bytes, or any larger one, is kept at every moment of every
  cutting exactly when nothing is masked or the whole reply ends within it after the point held back from
  (`StreamingBytes.CarryLimitExact`; `StreamingBytes.CarryBoundExact` for every bound), which holds of every
  UTF-8 reply (`StreamingBytes.CarryBounded`).
- Unmasking undoes masking, for every map that can have been built before, exactly when the parts outside the
  findings hold no token that could have been minted and no prefix left open before a finding
  (`RoundTrip.RoundTripExact`).
- `rollback_failures` is the number of holds left charged exactly when as many rollbacks as reserves, one or
  none, were applied without being answered (`BudgetEngine.LeakCountExact`); the holds themselves are the ones
  reported exactly when no call was applied unanswered (`BudgetEngine.LeakReportExact`).
- A settle may be repeated. A second one changes nothing exactly when each of its lines that needs a change and
  reaches the store is on a counter where a line of the first settle did, or that was marked before
  (`BudgetEngine.SecondSettleExact`): a settle at the reserved amount writes no marker, and one that was lost
  wrote none.
- Lines of a reservation that share a counter share a marker. The counter settles right exactly when the
  changes that reach the store after the first one sum to zero (`BudgetEngine.SharedCounterExact`).
- Two budgets can share a counter exactly when they have one name, or one is per caller, model or team and
  its name followed by a colon begins the other's (`BudgetKeys.CollisionExact`); in one and the same request
  exactly when they have one name, or two scopes and such names (`BudgetKeys.SameRequestExact`).
- Within one budget, anonymous requests share with a caller named `_anon`, requests without a team with the
  team `_none`, and claims whose first 200 characters differ only in colons, control characters and
  underscores share too, a missing one counting as `_none`; exactly these do (`BudgetKeys.CallersApart`,
  `BudgetKeys.ModelsApart`, `BudgetKeys.TeamsApart`, `BudgetKeys.ClaimsApart`).
- Sanitising a target panics exactly when a component has to be decoded in which the two bytes after a percent
  sign end inside a character (`AccessLog.SanitizePanics`): a name that is not sensitive as it stands, or a
  value that does not look secret as it stands under a name that is not sensitive.
- A client certificate is forwarded in no header at all exactly when one of its URI or DNS names holds a
  character a header may not (`Forwarding.NamesArrive`).

## Model

| member | source | states |
|---|---|---|
| `Masking.PlaceholderShaped` | src/dlp.rs:592-637 | a placeholder has its only `<` in front and its only `>` at the back, for every category and number |
| `Masking.PlaceholderFits` | src/dlp.rs:593-598 | with a `usize` number every placeholder fits the hold-back bound of 96 bytes |
| `Masking.PlaceholderInjective` | src/dlp.rs:626-637 | different categories or numbers give different placeholders |
| `Masking.MintKeepsInverse` | src/dlp.rs:626-637 | one mint keeps the two dictionaries inverse to each other and every old entry |
| `Masking.MintsKeepInverse` | src/dlp.rs:609-637 | so does any sequence of mints; equal values share a placeholder and different values never do |
| `Masking.MintAllExact` | src/dlp.rs:626-637 | a sequence of mints records the values asked for and no others, and uses one number for each new one |
| `Masking.UnmaskedByEmptyMap` | src/dlp.rs:641-668 | with nothing masked, unmasking changes no byte |
| `Masking.MaskMap.constructor` | src/dlp.rs:609-624 | a new map is empty and valid |
| `Masking.MaskMap.PlaceholderFor` | src/dlp.rs:626-637 | the new maps are one mint of the old ones, and the placeholder returned maps back to the value |
| `Masking.MaskMap.Unmask` | src/dlp.rs:641-668 | the loop over prefixes and closing brackets computes the buffered scan |
| `Streaming.IncompleteTail` | src/dlp.rs:714-733 | finds where to hold back: an open prefix within the bound, else the longest suffix that could become one |
| `Streaming.HoldExact` | src/dlp.rs:709-733 | held back is the last `<edgeguard-` if nothing has closed it within 96 bytes, else a beginning of it at the very end, and else nothing |
| `Streaming.UnmaskStream` | src/dlp.rs:674-697 | one frame's output and carry, at the UTF-8 boundary and the held-back tail |
| `Streaming.FlushUnmask` | src/dlp.rs:701-708 | the last carry, decoded and unmasked |
| `Streaming.StreamRefinesBuffer` | src/dlp.rs:641-733 | for any bytes and any frames, if carry and frames decode to safe text the stream equals the buffered result |
| `Streaming.UnsafeIsObservable` | src/dlp.rs:641-733 | for every unsafe reply there are frames for which the stream differs, and they are given |
| `Streaming.StreamingExact` | src/dlp.rs:641-733 | for every map that minting can build and every UTF-8 reply: all cuttings agree with the buffer if and only if the reply is safe |
| `Streaming.SafeMeansCutsAgree` | src/proxy.rs:3223-3276 | for arbitrary bytes, safety of the lossily decoded reply makes every cutting agree with the buffered path |
| `Streaming.EmptyMapStreams` | src/dlp.rs:674-708 | an empty map passes any bytes through any frames unchanged |
| `Streaming.NoNestingIsSafe` | src/dlp.rs:641-733 | a reply with no prefix between an earlier prefix and its closing bracket is safe under every map |
| `StreamingBytes.CuttingGivesParts` | src/dlp.rs:674-708 | for arbitrary bytes whose valid part is safe, every cutting gives the unmask of what comes before the point held back from, and of the rest decoded |
| `StreamingBytes.PartsExact` | src/dlp.rs:641-733 | those parts are the buffered result if and only if the flush reveals no live placeholder at the end of an open token |
| `StreamingBytes.StreamingExactBytes` | src/dlp.rs:641-733 | for every map and every reply, UTF-8 or not: all cuttings agree with the buffer if and only if the valid part is safe and the flush reveals nothing |
| `StreamingBytes.CarryExact` | src/dlp.rs:674-733 | for arbitrary bytes and frames the carry is what was received from the point held back from, however it was cut |
| `StreamingBytes.CarryBoundExact` | src/dlp.rs:593-598 | for every map, reply and bound: no cutting ever carries more if and only if nothing is masked or no beginning of the reply is held back by more |
| `StreamingBytes.CarryLimitExact` | src/dlp.rs:593-598 | for bounds from a placeholder and three bytes up: if and only if nothing is masked or the whole reply is held back by no more |
| `StreamingBytes.CarryBounded` | src/dlp.rs:593-598 | while a UTF-8 reply streams, at most a placeholder and three bytes of a character are carried |
| `RoundTrip.RedactReversible` | src/dlp.rs:518-534 | the loop with its skip branch masks each finding in order and leaves the map of those mints |
| `RoundTrip.RoundTripExact` | src/dlp.rs:518-534 | for all findings and texts: every map that mints can have built before, ids within a `usize`, gives the text back if and only if the parts outside the findings are faultless |
| `RoundTrip.PlainPartsRoundTrip` | src/dlp.rs:518-534 | parts that hold no prefix are faultless |
| `Findings.PicksExact` | src/dlp.rs:523-527 | which findings are replaced, by a rule on the whole list: those taken are in bounds and in order, and one is passed over only if it is out of bounds or starts inside one taken before it; the rule has one solution and the loop finds it |
| `Findings.AllTaken` | src/dlp.rs:523-527 | of spans in order and in bounds none is passed over |
| `MaskedText.MaskedReplaces` | src/dlp.rs:518-534 | for every map, text and findings: the output is the parts outside the findings taken, verbatim and in order, and between them placeholders that stand for just the values found; the map was given those values and no others |
| `MaskedText.MaskedNames` | src/dlp.rs:518-534 | a new value's placeholder is spelled with the category of its first finding and the next number |
| `MaskedText.MaskedReveals` | src/dlp.rs:514-518 | two texts that agree outside their findings are masked to the same bytes if and only if their values are equal in the same places, and where the map knew them the same |
| `Redaction.MergedCorrect` | src/dlp.rs:842-862 | merging gives separated, ordered spans that cover the same bytes, hold every finding, and carry a top score |
| `Redaction.MergeFindings` | src/dlp.rs:842-862 | sorting and folding into the last span computes that merge |
| `Redaction.MergeMeans` | src/dlp.rs:842-862 | each span has the category and score of a finding in it that no finding in it beats |
| `MergeNames.MergeNamesFirst` | src/dlp.rs:838-862 | every other finding in a span than the one it is named after has a lower score, or the same and starts later, ends later or was found later |
| `Redaction.Redact` | src/dlp.rs:492-512 | the loop with its skip branch computes the rewritten text, in each style |
| `Redaction.RedactReplaces` | src/dlp.rs:492-512 | for every style, text and findings: the output is the parts outside the findings taken, verbatim and in order, and between them a label, a label with the keyed hash, or stars and the last four characters |
| `Redaction.NothingSkipped` | src/dlp.rs:492-512 | on spans in order and in bounds the skip branch is never taken |
| `Redaction.MaskShowsLast4` | src/dlp.rs:747-758 | the masked text has as many characters: stars, and the last four of five or more |
| `Redaction.RedactionHides` | src/dlp.rs:492-512 | texts that differ only inside findings are fully redacted to the same bytes after merging, every merged span being replaced |
| `Luhn.LuhnValid` | src/dlp.rs:788-810 | the left-to-right loop accepts exactly 13 to 19 digits that pass the right-to-left rule |
| `Luhn.DigitsExact` | src/dlp.rs:788-793 | only the digits count, in order, whatever stands between them |
| `Luhn.KnownNumber` | src/dlp.rs:788-810 | the published number of a four and fifteen ones checks |
| `Luhn.SumsAgree` | src/dlp.rs:788-810 | the two directions double the same digits |
| `Luhn.DetectsOneDigit` | src/dlp.rs:788-810 | changing any one digit of a valid number makes it invalid |
| `Luhn.DetectsSwap` | src/dlp.rs:788-810 | swapping neighbours makes it invalid exactly unless they are equal or 0 and 9 |
| `BudgetKeys.ClaimKey` | src/budget.rs:107-119 | a claim's key has no colon or control character and is cut to 200 characters |
| `BudgetKeys.KeysEqual` | src/budget.rs:190-204 | two keys are equal exactly when name and dimension run together alike and the window is the same |
| `BudgetKeys.OneBudgetInjective` | src/budget.rs:190-204 | one budget's key is injective in dimension and window |
| `BudgetKeys.WindowExact` | src/budget.rs:190-204 | one request's counter is the same from a multiple of the window's length up to the next, and another at every other time |
| `BudgetKeys.CallersApart` | src/budget.rs:190-204 | callers share a per-caller counter exactly when they are one, or one is anonymous and the other is `_anon` |
| `BudgetKeys.ModelsApart` | src/budget.rs:190-204 | models share a per-model counter exactly when they are one; all share a global one |
| `BudgetKeys.TeamsApart` | src/budget.rs:190-204 | teams share a per-team counter exactly when they are one, or one is missing and the other is `_none` |
| `BudgetKeys.ClaimsApart` | src/budget.rs:107-119 | claims share a per-claim counter exactly when up to the cut they differ only in characters the key blurs, a missing one reading `_none` |
| `BudgetKeys.ColonFreeNamesSeparate` | src/budget.rs:190-204 | budgets with colon-free names never share a key unless all parts are equal |
| `BudgetKeys.CollisionExact` | src/budget.rs:190-204 | two budgets can be charged to one counter exactly when their names are equal, or one has a free dimension and its name and a colon begin the other's name |
| `BudgetKeys.SameRequestExact` | src/budget.rs:190-204 | one request at one moment can charge two budgets to one counter exactly when their names are equal, or their scopes differ and one has a free dimension and its name and a colon begin the other's name |
| `BudgetKeys.MarkerInjective` | src/budget.rs:691-718 | a marker determines its counter and id, and settle markers are never rollback markers |
| `BudgetKeys.CountersAreNotMarkers` | src/budget.rs:190-204 | no counter key is a marker |
| `BudgetStore.MemoryStore.Reserve` | src/budget.rs:305-324 | admits within the limit, charges and extends, drops what expired |
| `BudgetStore.MemoryStore.Reconcile` | src/budget.rs:326-347 | moves the counter once per marker, floored at zero |
| `BudgetStore.CounterLives` | src/budget.rs:305-324 | a counter that was charged is there until its time to live is over and is then gone; a refusal changes nothing |
| `BudgetStore.CounterOutlivesWindow` | src/budget.rs:214-218 | with the time to live the engine gives it, a counter charged in a window is there for the rest of the window |
| `BudgetStore.RepeatExact` | src/budget.rs:326-347 | a settle delivered again within 300 seconds changes no counter, and after that it is applied anew |
| `BudgetStore.StoresAgree` | src/budget.rs:305-384 | started empty, for every run of calls under every forward clock, the in-process store and the scripts give the same answers, expiry included |
| `BudgetProtocol.StoreMoves` | src/budget.rs:305-347 | while nothing expires the store's calls are the moves of the protocol |
| `BudgetProtocol.StepKeepsInv` | src/budget.rs:623-728 | every step of any interleaving keeps balance, ceiling and marker bookkeeping |
| `BudgetProtocol.SettleIsMarkThenMove` | src/budget.rs:373-384 | the script's settle is a mark and a move in one, and a delivered-again settle is neither |
| `BudgetProtocol.Conservation` | src/budget.rs:623-728 | after every run each counter is its unsettled holds plus its settled spends |
| `BudgetProtocol.FloorNeverActs` | src/budget.rs:326-347 | in no run does the floor at zero take effect |
| `BudgetProtocol.Ceiling` | src/budget.rs:236-238 | a counter passes its limit only by what settled spends outran their reservations, so never when estimates are upper bounds |
| `BudgetProtocol.SettledOnce` | src/budget.rs:683-702 | a settled hold keeps its spend through any further run |
| `BudgetProtocol.AbortedChargesNothing` | src/budget.rs:714-728 | a request whose rollbacks have arrived has charged nothing to any counter |
| `BudgetEngine.SettleAtMostOnce` | src/budget.rs:396-415 | under every pattern of losses a settle that succeeds changed the counter exactly once, one that fails at most once |
| `BudgetEngine.ThreeAttempts` | src/budget.rs:477-495 | the fates of the first three attempts decide whether a settle is applied and whether it is answered |
| `BudgetEngine.Store.Reserve` | src/budget.rs:454-475 | one attempt, applied and answered as its fate says |
| `BudgetEngine.Store.Reconcile` | src/budget.rs:477-495 | attempts until answered or out of attempts, with one marker |
| `BudgetEngine.Engine.RollBack` | src/budget.rs:714-728 | rolls back each held line under a fresh marker and counts the unanswered |
| `BudgetEngine.Engine.Reserve` | src/budget.rs:623-676 | reserves line by line over the budgets with a non-zero amount; on a refusal or error rolls back and reports, or admits when failing open |
| `BudgetEngine.Engine.Reconcile` | src/budget.rs:683-702 | settles each held line that needs a change and counts failures |
| `BudgetEngine.Engine.Release` | src/budget.rs:706-708 | settles to nothing spent |
| `BudgetEngine.RollbackExact` | src/budget.rs:714-728 | a rollback leaves exactly the holds whose rollback never arrived, and counts exactly the unanswered ones |
| `BudgetEngine.AllOrNothing` | src/budget.rs:623-676 | an admitted request charged every line exactly once; any other charged nothing but its leaks and counted its unanswered rollbacks, for every pattern of losses |
| `BudgetEngine.LeakCountExact` | src/budget.rs:623-728 | the failures reported are as many as the holds leaked if and only if as many rollbacks as reserves were applied unanswered |
| `BudgetEngine.LeakReportExact` | src/budget.rs:623-728 | the holds leaked are the very holds reported if and only if no call was applied unanswered |
| `BudgetEngine.SettleEffect` | src/budget.rs:683-702 | for any lines and losses, a counter moves by what was meant for it less what was dropped because its marker was set |
| `BudgetEngine.SettleExact` | src/budget.rs:683-702 | over distinct counters each settle moves its counter by its own difference, as far as it arrives |
| `BudgetEngine.SettledToActual` | src/budget.rs:683-702 | over a store that answers, each counter then holds what was spent in place of what was reserved |
| `BudgetEngine.SharedCounterExact` | src/budget.rs:683-702 | for any lines, losses and counter: it settles to all that reached the store if and only if the changes after the first sum to zero |
| `BudgetEngine.SecondSettleExact` | src/budget.rs:683-702 | for any lines and losses: settling again changes nothing if and only if each line that lands is on a counter the first settle landed on, or that was marked before |
| `BudgetEngine.SecondSettleDistinct` | src/budget.rs:683-702 | over distinct counters: if and only if each line that lands the second time landed the first time |
| `BudgetEngine.LinesDistinct` | src/budget.rs:623-640 | budgets with different colon-free names give one reservation distinct counters |
| `BudgetCharges.LinesExact` | src/budget.rs:207-212 | a request has a line for a budget exactly when its estimate is not zero in the budget's unit, tokens or millionths of a dollar; the line is for that much, and the lines are in the order of the budgets |
| `BudgetCharges.TotalExact` | src/budget.rs:623-640 | for budgets of any names a counter is asked for the tokens once for each token budget on it and for the cost once for each cost budget |
| `BudgetCharges.AnswerExact` | src/budget.rs:623-676 | for any lines and losses: granted exactly when every line is answered and fits with those before it; else the first that does not decides, a denial naming its budget if it was answered, and otherwise an error, or a grant of nothing when failing open |
| `BudgetCharges.GrantCharges` | src/budget.rs:623-676 | a grant, under any losses, raises the counter of each budget by the estimate in its unit, and no other counter |
| `BudgetCharges.ReserveDecides` | src/budget.rs:234-238 | over a store that answers: granted exactly when what is asked of each budget fits under its limit, else denied naming the first it does not fit, with nothing charged |
| `BudgetCharges.SettleSpends` | src/budget.rs:683-702 | a settle over a store that answers leaves on each counter what was spent, in the budget's unit, in place of what was reserved |
| `BudgetCharges.ReserveThenSettle` | src/budget.rs:623-702 | a request that fits, reserved and settled over a store that answers, has charged each budget of which something was asked what was spent in its unit |
| `BudgetRefinement.ActFollows` | src/budget.rs:623-728 | one attempt of one call, admitted, refused or lost before or after it applies, is a run of the protocol that does to the ledger what the attempt adds to the account: a hold if it was admitted, or its hold closed at nothing or at what was spent |
| `BudgetRefinement.EnginesAreRun` | src/budget.rs:623-728 | any number of reserves and settles over one store, interleaved attempt by attempt under any losses, are a run of the protocol with the same books, whose ledger is the account of those attempts, each call finding its own lines in it |
| `BudgetRefinement.EngineLaws` | src/budget.rs:623-728 | after every such interleaving each counter is the account's open holds plus what its closed holds were closed at, and passes its limit only by what those outran their reservations |
| `BudgetRefinement.AccountExplained` | src/budget.rs:683-728 | after every such interleaving each hold of the account is open, or closed at zero by the reserve that gave up, or closed at the spend that some settle of its reservation was called with |
| `BudgetRefinement.GrantInAccount` | src/budget.rs:623-676 | each line of a reservation handed out is a hold of the account, with its caller, counter and amount |
| `BudgetRefinement.EngineCeiling` | src/budget.rs:236-238 | while nothing is settled above its reservation no counter passes its budget's limit, under every interleaving and pattern of losses |
| `BudgetRefinement.ReserveAlone` | src/budget.rs:623-676 | the attempts of a reserve, made with no other between, are the reserve of `BudgetEngine`: same books, same losses met, same answer, be it a grant, a denial or an error, with the same count of failed rollbacks |
| `BudgetRefinement.SettleAlone` | src/budget.rs:683-702 | and those of a settle are its settle, through all its lines and with the same count of failures |
| `Der.Read` | src/certstore.rs:1140-1166 | a successful read tiles its input into the whole element and a strictly shorter rest |
| `Der.ReadExact` | src/certstore.rs:1140-1166 | for arbitrary bytes, a read succeeds exactly on a tag, a definite length of at most four octets and that many octets |
| `Der.Extension` | src/certstore.rs:1265-1295 | both loops end and compute the recursive search for an extension |
| `Der.CommonName` | src/certstore.rs:1316-1337 | the nested loops with their labelled break compute the first textual common name |
| `Der.Names` | src/certstore.rs:1298-1363 | the walk and the loop over general names compute the recursive reading |
| `Der.NamesAreClean` | src/certstore.rs:1338-1361 | for arbitrary bytes, names are non-empty ASCII, and DNS and e-mail names are in lower case |
| `Der.TrailingIgnored` | src/certstore.rs:1178-1212 | bytes after the certificate change neither its fields nor its names |
| `DerEncoding.ReadEnc` | src/certstore.rs:1140-1166 | an encoded element is read back, whatever follows |
| `DerEncoding.AssignedOids` | src/certstore.rs:1248-1308 | the identifiers looked for are 2.5.29.35, 2.5.29.17 and 2.5.4.3 |
| `DerEncoding.AssignedTags` | src/certstore.rs:1126-1130 | the tags looked for are those of the universal types in ITU-T X.680 and of the context-specific fields in RFC 5280 |
| `DerEncoding.NameInjective` | src/certstore.rs:1209-1209 | different distinguished names have different encodings, so the self-issued test compares the names |
| `DerEncoding.ParseUndoesEncode` | src/certstore.rs:1178-1212 | reading any encoded certificate gives its dates, serial number, self-issued flag and key identifier, or an error exactly when a date has none |
| `DerEncoding.NamesUndoEncode` | src/certstore.rs:1298-1377 | its names are its first textual common name and its DNS, URI and e-mail names in order, encoded with the GeneralName numbers 2, 6 and 1 |
| `DerEncoding.AuthorityKeyIdEnc` | src/certstore.rs:1248-1261 | the key identifier of the first such extension is found past unique ids, critical flags and other extensions |
| `DerEncoding.CrlUndoesEncode` | src/certstore.rs:1215-1236 | reading any encoded revocation list gives its two dates, the second only when present |
| `Sni.New` | src/certstore.rs:653-684 | the resolver is built exactly for accepted lists, and then holds just their claims |
| `Sni.WildcardExact` | src/certstore.rs:607-622 | a wildcard stands for one dot-free label before its suffix, which is the test from the first dot |
| `Sni.SelectFollowsRule` | src/certstore.rs:687-703 | the index answers by the rule on the list: an exact claim, else a wildcard claim, else the default |
| `Sni.RuleUnique` | src/certstore.rs:653-703 | an accepted list gives each name one answer |
| `Sni.OrderIrrelevant` | src/certstore.rs:653-703 | permuting the list changes no answer |
| `Sni.AcceptedInAnyOrder` | src/certstore.rs:653-684 | nor whether it is accepted |
| `SniNames.HostExact` | src/certstore.rs:607-622 | blanks around it and dots at its end left aside, a pattern is a star before a domain of two labels or more, or a name without stars, in any case; anything else is refused |
| `SniNames.SelectIgnoresCase` | src/certstore.rs:687-703 | names that differ only in the case of ASCII letters and in dots at the end get the same certificate |
| `SniNames.LowerExact` | src/certstore.rs:586-588 | two names are compared equal exactly when they differ at most in the case of ASCII letters |
| `Renewal.DueInSeconds` | src/certstore.rs:170-176 | due exactly when the age is two thirds of the life, rounded down to a multiple of three seconds, or the life is not positive: by two thirds of it at the latest, and not more than four thirds of a second earlier |
| `Renewal.AriRenewAt` | src/certstore.rs:249-259 | the point lies in the CA's window |
| `Renewal.AriPointExact` | src/certstore.rs:245-259 | a point of the window is the renewal point exactly when it is congruent to the hash of the serial number modulo the window's length |
| `Renewal.OneDigitApart` | src/certstore.rs:253-256 | serial numbers that differ in one place have different hashes |
| `Renewal.FnvVectors` | src/certstore.rs:253-256 | the hash has the published values of FNV-1a for the empty text and for `a` |
| `Renewal.AttemptExact` | src/certstore.rs:847-991 | in every run a check attempts exactly when the certificate is past two thirds of its life in seconds, or past the point in the window the CA last gave for it, read off the past answers alone; it reports what came of the attempt, and never replaces a certificate of a CA by a self-signed one |
| `Renewal.LastPointOffered` | src/certstore.rs:948-991 | that point lies in the latest window that the CA, when asked, gave for the certificate, with only failed questions since |
| `Renewal.NoEarlyRenewal` | src/certstore.rs:847-991 | so in every run an attempt before two thirds of the life is at or after the start of that window |
| `Renewal.BackoffExact` | src/certstore.rs:1074-1078 | 300 seconds doubling with each failure, 43200 from the ninth on |
| `Renewal.ChecksPaced` | src/certstore.rs:997-1071 | in every run checks are 300 to 43200 seconds apart, and 3600 to 4199 after one at which all was well |
| `Renewal.RetriesPaced` | src/certstore.rs:1064-1078 | in every run, after the n-th failure in a row the next check comes after 300 seconds doubled n - 1 times, and after 43200 from the ninth on |
| `Renewal.NeverStarved` | src/certstore.rs:997-1078 | for every history of answers and failures, a loop running when two thirds of the life have passed makes at least floor(life / 3 / 43200) attempts before expiry |
| `Renewal.AsksHourly` | src/certstore.rs:236-243 | in every run of one certificate, questions to the CA are at least an hour apart |
| `Renewal.AsksExact` | src/certstore.rs:948-991 | in every run of one certificate the next question to the CA is at the first check at which the last answer no longer stands: as long as the CA says, but 3600 seconds at least and 86400 at most, a day without a window, an hour when unreachable |
| `Renewal.Maintainer.constructor` | src/certstore.rs:997-999 | no failures and nothing cached |
| `Renewal.Maintainer.AriWindow` | src/certstore.rs:948-991 | asks when no answer stands for this certificate, keeps the old point when the CA is unreachable, caches within bounds |
| `Renewal.Maintainer.Check` | src/certstore.rs:847-941 | the outcome and the cache of one check |
| `Renewal.Maintainer.Maintain` | src/certstore.rs:997-1054 | the loop's log is the trace the theorems are about |
| `Xfcc.Print` | src/client_auth.rs:399-408 | the nested loops print the hash and each URI and DNS name, escaped and quoted |
| `Xfcc.SplitQuoted` | src/client_cert_header.rs:422-448 | the character loop computes the pieces between separators outside quotes |
| `Xfcc.JoinPieces` | src/client_cert_header.rs:422-448 | joined by the separator the pieces are the text |
| `Xfcc.PiecesWhole` | src/client_cert_header.rs:422-448 | and no piece has a separator outside quotes |
| `Xfcc.UnquotePrinted` | src/client_cert_header.rs:451-456 | the two replace passes undo the two of the escape, for every value |
| `Xfcc.Parse` | src/client_cert_header.rs:385-419 | takes the last element that is not blank and fills in its pairs |
| `Xfcc.ParseUndoesPrint` | src/client_cert_header.rs:385-456 | parsing what was printed gives the hash, the URIs and the DNS names in order for names of any content, and an error exactly without names |
| `Xfcc.ParseUndoesAppend` | src/client_cert_header.rs:385-456 | and so it does after any earlier text whose quotes close |
| `XfccElements.ElementExact` | src/client_cert_header.rs:385-419 | for an element of any keys, in any case, order and number, with quoted values of any content: a chain counts before a certificate and either before the details; URIs and DNS names are collected in order, the last hash and subject count, and without a name it is an error |
| `XfccElements.CommonNameExact` | src/client_cert_header.rs:459-465 | a subject's common name is that of the first part that begins with `CN=` once trimmed, unless empty |
| `XfccElements.SubjectParts` | src/client_cert_header.rs:459-465 | the parts of a subject hold no comma and with commas between them are the subject |
| `XfccElements.PrintedSpelled` | src/client_auth.rs:399-408 | the printed element of plain names, spelled out |
| `Forwarding.PrintedSendable` | src/proxy.rs:2153-2166 | the header value is accepted exactly when every name is visible ASCII, blanks and tabs |
| `Forwarding.InboundExact` | src/proxy.rs:2149-2166 | while inbound headers are stripped nothing a client sent passes, whatever the policy and the certificate; else it passes unless ours replaces it, which is there only for a certificate |
| `Forwarding.NamesArrive` | src/proxy.rs:2153-2166 | for every certificate: the next hop gets no header exactly when a name cannot be sent, an error exactly without names, and else exactly the URI and DNS names this hop read |
| `Forwarding.NamesArriveAppended` | src/client_cert_header.rs:385-419 | and the same after any earlier text whose quotes close |
| `Forwarding.CertificateArrives` | src/proxy.rs:2153-2166 | from an abstract certificate: its URI and DNS alternative names reach the next hop in order, or no header does |
| `Forwarding.HexInjective` | src/certstore.rs:1208-1208 | a hexadecimal serial number or digest determines its octets |
| `Forwarding.HexReads` | src/certstore.rs:1208-1208 | two lower-case digits for each octet, the high one first |
| `AccessLog.DecodeComponent` | src/accesslog.rs:136-171 | the byte loop computes the decoded text, or panics on a slice inside a character |
| `AccessLog.DecodePanics` | src/accesslog.rs:145-150 | for UTF-8 text it panics exactly when the two bytes after some percent sign end inside a character |
| `AccessLog.DecodeUndoesEncode` | src/accesslog.rs:136-171 | however its octets are written, literally (any but a percent sign or a plus), in hex of either case or as a plus for a space, UTF-8 text whose writing is UTF-8 decodes to itself |
| `AccessLog.EncodingCannotHide` | src/accesslog.rs:177-211 | no such writing of a sensitive name or a secret-looking value keeps the value from being hidden |
| `AccessLog.SanitizeTarget` | src/accesslog.rs:235-275 | the loop over pairs computes the line, in each mode |
| `AccessLog.SanitizePanics` | src/accesslog.rs:235-275 | a target panics, in the redacting mode only, exactly when a pair with a value has a broken name that is not sensitive as it stands, or a broken value that does not look secret under a name that is not sensitive |
| `AccessLog.ComponentsValid` | src/accesslog.rs:235-275 | names and values of a UTF-8 target are UTF-8, so `DecodePanics` says which are broken |
| `AccessLog.LineExact` | src/accesslog.rs:235-275 | a target that does not panic gives a line with its path and, in order, what is shown of each pair, and nothing else |
| `AccessLog.SanitizeTwice` | src/accesslog.rs:235-275 | sanitising twice is sanitising once, in every mode, for every target that does not panic |
| `AccessLog.LinesEqual` | src/accesslog.rs:235-275 | two targets that do not panic give one line exactly when they share the path and show each pair alike |
| `AccessLog.HiddenValuesDoNotShow` | src/accesslog.rs:235-275 | targets that differ only in hidden values leave the same line |
| `AccessLog.ShownApart` | src/accesslog.rs:258-271 | two pairs that do not panic show alike exactly when they differ at most in a value hidden in both, or one is the other with the mark for value |
| `LogPrivacy.NameExact` | src/accesslog.rs:181-188 | a name is sensitive exactly when it holds, in any mix of case, one of the eighteen words, written out, or one the operator added |
| `LogPrivacy.ValueExact` | src/accesslog.rs:201-229 | a value looks secret exactly when it is three dotted segments of token characters, the first of eight or more beginning `eyJ`, or 24 token characters or more with a digit |
| `LogPrivacy.CredentialHidden` | src/accesslog.rs:258-271 | a pair whose name holds such a word is shown as the name and `<redacted>`, whatever its value |
| `LogPrivacy.PairExact` | src/accesslog.rs:258-271 | a pair that does not panic is shown with `<redacted>` exactly when its name or value, as it stands or decoded, gives it away, and else verbatim |
| `LogPrivacy.PairInLine` | src/accesslog.rs:235-275 | and so it stands in the line, at its place |
| `LogPrivacy.ModesExact` | src/accesslog.rs:241-249 | the other modes show `<dropped>` for the query, or all of it; without a query the target stays |
| `LogPrivacy.StrayPercentsKept` | src/accesslog.rs:136-171 | text without a plus sign or an escape stands for itself, stray percent signs and all |
| `Cidr.MaskBits` | src/access.rs:108-122 | the mask is as many ones as the prefix and then zeros, in both families |
| `Cidr.BlockIsNormal` | src/access.rs:53-68 | a block built from an address has its host bits cleared and holds the address |
| `Cidr.ContainsExact` | src/access.rs:92-104 | a block holds exactly the addresses of its family that begin with its prefix |
| `Cidr.OverlapExact` | src/access.rs:78-90 | two blocks overlap exactly when some address is in both |
| `Cidr.OverlapIsContainment` | src/access.rs:78-104 | and exactly when one holds all of the other |
| `Cidr.AllowedExact` | src/access.rs:151-161 | an address may proceed exactly when it has the leading bits of no rule of the deny list, and of one of the allow list or that is empty |
| `Cidr.ShadowedEntry` | src/access.rs:151-161 | an entry overlapping a shorter prefix in its list can be dropped without changing any answer |
| `CspSink.Sink.constructor` | src/csp_sink.rs:167-176 | nothing is pending |
| `CspSink.Sink.Queue` | src/csp_sink.rs:210-225 | counts a known pair up to its cap, adds a new one while there is room, else overflows |
| `CspSink.Sink.Take` | src/csp_sink.rs:228-243 | hands over each pending pair once with its count, and leaves nothing |
| `CspSink.RunBalanced` | src/csp_sink.rs:210-243 | over every run of a new sink reports queued are taken plus pending plus overflowed, with at most 64 pairs of 1 to 10000 each |
| `CspSink.IntervalExact` | src/csp_sink.rs:210-225 | an interval keeps exactly the first 64 distinct pairs, each with the number of its reports up to 10000 and the document of the first |
| `CspSink.FoldExact` | src/csp_sink.rs:210-225 | a report is counted, added or dropped exactly by whether its pair is kept, is at the cap, or finds room |
| `Throttle.StepKeepsInv` | src/csp_sink.rs:193-207 | every atomic step of any thread keeps stamps an interval apart |
| `Throttle.ThrottledRun` | src/csp_sink.rs:193-207 | over every interleaving, whatever the clock does, `n` stamps span at least `n` intervals |
| `Throttle.PrunesSpaced` | src/csp_sink.rs:193-207 | so prunes are ten seconds apart |
| `Throttle.WarningsSpaced` | src/client_cert_header.rs:236-243 | and warnings a minute |
| `Throttle.SwapExact` | src/client_cert_header.rs:236-243 | a swap succeeds exactly when no other has since its load |
| `Throttle.OverdueStamps` | src/csp_sink.rs:193-207 | a thread that is not disturbed stamps exactly when an interval has passed since the last stamp |
| `Utf8Characters.CharacterExact` | src/dlp.rs:686-691 | bytes begin with a character exactly when they begin with the encoding of a Unicode scalar value |
| `Utf8Characters.ReplacedExact` | src/dlp.rs:701-708 | a replacement character stands for as many ill-formed bytes as some character could have begun with, and one at least |
| `Utf8Characters.LossyIsValid` | src/dlp.rs:701-708 | whatever the bytes, decoding gives valid UTF-8 |
| `Counterexamples.StreamingCanDiffer` | src/dlp.rs:714-733 | an open prefix before a placeholder makes some cutting differ from the buffered result |
| `Counterexamples.CarryCanGrow` | src/dlp.rs:674-697 | one ill-formed byte and enough bytes after it break any bound |
| `Counterexamples.RoundTripCanFail` | src/dlp.rs:518-534 | an open prefix before a finding swallows its placeholder, with an empty map already |
| `Counterexamples.OneNameCollides` | src/budget.rs:190-204 | two budgets of one name share a counter in every request |
| `Counterexamples.NamesCanCollide` | src/budget.rs:190-204 | a per-caller budget named `a` and one named `a:b` can share a counter |
| `Counterexamples.AnonymousCanShare` | src/budget.rs:190-204 | an anonymous request and a caller named `_anon` share a counter |
| `Counterexamples.TeamlessCanShare` | src/budget.rs:190-204 | a request without a team shares with the team `_none` |
| `Counterexamples.ClaimsCanShare` | src/budget.rs:107-119 | a missing claim shares with `_none`, `a:b` with `a_b`, and any values with the same first 200 characters |
| `Counterexamples.LostReplyLeaks` | src/budget.rs:454-475 | a reserve whose reply is lost leaves a hold nothing reports |
| `Counterexamples.CountsCanAgree` | src/budget.rs:623-728 | a reserve and a rollback both applied unanswered: one hold is leaked and another reported |
| `Counterexamples.SecondSettleCanMove` | src/budget.rs:683-702 | a settle at the estimate and then another one: the second still moves the counter |
| `Counterexamples.LostSettleCanMove` | src/budget.rs:683-702 | a lost settle and the same again: the second moves the counter |
| `Counterexamples.SharedCounterCanDrop` | src/budget.rs:683-702 | two lines of five on one counter, settled at seven each, move it by two |
| `Counterexamples.DecodeCanPanic` | src/accesslog.rs:145-150 | a percent sign, a letter and a two-byte character |
| `Counterexamples.TargetCanPanic` | src/accesslog.rs:235-275 | the same as the value of a plain parameter |
| `Counterexamples.NewlineSendsNothing` | src/proxy.rs:2153-2166 | a certificate with a newline in a URI name is forwarded in no header |

## Left out

- Detection of findings (regular expressions, Aho-Corasick, entropy, named entities): findings are arbitrary spans. Scores are reals, so a NaN score is not modelled.
- The keyed hash of the `hash` redaction style is a function parameter.
- BudgetStore.StoresAgree: counters and sums stay where a Lua number is exact (below 2^53) and a signed 64-bit sum does not wrap; rounding of larger doubles and wrap-around of larger sums are not modelled.
- BudgetEngine.AllOrNothing: amounts are unbounded integers, so the engine's casts between signed and unsigned 64-bit are not modelled.
- BudgetProtocol.Conservation: expiry is not modelled here, as a counter that expires is meant to forget; expiry is in `BudgetStore`. A key names one budget with one limit, and a request charges no counter twice.
- BudgetCharges.ReserveDecides: the budgets have different colon-free names, so that each has its own counter; `AnswerExact` and `TotalExact` are for any names.
- BudgetStore.CounterOutlivesWindow: windows of fewer than 2^64 milliseconds.
- BudgetRefinement.EnginesAreRun: the budgets have different colon-free names, so that no request charges a counter twice; nothing expires.
- RoundTrip.RoundTripExact: fewer than half of the `usize` range are findings, as a slice allows no more.
- BudgetEngine.SettleAtMostOnce: holds within the marker's life, since an expired marker is a new one; backoff between attempts takes no time.
- Observers of a budget (consumed ratios, metrics, alerts) and the conversion of prices to micro-dollars.
- Redis as a network service: each script is one atomic step, and a call is lost before or after it.
- Conversion of a DER time to seconds is a function parameter, and base64url text of an ARI identifier is kept as octets.
- DerEncoding.ParseUndoesEncode: certificates of 4 GiB or more are not encodable in the four length octets the reader accepts.
- Error messages: all errors of a parser are one.
- ACME, TLS, DNS, file watching and PEM reading; the renewal loop takes their results as events. Time spent inside a check and warnings in the log are not modelled.
- Renewal.NeverStarved: times are unbounded integers, and the certificate stays the same while attempts fail.
- Xfcc.Parse: a `Cert` or `Chain` value is returned as it stands; percent-decoding, PEM and verification of it are not modelled.
- Forwarding.NamesArrive: the SHA-256 digest is any octet string, and inbound headers are stripped, as they are while client authentication is on.
- The access log's user-agent field, the per-client rate limits and the metrics text are not modelled.
- Parsing of addresses from text, and 32-bit and 128-bit words as anything but their bits.
- CspSink.Sink.Take: the order in which pairs are handed over is not fixed, as in a hash map; the mutex makes each call one step.
- Configuration, generation, CORS, alerting, key vault, authentication and the control plane.
