# hg simulation engine, modelled in Dafny

`hg` runs a Hunger-Games style simulation. Districts own tributes, and
templated events are drawn in phases. The phases cycle through the
Bloodbath, Day, Fallen Tributes and Night, until at most one tribute is
alive.

In each step the engine works as follows:
- It takes the living tributes as the pool.
- It computes a kill quota from the death rate.
- It draws templates from the current phase's weighted catalog. Acceptance
  rules keep at least one tribute alive, and force kills while the quota is
  unmet.
- It resolves each template against the pool. It binds a distinct tribute to
  every slot `(P1)`, `(P2)`, ..., decides victims and killers, and renders
  pronouns, compound words and names into the text.
- It applies every result to the canonical tributes.
- It publishes the step's results as a buffer that is read once, and moves
  the phase on.

The Dafny modules follow the crate's files:

- `Pronouns` (pronouns.dfy): the four pronoun tables and the capitalisation rule.
- `Tribute` (tribute.dfy): the tribute value, `kill`, `add_kill`, and the identity counter as a class.
- `District` (district.dfy): the living queries and `set_path`.
- `Placeholders` (placeholders.dfy): the placeholder grammar of event texts and `get_tribute_num`.
- `Event` (event.dfy): templates, slot binding, role assignment and the rendering chain of `get_result`.
- `Random` (random.dfy): what the engine uses of its random-number library.
  - Building a weighted index can fail. A draw is mapped to an index through cumulative weights.
  - The shuffle is Fisher-Yates.
- `Simulation` (simulation.dfy): `EventData` and its sampler, and the `Simulation` class.
  - `Step` is a method over the class's fields. Results are applied in place by replacing district elements.
- Helper modules: `Wrappers` (Option, Result), `Text` (string helpers, decimal formatting, `replace`, `split`) and `Seqs`.

Randomness is supplied from outside:
- `draws`, a finite sequence, feeds the weighted sampler. Each candidate template uses one draw.
- `coins` with a position `pos` feeds the slot choice (`gen_range`) and the shuffle.

## Model

| member | source | states |
|---|---|---|
| Pronouns.UppercaseFirstLetter | hg/src/pronouns.rs:12-19 | only the first character is upper-cased and the rest is kept; empty gives empty |
| Pronouns.Capitalised | hg/src/pronouns.rs:21-26 | the table entry is capitalised iff the character after "(" of the placeholder is upper case; otherwise the entry is returned as is |
| Pronouns.IsFirstCharacterUpper | hg/src/pronouns.rs:21-26 | true iff the character after "(" is an upper-case letter: lower-casing changes it, and upper-casing it again gives it back |
| Pronouns.SubjectPronoun | hg/src/pronouns.rs:28-43 | the table entry (he/she/they/it) for the pronouns: the entry itself when the placeholder's second character is not upper case; otherwise the same length and the same characters after the first, with the first upper case |
| Pronouns.ObjectPronoun | hg/src/pronouns.rs:45-60 | the table entry (him/her/them/it) for the pronouns: the entry itself when the placeholder's second character is not upper case; otherwise the same length and the same characters after the first, with the first upper case |
| Pronouns.PossessivePronoun | hg/src/pronouns.rs:62-77 | the table entry (his/her/their/its) for the pronouns: the entry itself when the placeholder's second character is not upper case; otherwise the same length and the same characters after the first, with the first upper case |
| Pronouns.ReflexivePronoun | hg/src/pronouns.rs:79-94 | the table entry (himself/herself/themself/itself) for the pronouns: the entry itself when the placeholder's second character is not upper case; otherwise the same length and the same characters after the first, with the first upper case |
| Tribute.Kill | hg/src/tribute.rs:43-45 | dead afterwards; name, avatar, pronouns, kills and id unchanged |
| Tribute.GetId | hg/src/tribute.rs:39-41 | the tribute's identity |
| Tribute.KillIdempotent | hg/src/tribute.rs:43-45 | killing twice equals killing once |
| Tribute.AddKill | hg/src/tribute.rs:47-49 | kills go up by exactly one; nothing else changes |
| Tribute.KillAddKillCommute | hg/src/tribute.rs:43-49 | kill and add_kill commute, so a victim who is also a killer ends the same either way |
| Tribute.IdGenerator.constructor | hg/src/tribute.rs:10-11 | the counter starts at 1 with nothing issued |
| Tribute.IdGenerator.NewId | hg/src/tribute.rs:10-14 | returns the counter, then increments it; the id is at least 1, exceeds every earlier id and was never issued before |
| Tribute.NewTribute | hg/src/tribute.rs:16-35 | a loaded tribute is alive, has 0 kills, keeps its name, avatar and pronouns, and gets a fresh id |
| District.AliveOnlyExactly | hg/src/district.rs:56-70 | the filter holds exactly the alive tributes, and as many of them as are alive |
| District.AliveOnlyEmptyIff | hg/src/district.rs:44-54 | the living list is empty, or the count is 0, iff no tribute is alive |
| District.HasLivingTributes | hg/src/district.rs:44-54 | true iff some tribute is alive |
| District.GetLiving | hg/src/district.rs:56-70 | the alive tributes in district order, including the early empty return |
| District.SetPath | hg/src/district.rs:38-40 | the file name with every ".toml" removed; name and tributes unchanged |
| District.SetPathStripsExtension | hg/src/district.rs:38-40 | "stem.toml" is stored as "stem" when the stem has no dot |
| Placeholders.GetTributeNum | hg/src/event.rs:298-300 | the digit is the second-to-last character of the placeholder |
| Placeholders.TributeNumOfPlaceholder | hg/src/event.rs:298-300 | reading the second-to-last character of a recognised placeholder gives its slot digit |
| Placeholders.UpperSlotToken | hg/src/event.rs:168-173 | "(p3)" and "(P3)" upper-case to the same key "(P3)" |
| Placeholders.SlotKeyInjective | hg/src/event.rs:182-186 | different digits give different slot keys |
| Event.NewResult | hg/src/event.rs:212-219 | the text, with no victims, killers or tributes |
| Event.GetNumTributesRequired | hg/src/event.rs:99-110 | the number of distinct digits among the slot placeholders, "(P1)" and "(p1)" counting once |
| Event.SlotOrder | hg/src/event.rs:182-184 | the bound slots are strictly ascending, and exactly the bound ones appear |
| Event.BoundSlots | hg/src/event.rs:182-196 | position i of the bound list holds the tribute of the i-th bound slot in ascending digit order |
| Event.BindSlots | hg/src/event.rs:163-175 | every distinct slot digit is bound; the pool shrinks by the required count; the remainder keeps its order and, with the bound tributes, makes up the old pool as a multiset |
| Event.BindStep | hg/src/event.rs:170-173 | removing the drawn tribute from the pool and binding it keeps that accounting |
| Event.AssignRoles | hg/src/event.rs:177-196 | the result is the roles assigned in ascending slot order, with the text untouched |
| Event.RoleLoop | hg/src/event.rs:182-196 | over a given slot order, the victim and killer id lists and the marked tributes are exactly those the role functions assign to that order |
| Event.AssignedRoles | hg/src/event.rs:182-196 | one copy per bound tribute in slot order, dead iff its key is a victim; an id is a victim (or killer) iff a bound slot in that list holds it |
| Event.RoleIdsMembers | hg/src/event.rs:186-193 | an id is listed for a role iff one of the slots in that role holds it; the list is empty iff no slot is in the role |
| Event.ResolveMissingFields | hg/src/event.rs:198-200 | fails with MissingFieldsError iff exactly one of the victim and killer lists is empty, reporting the template text |
| Event.ResolveKeepsRoles | hg/src/event.rs:198-207 | a successful result keeps the assigned roles and tributes and is never asymmetric |
| Event.RoleIdsAtMost | hg/src/event.rs:182-196 | over distinct slots a role lists at most as many ids as the template lists keys for it |
| Event.ResolvedAtMost | hg/src/event.rs:177-207 | a resolved result names no more victims, and no more killers, than the template lists |
| Event.GetResult | hg/src/event.rs:113-208 | binding as in BindSlots; the outcome is Resolve of the binding that was made |
| Event.SubjectSelected | hg/src/event.rs:281-283 | a "(theyN)" placeholder selects the subject form |
| Event.ReflexiveSelected | hg/src/event.rs:281-284 | a "(themselfN)" placeholder selects the reflexive form |
| Event.PossessiveSelected | hg/src/event.rs:281-285 | a "(theirN)" placeholder selects the possessive form |
| Event.ObjectSelected | hg/src/event.rs:281-286 | a "(themN)" placeholder selects the object form |
| Event.ReplacePronouns | hg/src/event.rs:268-295 | the method computes one pronoun pass |
| Event.ReplaceToken | hg/src/event.rs:281-291 | one placeholder replaced everywhere by the pronoun its keyword selects, or the text unchanged when it selects none |
| Event.PronounStepsOutcome | hg/src/event.rs:272-278 | a pass fails iff some placeholder's digit exceeds the bound tributes; it reports the first such one as index digit-1 against the starting text |
| Event.PassOutcome | hg/src/event.rs:268-295 | a pronoun pass only rewrites the text, and fails only with MissingPlayerIdentifier |
| Event.CompoundWordChoice | hg/src/event.rs:248-259 | a compound renders to its second word for They and to its first word otherwise |
| Event.CompoundStrip | hg/src/event.rs:249-253 | removing the slot and the parentheses leaves "A/B", which splits into the two words |
| Event.ReplacePlayerWords | hg/src/event.rs:233-266 | the method computes the compound pass |
| Event.ReplaceCompound | hg/src/event.rs:240-262 | one compound word: an out-of-range player number is a missing-identifier error, otherwise every occurrence becomes the first or second alternative by the tribute's pronouns |
| Event.CompoundStepsOutcome | hg/src/event.rs:240-246 | the compound pass fails iff some compound's digit exceeds the bound tributes, reporting the first such one |
| Event.ReplacePlayers | hg/src/event.rs:221-232 | the name pass, in ascending slot order; it never fails |
| Event.NameStepsClear | hg/src/event.rs:221-232 | when every name has at least three characters and no parentheses, none of the replaced slot keys is left in the text |
| Event.PlayersPassClears | hg/src/event.rs:221-232 | after replace_players no bound slot's upper-cased key remains, when every bound name has at least three characters and no parentheses |
| Event.RenderOutcome | hg/src/event.rs:202-207 | the rendering chain only rewrites the text, and fails only with MissingPlayerIdentifier |
| Event.OnlyNames | hg/src/event.rs:202-207 | a text without pronouns or compounds goes straight to the name pass |
| Event.ContiguousSlots | hg/src/event.rs:182-196 | with slots 1..n bound, position k-1 holds the marked tribute of slot k |
| Event.UpperSlotNamed | hg/src/event.rs:221-232 | "(P1)" renders to the bound tribute's name |
| Event.LowerSlotNotNamed | hg/src/event.rs:168-173 | "(p1)" binds a tribute but the text keeps "(p1)" |
| Random.CheckWeights | hg/src/simulation.rs:59-61 | the weighted index is built iff the weights are non-empty, non-negative and do not sum to zero; each failure has its own error |
| Random.Pick | hg/src/simulation.rs:68 | the chosen index has positive weight, and its cumulative interval holds the draw |
| Random.PickReaches | hg/src/simulation.rs:68 | every positive-weight index can be drawn |
| Random.Sample | hg/src/simulation.rs:68 | one draw of WeightedIndex::sample gives an index in range with positive weight |
| Random.Shuffle | hg/src/simulation.rs:251-254 | the result is a permutation that uses one coin per position after the first |
| Simulation.EventData.Create | hg/src/simulation.rs:33-46 | the templates in order, each weight beside its template |
| Simulation.EventData.HasFatal | hg/src/simulation.rs:48-56 | true iff some template names a victim |
| Simulation.EventData.GetRandomEvent | hg/src/simulation.rs:58-100 | the loop yields the sampler function's outcome; every Ok carries a template |
| Simulation.SampleAccepted | hg/src/simulation.rs:67-99 | a returned template is a positive-weight catalog entry, accepted by the ordinary test or the escape valve, after at least one draw and at most all of them; running out of draws is the only error |
| Simulation.JudgeAccepts | hg/src/simulation.rs:70-91 | a template is accepted iff it passes the ordinary test, or the counter has reached 25 and the template passes the escape test |
| Simulation.CountedFailures | hg/src/simulation.rs:67-99 | the counter at acceptance equals the number of earlier draws whose template failed the size-and-kill test; refusals for a forced kill or the two-left rule are not counted |
| Simulation.AcceptedAtCount | hg/src/simulation.rs:67-99 | the template is accepted at the counter value its earlier counted rejections reach, and there are fewer of those than draws used |
| Simulation.EscapeCounted | hg/src/simulation.rs:67-99 | a template that fails the ordinary test comes only after 25 counted rejections: at least 26 draws, at least 25 of them failing the size-and-kill test |
| Simulation.RandomEventOutcome | hg/src/simulation.rs:58-100 | a broken weight vector gives WeightedRandomError; otherwise a template as above, or the draws ran out; an escape-valve template comes only after 25 counted rejections, 25 draws failing the size-and-kill test among them |
| Simulation.AcceptedLeavesOne | hg/src/simulation.rs:71-91 | an accepted template fits the pool and leaves at least one tribute of the step alive |
| Simulation.LivingOfMeans | hg/src/simulation.rs:419-429 | the pool is exactly the alive tributes, one entry each, and empty iff none is alive |
| Simulation.FirstAliveMeans | hg/src/simulation.rs:390-405 | the first alive tribute, with only dead ones before it; none iff no tribute is alive |
| Simulation.DistNameMeans | hg/src/simulation.rs:407-417 | the name of the first district holding the identity, or "Unknown District" |
| Simulation.CannonShotsInjective | hg/src/simulation.rs:177-185 | different death counts give different headers |
| Simulation.FallenLinesAt | hg/src/simulation.rs:191-197 | line i is "name from district" for the i-th tribute killed |
| Simulation.FallenReportShape | hg/src/simulation.rs:176-203 | the header for the count, then one line per death in order |
| Simulation.FallenReportSymmetric | hg/src/simulation.rs:176-203 | no report line is asymmetric |
| Simulation.PhaseCycle | hg/src/simulation.rs:361-372 | after the Bloodbath the phases cycle Day, FallenTributes, Night; Bloodbath and End are never reached by the table |
| Simulation.TitleInjective | hg/src/simulation.rs:270-278 | equal titles mean the same phase, and the same day for numbered phases |
| Simulation.TitleDetermines | hg/src/simulation.rs:270-278 | no other phase and day share a phase's title; the numbered phases' titles also give the day |
| Simulation.OfCategory | hg/src/simulation.rs:301-321 | a template is kept iff it is in the list and has the category |
| Simulation.LoadedCatalogs | hg/src/simulation.rs:297-330 | the three catalogs hold exactly the list's Bloodbath, Day and Night templates, and no more than the list |
| Simulation.Applied | hg/src/simulation.rs:224-241 | a tribute ends dead iff it was dead or its id is a victim; it gains one kill per killer listing; a tribute listed in neither is unchanged |
| Simulation.ApplyToTribute | hg/src/simulation.rs:225-240 | the two inner loops give Applied, and record one dead copy per victim listing |
| Simulation.ApplyTributes | hg/src/simulation.rs:224-241 | every tribute is replaced by its applied form |
| Simulation.PushedOfMeans | hg/src/simulation.rs:227-232 | the copies pushed to killed_today are exactly the dead copies of the tributes listed as victims |
| Simulation.ApplyToDistrict | hg/src/simulation.rs:225-240 | a district applied in place, with its recorded copies |
| Simulation.ApplyDistricts | hg/src/simulation.rs:224-241 | every district is applied |
| Simulation.ApplyAll | hg/src/simulation.rs:224-241 | applying district by district applies to all tributes in order |
| Simulation.ApplyEvolves | hg/src/simulation.rs:224-241 | applying keeps districts, names and identities, and only kills and credits |
| Simulation.EvolvesLiving | hg/src/simulation.rs:224-241 | no tribute comes back to life, so the living count never rises |
| Simulation.ApplySeqMeans | hg/src/simulation.rs:173-249 | after a run of results each tribute keeps its identity, is alive iff it was and no result names it a victim, and gains one kill per killer listing across the run |
| Simulation.EvolvesUnique | hg/src/simulation.rs:224-241 | tributes keep their ids, so distinct ids stay distinct |
| Simulation.KillsAtMost | hg/src/simulation.rs:224-241 | with distinct ids a result lowers the number alive by at most its number of victims |
| Simulation.ResultKeepsLiving | hg/src/simulation.rs:214-241 | with distinct ids the loop's living count stays at or below the number actually alive after each result |
| Simulation.Keep | hg/src/simulation.rs:243-245 | the pool filtered by identity keeps the order and never grows |
| Simulation.KeepMeans | hg/src/simulation.rs:243-245 | a tribute stays iff it was in the pool and its id is not excluded |
| Simulation.KeepTwice | hg/src/simulation.rs:243-245 | two retains equal one retain over the union of ids |
| Simulation.Retain | hg/src/simulation.rs:243-245 | the retain loop drops every pool member sharing an id with a bound tribute |
| Simulation.QuotaBounds | hg/src/simulation.rs:171 | a kill is owed iff living*rate reaches 1; a rate in [0, 1] owes between 0 and the living count; a rate of at most 0 owes none |
| Simulation.WinnerMeans | hg/src/simulation.rs:374-405 | get_winner finds nobody iff nobody is alive, and finds the sole survivor when one is left |
| Simulation.Simulation.constructor | hg/src/simulation.rs:297-330 | catalogs split by category, Bloodbath of day 1, empty buffers |
| Simulation.Simulation.GetAllEvents | hg/src/simulation.rs:141-153 | the Bloodbath, Day and Night catalogs, concatenated in that order |
| Simulation.Simulation.GetCategoryTitle | hg/src/simulation.rs:270-278 | "The Bloodbath", "The Winner", or a title ending in the day's number; no other phase and day share it |
| Simulation.Simulation.IsEnd | hg/src/simulation.rs:280-282 | true iff the title announces the winner |
| Simulation.Simulation.HasNextEvents | hg/src/simulation.rs:291-293 | true iff the buffer holds a result |
| Simulation.Simulation.StepCat | hg/src/simulation.rs:361-372 | the phase table; the day goes up only from Night to Day |
| Simulation.Simulation.GetClearNextEvents | hg/src/simulation.rs:284-293 | returns the buffer and empties it, so has_next_events is false afterwards |
| Simulation.Simulation.HasWinner | hg/src/simulation.rs:374-388 | true iff at most one tribute is alive |
| Simulation.Simulation.GetWinner | hg/src/simulation.rs:390-405 | the first alive tribute in district order |
| Simulation.Simulation.GetTribDistName | hg/src/simulation.rs:407-417 | the first district holding the identity |
| Simulation.Simulation.GetLivingTributes | hg/src/simulation.rs:419-429 | the alive tributes in district order |
| Simulation.Simulation.HasFatal | hg/src/simulation.rs:455-462 | true iff the phase draws templates and its catalog has a fatal one |
| Simulation.Simulation.GetRandEvent | hg/src/simulation.rs:446-453 | Ok(None) outside the drawing phases; otherwise the catalog's sampler |
| Simulation.Simulation.DrawEvent | hg/src/simulation.rs:206-216 | force_fatal is has_fatal and quota > 0; the template is accepted; living and quota drop by its victims; living stays at least 1 |
| Simulation.Simulation.ApplyResult | hg/src/simulation.rs:224-241 | the districts become the applied districts, and killed_today gains the recorded copies |
| Simulation.Simulation.ApplyInRun | hg/src/simulation.rs:224-241 | an application inside the drawing loop: the result joins the applied run, districts only evolve, killed_today only grows, and the living count stays below the number alive with distinct ids |
| Simulation.Simulation.ReportFallen | hg/src/simulation.rs:176-197 | the FallenTributes report over killed_today |
| Simulation.Simulation.RunEvents | hg/src/simulation.rs:173-249 | the districts and killed_today are the applied results, applied in order; on success the returned results are exactly those; tributes only evolve; no applied result is asymmetric; with distinct ids, someone alive at the start is alive at the end; errors are those of sampling and resolution |
| Simulation.Simulation.Collect | hg/src/simulation.rs:173-254 | FallenTributes lists the dead and clears the list when anyone is alive, with no draws; other phases run the loop, and the returned results are a permutation of the applied ones |
| Simulation.Simulation.Advance | hg/src/simulation.rs:256-265 | publish, then End iff at most one is alive, or the phase table |
| Simulation.Simulation.Step | hg/src/simulation.rs:155-268 | End changes nothing; on error the phase, day and buffer are untouched but applied kills stay; on success End iff at most one is alive; FallenTributes publishes the report; a drawing phase applies its results in order and publishes a permutation of them; with distinct ids a step outside FallenTributes never kills the last tribute alive |
| Simulation.Build | hg/src/simulation.rs:487-495 | NoEvents first, then NoDistricts; otherwise a fresh simulation at the Bloodbath of day 1 |

## Left out

- Loading: `from_file`, `load_data_from_dir`, TOML parsing and the settings file are I/O, and so is the default weight of 50 a template gets when its file gives none (hg/src/event.rs:52-58). `Build` starts from already loaded lists.
- The GUI crate, the CLI binary and `cli_display_living` are display only.
- The commented-out avatar fetching is network I/O and never runs.
- The random-number generator itself is not modelled. Draws and coins are parameters, and a draw is reduced modulo its range, so probabilities are not modelled.
- RandomnessExhausted exists only in the model. The source's sampling loop runs until a template is accepted, and when no template can ever be accepted it never returns. The finite `draws` stand in for that loop.
- Simulation.Simulation.Step: the model does not capture non-termination. When no catalog template fits, it ends with RandomnessExhausted instead.
- Random.Shuffle: the contract states a permutation and the coins it uses, not which permutation Fisher-Yates gives for those coins, so `Collect` and `Step` state the published results as a multiset of the applied ones.
- Simulation.Simulation.Step: "someone alive stays alive" assumes distinct tribute ids (`UniqueIds`). A tribute read from a file always gets a fresh `new_id()`, because `id` is skipped by serde (hg/src/tribute.rs:33-35), and `Tribute.IdGenerator.NewId` proves those ids distinct. But `Simulation::new` accepts any list of districts (hg/src/simulation.rs:297), and `Tribute` derives `Clone` (hg/src/tribute.rs:20), so a cloned or hand-built tribute can share an id. Distinctness is therefore the caller's obligation, and the model states it as a premise.
- Event.GetResult: requires `RequiredCount(e.text) <= |pool|`, as `Event.BindSlots` does. When a template needs more tributes than the pool holds, `gen_range(0..tributes.len())` panics on an empty range (hg/src/event.rs:168-175); that panic is left out. Every call from the step meets the requirement, because the sampler accepts only templates that fit the pool.
- Simulation.Quota: `death_rate` is an f64 in the source. The model uses a rational num/den and truncates the product toward zero as the cast does. Float rounding and the i32 saturation of the cast are left out.
- `day` is a u32 in the source; the model does not wrap it around.
- Template weights are i32. Building the index sums them, and overflow there is left out.
- `kills` is a u32; its overflow is left out.
- Placeholder patterns: the regexes allow any characters other than ")" between the digit and the closing parenthesis, as in "(P1 extra)". The model recognises only the closed forms "(Pd)", "(theyd)", "(themd)", "(theird)" and "(themselfd)" with d in 1-9, an ASCII case-insensitive keyword, and the compound form "(Pd)(A/B)". This also leaves out a compound whose first word itself begins with "P" and a digit, as in "(P1)(P2/y)": the source's slot pattern `(?i)\(P[1-9][^)]*\)` (hg/src/event.rs:100, 115) matches "(P2/y)" as a second slot, and `get_tribute_num` then panics on 'y' in `replace_player_words` (hg/src/event.rs:240-241), whereas the model sees one slot and renders the compound.
- Unicode case mapping is restricted to ASCII letters.
- The regex construction errors (RegexInvalid) cannot happen: the patterns are constants.
- MissingTributesError is declared but never produced. The model lists it as a constructor and never uses it.
- The `events.get(...) == None` branch of the sampler is unreachable, and so is the `is_none() => continue` branch in `step`. The draw is proven to be a valid index, and `get_rand_event` is called only in drawing phases.
- `new_id` is an atomic static counter. Its memory ordering is left out; `IdGenerator` is a sequential counter that the caller passes in.
- Simulation.EventData.GetRandomEvent: requires `living >= 1`. The source subtracts 1 from a usize, which would underflow at 0, and every caller passes a positive count.
- The FallenTributes branch sits inside the source's loop and runs once before a `break`. The model handles it before any draw, with the same effect.
- An empty drawing catalog: building the weighted index over an empty weight list fails with NoItem (hg/src/simulation.rs:59-61), so the step returns WeightedRandomError (NoItem); it does not return an empty result.
