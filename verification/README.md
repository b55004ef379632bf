# Verification of the device tree's native code

Dafny 4.11 models of six pieces of native code of an Android device tree, and proofs about them.
`dafny verify dfyconfig.toml` checks everything. Paths below are relative to the root of the device tree.

- **Boyer-Moore search** (`boyer_moore_tables.dfy`, `boyer_moore_search.dfy`): the search that looks for the
  TrustZone version key. The code is modelled as it stands, including the off-by-one of its first table loop and
  the way `strncmp` stops at a NUL. The main result says for which patterns the search is exact.
- **Linked list and message queue** (`linked_list.dfy`, `msg_q.dfy`): the doubly linked heap list refines a
  sequence; the queue on top of it is a protocol of locked sections that any number of threads interleave,
  with waiting, waking and spurious wake-ups.
- **AGPS state machines** (`agps.dfy`, `agps_runs.dfy`, `agps_ds_runs.dfy`, `agps_subscriptions.dfy`,
  `agps_subscription_steps.dfy`, `agps_subscription_runs.dfy`, `agps_lost_subscriptions.dfy`, `agps_reports.dfy`,
  `agps_machine.dfy`, `loc_eng.dfy`): what each state does with each event, as functions on values; a class over the heap list whose methods refine
  these functions over any sequence of inputs; invariants of every run of the base machine and of the data-services
  machine with its retries; when a subscription can be lost; what each kind of subscriber reports;
  and the engine messages that drive three machines at once. A machine's `log` is its history: subscriptions,
  events, notifications and requests, from which the calls of the adapter are read off.
- **NMEA sentences** (`nmea_checksum.dfy`, `nmea_gsv.dfy`, `nmea_report.dfy`, `nmea_gsv_reading.dfy`) and **bit masks**
  (`bit_masks.dfy`): the in-place checksum, the satellites-in-view sentences with their shared cursor, the whole
  report and what a receiver reads from it, the used-satellite scan, the slot count.
- **Adapter array** (`loc_api_adapters.dfy`): registration and removal in a fixed array without holes.
- **Strings and configuration** (`c_strings.dfy`, `misc_utils.dfy`, `loc_cfg.dfy`, `loc_cfg_quota.dfy`,
  `loc_cfg_update.dfy`, `loc_cfg_values.dfy`): trimming and splitting in place, and filling a configuration table under an unsigned quota.

`sequences.dfy` holds facts about sequences that several of them use.

Where the code differs from its own comments or from what a caller might expect, the model follows the code:

- `bm_make_delta2` compares the suffix at `p` but records `p + 1`. For a NUL-free pattern the search is therefore
  exact on every text if and only if the pattern has no proper border or repeats one character
  (`ExactIffUnborderedOrConstant`); `aba` in `ccaba` is missed (`AbaMissed`).
- `loc_eng_nmea_put_checksum` is documented to return the sentence length; it returns one less, because the
  dollar sign is not counted.
- `loc_util_split_string` with a limit below one behaves as with limit one.
- `loc_update_conf` is documented to return the number of records updated; it returns the number of lines used.
  `ReturnIsRecordsIff` says when the two agree.
- `loc_update_conf` starts its quota one short: it applies every assignment of a text if and only if they are fewer
  than the table has entries (`EveryAssignmentUsedIff`), and some entry is never updated (`OneEntryLeft`). With the
  entries A and B and the text `A=0`, `B=0`, B is not set (`SecondLetterLost`).
- The quota is unsigned: `NeverWrapsIffSteady` and `FileNeverWrapsIffSteady` say for which tables it can wrap.
- A subscription that finds an inactive entry with its key, one whose close is still awaited, is not added to the
  list, and can be lost for good (`SecondSubscriptionLost`); `NeverLostIff` says exactly when.
- The formatting checks of the satellite sentences cannot fail (`AlwaysFits`), so their error returns are dead code.

## Model

| member | source | states |
|---|---|---|
| BoyerMooreTables.MaxSuffixLen | recovery/recovery_updater.cpp:45-53 | the result is the longest common suffix of the pattern and of its part that ends at p, cut off at p |
| BoyerMooreTables.MakeDelta1 | recovery/recovery_updater.cpp:58-67 | every character gets its distance from the end of the pattern at its last place before the end, or the pattern length |
| BoyerMooreTables.Delta1Meaning | recovery/recovery_updater.cpp:54-67 | that is the least distance that brings the character to the end of the pattern, or the length of the pattern |
| BoyerMooreTables.BorderIsSelfMatch | recovery/recovery_updater.cpp:74-80 | where the rest of the pattern is a prefix of it, the strncmp of the first loop answers equal |
| BoyerMooreTables.StrncmpMeaning | recovery/recovery_updater.cpp:74-80 | for every pattern, NULs included, that strncmp answers equal exactly when the characters agree up to the first NUL |
| BoyerMooreTables.SelfMatchIsBorder | recovery/recovery_updater.cpp:74-80 | for a pattern without NUL, that strncmp answers equal only there |
| BoyerMooreTables.LastPrefixMeaning | recovery/recovery_updater.cpp:72-80 | last_prefix is one more than the nearest place at or after p where the comparison succeeds, else the initial pat_len - 1 |
| BoyerMooreTables.ShiftMeaning | recovery/recovery_updater.cpp:82-88 | what the second loop leaves in an entry is the least shift that re-aligns the matched suffix after a different character, or the first loop's value if there is no such shift |
| BoyerMooreTables.SecondLoopStep | recovery/recovery_updater.cpp:82-88 | one round of the second loop, from the last round backwards, changes the meaning of exactly the entry it writes |
| BoyerMooreTables.RecordSuffixes | recovery/recovery_updater.cpp:82-88 | the in-place second loop ends with the least-shift table, whatever it overwrites on the way |
| BoyerMooreTables.MakeDelta2 | recovery/recovery_updater.cpp:70-89 | both loops together fill delta2 as the table Delta2 |
| BoyerMooreTables.Delta2Bounds | recovery/recovery_updater.cpp:70-89 | every entry exceeds pat_len - 1 - j and is at most 2 * pat_len - 1 |
| BoyerMooreSearch.CompareWindow | recovery/recovery_updater.cpp:106-110 | the inner loop stops at the last mismatch of the window, with both indices there |
| BoyerMooreSearch.SearchStep | recovery/recovery_updater.cpp:104-115 | every jump moves the alignment forward, stays within int, and continues the same search |
| BoyerMooreSearch.SearchWith | recovery/recovery_updater.cpp:103-118 | the outer loop, given both tables, reports what the search from the first window finds |
| BoyerMooreSearch.Search | recovery/recovery_updater.cpp:91-118 | for any non-empty pattern and no int overflow: terminates, never indexes outside, and a found place is a real occurrence |
| BoyerMooreSearch.SearchSound | recovery/recovery_updater.cpp:104-118 | the search result, from any start, is none or an occurrence at or after the start |
| BoyerMooreSearch.OccurrenceIsPlausible | recovery/recovery_updater.cpp:82-88 | an occurrence further on is one of the shifts the second loop looks for |
| BoyerMooreSearch.Delta1Safe | recovery/recovery_updater.cpp:58-67 | the bad-character table never jumps over an occurrence |
| BoyerMooreSearch.Delta1Greatest | recovery/recovery_updater.cpp:58-67 | no larger entry would be safe: some text has the character at the end of its first window and an occurrence just that far on |
| BoyerMooreSearch.JumpSafe | recovery/recovery_updater.cpp:114 | if no entry of delta2 exceeds a border, no jump passes over an occurrence |
| BoyerMooreSearch.SearchComplete | recovery/recovery_updater.cpp:91-118 | then the search finds the leftmost occurrence, and none only if there is none |
| BoyerMooreSearch.UnsafeEntryMisses | recovery/recovery_updater.cpp:74-80 | if one entry does exceed a border, there is a text whose only occurrence is missed |
| BoyerMooreSearch.ExactIffTableSafe | recovery/recovery_updater.cpp:91-118 | the search is exact on every text if and only if no entry of delta2 exceeds a border |
| BoyerMooreSearch.SafeIffUnborderedOrConstant | recovery/recovery_updater.cpp:74-80 | for patterns without NUL that is: no proper border at all, or one repeated character |
| BoyerMooreSearch.ExactIffUnborderedOrConstant | recovery/recovery_updater.cpp:91-118 | the exact condition, for every NUL-free pattern, under which bm_search returns the leftmost occurrence in every text |
| BoyerMooreSearch.AbaMissed | recovery/recovery_updater.cpp:76-77 | the pattern aba at place 2 of ccaba is missed |
| BoyerMooreSearch.TrustZoneKeyUnbordered | recovery/recovery_updater.cpp:37-38 | the version key has no proper border |
| BoyerMooreSearch.FindTrustZoneKey | recovery/recovery_updater.cpp:138-139 | the lookup of the key in the 500 KB partition is exact |
| LinkedLists.LinkedList.constructor | gps/utils/linked_list.c:58-80 | a new list is empty and well linked |
| LinkedLists.LinkedList.Empty | gps/utils/linked_list.c:211-223 | true exactly for the empty list |
| LinkedLists.LinkedList.Add | gps/utils/linked_list.c:110-155 | the element becomes the first; a NULL object is refused and changes nothing; head, tail, next and prev stay consistent |
| LinkedLists.LinkedList.Remove | gps/utils/linked_list.c:162-204 | takes the last element and returns its data; the empty list answers UNAVAILABLE_RESOURCE |
| LinkedLists.LinkedList.Flush | gps/utils/linked_list.c:230-260 | empties the list and calls dealloc once, in order, on exactly the data that came with one |
| LinkedLists.DeallocatedConcat | gps/utils/linked_list.c:240-254 | the data handed to dealloc come in the order of the elements |
| LinkedLists.DeallocatedCounts | gps/utils/linked_list.c:240-254 | each datum is handed to dealloc exactly as often as elements with a dealloc function hold it |
| LinkedLists.LinkedList.Search | gps/utils/linked_list.c:267-327 | asks a pure question of each element up to the first match and no further; with removal exactly that element goes, and is deallocated only when it is not copied out |
| LinkedLists.LinkedList.Unlink | gps/utils/linked_list.c:297-310 | taking an element out at any place keeps both chains and both ends consistent |
| MsgQueues.MsgQueue.constructor | gps/utils/msg_q.c:92-137 | a new queue is empty and not unblocked |
| MsgQueues.MsgQueue.Snd | gps/utils/msg_q.c:185-221 | the locked section of a send appends the message, or refuses it without effect when unblocked or NULL |
| MsgQueues.MsgQueue.RcvEnter | gps/utils/msg_q.c:228-268 | the first locked section of a receive: refused when unblocked, else as a resumed one |
| MsgQueues.MsgQueue.RcvResume | gps/utils/msg_q.c:256-264 | a resumed receive waits again on an empty queue that is not unblocked, else takes the oldest message |
| MsgQueues.MsgQueue.Flush | gps/utils/msg_q.c:276-299 | empties the queue and deallocates the newest message first |
| MsgQueues.MsgQueue.Unblock | gps/utils/msg_q.c:306-336 | sets the flag once; a second call is refused |
| MsgQueues.ReceiveKeepsInv | gps/utils/msg_q.c:256-264 | a receiving section returns exactly the oldest message to its thread and takes it out, or puts the thread to sleep on an empty queue that is not unblocked |
| MsgQueues.NextKeepsInv | gps/utils/msg_q.c:185-336 | every locked section of every thread keeps the queue invariant |
| MsgQueues.RunKeepsInv | gps/utils/msg_q.c:185-336 | so does every interleaving, with spurious wake-ups |
| MsgQueues.Fifo | gps/utils/msg_q.c:185-299 | in every interleaving the messages that left, by what the receives returned and the flushes dropped, then the queue, are the accepted sends in order; without a flush every message that left was returned by a receive |
| MsgQueues.ReceivedAreSent | gps/utils/msg_q.c:185-268 | in every interleaving without a flush, what the receives return to their callers, in the order they return, and then the queue, are the accepted messages in order |
| MsgQueues.SendAccepted | gps/utils/msg_q.c:185-221 | a send is accepted, as the newest message, exactly when it has a message and the queue is not unblocked; each refusal has its error |
| MsgQueues.ReceiveReturns | gps/utils/msg_q.c:228-268 | a receive returns a message, the oldest, exactly when one is queued and a new receive does not find the queue unblocked; it waits exactly on an empty queue that is not unblocked |
| MsgQueues.NoLostWakeup | gps/utils/msg_q.c:211-262 | while a receiver sleeps, as many woken threads as messages are on their way |
| MsgQueues.UnblockedStep | gps/utils/msg_q.c:204-254 | one step of an unblocked queue accepts no send and serves no new receive |
| MsgQueues.UnblockedServesWaiters | gps/utils/msg_q.c:204-254 | nor does any run from there on |
| MsgQueues.UnblockedForGood | gps/utils/msg_q.c:204-336 | once unblocked: nothing is accepted, nobody sleeps, and what still leaves are the oldest messages in order, each to a thread that was waiting |
| AgpsRuns.BroadcastExact | gps/libloc_api_50001/loc_eng_agps.cpp:715-736 | each subscriber a notification is for is told exactly once and nobody else; with deletion exactly the others stay, otherwise the list is unchanged |
| AgpsRuns.AddKeeps | gps/libloc_api_50001/loc_eng_agps.cpp:738-748 | adding keeps every old entry, adds at most the new one, leaves exactly one entry with the key, and never loses the last active one |
| AgpsRuns.BaseRequest | gps/libloc_api_50001/loc_eng_agps.cpp:750-777 | a request that fits the list is sent and always reported as success |
| AgpsRuns.BaseRequestUnfit | gps/libloc_api_50001/loc_eng_agps.cpp:750-777 | any other request is not sent, and reported as success |
| AgpsRuns.SubscribeReleased | gps/libloc_api_50001/loc_eng_agps.cpp:270-284 | the first subscription becomes the only entry, sends exactly one REQUEST and moves to Pending; the run invariant stays |
| AgpsRuns.SubscribeAcquired | gps/libloc_api_50001/loc_eng_agps.cpp:427-438 | a subscription in Acquired is told GRANTED at once and nothing else happens but its entry; the run invariant stays |
| AgpsRuns.SubscribeWaiting | gps/libloc_api_50001/loc_eng_agps.cpp:331-339 | a subscription in Pending or Releasing keeps the state and is neither told nor requested for; the run invariant stays |
| AgpsRuns.LeaveKeeps | gps/libloc_api_50001/loc_eng_agps.cpp:341-350 | an unsubscription moves no request, grants nothing, and makes nobody active |
| AgpsRuns.LeaveExact | gps/libloc_api_50001/loc_eng_agps.cpp:341-350 | the entry that leaves is gone or inactive, every other entry stays, and at most the one that leaves is told |
| AgpsRuns.UnsubscribeKeepsInv | gps/libloc_api_50001/loc_eng_agps.cpp:440-466 | an unsubscription keeps the run invariant |
| AgpsRuns.UnsubscribeExact | gps/libloc_api_50001/loc_eng_agps.cpp:440-466 | besides the notice, the history gains exactly one RELEASE if the state was Pending or Acquired and no active subscriber is left, and nothing otherwise; the next state follows from the list |
| AgpsRuns.GrantedKeepsInv | gps/libloc_api_50001/loc_eng_agps.cpp:369-377 | a grant in Pending tells exactly the active subscribers, in list order, and moves to Acquired; elsewhere it changes nothing; the list and the run invariant stay |
| AgpsRuns.BroadcastToInactive | gps/libloc_api_50001/loc_eng_agps.cpp:550-558 | what stays after Releasing is exactly the active subscribers, none of them granted |
| AgpsRuns.ReleasingDoneKeepsInv | gps/libloc_api_50001/loc_eng_agps.cpp:550-568 | Releasing tells the inactive subscribers and keeps exactly the active ones; it ends in Released if there is none, else in Pending with one new REQUEST |
| AgpsRuns.EveryoneTold | gps/libloc_api_50001/loc_eng_agps.cpp:385-393 | a denial in Pending and a release in Acquired tell every subscriber once, in list order, empty the list and balance the requests |
| AgpsRuns.ReleasedKeepsInv | gps/libloc_api_50001/loc_eng_agps.cpp:473-481 | RELEASED in Acquired tells everyone and empties the list; in Released and Pending it changes nothing; the run invariant stays |
| AgpsRuns.DeniedKeepsInv | gps/libloc_api_50001/loc_eng_agps.cpp:385-393 | DENIED in Pending tells everyone and empties the list; in Released and Acquired it changes nothing; the run invariant stays |
| AgpsRuns.SubscribeRsrcKeepsInv | gps/libloc_api_50001/loc_eng_agps.cpp:779-787 | a second subscriber of a single-subscriber machine is told DENIED and nothing else changes; otherwise the run invariant stays |
| AgpsRuns.EventKeepsInv | gps/libloc_api_50001/loc_eng_agps.cpp:700-713 | every framework event keeps the invariant |
| AgpsRuns.StepKeepsInv | gps/libloc_api_50001/loc_eng_agps.cpp:700-801 | every input of a base machine keeps the invariant |
| AgpsRuns.RunKeepsInv | gps/libloc_api_50001/loc_eng_agps.cpp:258-579 | so does every run, dropped subscriber lists included |
| AgpsRuns.RequestsConserved | gps/libloc_api_50001/loc_eng_agps.cpp:258-579 | in every run: requests minus releases minus denials in Pending minus releases in Acquired is one in Pending and Acquired, else zero |
| AgpsRuns.GrantAgreement | gps/libloc_api_50001/loc_eng_agps.cpp:325-579 | in every run: an active subscriber has been granted since it subscribed if and only if the machine is in Acquired |
| AgpsRuns.StateListAgreement | gps/libloc_api_50001/loc_eng_agps.cpp:258-579 | in every run: Released means no subscriber, keys are distinct, a single-subscriber machine holds one at most; without drops Pending and Acquired have an active subscriber and Releasing has one |
| AgpsDsRuns.FallBackKeeps | gps/libloc_api_50001/loc_eng_agps.cpp:946-959 | the fallback is a reset and keeps the retry invariant |
| AgpsDsRuns.FifthBusy | gps/libloc_api_50001/loc_eng_agps.cpp:877-883 | the fifth busy answer since a reset is allowed only with the fallback right after it |
| AgpsDsRuns.BusyKeeps | gps/libloc_api_50001/loc_eng_agps.cpp:877-891 | a busy answer keeps the retry invariant, counted as a retry with or without a timer, or as the fifth with its fallback |
| AgpsDsRuns.SendKeeps | gps/libloc_api_50001/loc_eng_agps.cpp:852-911 | sendRsrcRequest returns with at most four retries, whatever the answer |
| AgpsDsRuns.LeaveKeepsDs | gps/libloc_api_50001/loc_eng_agps.cpp:234-238 | a data-services subscriber that leaves is marked in its place, is told its close, and nobody else changes |
| AgpsDsRuns.StepKeeps | gps/libloc_api_50001/loc_eng_agps.cpp:838-970 | every input of a data-services machine keeps the retry invariant |
| AgpsDsRuns.BoundedRetry | gps/libloc_api_50001/loc_eng_agps.cpp:838-970 | in every run: mRetries counts the busy answers since the last reset and is at most four, at most four timers start between resets, and the fifth busy answer and only it falls back |
| AgpsDsRuns.AfterReleased | gps/libloc_api_50001/loc_eng_agps.cpp:913-944 | after a RELEASED event the machine is in Pending if it was Releasing with an active subscriber, else in Released |
| AgpsDsRuns.RetrySendsAgain | gps/libloc_api_50001/loc_eng_agps.cpp:838-850 | the retry timer makes a Released machine with an active subscriber send one more request for a subscriber it already holds |
| AgpsDsRuns.NoRetryAlone | gps/libloc_api_50001/loc_eng_agps.cpp:838-850 | without an active subscriber the retry timer changes nothing |
| AgpsReports.KeysAgree | gps/libloc_api_50001/loc_eng_agps.cpp:107-114 | two subscribers are equal when their IDs are, and for BIT subscribers without an IPv4 address their IPv6 texts too |
| AgpsReports.ActiveIdIsFirst | gps/libloc_api_50001/loc_eng_agps.cpp:852-868 | a request is made for the first subscriber in the list that is not inactive, or for -1 |
| AgpsReports.FallsBack | gps/libloc_api_50001/loc_eng_agps.cpp:892-903 | an unsupported or failed request is followed by the fallback for the first active subscriber and ends the retries |
| AgpsReports.BusyRetries | gps/libloc_api_50001/loc_eng_agps.cpp:877-891 | below four retries a busy answer is counted and starts the timer |
| AgpsReports.BusyFallsBack | gps/libloc_api_50001/loc_eng_agps.cpp:877-883 | at four retries it is followed by the fallback for the first active subscriber and ends the retries |
| AgpsReports.AnswerExact | gps/libloc_api_50001/loc_eng_agps.cpp:852-911 | in every run of a data-services machine the whole effect of a request and of each answer to it |
| AgpsReports.LeaveByKind | gps/libloc_api_50001/loc_eng_agps.cpp:341-350 | BIT and ATL subscribers that leave are deleted and told, WIFI ones are marked, DS ones are marked and told |
| AgpsReports.UnsubscribeFinds | gps/libloc_api_50001/loc_eng_agps.cpp:789-801 | an unsubscription is found exactly when a subscriber with the key is listed, and changes nothing otherwise |
| AgpsReports.AtlReports | gps/libloc_api_50001/loc_eng_agps.cpp:147-187 | what a broadcast to ATL subscribers reports to the modem: one open or close status for each, in order |
| AgpsReports.DsReports | gps/libloc_api_50001/loc_eng_agps.cpp:220-233 | what a broadcast to DS subscribers reports: opens, closed data calls, close statuses, and requests for an ordinary connection when denied |
| AgpsReports.BitReports | gps/libloc_api_50001/loc_eng_agps.cpp:116-145 | what a broadcast to BIT subscribers reports to the daemon |
| AgpsReports.WifiReports | gps/libloc_api_50001/loc_eng_agps.cpp:189-219 | what a broadcast to WIFI subscribers reports to their senders: nothing at the end of a subscription |
| AgpsReports.FallBackReports | gps/libloc_api_50001/loc_eng_agps.cpp:946-970 | a fallback asks the modem for an ordinary connection with that ID |
| AgpsReports.GrantReported | gps/libloc_api_50001/loc_eng_agps.cpp:369-377 | a grant in Pending reports one successful open for each active ATL subscriber, in order, and nothing else |
| AgpsReports.DenialReported | gps/libloc_api_50001/loc_eng_agps.cpp:385-393 | a denial in Pending reports one failed open for every ATL subscriber, and nothing else |
| AgpsReports.ReleaseReported | gps/libloc_api_50001/loc_eng_agps.cpp:473-481 | a release in Acquired reports one close for every ATL subscriber, and nothing else |
| AgpsReports.DsDenialReported | gps/libloc_api_50001/loc_eng_agps.cpp:385-393 | a data-services machine denied in Pending asks for an ordinary connection for every subscriber |
| AgpsSubscriptionSteps.StepGrows | gps/libloc_api_50001/loc_eng_agps.cpp:258-579 | in every step of either class an active subscriber stays active until it unsubscribes or is dropped, is denied, or has been granted |
| AgpsSubscriptionRuns.RunServes | gps/libloc_api_50001/loc_eng_agps.cpp:258-579 | over every run: a subscription that is listed stays listed or gets its answer |
| AgpsSubscriptionRuns.ListedIffNotClosing | gps/libloc_api_50001/loc_eng_agps.cpp:738-748 | in every reachable machine of either class a subscription that is not refused ends with an active entry if and only if no inactive entry with its key is listed |
| AgpsLostSubscriptions.RunIdle | gps/libloc_api_50001/loc_eng_agps.cpp:258-579 | in every run of either class a released machine lists no inactive entry |
| AgpsLostSubscriptions.StepSilent | gps/libloc_api_50001/loc_eng_agps.cpp:258-579 | no step says anything to a key that has no entry and does not subscribe |
| AgpsLostSubscriptions.LosingLoses | gps/libloc_api_50001/loc_eng_agps.cpp:514-579 | RELEASED in Releasing, and GRANTED then RELEASED in Pending, delete an inactive entry without GRANTED or DENIED for its key |
| AgpsLostSubscriptions.NeverLostIff | gps/libloc_api_50001/loc_eng_agps.cpp:738-801 | in every reachable machine of either class: whatever follows short of its end, a subscription that is not refused stays listed or is told GRANTED or DENIED, if and only if no inactive entry with its key is listed or the machine is in Acquired; in exactly the other cases some events lose it for good, so that nothing short of a new subscription with its key is ever answered |
| AgpsLostSubscriptions.SecondSubscriptionLost | gps/libloc_api_50001/loc_eng_agps.cpp:514-579 | a data-services run in which the second of two subscriptions is lost: it is told RELEASED and nothing else |
| AgpsMachine.SearchSplits | gps/libloc_api_50001/loc_eng_agps.cpp:715-729 | one search of the delete loop tells and removes the first match; when it finds none, nothing is left to tell |
| AgpsMachine.AgpsStateMachine.constructor | gps/libloc_api_50001/loc_eng_agps.cpp:829-836 | a new machine is Released with an empty list |
| AgpsMachine.AgpsStateMachine.NotifyRsrcStatus | gps/libloc_api_50001/loc_eng_agps.cpp:115-233 | a subscriber reacts, and answers that it did, exactly to a notification that is for it |
| AgpsMachine.AgpsStateMachine.NotifyWalk | gps/utils/linked_list.c:285-324 | the search with the acting callback tells each element it passes while it goes on, and stops only at one to be deleted |
| AgpsMachine.AgpsStateMachine.NotifySearch | gps/libloc_api_50001/loc_eng_agps.cpp:717-735 | one search tells what it passes and removes at most the element it stopped at |
| AgpsMachine.AgpsStateMachine.Search | gps/libloc_api_50001/loc_eng_agps.cpp:742-743 | the list search finds the first subscriber a notification is for and changes nothing |
| AgpsMachine.AgpsStateMachine.NotifyAndDelete | gps/libloc_api_50001/loc_eng_agps.cpp:717-729 | the repeated search terminates with exactly the non-matching subscribers in order, each other one told once |
| AgpsMachine.AgpsStateMachine.NotifySubscribers | gps/libloc_api_50001/loc_eng_agps.cpp:715-736 | the heap method is the broadcast whose exactness is proved above |
| AgpsMachine.AgpsStateMachine.AddSubscriber | gps/libloc_api_50001/loc_eng_agps.cpp:738-748 | prepends a clone unless an equal subscriber is there |
| AgpsMachine.AgpsStateMachine.FirstActive | gps/libloc_api_50001/loc_eng_agps.cpp:803-810 | tells whether an active subscriber is in the list, and the ID of the first |
| AgpsMachine.AgpsStateMachine.SendRsrcRequest | gps/libloc_api_50001/loc_eng_agps.cpp:750-777 | sends a REQUEST only with and a RELEASE only without an active subscriber; the data-services override answers as its servicer does |
| AgpsMachine.AgpsStateMachine.RequestData | gps/libloc_api_50001/loc_eng_agps.cpp:871-907 | busy answers count, start the timer or fall back; unsupported and failed answers fall back |
| AgpsMachine.AgpsStateMachine.SetInactive | gps/libloc_api_50001/loc_eng_agps.cpp:234-238 | marks the subscriber in the list; a data-services subscriber reports its close |
| AgpsMachine.AgpsStateMachine.DropAllSubscribers | gps/libloc_api_50001/loc_eng_agps.h:242-243 | empties the list and tells nobody |
| AgpsMachine.AgpsStateMachine.OnSubscribe | gps/libloc_api_50001/loc_eng_agps.cpp:270-284 | the SUBSCRIBE event of all four states |
| AgpsMachine.AgpsStateMachine.OnUnsubscribe | gps/libloc_api_50001/loc_eng_agps.cpp:341-367 | the UNSUBSCRIBE event of all four states |
| AgpsMachine.AgpsStateMachine.OnGranted | gps/libloc_api_50001/loc_eng_agps.cpp:369-377 | the GRANTED event of all four states |
| AgpsMachine.AgpsStateMachine.OnReleasingDone | gps/libloc_api_50001/loc_eng_agps.cpp:550-568 | RELEASED or DENIED in Releasing |
| AgpsMachine.AgpsStateMachine.OnReleased | gps/libloc_api_50001/loc_eng_agps.cpp:473-481 | the RELEASED event of all four states |
| AgpsMachine.AgpsStateMachine.OnDenied | gps/libloc_api_50001/loc_eng_agps.cpp:385-393 | the DENIED event of all four states |
| AgpsMachine.AgpsStateMachine.SubscribeRsrc | gps/libloc_api_50001/loc_eng_agps.cpp:779-787 | a subscriber too many is denied, any other reaches the state |
| AgpsMachine.AgpsStateMachine.UnsubscribeRsrc | gps/libloc_api_50001/loc_eng_agps.cpp:789-801 | reports whether an equal subscriber was found, and only then unsubscribes it |
| AgpsMachine.AgpsStateMachine.OnRsrcEvent | gps/libloc_api_50001/loc_eng_agps.cpp:913-944 | the events of both classes; the data machine turns an ineffective RELEASED into DENIED |
| AgpsMachine.AgpsStateMachine.Take | gps/libloc_api_50001/loc_eng_agps.cpp:700-801 | each input moves the object as it moves the machine on values |
| AgpsMachine.AgpsStateMachine.TakeAll | gps/libloc_api_50001/loc_eng_agps.cpp:700-801 | so does every sequence of inputs, so the results on runs hold of the object |
| LocEng.AtlOnlyKept | gps/libloc_api_50001/loc_eng.cpp:1134-1180 | the AGNSS and internet machines only ever hold ATL subscribers |
| LocEng.EngineStepKeepsInv | gps/libloc_api_50001/loc_eng.cpp:1090-1227 | every message keeps the invariants of all three machines |
| LocEng.EngineRunKeepsInv | gps/libloc_api_50001/loc_eng.cpp:1090-1227 | so does every run of messages |
| LocEng.LeaveClosesOne | gps/libloc_api_50001/loc_eng_agps.cpp:234-238 | leaving a machine that holds the handle reports one close |
| LocEng.UnsubscribeLog | gps/libloc_api_50001/loc_eng_agps.cpp:289-294 | an unsubscription reports that close first and no other close after it |
| LocEng.HolderClosesOne | gps/libloc_api_50001/loc_eng_agps.cpp:789-801 | the machine that holds the handle emits exactly one successful close report for it |
| LocEng.ReleaseReportsOnce | gps/libloc_api_50001/loc_eng.cpp:1193-1227 | a release emits exactly one close report for its handle, successful iff some machine holds it, and changes at most the first machine that does |
| LocEng.EveryReleaseReportsOnce | gps/libloc_api_50001/loc_eng.cpp:1193-1227 | so does every release in every run of the engine |
| LocEng.RequestReaches | gps/libloc_api_50001/loc_eng.cpp:1167-1183 | a SUPL request subscribes to the AGNSS machine, any other to the internet machine, and the others stay; without the machine it is reported as failed and nothing changes |
| LocEng.EmergencyReaches | gps/libloc_api_50001/loc_eng.cpp:1134-1155 | an emergency request subscribes to the data-services machine, else to the AGNSS machine, else it fails |
| LocEng.ReleaseReaches | gps/libloc_api_50001/loc_eng.cpp:1193-1227 | a release unsubscribes from the first of the three machines that lists the handle, and the others stay |
| LocEng.EventReaches | gps/libloc_api_50001/loc_eng.cpp:1426-1500 | an event of the framework reaches its machine alone |
| LocEng.NewEngineMachines | gps/libloc_api_50001/loc_eng.cpp:2220-2262 | which machines there are after initialization, all Released and without subscribers |
| LocEng.RestartDrops | gps/libloc_api_50001/loc_eng.cpp:2776-2795 | an engine restart empties the lists of the AGNSS and internet machines and changes nothing else |
| LocEng.CallsGained | gps/libloc_api_50001/loc_eng.cpp:1167-1227 | what is called in a step is what the history of the machine has gained |
| NmeaChecksum.Snprintf | gps/libloc_api_50001/loc_eng_nmea.cpp:96 | bounded formatting writes what fits and a NUL, nothing outside its room, and returns the full length |
| NmeaChecksum.CutMeaning | gps/libloc_api_50001/loc_eng_nmea.cpp:96 | what is written of a text is its longest beginning that fits with a NUL |
| NmeaChecksum.SumBody | gps/libloc_api_50001/loc_eng_nmea.cpp:86-94 | the loop XORs every character after the dollar sign and counts them |
| NmeaChecksum.PutChecksum | gps/libloc_api_50001/loc_eng_nmea.cpp:84-98 | appends star, two hex digits, CR and LF of the right checksum, cut to maxSize; never writes past maxSize; returns the sentence length minus one |
| NmeaChecksum.HexReads | gps/libloc_api_50001/loc_eng_nmea.cpp:96 | the two digits read back as the checksum |
| NmeaChecksum.AcceptsIffChecksum | gps/libloc_api_50001/loc_eng_nmea.cpp:84-98 | a verifier by section 5.2.3 of NMEA 0183, which counts the characters with each bit, accepts a sentence if and only if its two digits are the checksum of the body |
| NmeaChecksum.ChecksumParity | gps/libloc_api_50001/loc_eng_nmea.cpp:86-92 | each bit of the checksum is set exactly when an odd number of characters have that bit |
| NmeaChecksum.ChecksIffChecksum | gps/libloc_api_50001/loc_eng_nmea.cpp:86-92 | it is the only value whose bits do that |
| NmeaChecksum.ChecksumRoundTrip | gps/libloc_api_50001/loc_eng_nmea.cpp:84-98 | with enough room the verifier accepts the finished sentence and reads the body back |
| NmeaChecksum.OneErrorDetected | gps/libloc_api_50001/loc_eng_nmea.cpp:84-98 | and rejects it after any one character of the body changes |
| NmeaGsv.CountSvs | gps/libloc_api_50001/loc_eng_nmea.cpp:622-635 | the two counts are the numbers of PRNs 1..32 and 65..96 in the list |
| NmeaGsv.SelectCounts | gps/libloc_api_50001/loc_eng_nmea.cpp:670-673 | the selected satellites are exactly those in the PRN range, as often as the list holds them |
| NmeaGsv.SharesCover | gps/libloc_api_50001/loc_eng_nmea.cpp:652-711 | the first sentences hold the first satellites of the range in input order |
| NmeaGsv.GsvPartition | gps/libloc_api_50001/loc_eng_nmea.cpp:652-711 | all sentences together hold every satellite of the range exactly once in input order, in ceil(n/4) sentences of four, the last of one to four |
| NmeaGsv.TakeStep | gps/libloc_api_50001/loc_eng_nmea.cpp:670-703 | the cursor shared by the loops is always at the next satellite of the current sentence |
| NmeaGsv.StopStep | gps/libloc_api_50001/loc_eng_nmea.cpp:670-705 | when the inner loop ends the sentence holds exactly its share, and the next one starts where the cursor is |
| NmeaGsv.AppendSv | gps/libloc_api_50001/loc_eng_nmea.cpp:675-700 | one satellite is appended, or the sentence is reported too long exactly when it is |
| NmeaGsv.PaddedNegative | gps/libloc_api_50001/loc_eng_nmea.cpp:675-678 | a negative number is printed with its sign inside the width |
| NmeaGsv.FillSentence | gps/libloc_api_50001/loc_eng_nmea.cpp:670-705 | the inner loop writes header and share into the buffer, or reports exactly the overlong sentence |
| NmeaGsv.GenerateOne | gps/libloc_api_50001/loc_eng_nmea.cpp:654-709 | one round of the outer loop |
| NmeaGsv.GenerateGsv | gps/libloc_api_50001/loc_eng_nmea.cpp:641-713 | sends the sentences of one constellation in order, all of them or those before the first that does not fit; a blank one for no satellite |
| NmeaReport.DecimalWidth | gps/libloc_api_50001/loc_eng_nmea.cpp:659-678 | a number below a power of ten prints in that many digits |
| NmeaReport.BodyShort | gps/libloc_api_50001/loc_eng_nmea.cpp:659-705 | a body whose items have at most 39 characters has at most 193, and one whose items have at most 13, with a one-digit sentence count, at most 65 |
| NmeaReport.ItemShort | gps/libloc_api_50001/loc_eng_nmea.cpp:675-700 | an item of a satellite in range has at most 39 characters whatever its int fields hold, and 13 when they are in range |
| NmeaReport.ItemWidths | gps/libloc_api_50001/loc_eng_nmea.cpp:675-700 | in range every field of an item has its nominal width |
| NmeaReport.FinishedAccepted | gps/libloc_api_50001/loc_eng_nmea.cpp:707-708 | a body of at most 194 characters is sent whole, the verifier accepts it, and the length sent is one less than its own |
| NmeaReport.AlwaysFits | gps/libloc_api_50001/loc_eng_nmea.cpp:641-791 | no formatting check of the two sentence loops fails, whatever int fields the satellites have and however many an int counts: their error returns are dead code |
| NmeaReport.SendNoPosition | gps/libloc_api_50001/loc_eng_nmea.cpp:793-811 | the four blank sentences when no satellite is used |
| NmeaReport.GenerateSv | gps/libloc_api_50001/loc_eng_nmea.cpp:606-836 | sends exactly the sentences of both constellations and, when no satellite is used, the blank ones; keeps the mask otherwise |
| NmeaReport.ReportProper | gps/libloc_api_50001/loc_eng_nmea.cpp:606-836 | every sentence of every report is whole, passes the verifier, and is sent with its length minus one |
| NmeaReport.ConstellationFits | gps/libloc_api_50001/loc_eng_nmea.cpp:641-713 | with in-range fields and up to 36 satellites a sentence fits the 82 characters of section 5.3 of NMEA 0183 |
| NmeaReport.InRangeFits | gps/libloc_api_50001/loc_eng_nmea.cpp:606-836 | so does then every sentence of the whole report |
| NmeaGsvReading.PaddedReads | gps/libloc_api_50001/loc_eng_nmea.cpp:675-678 | a zero-padded field reads back as its number |
| NmeaGsvReading.BodySplits | gps/libloc_api_50001/loc_eng_nmea.cpp:659-705 | split at its commas, a body has four header fields and four for each satellite of its share |
| NmeaGsvReading.BodyReads | gps/libloc_api_50001/loc_eng_nmea.cpp:654-705 | the fields of a body give its address and the satellites of its share with all their fields |
| NmeaGsvReading.SentenceAddressed | gps/libloc_api_50001/loc_eng_nmea.cpp:654-709 | the text that is sent is accepted, and gives its address and its body back, whatever its fields hold |
| NmeaGsvReading.SentenceReads | gps/libloc_api_50001/loc_eng_nmea.cpp:654-709 | and all fields of the satellites of its share can be read from it |
| NmeaGsvReading.BlankReads | gps/libloc_api_50001/loc_eng_nmea.cpp:641-646 | a blank sentence is accepted, gives no satellite, and tells one sentence, number one, of no satellites |
| NmeaGsvReading.GsvReadBack | gps/libloc_api_50001/loc_eng_nmea.cpp:606-836 | from the sentences of any report, all of them accepted, a receiver gets back under GP and GL every satellite of the PRN range in the modem's list, once, in order, with all its fields; only negative fields are excluded |
| NmeaGsvReading.HeadReads | gps/libloc_api_50001/loc_eng_nmea.cpp:654-660 | the header of a body gives the number of sentences, the number of this one, and the number of satellites |
| NmeaGsvReading.HeadsReadBack | gps/libloc_api_50001/loc_eng_nmea.cpp:606-836 | from the headers of any report a receiver gets, under GP and GL, for n satellites of the PRN range the numbers (n + 3) / 4, k and n in the k-th sentence |
| NmeaGsvReading.BlanksWhenUnused | gps/libloc_api_50001/loc_eng_nmea.cpp:793-811 | the report goes on with the four blank position sentences, as they are written there, exactly when no satellite is used |
| BitMasks.ClearLowest | gps/libloc_api_50001/loc_eng.cpp:2603-2605 | mask & (mask - 1) has exactly one set bit less |
| BitMasks.CountSlots | gps/libloc_api_50001/loc_eng.cpp:2601-2605 | the clear-lowest-bit loop counts exactly the set bits of every 32-bit mask |
| BitMasks.ScanInto | gps/libloc_api_50001/loc_eng_nmea.cpp:147-153 | the shifting scan writes the numbers of the set bits and leaves the rest zero |
| BitMasks.ScanUsed | gps/libloc_api_50001/loc_eng_nmea.cpp:145-153 | so does the scan over all 32 bits of the used-satellite mask |
| BitMasks.UsedMeaning | gps/libloc_api_50001/loc_eng_nmea.cpp:145-153 | the list has as many entries as set bits, is strictly increasing, and holds k + 1 exactly for set bits k |
| LocApiAdapters.RegisterKeeps | gps/core/LocApiBase.cpp:159-169 | registration adds the adapter unless it is there or the array is full, and never duplicates |
| LocApiAdapters.UnregisterKeeps | gps/core/LocApiBase.cpp:171-205 | removal takes out exactly that adapter and keeps the others as a set |
| LocApiAdapters.OrderKept | gps/core/LocApiBase.cpp:159-194 | registration appends; removal moves at most the last adapter, into the gap |
| LocApiAdapters.MergedMeaning | gps/core/LocApiBase.cpp:137-144 | a bit is in the merged mask exactly when some registered adapter has it |
| LocApiAdapters.RunsRefineSet | gps/core/LocApiBase.cpp:159-205 | over every run of registrations and removals the array holds a duplicate-free prefix of exactly the registered set |
| LocApiAdapters.LocApiBase.constructor | gps/core/LocApiBase.cpp:128-135 | all slots start empty |
| LocApiAdapters.LocApiBase.GetEvtMask | gps/core/LocApiBase.cpp:137-144 | the mask has exactly the bits that some registered adapter asks for and that are not excluded |
| LocApiAdapters.LocApiBase.AddAdapter | gps/core/LocApiBase.cpp:159-169 | fills the first free slot and posts the adapter's mask, or does nothing |
| LocApiAdapters.LocApiBase.FillGap | gps/core/LocApiBase.cpp:176-194 | moving the last adapter into the gap leaves no hole |
| LocApiAdapters.LocApiBase.RemoveAt | gps/core/LocApiBase.cpp:176-202 | closes exactly when the last adapter went, else posts the mask that is left; the loop variable ends at the entry cleared last |
| LocApiAdapters.LocApiBase.RemoveAdapter | gps/core/LocApiBase.cpp:171-205 | the loop removes the adapter wherever it is, goes on, and stops at the entry after the one cleared last; an unknown adapter changes nothing |
| LocApiAdapters.LocApiBase.DispatchToAll | gps/core/LocApiBase.h:48-51 | reaches every registered adapter once, in order |
| LocApiAdapters.LocApiBase.DispatchToFirst | gps/core/LocApiBase.h:53-54 | stops at the first adapter that handles the call |
| MiscUtils.TrimMeaning | gps/utils/loc_misc_utils.cpp:78-114 | trimming cuts exactly the leading and trailing spaces; a string of spaces stays |
| MiscUtils.SpaceMeaning | gps/utils/loc_misc_utils.cpp:78-114 | which characters isspace counts as spaces |
| MiscUtils.TrimsOnce | gps/utils/loc_misc_utils.cpp:78-114 | there is only one way to cut them |
| MiscUtils.TrimmingReads | gps/utils/loc_misc_utils.cpp:90-109 | one more character read keeps what was moved and where the text begins and ends |
| MiscUtils.MoveUp | gps/utils/loc_misc_utils.cpp:88-109 | the loop moves the text to the front of the buffer |
| MiscUtils.TrimSpace | gps/utils/loc_misc_utils.cpp:78-114 | the buffer then holds exactly the trimmed string and is untouched beyond it, or altogether for a string of spaces |
| MiscUtils.JoinSplit | gps/utils/loc_misc_utils.cpp:38-76 | joining the pieces with the delimiter gives the string back, and no piece holds the delimiter |
| MiscUtils.SplitJoin | gps/utils/loc_misc_utils.cpp:38-76 | only these pieces do |
| MiscUtils.SplittingCuts | gps/utils/loc_misc_utils.cpp:57-68 | ending a piece at a delimiter keeps the pieces before it and the unread rest |
| MiscUtils.NextPiece | gps/utils/loc_misc_utils.cpp:58-68 | ends a piece, and begins another unless the string or the limit is used up |
| MiscUtils.CutPieces | gps/utils/loc_misc_utils.cpp:54-72 | the loop lays the pieces out one after the other |
| MiscUtils.SplitString | gps/utils/loc_misc_utils.cpp:38-76 | the first min(max, k) of the k pieces stand in the buffer as C strings at the places returned, a limit below one acting as one; only delimiters were changed, into NULs |
| LocCfg.TokensArePieces | gps/utils/loc_cfg.cpp:338-345 | the lines strtok_r gives are the non-empty pieces between newlines |
| LocCfg.FileLinesWhole | gps/utils/loc_cfg.cpp:281-289 | the lines read from a file, put together, are the file; each fits the buffer and has a newline at its end only |
| LocCfg.ConfigTable.SetConfigEntry | gps/utils/loc_cfg.cpp:95-159 | stores the value by the entry's type and raises its flag, exactly when name, pointer and type fit |
| LocCfg.ConfigTable.FillEntries | gps/utils/loc_cfg.cpp:219-224 | the loop over the table stores the value in every entry that takes it and counts them |
| LocCfg.ConfigTable.FillConfItem | gps/utils/loc_cfg.cpp:183-230 | every entry with the line's name takes its value, and the result is their number |
| LocCfg.ConfigTable.ClearFlags | gps/utils/loc_cfg.cpp:272-279 | clears every validity flag there is and no value |
| LocCfg.ConfigTable.ReadConfR | gps/utils/loc_cfg.cpp:261-296 | fills the cleared table from lines until the unsigned quota is zero and leaves the rest of the file |
| LocCfg.ConfigTable.FillFromText | gps/utils/loc_cfg.cpp:335-346 | the loop over the lines of the text, from any start quota, stops when the unsigned quota is zero |
| LocCfg.ConfigTable.UpdateConf | gps/utils/loc_cfg.cpp:324-350 | fills the table from the text's lines until the unsigned quota is zero and returns the lines used; a table of one entry is never updated |
| LocCfg.OneEntryPerLine | gps/utils/loc_cfg.cpp:219-224 | with distinct names a line fills one entry at most |
| LocCfg.UsedKeepsCount | gps/utils/loc_cfg.cpp:342-346 | the quota left is the start quota minus the fills so far |
| LocCfg.QuotaExact | gps/utils/loc_cfg.cpp:336-346 | while the quota does not wrap, the lines used are all, or those up to and including the one that makes the quota-th fill |
| LocCfg.DistinctNoWrap | gps/utils/loc_cfg.cpp:336-346 | with distinct names the quota never wraps |
| LocCfg.LastForMeaning | gps/utils/loc_cfg.cpp:219-224 | which line is the last for an entry |
| LocCfg.LastLineWins | gps/utils/loc_cfg.cpp:95-230 | an entry ends with the value of the last line for it, or its old value without one |
| LocCfgQuota.ItemWritable | gps/utils/loc_cfg.cpp:194-209 | the names a line of a text can give: not empty, trimmed, without equals sign or newline |
| LocCfgQuota.FileItemWritable | gps/utils/loc_cfg.cpp:281-291 | and a line of a file: the same, and at most 157 characters, because of its buffer |
| LocCfgQuota.LinesOfFile | gps/utils/loc_cfg.cpp:281-289 | complete lines put together in a file are read back as they are |
| LocCfgQuota.ExactIffNoWrap | gps/utils/loc_cfg.cpp:336-346 | the subtractions of the loop are all exact if and only if no line fills more entries than the quota has left |
| LocCfgQuota.MultipleIsExact | gps/utils/loc_cfg.cpp:336-346 | the multiples that steady tables speak of are the numbers without remainder |
| LocCfgQuota.SteadyNoWrap | gps/utils/loc_cfg.cpp:336-346 | if all usable names fill equally many entries and the quota is a multiple of that number, the quota never wraps |
| LocCfgQuota.Overshoot | gps/utils/loc_cfg.cpp:342-346 | lines of one name, and at last one of a name that fills more or of the same name, overshoot the quota unless the one number divides it |
| LocCfgQuota.NeverWrapsIffSteady | gps/utils/loc_cfg.cpp:324-350 | on no text at all does a subtraction of loc_update_conf wrap if and only if the table is of that sort |
| LocCfgQuota.FileNeverWrapsIffSteady | gps/utils/loc_cfg.cpp:261-296 | on no file does a subtraction of loc_read_conf_r wrap if and only if the table is of that sort for names that fit the buffer |
| LocCfgQuota.DistinctSteady | gps/utils/loc_cfg.cpp:324-350 | a table with distinct names is |
| LocCfgUpdate.UsedIsFirst | gps/utils/loc_cfg.cpp:342-346 | wrapping or not, the lines used end where the number of fills first agrees with the start quota modulo 2^32, or at the end of the text |
| LocCfgUpdate.EveryFillUsedIff | gps/utils/loc_cfg.cpp:342-346 | wrapping or not, every fill of the text is made if and only if no fill is left where the number of fills agrees with the quota |
| LocCfgUpdate.UnusedLinesIdle | gps/utils/loc_cfg.cpp:342-346 | lines that fill no entry leave the table as it is |
| LocCfgUpdate.UpdatedMeaning | gps/utils/loc_cfg.cpp:219-224 | a record is updated exactly when one of the lines used is for it |
| LocCfgUpdate.NewRecord | gps/utils/loc_cfg.cpp:219-224 | a line updates a record that no earlier line updated exactly when its name is new |
| LocCfgUpdate.RecordsAreLinesIff | gps/utils/loc_cfg.cpp:219-224 | with distinct names the lines update as many records as there are lines if and only if each fills one and no two have the same name |
| LocCfgUpdate.EveryAssignmentUsedIff | gps/utils/loc_cfg.cpp:335-346 | while no subtraction wraps, every assignment of the text is applied if and only if they are fewer than the table has entries; the table is then as if all lines had been read |
| LocCfgUpdate.OneEntryLeft | gps/utils/loc_cfg.cpp:335-346 | while no subtraction wraps, some entry of the table is not updated, whatever the text |
| LocCfgUpdate.ReturnIsFillsIff | gps/utils/loc_cfg.cpp:335-346 | with distinct names the result is the number of fills if and only if each of the first lines, one fewer than there are entries, fills an entry |
| LocCfgUpdate.ReturnIsRecordsIff | gps/utils/loc_cfg.cpp:318-349 | with distinct names the result is the number of records updated, as documented, if and only if these lines also have different names |
| LocCfgUpdate.SecondAssignmentLost | gps/utils/loc_cfg.cpp:335-346 | of two assignments to a table of two entries the second is never read, whatever the names |
| LocCfgUpdate.SecondLetterLost | gps/utils/loc_cfg.cpp:335-346 | for the entries A and B and the text A=0, B=0 the result is one and B is not set |
| LocCfgValues.LineItem | gps/utils/loc_cfg.cpp:194-217 | a line is a trimmed name and a trimmed value up to the next equals sign; a value with the prefix 0x is read to base 16, any other as an integer and a float |
| LocCfgValues.NoEqualsNoItem | gps/utils/loc_cfg.cpp:194-201 | a line without an equals sign says nothing |
| LocCfgValues.EntryTakes | gps/utils/loc_cfg.cpp:103-156 | an entry takes the line exactly when its name, pointer and type fit: the integer, the float, or the first 80 characters, the word NULL being the empty string |
| LocCfgValues.LineStores | gps/utils/loc_cfg.cpp:95-230 | the value a line leaves in an entry with its name, for each type of entry and for hexadecimal and other values |
| LocCfgValues.ClearedMeaning | gps/utils/loc_cfg.cpp:272-279 | clearing the flags keeps every value |
| LocCfgValues.SetIffAssigned | gps/utils/loc_cfg.cpp:261-296 | after a file is read a validity flag is set exactly when a line used was for its entry |
| LocCfgValues.EveryLineReadIff | gps/utils/loc_cfg.cpp:265-292 | while no subtraction wraps, every assignment of a file is applied if and only if they are at most as many as the table has entries |

## Left out

- BoyerMooreSearch.Search: the empty pattern is excluded, because the code tests for it only after it has built tables of size zero; `strncpy` and the comparison of the version in `VerifyTrustZoneFn` are not modelled.
- LinkedLists.LinkedList.Add: allocation failure is not modelled, and NULL handles and NULL result pointers are excluded by the types; the same holds for the message queue.
- LinkedLists.LinkedList.Search: `equal` is a pure question, as `hasSubscriber` is; the search with the callback that acts, `notifySubscriber`, is the walk of its own AgpsMachine.AgpsStateMachine.NotifyWalk, because a function value cannot change the heap.
- MsgQueues.MsgQueue.Snd: mutex and condition variable are not objects; each locked section is one step, and `pthread_cond_signal` wakes one or more waiting threads. Destroying a queue is not modelled.
- AgpsMachine.AgpsStateMachine.NotifySubscribers: a notification names its subscriber by key and not by address, so the deletion of the very object it points at is not captured.
- AgpsMachine.AgpsStateMachine.AddSubscriber: one comparison key serves a whole machine; the mixed comparison of BIT and ATL subscribers in one list, which reads across types, is not modelled.
- LocEng.ReleaseReportsOnce: the engine holds its three machines as values and not as objects; that each machine as an object behaves so is what AgpsMachine proves.
- LocEng.EngineStepKeepsInv: the BIT and WIFI requests, the Wi-Fi machine, and an ATL request of type SUPL_ES, which would put an ATL subscriber on the data-services machine, are not among the messages.
- LocEng.EngineRunKeepsInv: a run holds only the messages named above.
- LocEng.EveryReleaseReportsOnce: the runs before the release hold only the messages named above.
- AGPS payloads: APN, bearer, IP addresses, SSID and password, and the framework callback itself; what a servicer answers is an input.
- NmeaReport.GenerateSv: elevation, azimuth and strength are integers that are already rounded and that an `int` holds, and the three values of the DOP cache are left out.
- NmeaReport.InRangeFits: more than 36 satellites of one constellation, where the sentence count gets two digits and the 82 characters of the standard are no longer certain.
- The position sentences GPGSA (beyond its satellite scan), GPVTG, GPRMC and GPGGA: floating-point formatting.
- LocApiAdapters.LocApiBase.RemoveAdapter: a mask is the set of its bits; messages to the task queue are recorded and not delivered.
- LocCfg.ConfigTable.FillConfItem: `atoi`, `atof` and `strtol` are parameters; every table entry points at its own variables; a text ends at its first NUL, and a line is a value and not a buffer that `strtok_r` cuts.
- LocCfgUpdate.ReturnIsRecordsIff: tables in which several usable entries share a name, where one line updates several records and the counts can agree by chance.
- LocCfg.ConfigTable.ReadConfR: the read error of a missing file and a missing table.
- `loc_eng_ni.cpp` and `loc_timer.c`: parts of their state are touched outside the mutex, so steps that hold the lock would assume what has to be shown.
- Camera wrapper, lights, RIL shim and Java RIL, hardware addresses, voice descriptors, daemon pipes, thread helper, library loading, target probing, property reads and DNS: thin wrappers, device access and foreign calls.
- `open_bump.py`: file access around one little-endian read.
