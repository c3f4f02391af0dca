# Verified model of parts of Chromium `base`

A Dafny 4.11 model of the parts of Chromium's `src/base` whose behaviour is hardest to see
by reading: lists that are changed while they are being iterated, message passing between
threads, lock-free lazy creation, two parsers with their printers, and the codecs and bit
arithmetic underneath them.

`dafny verify dfyconfig.toml` checks everything.

| family | files | what it is about |
|---|---|---|
| ObserverList | `ObserverListSpec`, `ObserverListPass`, `ObserverList` | adding, removing and clearing observers during nested passes; iterators that outlive the list |
| CallbackList | `CallbackListSpec`, `CallbackListPass`, `CallbackList` | subscriptions created and destroyed by the callbacks of nested notifications |
| ObserverListThreadSafe | `ThreadSafeSpec`, `ThreadSafeCount`, `ThreadSafeInvariants`, `ThreadSafeRuns`, `ThreadSafeRemoval`, `ThreadSafeSync`, `ThreadSafe` | a locked map, one task queue per sequence, and a thread-local notification saved across nested dispatch |
| Lazy creation and AtExitManager | `LazyInstance`, `AtExit`, `AtExitRuns`, `AtExitManagers`, `AtExitObjects` | any number of callers racing on one word; destruction at exit |
| CommandLine | `CommandLineSpec`, `CommandLineAgree`, `CommandLineNormal`, `CommandLineQuote`, `CommandLinePrint`, `CommandLinePosix`, `CommandLine` | the vector and the switch map, parsing as a normal form, quoting for `CommandLineToArgvW` |
| FeatureList | `FeatureListSpec`, `FeatureListPrint`, `FeatureListRoundTrip`, `FeatureList` | reading and printing feature overrides |
| Codecs and bits | `Base64`, `Base64Url`, `Base64Exact`, `Base64Loops`, `BitArith`, `Bits`, `BigEndianSpec`, `BigEndian` | base64url with its padding policies, big-endian cursors, alignment and logarithms |

`Common` holds the option and byte types that several of them share.

## How the model is built

Each family has a value-level description (the files ending in `Spec`): the state, the
operations as functions on it, and what a run is. Theorems quantify over every run, every
input or every reachable state. Where the source changes things in place, a class or a
method with loops has the source's fields and control flow and is proved equal to the
value-level operation. The objects of AtExitManager and ObserverListThreadSafe carry the
state of their protocol and take only its steps, so what is proved of its runs holds of
them.

Concurrency is modelled as a state machine in which one atomic access, one critical
section, or one access to a thread-local value is one step, in any interleaving.

Some of the results are exact conditions, because the natural property does not hold
everywhere:

* Appending a switch keeps the map and the vector of a command line in agreement exactly
  when its name has no `=` (`CommandLineAgree.AppendSwitchAgrees`). They agree at the empty
  key exactly when the map does not give it the empty value
  (`CommandLineAgree.EmptyKeyAgrees`).
* A callback of a destroyed AtExitManager is run exactly if a pass over the manager began
  after it was registered (`AtExitRuns.RunsExactlyOnce`).
* Parsing its own result again reproduces a command line exactly when every switch is
  settled (`CommandLineNormal.NormalForm`): a switch without a value whose name ends in
  white space, or is nothing but a prefix, does not survive.
* The printed arguments split back into the same arguments exactly when each is printable
  (`CommandLinePrint.SplitInvertsPrint`): empty texts, unquoted tabs, a bare trailing `=`
  and names that hold a space, tab or double quote are lost.
* On Posix, where nothing is quoted, the printed arguments are the elements separated by
  spaces exactly when no switch before the first `--` ends in a bare `=`
  (`CommandLinePosix.PrintPosix`).
* Printed feature overrides read back as the same overrides exactly when each entry is
  clean (`FeatureListRoundTrip.PrintThenRead`).
* `Align` rounds up exactly when its sum does not overflow (`Bits.AlignExact`).
* `modp_b64` ignores the unused bits of the last digit, so encoding inverts decoding
  exactly when they are zero (`Base64.EncodeInvertsDecode`).
* An `ObserverList` iterator stays inside its bounds exactly if it is stepped only when it
  is not at the end (`ObserverListPass.StepWithinIffNotAtEnd`).

Where comments and code disagree the model follows the code: `bits.h` describes
`CountLeadingZeroBits` as counting the zeros following the most significant one bit; it
counts those above it.

## Model

| member | source | states |
|---|---|---|
| ObserverListSpec.Skip | src/base/observer_list.h:208-215 | an iterator's index moves to the next unmarked slot below the maximum, passing only marked ones |
| ObserverListSpec.ClampedMax | src/base/observer_list.h:217-219 | the bound of an iteration is the smaller of its maximum and the present size |
| ObserverListSpec.CompactedIsContents | src/base/observer_list.h:324-330 | compacting keeps exactly the unmarked entries, in order, so it is invisible |
| ObserverListSpec.ContentsMember | src/base/observer_list.h:296-305 | an observer is in the contents exactly when some slot holds it |
| ObserverListPass.InvPreserved | src/base/observer_list.h:125-330 | every operation keeps: no observer twice, marked slots only while an iterator is live, every live iterator within its clamped maximum |
| ObserverListPass.InitOk | src/base/observer_list.h:244-248 | a new list satisfies the invariant and is empty |
| ObserverListPass.RemoveDeletes | src/base/observer_list.h:279-294 | erasing a slot and marking it for removal both delete exactly that observer from the contents |
| ObserverListPass.Refines | src/base/observer_list.h:268-330 | the list refines an ordered duplicate-free sequence, whether or not iterators are live: adding appends, removing deletes, iterators are invisible |
| ObserverListPass.HistoryRefines | src/base/observer_list.h:138-163 | over every history the contents are those of the plain sequence, HasObserver is membership, and with no live iterator the vector holds no marked slot |
| ObserverListPass.LiveIteratorStable | src/base/observer_list.h:279-316 | while an iterator is live the vector never shrinks, each old slot keeps its value or becomes marked, and no other call moves the iterator |
| ObserverListPass.DeadStaysDead | src/base/observer_list.h:250-261 | after the list is destroyed every outstanding iterator equals end() and incrementing it does nothing |
| ObserverListPass.StepWithinIffNotAtEnd | src/base/observer_list.h:172-178 | a step keeps an iterator within its clamped maximum if and only if it was not at the end |
| ObserverListPass.PassLeavesTrail | src/base/observer_list.h:125-178 | every pass, whatever the notified code and nested passes do, advances its cursor over slots that only grow or become marked |
| ObserverListPass.CompletePass | src/base/observer_list.h:172-221 | in a complete pass a position below the maximum is notified if and only if its slot was unmarked at its turn, and never twice |
| ObserverListPass.VisitsIncreaseAndSkipRemoved | src/base/observer_list.h:172-219 | notifications go to strictly increasing positions, and a position found marked is never notified afterwards |
| ObserverListPass.KeptIffSpared | src/base/observer_list.h:192-206 | while an iterator is live the slot it stands at keeps its observer exactly as long as nobody removes that observer; otherwise the slot is marked |
| ObserverListPass.CurrentCanBeMarked | src/base/observer_list.h:192-206 | an iterator that is not at the end can stand at a marked slot, after a removal since its last step |
| ObserverListPass.PresentIsVisited | src/base/observer_list.h:125-219 | an observer present at the start and not removed before its turn is notified at its own position |
| ObserverListPass.PresentVisitedExactlyOnce | src/base/observer_list.h:125-219 | an observer that no notified code removes is notified exactly once |
| ObserverListPass.ExistingOnlyBound | src/base/observer_list.h:125-136 | under EXISTING_ONLY no position at or past the initial size is notified, so a pass ends |
| ObserverListPass.AllVisitsLateAdditions | src/base/observer_list.h:217-221 | under ALL every observer still in the list when a pass ends has been notified by it, whenever it was added |
| ObserverListPass.CopyTogether | src/base/observer_list.h:143-163 | a copied or assigned iterator stands where the other one does, with the same maximum, and the other one has not moved |
| ObserverListPass.StayTogether | src/base/observer_list.h:165-178 | such iterators are both at the end or neither is, advancing both leaves them at one place, and so does everything that does not touch them |
| ObserverLists.ObserverList.HasObserver | src/base/observer_list.h:296-305 | the result is membership in the contents |
| ObserverLists.ObserverList.AddObserver | src/base/observer_list.h:268-275 | the new state is the value-level addition; adding twice changes nothing |
| ObserverLists.ObserverList.RemoveObserver | src/base/observer_list.h:279-294 | the new state is the value-level removal: erased without live iterators, marked with them |
| ObserverLists.ObserverList.Clear | src/base/observer_list.h:308-316 | the new state is the value-level clear: emptied without live iterators, all slots marked with them |
| ObserverLists.ObserverList.Compact | src/base/observer_list.h:324-330 | the vector becomes its unmarked entries in order |
| ObserverLists.ObserverList.Begin | src/base/observer_list.h:237-240 | a new iterator at the first unmarked slot, linked only when the list is not empty |
| ObserverLists.ObserverList.Dispose | src/base/observer_list.h:250-261 | the new state is the value-level destruction, and every outstanding iterator is unlinked where it stood |
| ObserverLists.Iter.FromList | src/base/observer_list.h:125-136 | a linked iterator with its maximum set by the policy, at the first unmarked slot: its current slot is unmarked unless it is at the end |
| ObserverLists.Iter.SetList | src/base/observer_list_internal.h:117-122 | links the node to the list and nothing else |
| ObserverLists.Iter.Invalidate | src/base/observer_list_internal.h:124-129 | unlinks the node; nothing happens when it is not linked |
| ObserverLists.Iter.IsOnlyRemainingNode | src/base/observer_list_internal.h:112-115 | true exactly when this is the only live iterator of its list |
| ObserverLists.Iter.EnsureValidIndex | src/base/observer_list.h:208-215 | the loop leaves the index at the next unmarked slot or the clamped maximum |
| ObserverLists.Iter.IsEnd | src/base/observer_list.h:221-221 | true exactly when unlinked or at the clamped maximum |
| ObserverLists.Iter.Equals | src/base/observer_list.h:165-170 | comparison with end() says exactly whether the iterator is at the end; two linked iterators are equal if both are at the end, or at one place of one list |
| ObserverLists.Iter.Increment | src/base/observer_list.h:172-178 | the new state is the value-level step, and the current slot is unmarked unless the iterator is at the end; a no-op once the list is gone |
| ObserverLists.Iter.Dispose | src/base/observer_list.h:138-141 | the last live iterator compacts the list, any other only unlinks itself |
| ObserverLists.Iter.Assign | src/base/observer_list.h:149-163 | assignment, also between lists: the old list sees this iterator end, the new one sees a copy, with the index and the maximum of the other |
| ObserverLists.Iter.Copy | src/base/observer_list.h:143-147 | a second live iterator with the index and the maximum of the other |
| CallbackListSpec.NextLive | src/base/callback_list.h:140-152 | the first callback at or after a position that was not reset |
| CallbackListSpec.CompactedSame | src/base/callback_list.h:169-182 | compacting changes the list exactly when some node was reset |
| CallbackListPass.InvPreserved | src/base/callback_list.h:98-196 | every operation keeps: distinct subscriptions, reset nodes only while an iterator is active, cursors inside the list |
| CallbackListPass.Refines | src/base/callback_list.h:98-196 | the list refines the plain list of subscriptions: adding appends, destroying deletes, iterators and compaction are invisible |
| CallbackListPass.OutermostExit | src/base/callback_list.h:134-182 | the outermost exit leaves no reset node and fires the removal callback once if and only if there was one; no other exit does |
| CallbackListPass.HistoryRefines | src/base/callback_list.h:98-196 | over every history with nested passes the invariant holds and each call does what the plain list does |
| CallbackListPass.RemovalsStep | src/base/callback_list.h:107-196 | every call runs the removal callback, once, exactly if it makes the list shorter; it does so if it destroys a subscription outside of every pass, or ends the outermost pass after one was destroyed in it, and only then |
| CallbackListPass.RemovalsHistory | src/base/callback_list.h:107-196 | over every history the removal callback has run as often as the list got shorter while one was set |
| CallbackListPass.CopyFetchesSame | src/base/callback_list.h:128-132 | a copied iterator fetches the same callback next and moves to the same place, and nothing else changes |
| CallbackListPass.ActiveStable | src/base/callback_list.h:169-196 | while an iterator is active nothing else moves it, no node is erased, and a node keeps its callback or is reset |
| CallbackListPass.PassLeavesTrail | src/base/callback_list.h:219-225 | every Notify advances over a list that only grows or has nodes reset, whatever the callbacks do |
| CallbackListPass.EndedPass | src/base/callback_list.h:140-152 | a pass that has ended ran a position it reached if and only if it was not reset at its turn, never twice, and ran nothing beyond |
| CallbackListPass.ReachCovers | src/base/callback_list.h:140-152 | a pass reaches every node present when it began and every node added while its cursor was not end() |
| CallbackListPass.PresentRuns | src/base/callback_list.h:219-225 | a callback present at the start runs if and only if it is still subscribed at its turn |
| CallbackListPass.AddedRuns | src/base/callback_list.h:98-104 | a callback added during the pass runs in it if and only if the cursor was not end() at that time and it is still subscribed at its turn |
| CallbackListPass.RunsInOrder | src/base/callback_list.h:140-152 | callbacks run in list order, and one that was unsubscribed never runs from then on |
| CallbackListPass.SubscriberRunsOnce | src/base/callback_list.h:219-225 | a subscriber that nobody unsubscribes before its turn runs exactly once in a Notify |
| CallbackLists.CallbackList.Add | src/base/callback_list.h:98-104 | the new state is the value-level addition and the result is the new subscription |
| CallbackLists.CallbackList.SetRemovalCallback | src/base/callback_list.h:107-109 | whether there is a removal callback changes and nothing else |
| CallbackLists.CallbackList.Compact | src/base/callback_list.h:169-182 | reset nodes go, the removal callback is reported exactly if there were any |
| CallbackLists.CallbackList.OnSubscriptionDestroyed | src/base/callback_list.h:186-196 | the new state is the value-level removal: the list gets shorter exactly if no iterator is active, and exactly then the removal callback runs, once, if there is one |
| CallbackLists.Iterator.constructor | src/base/callback_list.h:122-127 | one more active iterator, at the beginning |
| CallbackLists.Iterator.Copy | src/base/callback_list.h:128-132 | one more active iterator, where the other one stands |
| CallbackLists.Iterator.GetNext | src/base/callback_list.h:140-152 | hands out the next callback that was not reset and moves past it, or reports the end |
| CallbackLists.Iterator.Dispose | src/base/callback_list.h:134-138 | the last active iterator compacts the list |
| ThreadSafeSpec.FirstFor | src/base/observer_list_threadsafe.h:157-170 | a sequence runs its posted tasks first in, first out |
| ThreadSafeCount.StepBalances | src/base/observer_list_threadsafe.h:101-250 | conservation: no step loses or duplicates a delivery, and exactly the notifying and adding steps undertake new ones |
| ThreadSafeCount.PostsOthersCount | src/base/observer_list_threadsafe.h:186-199 | NotifySynchronously posts or keeps for its loop each observer, and never both |
| ThreadSafeInvariants.StepThreadOk | src/base/observer_list_threadsafe.h:238-249 | every step keeps the thread-local value equal to the innermost callback's notification and every saved value equal to the one around it |
| ThreadSafeInvariants.StepExclusive | src/base/observer_list_threadsafe.h:157-170 | a sequence never runs on two threads at once |
| ThreadSafeInvariants.StepAtHome | src/base/observer_list_threadsafe.h:101-250 | if observers register from one sequence each, everything in flight for an observer stays on that sequence |
| ThreadSafeInvariants.StepKeepsInv | src/base/observer_list_threadsafe.h:101-250 | every step of every thread keeps the dispatch-stack and exclusivity invariants |
| ThreadSafeRuns.CurrentIsTopOfStack | src/base/observer_list_threadsafe.h:232-249 | in every reachable state the thread-local notification of every thread is the top of its dispatch stack |
| ThreadSafeRuns.BalancedHolds | src/base/observer_list_threadsafe.h:101-250 | in every reachable state each undertaken delivery is posted, in progress, called or stopped, exactly one of them |
| ThreadSafeRuns.CheckNeverStuck | src/base/observer_list_threadsafe.h:221-231 | a delivery about to be checked can always be checked |
| ThreadSafeRuns.NotifiedExactlyOnce | src/base/observer_list_threadsafe.h:157-204 | a notification leads to exactly one callback for each observer registered at its critical section and still registered when checked, and to none for an observer that was not registered |
| ThreadSafeRuns.AddedInCallback | src/base/observer_list_threadsafe.h:101-132 | an observer first added inside a callback is called exactly once for the innermost notification of that thread if it belongs to this list and the policy is ALL, and not at all otherwise |
| ThreadSafeRuns.ExistingOnlyBound | src/base/observer_list_threadsafe.h:116-131 | under EXISTING_ONLY an observer is called at most once per notification, and only if registered when it was sent, whatever is added later |
| ThreadSafeRuns.SentOnce | src/base/observer_list_threadsafe.h:157-204 | in every reachable state sending a notification makes one delivery outstanding for each registered observer and none for another |
| ThreadSafeRuns.AddedOnce | src/base/observer_list_threadsafe.h:101-132 | in every reachable state adding an observer makes outstanding exactly one delivery of the innermost notification, if it is of this list and the policy is ALL |
| ThreadSafeRemoval.CallbacksAtHome | src/base/observer_list_threadsafe.h:188-231 | if each observer registers from one sequence, every callback ran on it, and the DCHECK in NotifyWrapper holds |
| ThreadSafeRemoval.CheckedBeforeRemoval | src/base/observer_list_threadsafe.h:134-142 | a removed observer that is about to be called had passed its locked check on that same thread before the removal |
| ThreadSafeRemoval.NoCallAfterRemoval | src/base/observer_list_threadsafe.h:134-142 | after RemoveObserver on the observer's own sequence no callback for it starts until it is added again |
| ThreadSafeRemoval.RemovalStopsLaterChecks | src/base/observer_list_threadsafe.h:134-142 | a removal from anywhere stops every delivery whose locked check comes later |
| ThreadSafeSync.SyncSplits | src/base/observer_list_threadsafe.h:186-199 | in every reachable state NotifySynchronously leaves each registered observer of the calling sequence with no task and one delivery on the calling thread's own stack, each other registered observer with one task, on its sequence, and nothing on a stack, and anybody else with neither |
| ThreadSafeSync.NotifySplits | src/base/observer_list_threadsafe.h:157-170 | Notify leaves every registered observer, also of the calling sequence, with one task on its sequence, and starts no call |
| ThreadSafeSync.SyncDelivers | src/base/observer_list_threadsafe.h:188-203 | in every run, once the stack of the calling thread is back at its height at the call, every observer of the calling sequence registered at the call has been called or found removed, exactly once unless it was added again, and called if it was registered when checked |
| ThreadSafeSync.NeverStuck | src/base/observer_list_threadsafe.h:201-250 | in every reachable state a thread with a call in progress can go on with it |
| ThreadSafeSync.GoingOnEnds | src/base/observer_list_threadsafe.h:201-250 | each step that goes on with a call leaves its thread strictly less to do and touches no other, so that NotifySynchronously returns once the callbacks do |
| ThreadSafeSync.RegisteredWhereAdded | src/base/observer_list_threadsafe.h:101-114 | in every run an observer is registered on the sequence from which it was last added, until it is added or removed again |
| ThreadSafeSync.RunsOnItsSequence | src/base/observer_list_threadsafe.h:106-114 | a task runs on the sequence it was posted to, a callback on the sequence its call is recorded with, and after a task the thread is back on the sequence before |
| ThreadSafeSync.QueuedInOrder | src/base/observer_list_threadsafe.h:157-170 | every step takes the first task of a sequence or adds tasks behind all others |
| ThreadSafe.Deliveries | src/base/observer_list_threadsafe.h:186-199 | the loop over the map gives each observer one task, or sets it aside if it belongs to the calling sequence |
| ThreadSafe.Process.AddObserver | src/base/observer_list_threadsafe.h:101-132 | the observer is registered, and the deliveries outstanding grow by one of the innermost notification of the thread, to this observer, if it is of this list and the policy is ALL, and by nothing else; nothing happens without a task runner |
| ThreadSafe.Process.RemoveObserver | src/base/observer_list_threadsafe.h:139-142 | exactly this observer is no longer registered, and if the call is on the sequence it registers from, no thread is about to call it |
| ThreadSafe.Process.Notify | src/base/observer_list_threadsafe.h:157-170 | every registered observer gets exactly one task for the new notification, on its own sequence, and no other observer gets any; no call is started |
| ThreadSafe.Process.NotifySynchronously | src/base/observer_list_threadsafe.h:174-199 | every registered observer of the calling sequence has exactly one delivery on the calling thread's own stack and no task, every other one exactly one task on its own sequence, and nobody else anything |
| ThreadSafe.Process.LoopNext | src/base/observer_list_threadsafe.h:201-203 | no delivery is lost, made twice or made early: for every observer and notification as many are outstanding as before |
| ThreadSafe.Process.Check | src/base/observer_list_threadsafe.h:221-231 | the thread is about to call the observer exactly if it is registered, and a stop is logged exactly if it is not; no delivery is lost otherwise |
| ThreadSafe.Process.Start | src/base/observer_list_threadsafe.h:233-246 | the thread-local value is the innermost notification of the thread, namely the one delivered, and one outstanding delivery has become a call |
| ThreadSafe.Process.Return | src/base/observer_list_threadsafe.h:247-249 | the thread-local value is again that of the innermost callback still in progress on the thread, and no delivery changes |
| LazyInstance.StepKeepsInv | src/base/lazy_instance_helpers.h:57-95 | every atomic step of any number of callers keeps the invariant of the three-valued word |
| LazyInstance.ReachableStates | src/base/lazy_instance_helpers.h:57-95 | in every reachable state the word says "creating" if and only if exactly one caller is between its winning compare-and-swap and its store, the creator ran at most once since the last reset, and whoever returned got the pointer in the word |
| LazyInstance.NeverStuck | src/base/lazy_instance_helpers.cc:20-46 | while a caller has not returned, some step other than spinning is enabled |
| LazyInstance.StepDecreases | src/base/lazy_instance_helpers.cc:14-61 | every step other than spinning decreases the remaining work, and spinning changes nothing |
| LazyInstance.BoundedWork | src/base/lazy_instance_helpers.cc:14-61 | until another call arrives at most that many steps other than spinning are taken, in every interleaving |
| LazyInstance.WaitsOnlyWhileCreating | src/base/lazy_instance_helpers.cc:14-47 | a caller waits exactly if it lost the compare-and-swap and then sees the instance being created |
| LazyInstance.CreatedMask | src/base/lazy_instance_helpers.h:68-78 | a word is a pointer to an instance exactly if it is neither 0 nor 1 |
| LazyInstance.AllReturned | src/base/lazy_instance_helpers.h:77-93 | callers that have returned got the same pointer, which is the word, and the instance exists and was created once |
| LazyInstance.CreatesAlone | src/base/lazy_instance_helpers.h:57-95 | a call that finds the word empty and meets no other caller stores the pointer and registers its destructor exactly once |
| LazyInstance.FindsAlone | src/base/lazy_instance_helpers.h:63-69 | a call that finds the instance returns it and changes nothing |
| AtExit.StepConserves | src/base/at_exit.cc:36-102 | no step loses or duplicates a callback: each is waiting, taken by a pass, run or lost with its manager |
| AtExit.StepPending | src/base/at_exit.cc:55-102 | every step keeps: a callback is waiting or lost exactly if no pass over its manager has begun since it was registered |
| AtExit.StepKeepsInv | src/base/at_exit.cc:27-102 | every step keeps conservation, the order of registration, what is pending, and that the managers of destructors in progress are there |
| AtExitRuns.RunsAtMostOnce | src/base/at_exit.cc:49-102 | in every run a callback runs at most once, and has run exactly when it is neither waiting, taken by a pass, nor lost with its manager |
| AtExitRuns.RunsExactlyOnce | src/base/at_exit.cc:36-102 | a callback has been run or is being run exactly once if a pass over its manager began after it was registered, and not at all otherwise; it is lost if and only if none began and its manager is gone |
| AtExitRuns.DestroyRunsAll | src/base/at_exit.cc:36-46 | everything registered with a manager before its destructor began, managers not being disabled, is run exactly once |
| AtExitRuns.FinalPassDecides | src/base/at_exit.cc:36-46 | if no pass over the manager begins after its final one, a callback of a destroyed manager is run if and only if it was registered before the final pass began, and is lost otherwise |
| AtExitRuns.DisabledLoses | src/base/at_exit.cc:43-45 | with managers disabled, what is waiting in a manager when it is destroyed is never run |
| AtExitRuns.NothingLost | src/base/at_exit.cc:36-102 | nothing is ever lost if managers are not disabled and nothing registers while a destructor runs its callbacks |
| AtExitRuns.LostInDestructor | src/base/at_exit.cc:75-94 | a run in which a callback registered during a destructor's pass is lost |
| AtExitRuns.RunByItsManager | src/base/at_exit.cc:55-102 | every callback that was run was run by the manager on top when it was registered, in a pass that began later |
| AtExitRuns.RunsInReverse | src/base/at_exit.cc:69-102 | the callbacks of one pass run in reverse order of registration |
| AtExitManagers.RegistersOnTop | src/base/at_exit.cc:55-66 | in every run a callback is registered with the manager on top, behind all others; without a manager nothing happens |
| AtExitManagers.StepManagers | src/base/at_exit.cc:27-107 | a new manager comes on top, the end of a destructor takes its manager away, and nothing else changes which managers there are |
| AtExitManagers.StepPasses | src/base/at_exit.cc:69-102 | a pass takes all that is waiting in the manager on top, runs the last task first and ends when none is left; nothing else changes the passes in progress |
| AtExitManagers.PassFinishes | src/base/at_exit.cc:69-102 | in every run, when ProcessCallbacksNow or a destructor is over, every callback that was waiting in the manager on top at the call has run, exactly once, whatever the callbacks did |
| AtExitManagers.DestructorEnds | src/base/at_exit.cc:36-46 | in every run, when a destructor is over its manager is gone |
| AtExitObjects.Cell.OnExit | src/base/lazy_instance.h:200-205 | the instance is destroyed once more, its word is 0 again and its protocol is back at its start |
| AtExitObjects.Process.NewManager | src/base/at_exit.cc:27-34 | the new manager is on top and has nothing registered |
| AtExitObjects.Process.DisableAllAtExitManagers | src/base/at_exit.cc:104-107 | managers are disabled and nothing else changes |
| AtExitObjects.Process.RegisterCallback | src/base/at_exit.cc:49-66 | the cell is pushed on the manager on top as the next registration, and no cell is registered twice at a time; without a manager it is dropped |
| AtExitObjects.Process.GetOrCreate | src/base/lazy_instance_helpers.h:57-95 | the pointer of the instance: the one it has, or else the new one, stored and registered for destruction once |
| AtExitObjects.Process.RunAll | src/base/at_exit.cc:91-94 | the loop destroys the cells taken, the last registered first, each exactly once |
| AtExitObjects.Process.ProcessCallbacksNow | src/base/at_exit.cc:69-102 | every instance registered with the manager on top is destroyed exactly once, the last registered first, and its word returns to 0; no other cell is touched |
| AtExitObjects.Process.DestroyTop | src/base/at_exit.cc:36-46 | the manager below is on top and, unless managers are disabled, every instance registered with the one destroyed is destroyed exactly once, in reverse, its word 0 again |
| CommandLineSpec.TrimFacts | src/base/strings/string_util.cc:264-298 | trimming leaves exactly the trimmed texts alone and is idempotent |
| CommandLineSpec.TrimBounds | src/base/strings/string_util.cc:264-298 | trimming cuts off white space at the two ends and nothing else |
| CommandLineSpec.SpaceTable | src/base/strings/string_util_constants.cc:9-50 | the white space of each platform, character by character |
| CommandLineSpec.LongestPrefix | src/base/command_line.cc:48-55 | the prefix of a text is the longest of the platform's switch prefixes that it starts with |
| CommandLineSpec.NormalizeFacts | src/base/command_line.cc:345-368 | lower-casing a switch name keeps its prefix and its `=` signs |
| CommandLineSpec.StoredSwitch | src/base/command_line.cc:345-368 | the key and the element stored for a switch: the name as given on Posix and in lower case on Windows, with its own prefix or `--`, and `=` and the value if there is one |
| CommandLineAgree.ElementReadsBack | src/base/command_line.cc:345-368 | an element appended for a name without `=` reads back as that name and value |
| CommandLineAgree.AppendSwitchAgrees | src/base/command_line.cc:345-368 | appending keeps map and vector in agreement if and only if the name has no `=` |
| CommandLineAgree.KeptInOrder | src/base/command_line.cc:381-413 | the elements that stay are exactly those that are not switches with the key, each in its old order |
| CommandLineAgree.KeptValues | src/base/command_line.cc:381-413 | dropping the switches of one key hides that key and no other |
| CommandLineAgree.RemoveSwitchAgrees | src/base/command_line.cc:381-413 | RemoveSwitch keeps the agreement, and the program and the arguments |
| CommandLineAgree.HistoryAgrees | src/base/command_line.cc:59-115 | after any history, for every non-empty key without `=`: it is in the map if and only if some element before the divider is a switch with it, with the value of the last such element |
| CommandLineAgree.AppendAgreesAtEmpty | src/base/command_line.cc:345-368 | if map and vector agree at the empty key, they still do after appending a switch if and only if the switch has a key or a value |
| CommandLineAgree.EmptyKeyAgrees | src/base/command_line.cc:59-115 | after any history map and vector agree at the empty key if and only if the map does not give it the empty value |
| CommandLineAgree.EmptyKeyDisagrees | src/base/command_line.cc:345-368 | the empty name without a value: in the map, but no element is a switch with it, and removing it erases no element |
| CommandLineAgree.ParsedEmptyKeyDisagrees | src/base/command_line.cc:89-115 | parsing `--=` makes map and vector disagree at the empty key |
| CommandLineNormal.ParseShape | src/base/command_line.cc:89-115 | parsing puts the switches at the divider and the arguments at the end, each in order |
| CommandLineNormal.InitShape | src/base/command_line.cc:275-295 | the same for a whole vector: program, switches, arguments |
| CommandLineNormal.GetArgsAfterParse | src/base/command_line.cc:424-433 | for every vector GetArgs is the trimmed non-switches before the first `--` followed by everything after it |
| CommandLineNormal.AppendArgumentsShape | src/base/command_line.cc:454-459 | the switches and arguments of the other line follow those of this one, its values win, and its program replaces this one's exactly if asked |
| CommandLineNormal.ParseAfterTerminator | src/base/command_line.cc:89-115 | onto any line, the elements before the first `--` are parsed as if they were all, and from it on everything is appended, trimmed, as arguments |
| CommandLineNormal.TerminatorEndsSwitches | src/base/command_line.cc:31-115 | with a first `--` the map, the divider and the switch elements are those of parsing what is before it, and GetArgs is the trimmed non-switches before it and everything after it |
| CommandLineNormal.NoTerminatorArgs | src/base/command_line.cc:89-115 | without a `--` GetArgs is all the arguments, which are the trimmed non-switches |
| CommandLineNormal.GetArgsDropsFirst | src/base/command_line.cc:424-433 | on every line GetArgs drops the first `--` after the divider and nothing else |
| CommandLineNormal.SettledIffFixed | src/base/command_line.cc:89-115 | a trimmed switch is settled if and only if the element it becomes parses to itself |
| CommandLineNormal.NormalForm | src/base/command_line.cc:275-281 | parsing the result again reproduces vector, map and divider if and only if every parsed switch is settled |
| CommandLineNormal.NotNormal | src/base/command_line.cc:89-115 | `--=` is not reproduced by parsing the result again |
| CommandLineQuote.ReadInPieces | src/base/command_line.cc:119-164 | the reader of the CommandLineToArgvW rules can be applied piece by piece |
| CommandLineQuote.QuotedExactly | src/base/command_line.cc:119-164 | a text is left alone exactly if it holds no space, backslash or double quote, nor a percent sign when placeholders are quoted; any other is put between double quotes |
| CommandLineQuote.ReadEscaped | src/base/command_line.cc:133-161 | the body that quoting writes reads back to the argument, for all runs of backslashes before quotes and at the end |
| CommandLineQuote.ReadQuoted | src/base/command_line.cc:119-164 | a quoted argument reads back whatever it holds |
| CommandLineQuote.ReadPlain | src/base/command_line.cc:119-131 | an unquoted argument without double quotes is read literally up to the first blank |
| CommandLineQuote.QuoteLosesText | src/base/command_line.cc:526-555 | a raw double quote makes the text read shorter than the text written |
| CommandLinePrint.PrintedReads | src/base/command_line.cc:526-555 | a printable element reads back from its print |
| CommandLinePrint.LostQuotedName | src/base/command_line.cc:538-546 | a switch name with a double quote does not read back |
| CommandLinePrint.SplitInvertsPrint | src/base/command_line.cc:526-555 | the arguments string splits back into exactly the elements after the program if and only if every one is printable |
| CommandLinePrint.StringRoundTrip | src/base/command_line.cc:479-555 | printing, splitting and parsing again give the same vector, map and divider |
| CommandLinePrint.StringRoundTripExact | src/base/command_line.cc:479-555 | the string splits back into the elements and they parse to the same command line if and only if the switches are settled and the elements printable |
| CommandLinePrint.EmptyIsLost | src/base/command_line.cc:526-555 | an empty argument does not split back |
| CommandLinePosix.PrintPosix | src/base/command_line.cc:526-555 | on Posix the string is the elements separated by single spaces, where a switch before the first `--` that ends in a bare `=` loses it; it is the elements as they are if and only if there is none; placeholders make no difference |
| CommandLines.CommandLine.InitFromArgv | src/base/command_line.cc:275-281 | the fields become those of the value-level parse, which the first `--` divides as ParseAfterTerminator says |
| CommandLines.CommandLine.SetProgram | src/base/command_line.cc:287-295 | the first element becomes the trimmed program |
| CommandLines.CommandLine.AppendSwitchNative | src/base/command_line.cc:345-368 | the map gets the value, the vector the element at the divider, which moves by one |
| CommandLines.CommandLine.AppendArgNative | src/base/command_line.cc:450-452 | the argument goes to the end and nothing else changes |
| CommandLines.CommandLine.AppendSwitchesAndArguments | src/base/command_line.cc:89-115 | the loop does what the value-level parse does, which the first `--` divides as ParseAfterTerminator says |
| CommandLines.CommandLine.RemoveSwitch | src/base/command_line.cc:381-413 | the key leaves the map and its elements leave the vector, the divider following |
| CommandLines.CommandLine.GetArgs | src/base/command_line.cc:424-433 | the elements after the divider without the first `--` |
| CommandLines.CommandLine.GetArgumentsString | src/base/command_line.cc:526-555 | the loop prints what the value-level printer prints: on Posix the elements separated by single spaces, bare switches without their `=` |
| CommandLines.QuoteForCommandLineToArgvW | src/base/command_line.cc:119-164 | the loop over runs of backslashes writes the escaped text that reads back |
| FeatureListSpec.ShownNames | src/base/feature_list.cc:451-468 | each name that is not skipped is printed in one list, the disabled ones in one and all others in the other |
| FeatureListPrint.CommandLineOnly | src/base/feature_list.cc:451-478 | for the command line only, the pieces are exactly the undecorated names of the entries that are enabled without a trial, and of those disabled without a trial |
| FeatureListPrint.UntriedNames | src/base/feature_list.cc:448-456 | those names are all names with that state and no trial, and no others, in alphabetical order |
| FeatureListPrint.EveryNameOnce | src/base/feature_list.cc:448-468 | otherwise every name is in exactly one of the two lists, that of the disabled ones exactly if its state is so, each list in alphabetical order without repetition |
| FeatureListPrint.LessExact | src/base/feature_list.cc:448-451 | the order is the one of texts: after what they have in common the smaller one ends or has the smaller character |
| FeatureListRoundTrip.FirstWins | src/base/feature_list.cc:425-431 | after registration a name means what it meant before, else its first entry, else nothing |
| FeatureListRoundTrip.DisableWins | src/base/feature_list.cc:117-128 | a feature listed as disabled is not enabled by the other list |
| FeatureListRoundTrip.FirstEntryDecides | src/base/feature_list.cc:351-372 | a feature is decided by the first entry that names it: the default for `*`, off in the disabled list, on in the other, and its default if not named |
| FeatureListRoundTrip.PieceExact | src/base/feature_list.cc:388-431 | a piece is a name, after a `*` if it asks for the default, and before a `<` and the name of a trial if it has one |
| FeatureListRoundTrip.FirstEntryTrial | src/base/feature_list.cc:150-386 | the first entry that names a feature gives its associated trial if that exists; otherwise the feature is overridden from the command line with that entry's state |
| FeatureListRoundTrip.FieldsExact | src/base/strings/string_split.cc:36-66 | the fields are the parts that the commas of a text separate, all of them |
| FeatureListRoundTrip.SplitSound | src/base/strings/string_split.cc:36-66 | every piece of a list is non-empty, trimmed and free of commas |
| FeatureListRoundTrip.SplitJoin | src/base/feature_list.cc:470-478 | splitting a printed list gives back the texts joined, less those that trim to nothing |
| FeatureListRoundTrip.ValidIsClean | src/base/feature_list.cc:80-87 | valid names without surrounding white space, with trials that can be found, are clean |
| FeatureListRoundTrip.OneEntryExact | src/base/feature_list.cc:388-431 | an entry printed alone reads back as itself if and only if it is clean |
| FeatureListRoundTrip.PrintThenRead | src/base/feature_list.cc:388-479 | printing and reading preserves every name, state and trial if and only if every entry printed is clean, for all overrides or those of the command line |
| FeatureListRoundTrip.CommaIsLost | src/base/feature_list.cc:388-479 | a name with a comma is not preserved |
| FeatureListRoundTrip.SameAnswers | src/base/feature_list.cc:351-386 | IsFeatureEnabled and the associated trial answer the same for every name after printing and reading |
| FeatureLists.Keys | src/base/feature_list.cc:448-451 | iteration visits every name once in alphabetical order |
| FeatureLists.SplitFeatureListString | src/base/feature_list.cc:253-257 | the loop gives the non-empty trimmed texts between commas |
| FeatureLists.FeatureList.RegisterOverride | src/base/feature_list.cc:412-431 | the entry is inserted unless the feature has one; a leading `*` asks for the default |
| FeatureLists.FeatureList.RegisterOverridesFromCommandLine | src/base/feature_list.cc:388-410 | the loop inserts the entries of the list, first one first |
| FeatureLists.FeatureList.InitializeFromCommandLine | src/base/feature_list.cc:117-128 | the first-wins fold over the disabled entries followed by the enabled ones |
| FeatureLists.FeatureList.GetFeatureOverrides | src/base/feature_list.cc:433-479 | the loop prints both lists in alphabetical order; for the command line only, the names that are enabled, and those that are disabled, without a trial |
| FeatureLists.FeatureList.IsFeatureEnabled | src/base/feature_list.cc:351-372 | the override if there is one, else the default |
| Base64.SameBits | src/base/third_party/modp_b64/modp_b64.cc:80-117 | the digits are the bits of the bytes in groups of six, filled up with zero bits on the right, as section 4 of RFC 4648 defines base64 |
| Base64.DecodeInvertsEncode | src/base/third_party/modp_b64/modp_b64.cc:80-117 | decoding inverts encoding for every byte string |
| Base64.EncodeLength | src/base/third_party/modp_b64/modp_b64.h:93-93 | the encoding has the length the buffer was made for |
| Base64.DecodedShape | src/base/third_party/modp_b64/modp_b64.cc:189-250 | only groups of four digits with at most two padding characters are accepted |
| Base64.EncodeInvertsDecode | src/base/third_party/modp_b64/modp_b64.cc:189-250 | encoding inverts decoding if and only if the unused bits of the last digit are zero |
| Base64.UnusedBitsAreLost | src/base/third_party/modp_b64/modp_b64.cc:189-250 | `AB==` decodes to a byte whose encoding is another text |
| Base64Exact.Alphabet | src/base/third_party/modp_b64/modp_b64_data.h:4-36 | the alphabet of section 4 of RFC 4648 |
| Base64Exact.DecodesExactly | src/base/third_party/modp_b64/modp_b64.cc:189-250 | exactly those texts decode that are digits, their number not one more than a multiple of four, filled up with padding |
| Base64Exact.DecodedBits | src/base/third_party/modp_b64/modp_b64.cc:189-250 | for every text that decodes the bytes are the bits of the digits from the left, and the bits left over are dropped |
| Base64Url.NeverReserved | src/base/base64url.cc:24-31 | no output contains `+` or `/` |
| Base64Url.PaddingRestored | src/base/base64url.cc:55-91 | the size modulo four tells exactly the padding that was removed |
| Base64Url.UrlRoundTrip | src/base/base64url.cc:24-99 | decoding inverts encoding for every byte string and every pair of policies that fit; a pair that does not fit fails unless the length is a multiple of three |
| Base64Url.UrlEncodeInvertsDecode | src/base/base64url.cc:47-99 | a text accepted without padding is the encoding of its bytes if and only if its unused bits are zero |
| Base64Url.UrlEncodeInvertsPadded | src/base/base64url.cc:47-99 | the same where padding is required |
| Base64Exact.ReservedRejected | src/base/base64url.cc:50-53 | no text with `+` or `/` decodes, whatever the policy |
| Base64Exact.UrlDecodesExactly | src/base/base64url.cc:47-99 | exactly those texts decode that are digits of the URL alphabet, their number not one more than a multiple of four, followed by all the missing padding, by any part of it, or by none, as the policy says |
| Base64Exact.UrlDecodes | src/base/base64url.cc:71-98 | such a text decodes as the base64 text with its characters replaced and all its padding |
| Base64Loops.EncodeInto | src/base/third_party/modp_b64/modp_b64.cc:80-117 | the buffer holds the encoding and a null byte, without overflow |
| Base64Loops.DecodeInto | src/base/third_party/modp_b64/modp_b64.cc:189-250 | the buffer holds the bytes, or -1 exactly for texts that do not decode |
| Base64Loops.UrlEncodeText | src/base/base64url.cc:24-45 | the rewriting in place gives the value-level encoding |
| Base64Loops.UrlDecodeText | src/base/base64url.cc:47-99 | rejecting, copying, replacing and padding give the value-level decoding |
| BigEndianSpec.FoldedIs | src/base/big_endian.h:22-29 | after each byte the word is the number read so far, with the ones of sign extension above it |
| BigEndianSpec.ReadIsNumber | src/base/big_endian.h:22-29 | reading gives the number the bytes stand for, for every width, whether or not char is signed |
| BigEndianSpec.MostSignificantFirst | src/base/big_endian.h:22-29 | the first byte is the most significant one |
| BigEndianSpec.NumberOfBytes | src/base/big_endian.h:34-39 | written bytes stand for the value modulo the size of the type |
| BigEndianSpec.BytesOfNumber | src/base/big_endian.h:34-39 | writing the number that bytes stand for gives those bytes |
| BigEndianSpec.ReadInvertsWrite | src/base/big_endian.h:22-39 | reading inverts writing for every width and every signed or unsigned value |
| BigEndianSpec.WriteFieldsExact | src/base/big_endian.cc:89-111 | writing a list of fields succeeds exactly when all fit, stores them one after the other and leaves the rest alone |
| BigEndianSpec.WriteThenRead | src/base/big_endian.cc:38-111 | writing then reading any list of integer, raw and length-prefixed fields that fits gives the same fields and cursor positions |
| BigEndianSpec.ReadFieldExact | src/base/big_endian.cc:15-76 | a read succeeds if and only if a field of its kind stands at the cursor, gives that field and moves past it |
| BigEndianSpec.ReadThenWrite | src/base/big_endian.cc:15-111 | for every buffer and every list of kinds the bytes passed are exactly what writing the fields read stores, and reading stops only where the next field does not fit |
| BigEndian.ReadBigEndian | src/base/big_endian.h:22-29 | the shift-and-or loop computes the number |
| BigEndian.WriteBigEndian | src/base/big_endian.h:34-39 | the loop stores the bytes and touches nothing else |
| BigEndian.Reader.Skip | src/base/big_endian.cc:15-20 | advances exactly when enough remains |
| BigEndian.Reader.ReadBytes | src/base/big_endian.cc:22-36 | the next bytes, or failure with the cursor unmoved |
| BigEndian.Reader.Read | src/base/big_endian.cc:38-45 | the next integer, or failure with the cursor unmoved |
| BigEndian.Reader.ReadLengthPrefixed | src/base/big_endian.cc:63-76 | the next length-prefixed bytes; a failure after reading the length puts the cursor back |
| BigEndian.Writer.WriteBytes | src/base/big_endian.cc:96-102 | the bytes are stored and the cursor advances, or nothing changes |
| BigEndian.Writer.Write | src/base/big_endian.cc:104-111 | the integer is stored and the cursor advances, or nothing changes |
| Bits.IsPowerOfTwoExact | src/base/bits.h:29-37 | exactly the powers of two are accepted |
| Bits.AlignDownExact | src/base/bits.h:46-49 | for every word width the greatest multiple at or below the size |
| Bits.AlignExact | src/base/bits.h:40-43 | for every word width the least multiple at or above the size if and only if the sum does not overflow, and 0 otherwise |
| Bits.HalvesAgree | src/base/bits.h:81-134 | counting leading or trailing zeros in two halves agrees with counting in one word |
| Bits.LeadingZerosExact | src/base/bits.h:65-162 | the count brackets the value between adjacent powers of two, for every width |
| Bits.TrailingZerosExact | src/base/bits.h:106-172 | for every width the count is the exponent of the largest power of two dividing the value, and the width for zero only |
| Bits.ZerosOf64 | src/base/bits.h:74-134 | the same for the 64-bit counts |
| Bits.LogarithmsBracket | src/base/bits.h:193-204 | both logarithms bracket every positive number between adjacent powers of two, differ exactly off the powers of two, and are -1 for zero |

## Left out

- Memory ordering: each atomic access is one indivisible step; barriers are not modelled.
- Creators that return null in lazy creation: the header asks callers to synchronise there, so the model assumes a pointer with a bit other than bit 0 set.
- Failing posts of tasks, and task runners that are shut down, in ObserverListThreadSafe.
- CheckedObserverAdapter of ObserverList, which uses weak pointers, and the reentrancy and emptiness checks.
- AtExitObjects.Process: the managers are one list, from the bottom to the top, rather than objects linked by pointers, and the callbacks of its passes are destructors of lazy instances, which register nothing; callbacks that do anything are in AtExit and AtExitRuns.
- ObserverList capacity: sizes are unbounded numbers.
- The destruction of a CallbackList, which the source only allows without active iterators.
- `PrependWrapper`, `CopySwitchesFrom` and `ParseFromString` of CommandLine; the last calls the operating system, so the rules of `CommandLineToArgvW` are written out instead, in both documented readings of doubled quotes inside a quoted part.
- Conversions between character sets, and `FilePath`: strings are sequences of characters on both platforms.
- The program name in `GetCommandLineString`, which Windows splits by other rules than the arguments.
- Pickle and shared memory in FeatureList, activation of field trials, the global instance and the identity tracker used only in debug checks.
- Wrap-around of pointers in the bounds checks of the big-endian cursors: positions are unbounded numbers.
- BigEndian.WriteBigEndian: `val & 0xFF` and `val >>= 8` are the remainder and the floor of division by 256, which for negative values is their two's complement form.
- The lookup tables of `modp_b64` are not copied; the arithmetic they hold is written out. The big-endian variant of the decoder is not modelled.
- Logging, environment variables, native libraries, callbacks and bind templates, and the smaller helpers of `base`, which would only add easy members.
