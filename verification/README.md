# wachat: a model and its proofs

wachat is a desktop chat client: a handler persists incoming messages to an SQLite store and hands
them to the frame loop over a bounded channel; a reducer folds them into the chat list and the open
chat; the view decodes thumbnails through a reference-counted cache. This project models these four
parts and proves what they guarantee over whole runs.

Where the program changes things step by step, the model has a class or a loop with the same fields
and branches (`ThumbnailCache`, `Tracker`, `View`, `Store`, `State`, `Handler`, `TypingTable`,
`ReactionTable`, `GroupMessages`, `SummarizeReactions`). Each method is proved against a function on
values, and the lemmas about whole runs are stated over those functions.

| files | what they hold |
|---|---|
| `Media`, `ThumbnailCache` | the cache: invariant, eviction order, whole runs; the mutable cache |
| `Budgets`, `FrameCalls` | two budgets side by side: a larger budget never decodes more |
| `FlakyDecoders` | frames whose decoder may change its mind: exactly which draws lose a pin |
| `Visibility`, `Tracker` | visible sets to matched calls, the memory bound; tracker and frame loop |
| `Tables`, `SearchIndex`, `Batches`, `Deliveries`, `Store` | the tables, the search index, batch insert, delivery order; the mutable store |
| `Columns` | every write column by column, on every database |
| `Navigation` | pages by keys and positions; what selecting, paging up, jumping, folding and sending put on screen |
| `Paging`, `Walks`, `Scrolling` | keyset pages, walks under concurrent writes, scrolling up in a chat |
| `Reducer` (also `ChatOrder`), `State` | the chat list and the open chat; the mutable state, the handler, the drain loop |
| `Protocol`, `OpenChat`, `Doubles`, `Completeness`, `Drops`, `Unread` | interleavings of handler, frame loop, user and other writers: what is on screen, twice, missing or miscounted |
| `Typing`, `TypingTable`, `Grouping`, `Reactions`, `ReactionTable` | typing indicators, bubble grouping, reaction summaries |
| `Prelude` | options, results, enumerations, sums of maps |

## What is promised and what holds

The model follows the code. Where comments in the repository promise more, this is stated exactly.

- A page shorter than the limit is said to be followed by an empty one (internal/store/paging.go:157-160).
  True unless the short page is itself empty and the chat is not: its cursor is the start cursor, so paging
  on returns the newest messages again (`PagingOnAfterShortPage`, `EmptyPageRestarts`).
- PageAround is said to be a window centred on the anchor (internal/store/paging.go:23-26). Its newer half is
  the newest rows of the chat, so it has a gap exactly when more newer rows exist than were asked for and some
  were asked for (`AroundMeaning`).
- After a full channel the next frame is said to re-read the store (main.go:36-40, internal/wa/handler.go:54-57).
  Nothing does (`NothingRereads`). From an empty database, 65 arrivals between two frames drop the last one, and
  it stays off screen although it is stored: paging up and selecting the open chat again do not help, only a
  redelivery, a jump, or leaving the chat and coming back (`DroppedFromBoot`, `StaysInvisible`).
- LoadOlder returning zero is said to mean that the history is exhausted (internal/ui/state.go:231-232, 237-239).
  It means that or that an earlier page was empty and reset the cursor (`ZeroExactly`); after that, older history
  stored by a later sync stays unreachable (`LateHistoryStaysHidden`). Without such inserts and without jumps zero
  does mean that everything stored is on screen, under way or dropped (`ZeroMeansExhausted`).
- Prepending is said to keep the newest message first and to avoid double bubbles (internal/ui/state.go:271-277).
  Order survives exactly when a new message is not older than the one on top and a redelivered one still fits
  between its neighbours (`FoldKeepsOrderExactly`, `FoldBreaksOrder`). A message is shown twice, at once or after
  paging up, exactly when one is on screen whose row in the chat is stored below the cursor (`ShowsTwiceExactly`);
  a run is free of that exactly when no step folds such a message in (`RunDoublesExactly`), and a late arrival
  does (`LateArrivalShowsTwice`).
- A redelivered copy is said to carry fresher fields (internal/ui/state.go:294-296). It carries five fields and
  loses the others (`RedeliveryStripsCopy`).
- The counter on screen counts redeliveries and misses drops, and counts twice what was under way when the chat
  list was loaded; the stored one does none of this (`UnreadLedger`).
- Every Decode is to be paired with one Release (internal/media/cache.go:62-64). Unpaired, the larger of two
  budgets can decode more (`StrayReleaseIsAnomalous`). The tracker's pairing survives
  a decoder that changes its mind exactly as long as no draw is the first to succeed for a visible path that
  fits beside the pinned ones (`FramesPairExactly`, `FlakyDecoderLosesThePin`).
- Clear is meant for switching chats (internal/media/tracker.go:53-54), but the program never calls it, and with
  no chat open the tracker is not updated: the last chat's thumbnails stay pinned (`View.LayoutMessages`).

## Model

| member | source | states |
|---|---|---|
| Media.ReachableCache | internal/media/cache.go:31-126 | after any calls with any decoder: total is the sum of resident sizes; the released list is duplicate-free, holds exactly the entries nobody uses, in order of last Release; over a positive budget nothing is left to evict |
| Media.EvictionOrder | internal/media/cache.go:114-126 | eviction removes the shortest prefix of the released list that brings the total under the budget (all of it if none does), never a pinned entry |
| Media.DecodedIsPinned | internal/media/cache.go:65-81 | a successful decode leaves its path resident and pinned with the returned image, whatever was evicted to make room |
| Media.StepKeepsInv | internal/media/cache.go:65-103 | each Decode and Release keeps the cache invariant, from any state satisfying it |
| Media.StepKeepsOrder | internal/media/cache.go:88-112 | each call keeps the released list in order of last Release |
| Budgets.LargerBudgetNeverDecodesMore | internal/media/cache.go:65-126 | no Belady anomaly: under matched calls, two budgets pin the same paths, the smaller's released list is a suffix of the larger's, and the larger reaches the decoder no more often; releases of a path that cannot be decoded, as the tracker makes them, are allowed |
| Budgets.ReachableIsFaithful | internal/media/cache.go:61-103 | under matched calls each reference count is the decodes not yet released, and residents hold what the decoder answers |
| Budgets.StrayReleaseIsAnomalous | internal/media/cache.go:61-64 | the pairing is needed: one unpaired Release makes budget 3 decode four times where budget 2 decodes three times |
| ThumbnailCaches.ThumbnailCache.constructor | internal/media/cache.go:50-59 | an empty cache with the given budget |
| ThumbnailCaches.ThumbnailCache.Decode | internal/media/cache.go:65-81 | a hit returns the resident image and adds a user; a miss admits and evicts; a failed decode changes nothing; the invariant is kept |
| ThumbnailCaches.ThumbnailCache.Release | internal/media/cache.go:88-103 | one user less, the last one moves the path to the end of the released list and evicts; an unknown path is ignored; the invariant is kept |
| ThumbnailCaches.ThumbnailCache.RemoveFromLRU | internal/media/cache.go:105-112 | the loop cuts out the first occurrence, if any |
| ThumbnailCaches.ThumbnailCache.EvictIfOver | internal/media/cache.go:114-126 | the loop performs exactly the specified eviction |
| ThumbnailCaches.ThumbnailCache.Stats | internal/media/cache.go:130-134 | the number of residents and the sum of their sizes |
| Visibility.ThumbnailMemory | internal/media/tracker.go:28-62 | between the operations of any run of frames: users of a resident path are 1 if visible and 0 if not, decoded minus released is the size of the visible set, and bytes are at most the larger of budget and visible sizes |
| Visibility.MemoryBound | internal/media/cache.go:28-30 | the byte bound in any balanced state with a positive budget |
| Visibility.ReconcileKeepsBalance | internal/media/tracker.go:28-51 | replacing the visible set keeps the balance whatever order the maps are walked in, and the call counts differ as the set sizes do |
| Visibility.ThumbnailKeepsBalance | internal/ui/view.go:72-84 | the Decode and Release of a drawn bubble leave every count as it was |
| FlakyDecoders.FramesPairExactly | internal/media/tracker.go:28-62 | in any run of frame operations, each with its own decoder outcomes: one user per visible resident and none for others throughout, if and only if no draw is the first success for a visible path that fits beside the pinned ones |
| FlakyDecoders.DrawPinsExactly | internal/ui/view.go:72-84 | the same for one draw from any paired state, in terms of the cache before the call |
| FlakyDecoders.FlakyDecoderLosesThePin | internal/media/cache.go:20-24 | the failing run, under any budget the image fits in: SetVisible fails to decode, the next draw succeeds, and the visible path is resident and unpinned |
| FrameCalls.FrameCallsAreMatched | internal/media/tracker.go:3-6 | the cache calls of any run of frames are matched and leave exactly the visible decodable paths outstanding |
| FrameCalls.FramesAreCalls | internal/media/tracker.go:28-62 | replaying those calls one by one gives the cache the frames leave |
| FrameCalls.FramesNeverDecodeMore | internal/media/tracker.go:28-62 | the same frames under a larger budget pin the same paths and never decode more |
| Trackers.Tracker.constructor | internal/media/tracker.go:15-20 | nothing visible, on any cache; the pairing holds from the start if nothing in the cache is pinned |
| Trackers.Tracker.SetVisible | internal/media/tracker.go:28-51 | one Release per departed path, one Decode per new one, none for the others, and the counts say so; balance and byte bound hold afterwards |
| Trackers.Tracker.Clear | internal/media/tracker.go:55-62 | one Release per visible path, nothing visible afterwards |
| Trackers.View.ThumbnailFor | internal/ui/view.go:72-84 | returns the image the path decodes to, resident or not, and none for an empty or unreadable path; leaves the tracker's balance intact |
| Trackers.View.LayoutMessages | internal/ui/view.go:458-503 | a frame shows each row the image its path decodes to, none otherwise, and leaves exactly the drawn non-empty paths visible; with no chat open it leaves all as it was |
| Tables.ApplyKeeps | internal/store/messages.go:85-295 | every store operation keeps rowids increasing and wa_ids unique, keeps every row with its id, wa_id, chat and timestamp, and never moves a last_ts back |
| Tables.InsertedKeeps | internal/store/messages.go:85-157 | after Insert the message is stored and its chat's last_ts is at least its timestamp |
| Columns.InsertedRows | internal/store/messages.go:85-131 | a known wa_id leaves the rows alone; a new one adds exactly the message under the next rowid, status "sent" if it has none |
| Columns.InsertedChats | internal/store/messages.go:133-148 | on any database: other chats unchanged; the chat keeps name, pin, archive and mute, its last_ts is the greater of the old (missing as zero) and the message's, unread grows by a new bumping message; a new chat's columns |
| Columns.InsertEachChats | internal/store/batch.go:46-89 | the same for a batch, chat by chat: last_ts the greatest, no unread change, untouched chats unchanged |
| Columns.InsertEachRows | internal/store/batch.go:46-69 | a batch keeps every row, adds only rows of its own messages as written, and stores every message it may write |
| Columns.AppliedUpdate | internal/store/messages.go:181-282 | each update changes exactly its columns of the one row with that wa_id; a refused one nothing; no chat changes |
| Columns.NamedChat | internal/store/messages.go:162-175 | naming changes the name of one chat only, or creates it without last_ts, read and unpinned |
| Columns.ReadChat | internal/store/messages.go:286-295 | marking read zeroes one counter and nothing else, and creates no chat |
| Columns.RefusedExactly | internal/store/messages.go:85-91 | Insert is refused exactly for a missing wa_id or chat |
| Tables.RedeliveryIsIdempotent | internal/store/messages.go:70-84 | inserting the same message again changes no table and reports it as not new |
| Tables.NamingCommutesWithInsert | internal/store/messages.go:133-175 | naming a chat and inserting into it commute exactly when the chat exists or the timestamp is not negative |
| Deliveries.DeliveryOrderIrrelevant | internal/store/messages.go:85-157 | the same messages in any order with any redeliveries give the same rows up to rowid and the same chats table |
| Deliveries.DeliveredTables | internal/store/messages.go:85-157 | the tables from the delivered set alone: each message once, last_ts the maximum, unread the number of distinct bumping wa_ids |
| Stores.Store.Insert | internal/store/messages.go:85-157 | refuses exactly an empty wa_id or chat and leaves the tables; otherwise performs the specified insert and reports whether the row is new; schema constraints and exact search index are kept |
| Stores.Store.InsertTx | internal/store/messages.go:103-154 | the transaction: message row, then chat row with an unread bump only for a new row |
| Stores.Store.ExecTouchChat | internal/store/messages.go:133-148 | the chat upsert: missing last_ts counts as zero, the maximum wins, unread adds |
| Stores.Store.UpsertChat | internal/store/messages.go:162-175 | sets the name, creating the chat without last_ts; no other chat changes |
| Stores.Store.SetStarred | internal/store/messages.go:181-195 | sets the star of one row; refuses an empty wa_id |
| Stores.Store.ApplyEdit | internal/store/messages.go:226-237 | replaces the body, flags the row and re-indexes it; refuses an empty wa_id |
| Stores.Store.ApplyRevoke | internal/store/messages.go:243-253 | flags the row, keeps the body and its postings; refuses an empty wa_id |
| Stores.Store.UpdateStatus | internal/store/messages.go:269-282 | overwrites the status unconditionally; refuses an empty wa_id or status |
| Stores.Store.MarkRead | internal/store/messages.go:286-295 | zeroes the unread count of one chat; refuses an empty jid |
| Stores.Store.ExecInsert | internal/store/schema.sql:66-69 | the insert statement with its trigger keeps the index exact; a conflict on wa_id affects no row |
| Stores.Store.ExecUpdate | internal/store/schema.sql:74-78 | the update statement with its trigger keeps the index exact; every row without that wa_id is untouched |
| Stores.Store.AfterUpdate | internal/store/schema.sql:74-78 | the update trigger: an index exact for the table with the old row becomes exact for the table with the new one |
| Stores.Store.AfterInsert | internal/store/schema.sql:66-69 | the insert trigger: an index exact for the other rows becomes exact for the whole table |
| SearchIndex.IndexStaysExact | internal/store/schema.sql:66-78 | after any run of store operations on a fresh database the postings equal those rebuilt from all current bodies |
| SearchIndex.SearchIsExact | internal/store/schema.sql:52-78 | a token finds a row if and only if the row's current body contains it |
| SearchIndex.UpdateRowAgrees | internal/store/schema.sql:74-78 | an update keeps the index exact, because the trigger deletes exactly what was indexed |
| Batches.BatchEqualsEach | internal/store/batch.go:46-94 | one transaction with per-chat maxima equals message-by-message inserts in rows, rowids, postings and chats, whatever order the map is walked in |
| Batches.UpsertOrderIrrelevant | internal/store/batch.go:75-89 | the second loop moves each chat of the map forward once, in any order |
| Batches.NewRowsCount | internal/store/batch.go:46-69 | the reported count is by how many rows the table grew |
| Stores.Store.InsertBatch | internal/store/batch.go:20-95 | the two loops leave what inserting one message at a time leaves, skip entries without wa_id or chat, and count the new rows |
| Paging.PageOlderMeaning | internal/store/paging.go:152-217 | from any cursor: strictly descending, at most the limit, only rows of the chat below the cursor, nothing that belongs on the page left out; the next cursor is the last row's, zero only for an empty page |
| Paging.NextPage | internal/store/paging.go:165-217 | from a row of the history the page is the stretch right after it |
| Navigation.PageByKey | internal/store/paging.go:165-217 | a page by columns: descending by ts then id, each row below the cursor's key, nothing greater left out, the next cursor the last row's key; refused exactly for an empty chat or a limit that is not positive |
| Navigation.HistoryByKey | internal/store/paging.go:165-217 | the history of a chat is exactly its rows, by ts then id descending |
| Paging.PagingOnAfterShortPage | internal/store/paging.go:157-160 | paging on after a short page is empty exactly when the short page was not empty or the chat has no messages |
| Paging.EmptyPageRestarts | internal/store/paging.go:157-160 | the exception with one message and limit one |
| Paging.AroundMeaning | internal/store/paging.go:23-86 | strictly descending, the anchor exactly once, only rows of the chat, and gap-free exactly when no newer rows were asked for or no more exist than were asked for |
| Paging.AroundWindow | internal/store/paging.go:35-86 | the window by positions in the history: its newest rows, the anchor, the rows right after it |
| Navigation.WindowByPosition | internal/store/paging.go:35-86 | the same window by slices of the history, and its cursor |
| Navigation.WindowRefused | internal/store/paging.go:35-86 | refused exactly for an empty chat, a negative count or an id that no row of the chat has |
| Paging.AroundContinues | internal/store/paging.go:35-86 | paging on from the window's cursor yields every row older than the window exactly once |
| Paging.PagesFromRow | internal/store/paging.go:165-217 | pages followed from a row of the history, up to the first short one, yield every older row exactly once |
| Stores.Store.PageOlder | internal/store/paging.go:165-217 | refuses an empty chat and a limit that is not positive; otherwise the specified page |
| Stores.Store.PageAround | internal/store/paging.go:35-86 | refuses an empty chat, negative counts and an unknown anchor; otherwise the specified window |
| Walks.WalkIsComplete | internal/store/paging.go:152-217 | a walk to the first short page, with any writes between the fetches: strictly descending, no row twice, every row present at the start returned |
| Walks.QuietWalkIsHistory | internal/store/paging.go:152-217 | without writes a finished walk returns exactly the sorted history |
| Walks.QuietWalkEnds | internal/store/paging.go:152-217 | without writes the walk finishes after one fetch per full page and one more |
| Walks.StoreRunGrows | internal/store/messages.go:85-295 | any store operations between the fetches are writes the walk tolerates |
| Scrolling.LoadOlderRefinesPrefix | internal/ui/state.go:191-261 | opening a chat and loading older pages n times shows exactly the newest 50 (n + 1) messages, or all, and each call reports by how much it grew |
| Scrolling.HistoryExhausted | internal/ui/state.go:231-261 | once everything is loaded, every further call reports zero and changes no message |
| Scrolling.ZeroExactly | internal/ui/state.go:231-261 | a call reports zero exactly when the cursor is back at the start under a non-empty window, whatever the table, or no row is stored below the cursor |
| States.State.LoadChats | internal/ui/state.go:153-187 | the specified list, from any row order: every pinned chat before every other, each group by last_ts descending |
| States.State.SelectChat | internal/ui/state.go:191-207 | opens the newest page; a no-op for the chat already open; an error changes nothing |
| States.State.LoadOlder | internal/ui/state.go:233-261 | appends the next page and moves the cursor; zero without a fetch once the cursor is exhausted |
| States.State.JumpToMessage | internal/ui/state.go:360-374 | opens the chat on the specified window; an error changes nothing |
| Navigation.JumpShowsHit | internal/ui/state.go:357-374 | a jump to any row of the chat succeeds and shows the hit, the up to 25 rows right below it and the up to 25 newest above it; the chat is selected and paging goes on from the last row |
| Navigation.JumpRefused | internal/ui/state.go:360-374 | it fails exactly for an empty chat or an id no row of the chat has |
| Navigation.SelectShowsNewest | internal/ui/state.go:189-207 | selecting shows exactly the 50 newest rows and the cursor of the last; the open chat is left alone; only an empty chat is refused |
| Navigation.OlderAppendsPage | internal/ui/state.go:231-261 | what each branch of LoadOlder shows, counts and leaves alone; only a missing selection is refused |
| Navigation.FoldPutsBubble | internal/ui/state.go:281-304 | a fold of another chat's event leaves the messages; otherwise a bubble with exactly five of the event's fields replaces the first loaded copy or goes on top |
| Navigation.FoldTouchesOneChat | internal/ui/state.go:306-328 | in any list of distinct chats one entry advances and counts, keeping its other columns, or is created with defaults; every other entry stays |
| Navigation.OptimisticSends | internal/ui/state.go:391-427 | the stored row and the folded event of a sent message field by field, and when the shown copy is tagged pending |
| Navigation.ClearsOneCounter | internal/ui/state.go:458-463 | marking read changes one entry's counter and nothing else |
| Navigation.BackCloses | main.go:296-301 | the back arrow resets selection, messages and cursor and keeps the chat list |
| States.State.OnIncoming | internal/ui/state.go:281-304 | the specified fold: chat summary, re-sort, and the message if its chat is open |
| States.State.UpsertChatSummary | internal/ui/state.go:306-328 | advances or appends the one summary concerned |
| States.State.FoldMessage | internal/ui/state.go:285-303 | replaces the loaded copy with the same wa_id, or puts the message in front |
| States.State.AddOptimistic | internal/ui/state.go:391-427 | stores and shows an outgoing message as pending without bumping unread; an error changes nothing |
| States.State.MarkSelectedRead | internal/ui/state.go:451-465 | clears the open chat's counter in the store and on screen |
| States.State.Back | main.go:296-301 | closes the chat and forgets messages and cursor |
| ChatOrder.IncomingSortsChats | internal/ui/state.go:281-283 | from distinct chats every fold keeps them distinct, newest first, and a permutation of the updated list |
| ChatOrder.IncomingMovesOneChat | internal/ui/state.go:281-328 | in a sorted list all other chats keep their relative order; the affected one moves up or stays, with last_ts the maximum, unread counted, name and pin kept |
| ChatOrder.LoadChatsMeaning | internal/ui/state.go:153-187 | exactly the unarchived chats, each once, with name, unread, pin, mute and last_ts (missing as zero) as stored; pinned ones first, each group newest first; the open chat is untouched |
| States.Handler.OnMessage | internal/wa/handler.go:83-122 | persist, then queue behind fewer than 64 events or drop, then notify: exactly the two protocol steps for one event; an event without wa_id or chat is refused, changes nothing and notifies nobody |
| Protocol.PersistsEvent | internal/wa/handler.go:88-107 | the stored row is the event's fields one by one, counted as unread unless it is ours, whatever the interleaving |
| Protocol.SendsOrDrops | internal/wa/handler.go:109-115 | a send queues behind fewer than 64 events and drops otherwise; store and view stay |
| States.DrainIncoming | main.go:418-430 | empties the channel and folds its events one by one, the oldest first |
| Protocol.DrainsInOrder | main.go:418-430 | the loop takes the events in queue order, each once, and changes nothing else |
| Protocol.ViewNeverLeadsStore | internal/wa/handler.go:83-122 | in every interleaving, with drops and redeliveries: every event in flight, queued, drained or dropped and every message on screen is stored, no chat on screen is newer than in the store, the store only grows, the queue stays within its capacity |
| Protocol.NextKeepsLead | internal/wa/handler.go:83-122 | each single step keeps that, and takes nothing out of the store |
| Protocol.BootLeads | internal/wa/handler.go:83-122 | the program starts in such a state on any database |
| Protocol.DrainLoopIsDrains | main.go:418-430 | one run of the drain loop is as many Drain steps as events are queued |
| OpenChat.OpenChatWindow | internal/ui/state.go:191-427 | in every interleaving that folds no stored row from below the cursor: no message twice, only the open chat's messages, each stored at or above the cursor |
| OpenChat.FoldKeepsWindowExactly | internal/ui/state.go:285-302 | one fold keeps that window exactly when the message is loaded already or its stored row is not below the cursor |
| OpenChat.OlderKeepsWindow | internal/ui/state.go:233-261 | appending an older page without deduplication repeats nothing in such a window |
| OpenChat.LateArrivalShowsTwice | internal/ui/state.go:257-302 | for any two messages of a chat delivered newest first around opening it, the older one ends up on screen twice |
| Doubles.ShowsTwiceExactly | internal/ui/state.go:233-261 | for any view: some number of LoadOlder calls, possibly none, shows a message twice if and only if one is on screen twice already or one is on screen whose row in the open chat is stored below the cursor |
| Doubles.FoldDoublesExactly | internal/ui/state.go:285-302 | from a view that shows nothing twice, a fold leads to a double exactly when the message is not loaded and its row in the chat is stored below the cursor |
| Doubles.RunDoublesExactly | internal/ui/state.go:191-427 | over every interleaving: no state shows a message twice, at once or after paging up, if and only if no step brings such a message on screen |
| Completeness.WindowIsComplete | internal/ui/state.go:191-427 | in every interleaving without jumps and inserts past the handler, each stored message of the open chat from the cursor upwards is on screen or its event is in flight, queued or dropped |
| Completeness.QuietViewIsStore | internal/ui/state.go:191-427 | with nothing under way or dropped, the messages on screen are exactly those stored in the chat from the cursor upwards |
| Completeness.ZeroMeansExhausted | internal/ui/state.go:231-261 | in such runs a LoadOlder that reports zero leaves no stored message of the chat that is not on screen, under way or dropped |
| OpenChat.FoldKeepsOrderExactly | internal/ui/state.go:271-302 | a fold keeps newest-first exactly when a new message is not older than the top one, and a loaded one fits between its neighbours at its new timestamp |
| OpenChat.FoldBreaksOrder | internal/ui/state.go:271-302 | both fail: a late event, and a confirmation with a later server timestamp |
| OpenChat.RedeliveryStripsCopy | internal/ui/state.go:285-301 | a redelivery replaces exactly the one loaded copy, by one that no stored row equals, without media, status or edit and revoke marks |
| OpenChat.EventsConserved | internal/wa/handler.go:109-115 | every accepted event is exactly once in flight, queued, drained or dropped |
| Drops.NothingRereads | main.go:36-40 | without navigation or sending, what is shown is what was shown plus what was drained: a dropped event stays invisible |
| Drops.BurstOverflows | internal/wa/handler.go:109-115 | of any burst into an empty channel the first 64 events are queued and every later one is dropped |
| Drops.StaysInvisible | main.go:36-40 | a message stored at or above the cursor and not on screen stays off it through any paging up, re-selecting and other traffic, unless it is drained again |
| Drops.DroppedFromBoot | internal/wa/handler.go:54-57 | the program reaches this from an empty database: 65 arrivals while a chat is open drop a stored message, and it stays invisible |
| Drops.LateHistoryStaysHidden | internal/ui/state.go:231-261 | once the cursor is back at the start under a non-empty window, history stored later is never shown while the chat stays open |
| Unread.UnreadLedger | internal/wa/handler.go:83-122 | from any load of the chat list on: on screen + under way + dropped since = stored + redelivered since + what was under way at the load (counted twice), less the unread count of a chat archived at the load |
| Unread.FoldCounts | internal/ui/state.go:306-328 | a fold counts an incoming event once for its chat and for no other, redelivered or not |
| Unread.MarkReadClears | internal/ui/state.go:451-465 | both counters of the open chat are zero, every other chat's are unchanged |
| TypingSpec.ActiveTypersExact | internal/ui/state.go:98-143 | with a clock that does not run back, the active typers are exactly the senders whose latest event was composing less than ten seconds ago, each once, in that order |
| TypingSpec.StoredList | internal/ui/state.go:98-127 | the stored list follows the latest events in order and misses nobody who is typing |
| TypingTables.TypingTable.SetTyping | internal/ui/state.go:98-127 | the chat's list becomes what the event leaves of it, others keep theirs, no empty list stays, arrays stay unshared |
| TypingTables.TypingTable.FilterInPlace | internal/ui/state.go:102-114 | the filter into `entries[:0]` never overwrites an unread entry: the prefix it leaves is the filter of the original |
| TypingTables.TypingTable.Rewrite | internal/ui/state.go:105-121 | filter and append in the same array leave the specified list |
| TypingTables.TypingTable.ActiveTypers | internal/ui/state.go:131-143 | the live entries, in order, without changing the table |
| Grouping.LabelsSpellChains | internal/ui/grouping.go:37-75 | read oldest first the labels parse as (Solo, or Head Middle* Tail)*, and the runs are exactly the maximal chains of same-group neighbours |
| Grouping.GroupsWithinWindow | internal/ui/grouping.go:37-52 | two messages group exactly if the sender is the same and the gap in milliseconds fits into the window in nanoseconds, boundary included |
| Grouping.OnlyTheSeamChanges | internal/ui/grouping.go:37-75 | joining newer and older messages relabels at most the two at the seam |
| Grouping.GroupMessages | internal/ui/grouping.go:37-75 | the loop fills a fresh slice with those labels |
| Reactions.TableIsLastCalls | internal/store/reactions.go:23-47 | after any calls the table holds exactly each sender's last call per message, unless it was a removal |
| Reactions.TallyCountsReactors | internal/ui/bubble.go:417-443 | the tally counts add up to the number of senders whose last call had an emoji |
| Reactions.CountIsReactors | internal/ui/bubble.go:417-443 | each count is the number of senders whose last call was that emoji |
| Reactions.SummariesAgree | internal/ui/bubble.go:417-443 | any two listings summed up in any map order give the same list |
| Reactions.SummaryOrder | internal/ui/bubble.go:434-441 | the order of any summary in those terms: count descending, then emoji ascending |
| Reactions.LessMeaning | internal/ui/bubble.go:434-441 | the string order used is the lexicographic one, by first difference or proper prefix |
| Reactions.SummaryUnique | internal/ui/bubble.go:417-443 | two ranked lists with the same entries are equal, so the list does not depend on map order or sorting algorithm |
| ReactionTables.ReactionTable.SetReaction | internal/store/reactions.go:23-47 | upserts or, for an empty emoji, removes one key; refuses an empty target or sender |
| ReactionTables.ReactionTable.ListReactions | internal/store/reactions.go:50-73 | exactly the message's reactions, each once, oldest first |
| ReactionTables.SummarizeReactions | internal/ui/bubble.go:417-443 | every occurring non-empty emoji once with its count; a larger count comes first, and of equal counts the emoji that is a proper prefix or smaller at the first difference |

## Left out

- SQLite: transactions are atomic and never fail, so errors from the database, rollback, migrations, PRAGMAs and the index backfill are not modelled. SELECT is filter, order and limit; rows without ORDER BY come in any order.
- Search: the tokenizer is an arbitrary function of the body; ranking, snippets, `State.Search` and `ListStarred` are left out.
- Integer widths: rowids, timestamps, sizes and counters are unbounded; rowids are one more than the largest, as no code deletes messages, and so the delete trigger (internal/store/schema.sql:70-73) never fires.
- NULL text columns: an empty string and NULL read back the same and are one value here; only `last_ts` is nullable.
- Concurrency inside the cache: each Cache method is atomic, as its mutex makes it. The image returned is a value; the shared `*entry` pointers are values in the map.
- Decoders: a decode has a size of at least zero. Facts about frames and budgets take a decoder determined by the path; `ReachableCache` takes any.
- Trackers.Tracker.SetVisible: the pairing is stated for a cache whose only other users are balanced draws, as the program wires it. A nil cache or decoder, which panics, is left out.
- States.Handler.OnMessage: a nil store, channel or notifier is not modelled; the program wires all three.
- Callbacks from other goroutines (typing, connection state) are serialised with the frame loop.
- States.DrainIncoming: the notification callback is left out, and the channel is not refilled while the loop runs; the protocol's interleavings cover that.
- Reactions shown in the open chat: `reloadReactions` and `ReactionsForChat` only refresh a map beside the messages.
- Strings: the order of emoji is on characters; Go compares UTF-8 bytes, which gives the same order on code points.
- Sorting: library sorts are a stable insertion sort; the lemmas about the results hold for any correct sort, except that ties keep their order as a stable sort keeps them.
- States.State.LoadChats: the pinned-first order it makes is lost by the next `OnIncoming`, which sorts by last_ts alone; only the newest-first order is claimed after that.
- Stores.Store.UpdateStatus: status transitions are not monotone in the code, and no order is claimed.
- TypingTables.TypingTable.Append: Go's growth policy is unspecified; the new array is larger by any amount.
- Pin, mute, archive and settings setters, names, receipts, protobuf extraction, network, thumbnails on disk, desktop notifications, and all layout and painting.
