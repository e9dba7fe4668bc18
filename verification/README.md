# ModularNetServer, modelled and proved in Dafny

ModularNetServer is a C++11 epoll server with its own timers, thread pool, MySQL
connection pool, LRU and Redis cache, HTTP and WebSocket codecs, rate limiter, tokens and
hot-reloaded configuration. This project models the parts of it that are state machines
and codecs, and proves what they promise over every input, every run and every
interleaving. `dafny verify dfyconfig.toml` checks all of it.

## How it is organised

Each component has a module of values: the state as a datatype, each operation as a
function on it, an independent description of what the operation means over a whole
history, and the theorems that connect the two. Beside it stands a module with the class
of the original, whose methods change fields in place, loop where the original loops, and
are proved to do what the function on values says.

| files | component |
|---|---|
| `TimerHeap.dfy`, `Timer.dfy`, `TimerManager.dfy` | timer manager: a heap with lazy deletion against a per-id history |
| `NetTimeouts.dfy` | idle-connection timeouts of `NetServer` over reused descriptors |
| `Token.dfy` | token text and lifetime |
| `ThreadPool.dfy`, `SqlPool.dfy` | the two mutex and condition-variable protocols as interleaved steps |
| `Transactions.dfy`, `PooledTransactions.dfy` | `insertUser` with its destructors on every exit; its calls interleaved on the pool |
| `Lru.dfy`, `LruCache.dfy`, `Cache.dfy` | LRU list and index; the three cache modes |
| `Bytes.dfy`, `WebSocket.dfy` | frame codec of RFC 6455, streaming included |
| `HttpText.dfy`, `Http.dfy`, `HttpConn.dfy` | request parser over the fixed 4096-byte buffer |
| `HttpResponse.dfy` | response serializer and a reader for it |
| `RateLimit.dfy` | fixed-window rate limiter |
| `Config.dfy` | hot-reloaded configuration |
| `Strings.dfy`, `Decimal.dfy` | library searches and decimal numbers |

## Where the code does not keep the plain promise

For each of these the model keeps the code as it is and proves the exact condition under
which the promise holds, so that it also says where it fails.

- `tick` ends exactly when no id's latest timer is due and repeats with an interval of zero
  or less (`Timer.NextTickEndsIff`); with such a timer it loops for ever
  (`Timer.ZeroIntervalNeverEnds`).
- `SqlConnPool::init` signals nobody, so a getter can sleep on beside a free connection
  (`SqlPool.SleeperBeforeInitIsStranded`). An `init` loses no wakeup, however the getters
  already inside are scheduled, exactly if no more `getConn` calls were made before it than
  connections supplied by `init` and destructors (`SqlPool.InitIsSafeIff`,
  `SqlPool.NoLostWakeup`).
- The LRU layer in front of Redis is invisible exactly when there is no LRU capacity, or
  the keys stay distinct when cut at a NUL and the values have no NUL, because Redis
  arguments go through `c_str()` (`Cache.TransparentIff`).
- A pooled connection carries no open transaction exactly when every rollback that was
  needed worked, over sequences of calls (`Transactions.AlwaysCleanIff`) and over all
  interleavings of them (`PooledTransactions.AlwaysCleanOutsideIff`); otherwise an abandoned
  row is committed later by another call (`Transactions.FailedRollbackLeaksRow`).
- `strstr` on the HTTP buffer reads past the received bytes, so a cut inside the headers can
  lose bytes (`Http.HeaderCutLosesInput`). A turn of the parser, a whole parse and a whole
  run of deliveries do what the received bytes call for exactly when each line that is found
  lies within them (`Http.FaithfulIff`, `Http.ParseIsIdealIff`, `Http.CutsMatterIff`).
- The repository's README calls the rate limiter a sliding window in one place and a
  fixed window in another; the code has fixed windows. A window's width admits up to
  `2 * max(1, maxCount) - 1` requests, and that is reached for every rule
  (`RateLimit.RateBound`, `RateLimit.BoundIsReached`), so it keeps to `maxCount` in every run
  exactly when that is one (`RateLimit.SlidingIff`).
- A response is delimited by the `Content-Length` that the code prints, whatever the code,
  the request and the application's own header fields are. A reader after section 3.3.3 of
  RFC 7230 gets it back exactly when the status code has three digits and either no body is
  allowed and none is sent, or the body size fits a 32-bit `int` and no header field
  announces another length or a transfer coding (`HttpResponses.ResponseIsSelfDelimiting`,
  `HttpResponses.SecondLengthIsRefused`, `HttpResponses.BodylessCodeIsRefused`).
- Nothing that goes into a response is escaped. Header fields and cookies are read back as
  they were set exactly if they are plain (`HttpResponses.HeadIsReadIff`,
  `HttpResponses.CookieIff`), and a page shows its title and message exactly if they have no
  markup (`HttpResponses.PageIsReadIff`).
- A `Content-Length` that is no number, or below zero, ends the request parser with an
  exception that nothing catches (`Http.UnreadableLengthCrashes`,
  `Http.NegativeLengthCrashes`).
- The log calls an unmasked WebSocket frame an illegal connection, but the frame stays at the
  front of the buffer and blocks everything after it (`WebSocket.UnmaskedBlocks`). A frame
  whose announced size wraps in 64 bits ends the parser with an exception
  (`WebSocket.WrappedLengthThrows`).
- Shutdown of the thread pool can drop queued tasks (`ThreadPool.ShutdownCanDropTasks`). It
  drops exactly the last ones in excess of the workers that are about to take the lock or
  waiting when `m_stop` is set, so none exactly if the queue is no longer than their number
  (`ThreadPool.ShutdownDropsExactly`).
- The README promises that a timer cleans up tokens, but no code ticks the token manager's
  timers. A token is off file exactly if it was removed after its latest issue, whatever the
  clock says (`Token.FiledUntilRemoved`); expiry is decided on lookup only
  (`Token.UsernameIsLife`, `Token.ExpiredIsLife`). Asking about a token that is not on file
  leaves an entry that nothing but issuing that token takes away (`Token.StraysAreQuestions`).

## Model

| member | source | states |
|---|---|---|
| TimerHeap.PushSpec | src/timer/timer_manager.h:27-38 | a push keeps heap order and contents, and replaces the top exactly when the new node is strictly earlier |
| TimerHeap.PopSpec | src/timer/timer_manager.h:27-38 | a pop removes exactly the top and keeps heap order |
| TimerHeap.TopIsEarliest | src/timer/timer_manager.h:27-38 | the top of a heap has the least deadline |
| TimerHeap.PushThenPop | src/timer/timer_manager.cpp:48-64 | a push and then a pop drop the old top, or the pushed node if that is strictly earlier |
| Timer.AddTimerInv | src/timer/timer_manager.cpp:6-25 | adding a timer keeps heap order, distinct allocations, and every mapped node in the heap |
| Timer.StepProgress | src/timer/timer_manager.cpp:31-70 | one loop turn of tick keeps the loop invariant and removes exactly the top from the due nodes |
| Timer.StepShrinks | src/timer/timer_manager.cpp:31-70 | each turn makes the set of due heap nodes smaller by one, so the loop ends |
| Timer.TickMeetsSpec | src/timer/timer_manager.cpp:27-71 | a tick fires exactly the due live nodes, once per id, in deadline order; erases one-shot and re-arms repeating ones; leaves nothing due in the heap |
| Timer.TickEndsIff | src/timer/timer_manager.cpp:27-71 | if no node's deadline is more than its own interval away, the loop ends exactly if no due live timer repeats with interval zero or less; otherwise it is busy after every number of turns |
| Timer.NextTickEndsIff | src/timer/timer_manager.cpp:27-71 | in every run with a clock that does not go back, the next tick ends exactly if no id's latest timer is due and repeats with interval zero or less |
| Timer.ZeroIntervalNeverEnds | src/timer/timer_manager.cpp:43-64 | one repeating timer with interval zero keeps the loop busy for ever |
| Timer.PositiveRepeatsEnd | src/timer/timer_manager.cpp:43-64 | every tick of a run whose repeating timers have positive intervals ends |
| Timer.RunRefines | src/timer/timer_manager.cpp:6-71 | over every run the heap and map agree, id by id, with that id's own history of additions and ticks |
| Timer.TickFiresLatest | src/timer/timer_manager.cpp:27-71 | in every run a tick fires an id exactly if its latest timer is due, with that timer's callback; superseded nodes never fire |
| Timer.IsExpiredIsLatest | src/timer/timer_manager.cpp:73-77 | isExpired is true for an unknown id and otherwise decides by the latest deadline |
| TimerManagement.TimerManager.AddTimer | src/timer/timer_manager.cpp:6-25 | the map entry is overwritten and the node pushed, the older node staying in the heap |
| TimerManagement.TimerManager.PopDue | src/timer/timer_manager.cpp:43-65 | the loop body: a live top fires and is erased or re-armed, a superseded one is only popped |
| TimerManagement.TimerManager.Rearm | src/timer/timer_manager.cpp:48-64 | the re-armed node is mapped and pushed before the pop |
| TimerManagement.TimerManager.Tick | src/timer/timer_manager.cpp:27-71 | the in-place loop ends and meets the tick specification |
| TimerManagement.TimerManager.IsExpired | src/timer/timer_manager.cpp:73-77 | answers as the specification does |
| NetTimeouts.RunInv | src/net/net_server.cpp:235-452 | in every interleaving each open connection but the one being accepted has a timer due one timeout after its latest refresh |
| NetTimeouts.CloseAllIs | src/net/net_server.cpp:428-452 | running the fired callbacks closes exactly the open connections among the fired ids |
| NetTimeouts.TimeoutExact | src/net/net_server.cpp:418-452 | a tick closes an fd exactly if it is open and at least 1000000 ms passed since the latest refresh on that fd |
| NetTimeouts.NoEarlyTimeout | src/net/net_server.cpp:235-452 | a timer left by a closed connection never closes a later one on the same fd before its own timeout |
| NetTimeouts.OpenIsWatched | src/net/net_server.cpp:235-278 | an open connection always has a refresh on record |
| NetTimeouts.TableFromHistory | src/net/net_server.cpp:235-452 | in every interleaving the table entry of an fd is missing, open or self-closed as its own accepts, closes and refreshes and the ticks make it |
| NetServers.NetServer.RefreshTimer | src/net/net_server.cpp:418-426 | adds a one-shot timer for the fd with the fixed delay |
| NetServers.NetServer.HandleNewConnection | src/net/net_server.cpp:253-277 | inserts the connection, then refreshes its timer |
| NetServers.NetServer.CloseConnection | src/net/net_server.cpp:428-452 | removes an open entry, leaves a missing or closed one alone |
| NetServers.NetServer.RunCallbacks | src/net/net_server.cpp:422-425 | the callbacks of a tick close their descriptors in firing order |
| NetServers.NetServer.TickTimers | src/net/net_server.cpp:161-162 | the tick call of the event loop does one tick step of the model |
| Token.SplitsAtFirstDot | src/token/token_manager.cpp:28-34 | every issued token splits at its first dot into its own payload and signature |
| Token.TokensTellUsersApart | src/token/token_manager.cpp:23-34 | equal tokens have the same username, thread and time stamp |
| Token.ValidIsKnown | src/token/token_manager.cpp:49-63 | in a reachable state a token is valid exactly if it is on file |
| Token.UsernameIsLife | src/token/token_manager.cpp:89-111 | in every run getUsername answers the creating username exactly while the token is unremoved and before the deadline of its latest creation or timely refresh |
| Token.TimerIdsAreNeverShared | src/token/token_manager.cpp:38-44 | no two tokens on file share a timer id |
| Token.FiledUntilRemoved | src/token/token_manager.cpp:49-87 | in every run a token is valid exactly if its latest issue came after its latest removal, whatever the clock says |
| Token.ExpiredIsLife | src/token/token_manager.cpp:65-68 | in every run isTokenExpired answers no exactly while the token is unremoved and before its deadline; any other token is expired |
| Token.StraysAreQuestions | src/token/token_manager.cpp:65-68 | in every run the timer ids beyond those of the tokens on file are exactly those of tokens asked about while not on file and not issued since |
| Token.ExpiredCannotBeRevived | src/token/token_manager.cpp:97-111 | after its deadline no refresh, removal or query makes a token name anybody again |
| TokenManagement.TokenManager.CreateToken | src/token/token_manager.cpp:17-47 | files the issued token under a fresh timer id with its timer |
| TokenManagement.TokenManager.IsTokenValid | src/token/token_manager.cpp:49-63 | format, signature and presence are checked as specified |
| TokenManagement.TokenManager.IsTokenExpired | src/token/token_manager.cpp:65-68 | answers by the token's timer, filing id 0 for an unknown token |
| TokenManagement.TokenManager.RemoveToken | src/token/token_manager.cpp:70-87 | removes a valid token from both maps and does nothing otherwise |
| TokenManagement.TokenManager.GetUsername | src/token/token_manager.cpp:89-95 | answers as specified |
| TokenManagement.TokenManager.RefreshToken | src/token/token_manager.cpp:97-111 | restarts the timer of a valid, unexpired token |
| ThreadPool.Reachable | src/threadpool/thread_pool.cpp:17-69 | in every interleaving each worker is in one place and the queue, wakeup and shutdown invariants hold |
| ThreadPool.NoLostWakeup | src/threadpool/thread_pool.cpp:17-69 | before stop, while a worker sleeps, queued tasks are at most signals on their way plus awake workers without a task |
| ThreadPool.QuietMeansServed | src/threadpool/thread_pool.cpp:42-69 | with all signals delivered and every worker asleep or busy, a task waits only if all are busy |
| ThreadPool.LockActs | src/threadpool/thread_pool.cpp:50-63 | in every interleaving a worker that takes the lock sleeps exactly if there is no task and no stop, leaves exactly if there is no task after a stop, and otherwise holds the oldest task |
| ThreadPool.SleepsUntilWoken | src/threadpool/thread_pool.cpp:53-55 | a sleeping worker sleeps on exactly until a signal, a spurious wakeup or notify_all reaches it |
| ThreadPool.SubmittedIsDequeuedThenQueued | src/threadpool/thread_pool.cpp:17-69 | submitted equals dequeued then queued; every dequeued task is finished or held by exactly one worker |
| ThreadPool.HistoryIsSubmissions | src/threadpool/thread_pool.cpp:17-25 | the submitted sequence is that of the addTask calls |
| ThreadPool.AtMostOneMoreEach | src/threadpool/thread_pool.cpp:46-62 | after stop each worker dequeues at most one further task |
| ThreadPool.ShutdownEnds | src/threadpool/thread_pool.cpp:27-69 | after notify_all nobody sleeps, each worker takes at most three steps, and when none can move all have exited |
| ThreadPool.ShutdownDropsExactly | src/threadpool/thread_pool.cpp:27-69 | when all workers have exited, the tasks left are exactly the last ones in excess of the workers that were entering, woken or asleep at the stop; none exactly if there were no more tasks than those workers |
| ThreadPool.ShutdownCanDropTasks | src/threadpool/thread_pool.cpp:46-46 | a concrete run that ends with all workers gone and a task queued |
| SqlPool.PoolConserves | src/db/sql_connection_pool.cpp:28-68 | in every interleaving each connection is queued once or held by one owner, first in first out, and the free count is the queue length |
| SqlPool.RoomyIsCounting | src/db/sql_connection_pool.cpp:28-68 | in every interleaving there is a queued connection for each getter inside exactly if no more calls were made than connections supplied |
| SqlPool.InitIsSafeIff | src/db/sql_connection_pool.cpp:28-68 | init is safe at any later moment before the next call exactly if no more calls were made than connections supplied; otherwise some schedule of the getters inside strands one |
| SqlPool.NoLostWakeup | src/db/sql_connection_pool.cpp:28-68 | if each init comes while calls are no more than connections supplied, then throughout the run, while a getter sleeps the queue is at most the awake getters |
| SqlPool.InitFirst | src/db/sql_connection_pool.cpp:28-54 | every run whose inits all precede its first getConn call meets that condition |
| SqlPool.SleeperBeforeInitIsStranded | src/db/sql_connection_pool.cpp:42-54 | a concrete run where a getter sleeps beside a free connection |
| Transactions.ConnectionReturnsClean | src/mvc/dao/test_tx_dao.cpp:10-32 | on every exit the connection re-enters the pool at the back, clean exactly if nothing had to be rolled back or the rollback worked |
| Transactions.OutcomeTellsDurability | src/mvc/dao/test_tx_dao.cpp:18-31 | true exactly if the commit is reached and reported; then the row is durable; false means the table is as before; an exception leaves the row only if the commit was applied |
| Transactions.OutcomesAreTold | src/mvc/dao/test_tx_dao.cpp:10-32 | in every sequence of calls each call throws exactly if START TRANSACTION, the statement handle or a reached commit fails, answers false exactly if it gets past those and prepare or execute fails or the username is rollback, and true otherwise |
| Transactions.CallsKeepPoolClean | src/db/sql_transaction.cpp:8-51 | over any sequence of calls the pool stays clean and the table grows by exactly the committed rows in order |
| Transactions.AlwaysCleanIff | src/db/sql_transaction.cpp:37-51 | pooled connections are always clean exactly if every needed rollback works |
| PooledTransactions.PoolStaysClean | src/mvc/dao/test_tx_dao.cpp:10-32 | in every interleaving of calls on the pool, if needed rollbacks work, queued connections are clean, an open transaction holds only its own call's row, and the table is the applied commits in their order |
| PooledTransactions.AlwaysCleanOutsideIff | src/db/sql_transaction.cpp:37-51 | in every interleaving no connection is ever handed on with an open transaction exactly if every needed rollback works |
| PooledTransactions.DeclinedIsNeverPublished | src/mvc/dao/test_tx_dao.cpp:24-28 | in every interleaving no call commits a row whose username is rollback |
| PooledTransactions.AloneIsInsertUser | src/mvc/dao/test_tx_dao.cpp:10-32 | after any run, a call whose steps nothing interrupts does to the table and the free connections what insertUser does, for every row and every answer of the database |
| Transactions.FailedRollbackLeaksRow | src/db/sql_transaction.cpp:37-51 | a row whose call answered false becomes durable through the next user of the connection |
| TransactionObjects.SqlTransaction.Commit | src/db/sql_transaction.cpp:26-35 | commits and sets the flag, or fails leaving the flag clear |
| TransactionObjects.SqlTransaction.Rollback | src/db/sql_transaction.cpp:37-51 | rolls back exactly if not committed |
| TransactionObjects.TextTxDao.InsertUser | src/mvc/dao/test_tx_dao.cpp:10-32 | the sequence of effects with its early returns and unwinding is the specified one |
| Lru.RunDistinct | src/cache/lru_cache.h:38-103 | over every trace keys are distinct and the capacity is kept |
| Lru.Inclusion | src/cache/lru_cache.h:38-103 | for capacities c at most d the smaller list is always a subsequence of the larger, which has at most d - c extra entries |
| Lru.LargerKeepsHits | src/cache/lru_cache.h:63-77 | growing the capacity never turns a hit into a miss, and the values agree |
| Lru.ListIsByRecency | src/cache/lru_cache.h:38-77 | the list is always in order of last put or successful get |
| Lru.EvictsLeastRecent | src/cache/lru_cache.h:50-56 | an eviction happens only when full and removes exactly the key whose last touch is oldest |
| Lru.HitsAreUpToDate | src/cache/lru_cache.h:38-103 | whatever is cached is the latest value put and not erased or cleared since |
| Lru.KeptWithinCapacity | src/cache/lru_cache.h:37-77 | a value that was put is found until its key is written, erased or cleared, or as many other keys as the capacity were put or read |
| Lru.GoneBeyondCapacity | src/cache/lru_cache.h:50-59 | after as many distinct puts as the capacity no older key is found |
| LruCaches.ConsistentDistinct | src/cache/lru_cache.h:24-27 | list and index describe the same keys, each once |
| LruCaches.LRUCache.MoveToFront | src/cache/lru_cache.h:71-72 | splicing a node to the head moves its entry and keeps the index right |
| LruCaches.LRUCache.Put | src/cache/lru_cache.h:37-60 | update, insertion and eviction in place do what the list operation says |
| LruCaches.LRUCache.PutExisting | src/cache/lru_cache.h:43-48 | overwrites the value and moves the node to the head |
| LruCaches.LRUCache.PopBack | src/cache/lru_cache.h:51-56 | drops the tail from list and index |
| LruCaches.LRUCache.PushFront | src/cache/lru_cache.h:58-59 | links a new head and indexes it |
| LruCaches.LRUCache.Get | src/cache/lru_cache.h:62-77 | a hit returns the value and moves the entry, a miss changes nothing |
| LruCaches.LRUCache.Contains | src/cache/lru_cache.h:79-83 | tells whether the key is listed, changing nothing |
| LruCaches.LRUCache.Erase | src/cache/lru_cache.h:85-96 | removes the key from list and index |
| LruCaches.LRUCache.EraseNode | src/cache/lru_cache.h:92-95 | unlinks the node and its key |
| LruCaches.LRUCache.Clear | src/cache/lru_cache.h:98-103 | empties list and index |
| LruCaches.LRUCache.Size | src/cache/lru_cache.h:105-109 | the number of entries, at most the capacity |
| Cache.TransparentIff | src/cache/cache_adapter.cpp:38-110 | LRU_REDIS answers every run as REDIS_ONLY does, clear included, exactly for tame keys and values |
| Cache.TameIsTransparent | src/cache/cache_adapter.cpp:38-110 | the positive half: every LRU entry is always what Redis would answer |
| Cache.NulValueShows | src/cache/redis_client.cpp:32-51 | a value with a NUL is answered whole by the LRU and cut by Redis |
| Cache.ClashingKeysShow | src/cache/redis_client.cpp:84-106 | erasing one of two keys that Redis cannot tell apart leaves the other in the LRU |
| Cache.OfflineIsLruOnly | src/cache/cache_adapter.cpp:46-60 | when Redis never connects LRU_REDIS answers exactly as LRU_ONLY |
| Cache.RedisOnlyIsHistory | src/cache/cache_adapter.cpp:38-110 | in every run on a connected server REDIS_ONLY answers get, its output on a miss included, and contains exactly from the latest set or erase of the key up to its first NUL, or from what the server held at the start |
| Cache.MixedIsHistory | src/cache/cache_adapter.cpp:38-110 | LRU_REDIS does so too for tame keys and values |
| Cache.OfflineRedisFindsNothing | src/cache/cache_adapter.cpp:50-60 | without a connection REDIS_ONLY finds nothing and leaves the output alone |
| Cache.LruOnlyIsList | src/cache/cache_adapter.cpp:38-110 | in every run LRU_ONLY finds a key exactly if the list of the same operations has it, answers the latest value put, and leaves the output alone otherwise |
| CacheAdapters.RedisClient.Set | src/cache/redis_client.cpp:32-51 | stores key and value up to their first NUL when connected |
| CacheAdapters.RedisClient.Get | src/cache/redis_client.cpp:53-82 | answers the stored value, clears the output on a missing key, leaves it when offline |
| CacheAdapters.RedisClient.Del | src/cache/redis_client.cpp:84-106 | removes the key when connected |
| CacheAdapters.CacheAdapter.Get | src/cache/cache_adapter.cpp:38-61 | LRU first, then Redis with backfill |
| CacheAdapters.CacheAdapter.Set | src/cache/cache_adapter.cpp:63-76 | writes the stores of its mode |
| CacheAdapters.CacheAdapter.Erase | src/cache/cache_adapter.cpp:77-86 | erases from the stores of its mode |
| CacheAdapters.CacheAdapter.Contains | src/cache/cache_adapter.cpp:87-102 | asks the stores of its mode; what that means over a run is stated by `Cache.RedisOnlyIsHistory` and `Cache.LruOnlyIsList` |
| CacheAdapters.CacheAdapter.Clear | src/cache/cache_adapter.cpp:104-110 | clears the LRU and leaves Redis |
| Bytes.XorTwice | src/conn/websocket/websocket_conn.cpp:350-352 | masking a byte twice gives it back |
| Bytes.XorIff | src/conn/websocket/websocket_conn.cpp:350-352 | exactly one byte has bit i set, for each i below 8, where the bits i of the two bytes differ, and Xor computes it |
| Bytes.FirstIsHighest | src/conn/websocket/websocket_conn.cpp:319-327 | the first octet of a length is the most significant one |
| Bytes.BigEndianOfValue | src/conn/websocket/websocket_conn.cpp:324-328 | writing the number that some octets write gives them back, and it fits their number |
| Bytes.ValueOfBigEndian | src/conn/websocket/websocket_conn.cpp:325-327 | reading a big-endian number inverts writing it |
| WebSocket.HeaderOfLength | src/conn/websocket/websocket_conn.cpp:313-329 | the header reader inverts each of the three length forms |
| WebSocket.MaskIff | src/conn/websocket/websocket_conn.cpp:348-352 | exactly one text has each octet i equal, bit by bit, to the exclusive-or with octet i mod 4 of the key, and Mask computes it |
| WebSocket.EncodeIff | src/conn/websocket/websocket_conn.cpp:293-361 | a frame has exactly one form on the wire: first octet, length octets, key and the payload masked bit by bit |
| WebSocket.ParseInvertsEncode | src/conn/websocket/websocket_conn.cpp:293-361 | a masked frame followed by anything parses to its payload and leaves the rest |
| WebSocket.ParsesExactlyFrames | src/conn/websocket/websocket_conn.cpp:293-361 | for every buffer the parser delivers a message and leaves a rest exactly if the buffer is a masked frame of that payload followed by that rest |
| WebSocket.WrappedLengthThrows | src/conn/websocket/websocket_conn.cpp:336-349 | for every buffer with a complete header the exception comes exactly if the frame is masked and its announced size wraps in 64 bits to no more than the buffer |
| WebSocket.PrefixWaits | src/conn/websocket/websocket_conn.cpp:299-338 | every strict prefix of a frame gives no message and leaves the buffer |
| WebSocket.FrameIsStable | src/conn/websocket/websocket_conn.cpp:309-360 | bytes after a complete frame do not change it |
| WebSocket.ChunksDoNotMatter | src/conn/websocket/websocket_conn.cpp:157-163 | for any cut into reads and any schedule of parser calls, messages so far and those in the buffer are those of the whole input |
| WebSocket.StreamingParse | src/conn/websocket/websocket_conn.cpp:293-361 | while the bytes read are any beginning of a list of masked frames, the messages delivered and those in the buffer are the payloads of exactly the complete frames, and what is left is the unfinished one; all are delivered once the parser finds no frame |
| WebSocket.UnmaskedIff | src/conn/websocket/websocket_conn.cpp:331-334 | the mask bit of a complete header decides, whatever follows it |
| WebSocket.UnmaskedBlocks | src/conn/websocket/websocket_conn.cpp:331-334 | after an unmasked frame nothing is ever delivered, whatever is read and however often the parser is called; the masked frames before it are delivered |
| WebSocket.ReadInvertsText | src/conn/websocket/websocket_conn.cpp:267-291 | a sent text frame is read back by a reader that insists on the shortest length form |
| WebSocket.SentTextIsSelfDelimiting | src/conn/websocket/websocket_conn.cpp:267-291 | any list of sent messages is read back exactly, with nothing left over |
| WebSocketConns.WebSocketConn.ReadLength | src/conn/websocket/websocket_conn.cpp:324-328 | the loop computes the big-endian value |
| WebSocketConns.WebSocketConn.Decode | src/conn/websocket/websocket_conn.cpp:348-352 | each octet is, bit by bit, the exclusive-or with octet i mod 4 of the key |
| WebSocketConns.WebSocketConn.ParseWebSocketFrame | src/conn/websocket/websocket_conn.cpp:293-361 | returns the message and consumes exactly the frame, or leaves the buffer alone |
| WebSocketConns.WebSocketConn.SendTextFrame | src/conn/websocket/websocket_conn.cpp:267-291 | appends exactly the encoded frame to the write buffer |
| WebSocketConns.WebSocketConn.LongLength | src/conn/websocket/websocket_conn.cpp:281-283 | the loop writes eight octets, most significant first |
| HttpText.RequestLineIs | src/conn/http/http_request.cpp:78-101 | three words separated by spaces are read back as method, url and version |
| HttpText.RequestLineIff | src/conn/http/http_request.cpp:78-101 | every line is accepted with its first three words, whatever stands between and after them, and refused exactly if it has fewer |
| HttpText.HeaderLineIs | src/conn/http/http_request.cpp:103-132 | a printed field line is read back as its name and value |
| HttpText.HeaderLineIff | src/conn/http/http_request.cpp:103-120 | for every line: only an empty one ends the headers, and any other without a colon changes nothing |
| HttpText.FieldLineIs | src/conn/http/http_request.cpp:117-137 | every line with a colon is stored under what stands before its first colon, without the blanks before the value and the carriage return at its end |
| HttpText.EveryFieldLine | src/conn/http/http_request.cpp:117-132 | every line with a colon has such parts |
| HttpText.StoiIff | src/conn/http/http_request.cpp:141-144 | for every text std::stoi gives the number that stands there after white space and an optional sign, exactly if it fits a 32-bit int |
| HttpText.ContainsIff | src/conn/http/http_request.cpp:187-187 | find tells whether the text stands anywhere in the Content-Type |
| HttpText.FormIsReadBack | src/conn/http/http_request.cpp:199-212 | a form body is read as its fields, the last of a name winning, pieces without an equals sign and empty ones changing nothing |
| HttpText.EveryBodyIsAForm | src/conn/http/http_request.cpp:199-212 | every body is a list of such pieces |
| HttpText.ParseBodyIs | src/conn/http/http_request.cpp:183-196 | for every body and Content-Type the body is stored as it is, and its fields exactly if the form type stands in the Content-Type |
| Http.ScanIff | src/conn/http/http_conn.cpp:459-459 | the scan of the array agrees with the received bytes exactly when its line lies within them |
| Http.FaithfulIff | src/conn/http/http_conn.cpp:456-499 | a scanning turn, on a full buffer too, does what the received bytes call for exactly when the scan fits |
| Http.StaleLineDropsInput | src/conn/http/http_conn.cpp:311-321 | otherwise a started header is dropped whole |
| Http.ParseIsIdeal | src/conn/http/http_conn.cpp:454-528 | from a fitting buffer the whole parse depends on the received bytes only |
| Http.ParseIsIdealIff | src/conn/http/http_conn.cpp:454-528 | the whole parse of a nonempty buffer ends with the state and for the reason that the received bytes call for exactly when its first scan fits |
| Http.IdealAppend | src/conn/http/http_conn.cpp:454-528 | parsing what came and then what comes is parsing it all |
| Http.SplitDeliveries | src/conn/http/http_conn.cpp:121-202 | for any cut whose scans fit, request and leftover depend only on the concatenation |
| Http.TracksIff | src/conn/http/http_conn.cpp:121-202 | over every run of nonempty deliveries the parser is, after each of them, where the bytes so far lead and for the same reason, exactly when each scan fits |
| Http.CutsMatterIff | src/conn/http/http_conn.cpp:54-102 | the same from init |
| Http.DeliveriesDoNotMatter | src/conn/http/http_conn.cpp:54-102 | from init this holds for cuts in the request line or the body, and in the headers after a complete line or before a NUL, filling the buffer included |
| Http.ManyAreOne | src/conn/http/http_conn.cpp:121-202 | such deliveries read what one delivery of the same bytes reads |
| Http.HeaderCutLosesInput | src/conn/http/http_conn.cpp:482-499 | a concrete cut inside the headers that loses received bytes |
| Http.ParseInvertsPrint | src/conn/http/http_conn.cpp:454-528 | a well-formed printed request followed by any bytes, up to a full buffer, is read back: method, url, version, last-wins headers, length, connection, body, and the form fields exactly if the last Content-Type has the form type in it; exactly the extra bytes stay |
| Http.PrefixNeedsMore | src/conn/http/http_conn.cpp:454-528 | whatever arrives first of a well-formed request short of all of it, the parser asks for more |
| Http.RefusedIff | src/conn/http/http_conn.cpp:466-472 | a first delivery is refused exactly if its first line has fewer than three words, whatever follows |
| Http.UnreadableLengthCrashes | src/conn/http/http_conn.cpp:489-498 | a Content-Length that std::stoi cannot read ends the parse with an exception, whatever stands before and after it |
| Http.NegativeLengthCrashes | src/conn/http/http_conn.cpp:509-515 | and so does a last Content-Length below zero |
| HttpConns.EraseBlanks | src/conn/http/http_request.cpp:124-127 | the loop strips leading blanks |
| HttpConns.ParseHeaders | src/conn/http/http_request.cpp:103-165 | end, stored field, ignored line or exception as specified |
| HttpConns.ParseFormData | src/conn/http/http_request.cpp:199-212 | the getline loop collects the fields |
| HttpConns.StoreField | src/conn/http/http_request.cpp:204-209 | one piece sets a field if it has an equals sign |
| HttpConns.HttpConn.constructor | src/conn/http/http_conn.cpp:63-78 | zeroed buffer, blank request, first phase |
| HttpConns.HttpConn.Read | src/conn/http/http_conn.cpp:134-151 | a successful recv writes after the received bytes and nothing else |
| HttpConns.HttpConn.FindLineEnd | src/conn/http/http_conn.cpp:459-459 | finds the first line end before the first NUL |
| HttpConns.HttpConn.RemoveLine | src/conn/http/http_conn.cpp:311-321 | moves the rest to the front in place and closes it with a NUL |
| HttpConns.HttpConn.MoveToFront | src/conn/http/http_conn.cpp:317-317 | the memmove, element by element |
| HttpConns.HttpConn.TakeRequestLine | src/conn/http/http_conn.cpp:465-477 | consumes an accepted request line, leaves everything for a refused one |
| HttpConns.HttpConn.TakeHeader | src/conn/http/http_conn.cpp:489-498 | consumes one header line and moves on |
| HttpConns.HttpConn.TakeBody | src/conn/http/http_conn.cpp:509-521 | consumes the body |
| HttpConns.HttpConn.ParseHttpRequest | src/conn/http/http_conn.cpp:454-528 | the loops end and do what the turns of the model do |
| HttpResponses.StoiOfToString | src/conn/http/http_response.cpp:132-132 | a printed length is read back |
| Decimal.FirstDigitIsHighest | src/conn/http/http_response.cpp:132-132 | the first digit of a number is the most significant one |
| HttpResponses.CutIsHead | src/conn/http/http_response.cpp:127-154 | the output is cut at its own blank line whatever follows |
| HttpResponses.LengthLineAgrees | src/conn/http/http_response.cpp:132-132 | the printed length field is found without case and agrees with a body exactly if it is its size |
| HttpResponses.ResponseIsSelfDelimiting | src/conn/http/http_response.cpp:90-155 | for tidy header text, any iteration order and any following bytes, head lines and body are read back exactly if the code has three digits and the body is empty where none is allowed, or fits an int with no header field against it |
| HttpResponses.JsonIsSelfDelimiting | src/conn/http/http_response.cpp:100-107 | a JSON response is read back with its body and nothing of what follows under exactly that condition |
| HttpResponses.TextIsSelfDelimiting | src/conn/http/http_response.cpp:90-98 | a text response is read back with its page exactly if a body is allowed, it fits an int and no header field is against it |
| HttpResponses.FieldIff | src/conn/http/http_response.cpp:144-146 | a header line is read as the name and value put into it exactly if the name has no colon and no blank at its ends and the value no blank at its ends |
| HttpResponses.HeadIsReadIff | src/conn/http/http_response.cpp:123-155 | the lines of a head are read as type, length, one Set-Cookie per cookie, the connection fields and each header in order, exactly if the header fields and cookies are readable |
| HttpResponses.CookieIff | src/conn/http/http_response.cpp:134-136 | a reader after section 5.2 of RFC 6265 stores the name and value that were set exactly if they are plain: a name, no separators, no blanks at the ends |
| HttpResponses.MeaningSays | src/conn/http/http_response.cpp:127-146 | that meaning has the type, the length, keep-alive exactly if the connection is kept and close exactly if not, and each plain cookie |
| HttpResponses.ResponseIsRead | src/conn/http/http_response.cpp:123-155 | whatever response a reader takes has the code and the reason that were sent, and its fields as meant exactly if they are readable |
| HttpResponses.ResponseSays | src/conn/http/http_response.cpp:123-155 | a delimited response with readable fields says its code, reason, type, length, connection mode, cookies and header fields |
| HttpResponses.JsonSays | src/conn/http/http_response.cpp:100-107 | so does a JSON response, with reason OK and type application/json, and its body is the JSON text |
| HttpResponses.TextSays | src/conn/http/http_response.cpp:90-98 | so does a text response, with its title as reason and type text/html, and its body is the page |
| HttpResponses.PageIsReadIff | src/conn/http/http_response.cpp:90-98 | the page shows the title, the code with it and the message exactly if neither text has markup in it |
| HttpResponses.SecondLengthIsRefused | src/conn/http/http_response.cpp:144-146 | a header field that announces another length makes a JSON response unreadable |
| HttpResponses.BodylessCodeIsRefused | src/conn/http/http_response.cpp:100-107 | a JSON body with status 204 is not read back |
| HttpResponseObjects.HttpResponse.BuildResponseHeader | src/conn/http/http_response.cpp:123-155 | drops earlier data and writes the head lines and the blank line, returning the size |
| HttpResponseObjects.HttpResponse.AppendTop | src/conn/http/http_response.cpp:127-132 | status line, type and length |
| HttpResponseObjects.HttpResponse.AppendCookies | src/conn/http/http_response.cpp:134-136 | one line per cookie in iteration order |
| HttpResponseObjects.HttpResponse.AppendMode | src/conn/http/http_response.cpp:138-143 | the connection lines, whose meaning `HttpResponses.MeaningSays` states |
| HttpResponseObjects.HttpResponse.AppendFields | src/conn/http/http_response.cpp:144-150 | one line per field in iteration order |
| HttpResponseObjects.HttpResponse.SendJson | src/conn/http/http_response.cpp:100-107 | head and JSON body |
| HttpResponseObjects.HttpResponse.SendText | src/conn/http/http_response.cpp:90-98 | head and HTML page |
| RateLimit.AnswersDependOnOwnCalls | src/util/rate_limiter.cpp:27-61 | histories that agree on a key's own calls and its type's rules get the same answers for it |
| RateLimit.RefusedFromHistory | src/util/rate_limiter.cpp:27-61 | in every run a request is refused exactly if its type was registered, its key has an open window since the latest clear, and that window has let through as many as the latest rule allows |
| RateLimit.AdmittedAfterClear | src/util/rate_limiter.cpp:63-75 | after a clear the next request of the key is let through and opens a window, whatever other types and keys did since |
| RateLimit.ClosedNeverRefuses | src/util/rate_limiter.cpp:11-35 | a closed limiter never changes and refuses nobody |
| RateLimit.RateBound | src/util/rate_limiter.cpp:46-60 | in every run, whatever other types and keys do, with a rule that stays fixed for this key and W > 0, any half-open interval of W seconds admits at most 2*max(1, max_count) - 1 requests, each opened window at most max(1, max_count) |
| RateLimit.BoundIsReached | src/util/rate_limiter.cpp:46-60 | for every rule with W > 0 a run of that kind with two bursts around a window boundary reaches the bound |
| RateLimit.SlidingIff | src/util/rate_limiter.cpp:46-60 | every interval of W seconds admits at most max_count requests in every such run exactly if max_count is one |
| RateLimiters.RateLimiter.RegisterLimitRule | src/util/rate_limiter.cpp:11-20 | sets the rule and keeps the records of the type |
| RateLimiters.RateLimiter.IsLimit | src/util/rate_limiter.cpp:27-61 | answers and counts as specified |
| RateLimiters.RateLimiter.Clear | src/util/rate_limiter.cpp:63-75 | forgets one record |
| Config.MergeIs | src/config/config_manager.cpp:73-98 | key by key: a member that may be stored decides, everything else stays, a hot key is reported once exactly if it changed |
| Config.ConfigIsExpected | src/config/config_manager.cpp:44-120 | over every sequence of loads a hot key has its latest parsed value, any other key that of the first non-empty content |
| Config.ReportsExactlyTheChanges | src/config/config_manager.cpp:86-94 | a load reports once each exactly the hot keys whose value differs from the one in effect, none while the configuration is empty |
| Config.CallbacksRunOncePerChange | src/config/config_manager.cpp:103-117 | each callback runs once per reported key it is registered for |
| Config.LoadRunsDue | src/config/config_manager.cpp:86-117 | in every run a load runs, in the order of the file, the callbacks of exactly the hot keys whose value in the file is not the one in effect, and none before there is a configuration |
| Config.SkippingIsReprocessing | src/config/config_manager.cpp:59-62 | skipping unchanged content equals processing it again |
| ConfigManagement.ConfigManager.MergeMembers | src/config/config_manager.cpp:73-98 | the loop over the members merges them |
| ConfigManagement.ConfigManager.SelectCallbacks | src/config/config_manager.cpp:103-111 | the loop collects the callbacks of the changed keys |
| ConfigManagement.ConfigManager.LoadFromFile | src/config/config_manager.cpp:44-120 | unreadable, unchanged and unparsable files change nothing; JSON that is neither object, null nor empty array changes nothing and throws; others are merged and their callbacks run |

## Left out

- TimerManagement.TimerManager.Tick: takes one clock reading for the whole call; the code reads the clock at each node, so a timer that comes due during the call may fire too.
- Timer callbacks that call back into the timer manager: the code holds its mutex there and would block.
- A null node in the timer heap and an empty callback: the first cannot occur, the second fires without effect.
- CacheAdapters.RedisClient.Set: commands succeed whenever the client is connected; replies of an unexpected type are not modelled.
- HttpConns.HttpConn.ParseHttpRequest: reading past the buffer when it holds no NUL, and closing a full buffer, are results of their own (`Overrun`) without further behaviour.
- HttpConns.ParseHeaders: the byte range of a `Range` field and the JSON value of a JSON body are not stored.
- TransactionObjects.TextTxDao.InsertUser: the MySQL answers of one call are a parameter; START TRANSACTION commits an open transaction, as the MySQL manual documents.
- TokenManagement.TokenManager.CreateToken: HMAC is an arbitrary function and base64 an injective one without dots; the timer seed is unbounded.
- ThreadPool.ShutdownEnds: bounds the workers' own steps and shows that they never get stuck; that a scheduler lets them run is not modelled.
- Integer widths other than those of the WebSocket length test, `std::stoi` and the announced body size.
- epoll, sockets, signals, `sendfile`, files, logging and thread identities: operating system input and output.
- `HttpConn::write` and `WebSocketConn::write`: the count of bytes sent is local to the call, so no theorem that each byte is sent once holds.
- The byte ranges and static files of `generateResponse`: single branches over file metadata.
- The WebSocket handshake, `WebsocketConnManager`, `TcpConn`, router, interceptor, factories, controllers and sessions: library calls or single map lookups.
- `ConfigManager::registerCallback`: one map insertion; the callbacks are a parameter.
- `HttpResponses.ReadResponse`: decodes no transfer coding, as the code prints none; it refuses a response that names one.
- `SqlExecutor` and `UserDao`: thin wrappers over the MySQL client.
- `SqlConnPool::shutdown`: the pool is modelled until it is shut down.
