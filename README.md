# c-server: client buffers and the slot table

This project models the in-memory bookkeeping of `server.c`, a small TCP server. The server keeps a fixed table of `nrequests` slots. Each slot has a lock and a reference to one client's growable read buffer.

- **Client buffer** (`struct client_buffer`, `make_client_buffer`, `read_available`): the class `ClientBuffers.ClientBuffer`.
  - It holds an `array` of bytes, the allocated `size`, the `bytesRead` cursor and the client.
  - Its abstract value is a `View`: the size, plus the bytes read so far in arrival order.
  - A drain is specified by the pure function `Drained`. A run of drains is specified by `DrainAll`.
- **Slot table** (the reference array allocated in `initialize_server`, one pass of the `for` loop in `run_server`, and `handle_client`): the class `SlotTables.SlotTable`.
  - It holds an `array` of buffer references and an `array<bool>` of lock flags.
  - An admission pass claims every free slot in ascending order, installs a fresh 1024-byte buffer for the next accepted client, and releases the slot again.
  - `handle_client` takes its slot's lock, drains until bytes arrive, and releases the lock.
- **Code as written** (`AsWritten`): `read_available` exactly as the code has it, with the inputs on which it departs from its documented behaviour. These are listed under Findings.

The system calls become parameters:
- `ioctl(FIONREAD)` becomes the count `available`.
- `read` becomes the byte sequence `delivered`; its length is what `read` returns.
- `accept` becomes a sequence of `Accepted` values.
- The repeated polling in `handle_client` becomes a sequence of `Poll` values.
- `panic` becomes an `Error` result.

Each semaphore is a boolean flag that is true while the lock is held.

For `read_available`, the model follows the behaviour that the comments in the code and the field documentation state: grow to make room, append at the cursor, advance the cursor. The code writes at the cursor as documented, but it grows the buffer wrongly and never advances the cursor. Those four places in `read_available`, and the slot locks that `initialize_server` never initialises, are under "## Findings", each modelled as written in `AsWritten`.

## Model

| member | source | states |
|---|---|---|
| ClientBuffers.ClientBuffer.Model | server.c:47-56 | the bytes read so far never exceed the allocated size (`0 <= bytes_read <= size`) |
| ClientBuffers.ClientBuffer.Init | server.c:74-79 | a new buffer has exactly `initial_size` bytes allocated, cursor 0, no contents, and the given client |
| ClientBuffers.ClientBuffer.Make | server.c:65-81 | creation fails with `NegativeSize` exactly when `initial_size < 0`; otherwise the buffer is fresh, of that size, empty and owned by the given client |
| ClientBuffers.GrownSize | server.c:89-93 | the capacity before the write is at least `bytes_read + available` and never below the old size; it is unchanged when the bytes fit, and otherwise doubled or raised to exactly the need |
| ClientBuffers.Drained | server.c:84-100 | with `available <= 0` the view is unchanged and 0 is returned; a read of any other length than `available` is a `ShortRead` failure, and only then is there a failure; on success the count is `available`, the new contents are the old ones followed by the delivered bytes, the capacity has not shrunk and the bytes still fit |
| ClientBuffers.ClientBuffer.ReadAvailable | server.c:84-100 | the in-place drain agrees with `Drained` on the result and the new view; the buffer stays valid; bytes `[0, bytes_read)` survive the growth and the write; with `available <= 0` nothing changes; a short read leaves the contents as they were |
| ClientBuffers.DrainAll | server.c:84-100 | successive calls of `read_available` on one buffer (against the cursor documented at server.c:52-53) keep the bytes within capacity, never shrink it, and return a non-negative total |
| ClientBuffers.DrainAllAccumulates | server.c:48-53 | after any run of successful drains, the buffer holds its old contents followed by every byte that arrived, in order, and the total returned counts exactly those bytes |
| ClientBuffers.DrainAllFailsOnShortRead | server.c:94-96 | a run of drains fails exactly when one of its reads is short |
| ClientBuffers.FirstArrival | server.c:209-210 | the index of the first poll that reports bytes; every earlier poll reported none |
| SlotTables.FreeBefore | server.c:186-187 | the number of free slots among the first `i`, which is the index of the connection slot `i` is offered; it is at most `i` |
| SlotTables.FreeBeforeExtremes | server.c:186-199 | a pass offers a connection to every one of the first `i` slots exactly when all of them are free, and to none exactly when all are held |
| SlotTables.Offers | server.c:186-195 | for each of the first `i` slots, the connection index it would receive if it were free (a held slot receives nothing), one per slot |
| SlotTables.FreeBeforeStrictlyIncreasing | server.c:186-195 | a free slot is offered a connection that no later slot is offered again |
| SlotTables.SlotTable.constructor | server.c:169-170 | the table has `nrequests` slots, every lock free and no buffer installed |
| SlotTables.SlotTable.TryClaim | server.c:187 | `sem_trywait` succeeds exactly when the lock was free; the lock is held afterwards and no other lock changes |
| SlotTables.SlotTable.Release | server.c:196 | `sem_post` frees the lock its caller holds and no other |
| SlotTables.SlotTable.Install | server.c:195-196 | slot `i` gets a fresh buffer object with a fresh byte array of 1024 bytes, cursor 0, for the accepted client, and its lock is released; no other slot or lock changes |
| SlotTables.SlotTable.VisitSlot | server.c:187-198 | a held slot is left exactly as it was; a free slot is claimed, and with a connection it gets a fresh buffer object and byte array and is released, else it stays claimed |
| SlotTables.SlotTable.AdmissionPass | server.c:186-200 | slots are visited in ascending order; every held slot before the stop keeps its buffer and lock; the `j`-th free slot gets a fresh buffer, with a fresh byte array, for connection `FreeBefore(j)`, and no two slots filled by the pass share a buffer object or byte array; nothing after the stop is touched; a completed pass leaves every lock as it began; a pass stops at a claimed slot exactly when `accept` has no connection (`BlockedInAccept`) or fails (`AcceptPanic`) |
| SlotTables.SlotTable.HandleClient | server.c:205-215 | a held lock is reported, not taken; otherwise the lock is taken, only the first poll with bytes changes the buffer, exactly as `Drained` says; after bytes arrive the lock is released and every lock is as it began; a short read or no arrival leaves it taken |
| AsWritten.Realloc | server.c:92 | a reallocation keeps the first `min(old, new)` bytes and has the new length |
| AsWritten.Overwrite | server.c:94 | `read` puts the delivered bytes at the cursor and leaves all other bytes alone |
| AsWritten.GrowIfRoom | server.c:90-93 | the code reallocates to `2 * size` exactly when more than `available` bytes are left after the cursor |
| AsWritten.ReadAvailableAsWritten | server.c:84-100 | as written, neither `size` nor `bytes_read` ever changes; a successful drain returns `available` and stores the bytes at the unmoved cursor; the short-read exit happens only when the write stays inside the allocation |
| AsWritten.InvertedGrowthTestOverflows | server.c:90-94 | whenever the bytes do not fit after the cursor, the code as written writes past the allocation, while the documented drain succeeds |
| AsWritten.DoublingAsWritten | server.c:92 | with the documented test, the doubling as written never shrinks the buffer, and it makes room for `bytes_read + available` exactly when the bytes already fit or twice the size suffices |
| AsWritten.DoublingFallsShort | server.c:92 | whenever more bytes arrive than twice the size leaves after the cursor, doubling falls below `bytes_read + available`, which `GrownSize` then meets exactly |
| AsWritten.SizeGoesStale | server.c:92 | one byte into a buffer of 8 leaves 16 bytes allocated while `size` stays 8 |
| AsWritten.SecondReadOverwritesFirst | server.c:94-97 | two one-byte drains leave the cursor at 0 and the second byte over the first, where the documented buffer holds both |
| AsWritten.LocksReadAsHeldAdmitNobody | server.c:169-170 | if the never-initialised locks all read as taken, a pass offers no slot a connection |

## Left out

- Sockets: `socket`, `bind`, `listen` and `accept` are OS I/O. An accepted connection is an opaque `Client` value, and `accept`'s results are an input sequence.
- `ioctl(FIONREAD)` and `read` are not calls. They are the inputs `available` and `delivered`, and a `read` result of -1 counts as a short read.
- Concurrency: semaphores are sequential boolean flags. Interleaving of threads and mutual exclusion between them are not modelled.
- SlotTables.SlotTable.HandleClient: `sem_wait` on a held lock would block until another thread posts. Here it returns `LockBusy` instead.
- SlotTables.SlotTable.HandleClient: the busy poll `while (read == 0)` runs forever when no bytes come. It is modelled over a finite sequence of polls and ends as `StillPolling` with the lock held.
- SlotTables.SlotTable.AdmissionPass: one pass of the endless `while (true)` loop of `run_server`. When `accept` would block, the pass stops instead of waiting.
- `run_server`'s `handle_client` parameter is never called in the code, so no hand-off from the pass to a handler is modelled.
- ClientBuffers.ClientBuffer.ReadAvailable: on a short read the code stores the partial bytes before it exits. The model checks the length first and leaves the contents unchanged, since the process ends either way.
- `panic` diagnostics, `printf`, `fflush` and `exit` become an `Error` result.
- `make_config` and `main` build a configuration from fixed values (port 8080, `INADDR_ANY`, a backlog of 500 and the externally defined `PROCESSOR_COUNT`) using the `htons`/`htonl` library calls.
- The failure of `malloc` or `realloc` is never checked by the code. Allocation always succeeds here.
- Freeing a buffer that a slot held before is not modelled; the code never frees one. A slot's old buffer is simply no longer referenced.
- `int` overflow of `size`, `bytes_read` and `2 * size` is not modelled; integers are unbounded.

## Findings

| source | as written | input that shows it | evidently intended | confidence | as-written member | corrected member |
|---|---|---|---|---|---|---|
| server.c:90 | grows the buffer when MORE than `available` bytes are left after the cursor, and never when they do not fit | a buffer of 1024 with cursor 0 and 2000 bytes available: no growth, and `read` writes 976 bytes past the allocation | grow when fewer than `available` bytes are left | not executed | AsWritten.InvertedGrowthTestOverflows | ClientBuffers.GrownSize |
| server.c:92 | the new capacity is `2 * size` whatever the need | 3000 bytes into an empty buffer of 1024 (2048 < 3000); any bytes into a buffer of size 0 (0 stays 0) | a capacity of at least `bytes_read + available` | not executed | AsWritten.DoublingFallsShort | ClientBuffers.GrownSize |
| server.c:92 | `realloc` result is stored but `size` is not updated | one byte into a buffer of 8: 16 bytes allocated, `size` still 8 | `size` equals the allocation after growth | not executed | AsWritten.SizeGoesStale | ClientBuffers.ClientBuffer.ReadAvailable |
| server.c:97 | returns without advancing `bytes_read` | two one-byte reads into a buffer of 8: the second overwrites the first at offset 0 | `bytes_read` advances by the count read, so the bytes accumulate | not executed | AsWritten.SecondReadOverwritesFirst | ClientBuffers.DrainAllAccumulates |
| server.c:169-170 | the slot array is allocated, but no `lock` pointer is set and no semaphore is initialised | any slot: `sem_trywait` gets an indeterminate pointer; if every lock reads as taken, a pass admits nobody | every lock initialised free | not executed | AsWritten.LocksReadAsHeldAdmitNobody | SlotTables.SlotTable.constructor |
