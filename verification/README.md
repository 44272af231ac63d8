# Seed server admission core, modelled in Dafny

The seed server feeds a list of magnet links to a WebTorrent client. A counting
semaphore is meant to keep at most `MAX_CONCURRENT_DOWNLOADS` (3) downloads in
flight. As written, the code bounds them only by 3 plus the number of times a
release handed a slot to the waiting loop (see below). This project models the three pieces that carry the
server's logic and proves properties about them:

- `semaphore.dfy`, module `Semaphores`: the `Semaphore` class as an immutable
  record `(max, current, queue)`. `acquire` returns `Granted` or
  `Queued(waiter)`. `release` returns the waiter it woke, if any. `Run` replays
  any sequence of calls and records who was granted, queued and woken.
- `magnet.dfy`, module `MagnetLinks`: `getInfoHashFromMagnetLink` and
  `getNameFromMagnetLink`. Each is a leftmost regular-expression match with a
  greedy capture, written out as a search over `seq<char>`. Magnet links follow
  the magnet URI format of BitTorrent BEP 9.
- `seeder.dfy`, module `Seeder`: the `processMagnetLinks` loop together with the
  `cleanup` closure and the `done`/`error` handlers. They form an event-step
  machine over these parts:
  - the semaphore;
  - the index of the magnet in hand;
  - the loop's phase: about to acquire, suspended in `acquire`, or holding the
    slot;
  - the torrents whose listeners are still attached.

  The WebTorrent client is an oracle `client(i)` that answers `Existing`,
  `Thrown` or `Added` for iteration `i`. An added torrent is named by its
  iteration index. The loop decides that a link is invalid by calling
  `MagnetLinks.GetInfoHash` itself.
- `wrappers.dfy`, module `Wrappers`: `Option` and `Result`.

The semaphore is modelled as the code writes it:

- `release` decrements `current` even when it wakes a waiter
  (`semaphore.js:20-23`). The woken waiter does not increment `current` again,
  so a slot handed to a waiter is missing from the counter.
- `release` has no floor. A release at `current == 0` leaves `current` at -1.

The model proves these consequences:

- `current <= max` always holds.
- The slots actually held are `current` plus the number of handoffs. In the
  loop, the torrents downloading at once are therefore bounded only by
  `MAX_CONCURRENT_DOWNLOADS` plus the handoffs, and each handoff raises that
  bound by one. A concrete schedule reaches four torrents under a bound of 3
  (`Seeder.OverAdmission`).
- Once every magnet is processed and every torrent has finished, `current`
  reads minus the number of handoffs.

The loop extracts the info hash first (`seed.mjs:54`). It then acquires a slot
(`seed.mjs:57`) and only afterwards tests whether the hash was found
(`seed.mjs:59`). An invalid link therefore takes a slot and gives it straight
back. The loop has no shutdown check and no wait for downloads to finish after
the last magnet.

## Model

| member | source | states |
|---|---|---|
| Semaphores.New | seed-server/utils/semaphore.js:2-6 | a new semaphore has the given `max`, `current == 0` and an empty queue |
| Semaphores.Acquire | seed-server/utils/semaphore.js:8-17 | below the bound: granted at once, `current` up by exactly one, queue unchanged; at or above it: `current` unchanged and the caller appended at the tail of the queue |
| Semaphores.Release | seed-server/utils/semaphore.js:19-25 | `current` always drops by exactly one, with no floor; with waiters, exactly the head is woken and the rest keep their order; with none, only `current` changes |
| Semaphores.Run | seed-server/utils/semaphore.js:8-25 | over any sequence of calls: every `acquire` is granted at once or queued, and every other call is a `release`; waiters are woken in FIFO order, so woken followed by still-queued equals initially-queued followed by newly-queued; `current` moves only by immediate grants and releases, never by a wake; a counter at or below `max` stays there |
| Semaphores.RunPartitionsAcquires | seed-server/utils/semaphore.js:8-17 | every `acquire` call of a sequence ends up exactly once among the waiters granted at once or queued |
| Semaphores.RunKeepsCallOrder | seed-server/utils/semaphore.js:10-15 | the waiters granted at once, and the waiters queued, each keep the order of their `acquire` calls |
| Semaphores.CounterAccounting | seed-server/utils/semaphore.js:10-23 | from a new semaphore with `max >= 0`, `current <= max` after any calls, and `current` equals the holders less the number of wakes |
| Semaphores.OverAdmission | seed-server/utils/semaphore.js:10-23 | with `max == 1`: acquire, acquire (queued), release (wakes the second), acquire (granted at once) leaves two holders while `current == 1` |
| MagnetLinks.GetInfoHash | seed-server/utils/getInfoHashFromMagnetLink.js:1-4 | null iff no `btih:` is directly followed by `[a-zA-Z0-9]`; otherwise a non-empty alphanumeric string that is the maximal run after the leftmost such `btih:` |
| MagnetLinks.InfoHashRoundTrip | seed-server/utils/getInfoHashFromMagnetLink.js:2-3 | `p + "btih:" + h + rest` with `h` non-empty alphanumeric, `rest` not continuing it, and no earlier match gives exactly `h` |
| MagnetLinks.InfoHashCaseSensitive | seed-server/utils/getInfoHashFromMagnetLink.js:2 | `BTIH:ab` has no info hash: the prefix is case-sensitive |
| MagnetLinks.InfoHashFormNotChecked | seed-server/utils/getInfoHashFromMagnetLink.js:2 | neither length nor hex/base32 form is checked: `btih:xyz` gives `xyz`, and a one-character hash is extracted from a full link |
| MagnetLinks.NameCapture | seed-server/utils/getNameFromMagnetLink.js:2 | null iff no `?dn=` or `&dn=` is followed by a non-`&` character; otherwise a non-empty `&`-free capture running from the leftmost match to the next `&` or the end |
| MagnetLinks.GetName | seed-server/utils/getNameFromMagnetLink.js:1-4 | no match gives null; a match gives the decoding of the raw capture, or the decoder's URIError propagates |
| MagnetLinks.NameRoundTrip | seed-server/utils/getNameFromMagnetLink.js:2-3 | `p + ("?" or "&") + "dn=" + v + rest` with `v` non-empty and `&`-free, `rest` empty or starting with `&`, and no earlier match captures exactly `v`; a `%`-free `v` is returned unchanged |
| MagnetLinks.NameNeedsDelimiter | seed-server/utils/getNameFromMagnetLink.js:2 | a link without `?` or `&` has no name, whatever `dn=` it contains |
| MagnetLinks.NameAtStartIgnored | seed-server/utils/getNameFromMagnetLink.js:2 | `dn=abc` (a `dn=` at the start) gives null |
| MagnetLinks.NameInsideOtherKeyIgnored | seed-server/utils/getNameFromMagnetLink.js:2 | `magnet:?xdn=abc` gives null: `xdn=` is not `dn=` |
| MagnetLinks.NameOfTypicalLink | seed-server/utils/getNameFromMagnetLink.js:2 | the `dn` of a full link stops at the next `&` |
| Seeder.Init | seed-server/seed.mjs:44 | the loop starts at the first magnet with a new semaphore of bound `MAX_CONCURRENT_DOWNLOADS`, nothing attached and nothing released |
| Seeder.Body | seed-server/seed.mjs:59-120 | once the slot is held: an invalid, already-added or throwing magnet makes exactly one release, logged with its index and reason, and nothing is attached; an added torrent makes no release, keeps the slot and is attached |
| Seeder.RunCleanup | seed-server/seed.mjs:100-114 | `cleanup` makes exactly one release and removes the torrent's listeners |
| Seeder.Step | seed-server/seed.mjs:51-122 | magnets are taken in order and only after a slot is held; a terminal event for a torrent without listeners changes nothing (no double release); the speed timer changes nothing |
| Seeder.StepPreservesInv | seed-server/seed.mjs:51-122 | every scheduling step preserves the loop invariant: queue shape, counter bound, per-magnet and per-torrent release counts, releases plus attached equals magnets passed, held slots equal counter plus handoffs |
| Seeder.ReachableInv | seed-server/seed.mjs:51-122 | the invariant holds after every schedule of loop steps and torrent events |
| Seeder.ReleasePairing | seed-server/seed.mjs:57-120 | in every reachable state: each passed magnet that was invalid, already added or threw released exactly once, with that reason; added ones never skip-release; each torrent's cleanup released at most once, and exactly once for an added torrent whose listeners are gone |
| Seeder.NoLeakWhenDrained | seed-server/seed.mjs:51-122 | once all magnets are passed and no listeners remain, releases equal acquires (one per magnet), and the counter reads minus the number of handoffs |
| Seeder.SlotAccounting | seed-server/seed.mjs:44-120 | the counter stays within `MAX_CONCURRENT_DOWNLOADS`; the slots held equal the counter plus the handoffs, so the attached torrents number at most `MAX_CONCURRENT_DOWNLOADS` plus the handoffs; the loop waits only while at least `MAX_CONCURRENT_DOWNLOADS` torrents hold slots |
| Seeder.AdmitAtOnce | seed-server/seed.mjs:57-116 | with a free slot, an added magnet takes one acquire, no release, and attaches its torrent |
| Seeder.ThreeAdmitted | seed-server/seed.mjs:52-116 | the first three added links are admitted without waiting and fill the counter |
| Seeder.FourthAdmittedByHandoff | seed-server/seed.mjs:57-114 | the fourth link waits; the first torrent's `done` wakes the loop, and the fourth is added while the counter drops to 2 |
| Seeder.FifthAdmittedAtOnce | seed-server/seed.mjs:57-116 | after the handoff the counter reads 2, so the fifth link is admitted at once and four torrents are attached |
| Seeder.OverAdmission | seed-server/seed.mjs:44-116 | with five valid links all added, four torrents hold slots while the counter reads 3 |

## Left out

- The WebTorrent client (`client.get`, `client.add`, `client.destroy`, DHT, peers, trackers) is a foreign library. It is reduced to the per-iteration oracle `client(i)` and to `done`/`error` events that the environment may deliver in any order.
- Seeder.Step: `client.add` calls back only when the torrent is ready, and the `done`/`error` listeners are attached there. The model attaches them in the loop step that adds the torrent. An error emitted before the torrent is ready, which would leak the slot, is not modelled.
- Seeder.Body: the iteration runs as one step from the validity check to `client.add`. In the source, `await client.get` is a suspension point. Terminal events are still allowed between the acquire and this step. While the loop holds a slot the semaphore queue is empty, so such a release only decrements the counter. The state reached is therefore the same either way.
- MagnetLinks.GetName: `decodeURIComponent` is a parameter `decode` (its `None` is the URIError it throws). Its UTF-8 handling is not modelled. Only its identity on `%`-free text is used, as the hypothesis `PlainTextUnchanged`.
- `formatSpeed` (`seed.mjs:27-32`) is left out because it uses floating-point `Math.log`, `Math.pow` and `toFixed`.
- Logging through chalk and `console.log`, and the interval's progress printing, are left out because they are I/O. The interval appears only as the `Progress` event, which changes nothing. `clearInterval` has no state of its own in the model.
- The downloads-folder bootstrap (`seed.mjs:35-40`) is left out because it is file-system I/O.
- `constants/TRACKERS.js` is left out because it is static configuration data. `constants/MAGNETLINKS.js` is not part of this model: the list of links is a parameter.
- `gracefulShutdown` and the SIGINT/SIGTERM handlers (`seed.mjs:124-138`) are left out because they are process-exit plumbing with no state.
- Promise and timer scheduling is not modelled. `acquire` returns `Granted`/`Queued`, `release` returns the woken waiter, and interleavings are explicit schedules of events.
- `seed.mjs` uses `Semaphore` without importing it. The model assumes the class from `utils/semaphore.js` and does not model the resulting ReferenceError.
- Dafny strings are sequences of Unicode scalar values, while JavaScript strings are UTF-16 code units. Both patterns test only ASCII characters, so the captured text is the same either way.
- JavaScript numbers are doubles. The counter is an unbounded `int`, which matches at these magnitudes.
