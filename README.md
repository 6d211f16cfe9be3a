# A verified model of the MINIX DFA character driver

`dfa.c` is a MINIX character driver that runs a deterministic finite
automaton over bytes. Its state is three global structures: the current
state (one byte), 256 accepting flags, and a 256 x 256 transition table.
The driver's entry points act on them:

- **write** feeds the caller's bytes. It copies them in through a 4-byte
  staging buffer and takes one transition per byte.
- **read** answers `size` copies of `'Y'` when the flag of the current state
  is 1, and `'N'` otherwise.
- **ioctl** edits the automaton: RESET, ADD a transition, mark a state
  ACCEPTing or REJECTing.
- **live-update save and restore** hand the three structures from one
  driver instance to the next, through the MINIX data store (DS).

The model is split into five modules:

- `Automaton` (automaton.dfy): bytes, the row-major table, the fold `Run`,
  the chunked fold and its equivalence to `Run`, the value `Snapshot` of the
  three structures, and the poll verdict.
- `Status` (status.dfy): status codes and the failure model of the kernel's
  copy primitives.
- `Control` (control.dfy): the ioctl requests as a function `Apply` on
  snapshots, with their frame lemmas.
- `Persistence` (persistence.dfy): the store's entries, the save and restore
  sequences as functions `Save` and `Restore`, the round trip, and the
  first-failure lemmas.
- `Driver` (driver.dfy): the driver itself. The class `Device` holds the
  globals as fields: `currentState`, and arrays `accepting`, `transition` and
  `buffer`. Its methods are the entry points, written as the C loops and
  early returns are. Each is proved against the functions above. The class
  `DataStore` holds the store's entries as a `map`.

Modelling choices:

- Bytes are the integers 0..255. The model assumes unsigned bytes; see
  Findings for what plain (signed) `char` indexing does.
- The table is one array of 65536 cells in row-major order. The successor of
  `(s, a)` is at `s * 256 + a`. This is the memory layout of
  `char transition[256][256]` and the layout of the published 65536-byte blob.
- Copies between the caller and the driver (`sys_safecopyfrom`,
  `sys_safecopyto`) are abstract. A `Fault` value says which copy fails and
  with what code: the copy that starts at a given caller offset.
- A copy past the end of the caller's grant fails with EPERM. This is the
  kernel's answer for a grant that does not cover the range.
- Store operations (`ds_publish_mem`, `ds_retrieve_mem`, `ds_delete_mem`)
  are methods on the `DataStore` map. A `StoreFault` value names the failing
  step. A retrieve or delete of a missing key fails with ESRCH.
- A retrieve into a buffer of `len` bytes copies at most `len` bytes of the
  blob. The rest of the buffer keeps what it held.
- Status codes are MINIX's: OK is 0, and errors are negative (EPERM -1,
  ESRCH -3, ENOTTY -25). The driver only ever compares them with OK.
- Read delivers bytes through a returned sequence `delivered`. It holds the
  bytes that reached the caller, in order.

Three behaviours of `dfa.c` worth knowing:

- The store keys are `dfa_current_state`, `dfa_accepting_states` and
  `dfa_transition`.
- ACCEPT and REJECT reset the current state to 0, as ADD does.
- There is no "invalid argument" error. No request checks its payload
  length; a payload shorter than the copy fails the copy.

## Model

| member | source | states |
|---|---|---|
| `Automaton.Min` | dfa.c:43-45 | the result is at most both arguments and equals one of them |
| `Automaton.Index` | dfa.c:14 | every (state, symbol) pair has a cell inside the 65536-cell table, and the cell's quotient and remainder by 256 give the pair back (row-major, injective) |
| `Automaton.Next` | dfa.c:104 | the successor of `(s, a)` is the table cell in row `s`, column `a`: every cell whose quotient by 256 is `s` and whose remainder is `a` holds it |
| `Automaton.Run` | dfa.c:103-105 | the fold over the input from state `s`: `s` itself for no input, otherwise a successor recorded in the table (exact laws in `RunConcat`, `RunSnoc`) |
| `Automaton.ChunkedRun` | dfa.c:95-108 | the chunk-by-chunk fold of the write loop stays at `s` for no input and otherwise ends in a successor recorded in the table; `ChunkingIsInvisible` proves it equal to `Run` |
| `Automaton.RunConcat` | dfa.c:103-105 | folding the transitions over `u + v` from `s` ends where folding over `v` from the end of `u` ends; so writes concatenate |
| `Automaton.RunSnoc` | dfa.c:104 | one more byte is one more transition `transition[state][byte]` |
| `Automaton.ChunkingIsInvisible` | dfa.c:95-108 | for every chunk size n > 0, the chunk-by-chunk fold reaches the same state as the plain left-to-right fold; the value of BUF_SIZE does not matter |
| `Automaton.Zero` | dfa.c:226-228 | the zeroed engine: current state 0, every flag 0, every table cell 0 |
| `Automaton.Verdict` | dfa.c:66-70 | the poll byte is `'Y'` exactly when the current state's flag equals 1, and `'N'` otherwise |
| `Automaton.Fill` | dfa.c:67-69 | `n` bytes, each equal to the sentinel |
| `Automaton.SignedChar` | dfa.c:12-14 | a byte read through a signed `char` lies in -128..127 and agrees with the byte modulo 256 |
| `Automaton.SignedIndexAgreesIff` | dfa.c:104 | with signed `char` indices, the cell addressed is the intended one exactly when state and symbol are both below 128 |
| `Automaton.SignedIndexMisses` | dfa.c:104 | with signed `char` indices, symbol 200 from state 0 addresses a cell before the table, and from state 1 it reads row 0's cell |
| `Status.CopyRc` | dfa.c:99-100 | a copy succeeds exactly when no fault is injected at its offset and its range lies inside the caller's grant; an injected fault answers the injected code |
| `Control.PayloadSize` | dfa.c:169-185 | ADD copies 3 payload bytes, ACCEPT and REJECT 1, RESET and unknown requests none |
| `Control.PayloadPrefixOnly` | dfa.c:168-190 | a request reads nothing of the payload past its payload size; a shorter payload fails the copy (injected code or EPERM) and changes nothing |
| `Control.Apply` | dfa.c:157-197 | every request keeps the three structures well-formed (256 flags, 65536 cells) |
| `Control.SetFlag` | dfa.c:176-190 | ACCEPT/REJECT keep the structures well-formed |
| `Control.SucceedsIff` | dfa.c:162-196 | a request answers OK exactly when it is RESET, or it is ADD/ACCEPT/REJECT and its payload copy succeeds |
| `Control.ResetOnlyResets` | dfa.c:163-166 | RESET answers OK, sets the current state to 0 and changes no flag and no table cell |
| `Control.AddTransitionFrame` | dfa.c:168-174 | a successful ADD(s, a, t) makes `t` the successor of `(s, a)`, leaves the successor of every other pair and every flag unchanged, and resets the current state to 0 |
| `Control.SetFlagFrame` | dfa.c:176-190 | a successful ACCEPT(s) / REJECT(s) sets flag `s` to 1 / 0, leaves every other flag and the whole table unchanged, and resets the current state to 0 |
| `Control.FailureChangesNothing` | dfa.c:168-194 | a failed request leaves all three structures unchanged; an unknown request answers ENOTTY and a failed payload copy answers the copy's code |
| `Persistence.PublishRc` | dfa.c:118-119 | a publish with overwrite succeeds exactly when the store does not fail it |
| `Persistence.LookupRc` | dfa.c:134-137 | a retrieve or delete succeeds exactly when the store does not fail it and the key is present |
| `Persistence.Overlay` | dfa.c:139-140 | a retrieve into an `n`-byte buffer leaves `n` bytes: the blob's bytes where the blob reaches, the buffer's own bytes past its end |
| `Persistence.OverlayExact` | dfa.c:145-146 | a blob of exactly the buffer's size replaces the buffer |
| `Persistence.Restore` | dfa.c:128-155 | a restore, whatever fails, leaves well-formed structures |
| `Persistence.Save` | dfa.c:114-126 | a save answers OK exactly when none of its three publishes fails, adds no key but the three, and leaves every other entry alone |
| `Persistence.RestoreFailure` | dfa.c:128-155 | the first failing step of a restore: an injected failure, or a retrieve (step 0, 2 or 4) whose key is missing; 6 when none fails |
| `Persistence.SaveStopsAtFirstFailure` | dfa.c:114-126 | save performs its three publishes in order up to the first failing one, none after it, and answers that failure's code; with no failure it performs all three and answers OK |
| `Persistence.SavePublishesAll` | dfa.c:118-123 | a save without failure puts the current state, the flags and the table each under its own key and leaves every other entry alone |
| `Persistence.RoundTrip` | dfa.c:114-155 | restoring, into any structures, what a failure-free save of snapshot `s` published gives back exactly `s`, answers OK, removes the three keys and leaves every other entry as it was |
| `Persistence.RestoreStopsAtFirstFailure` | dfa.c:128-155 | whatever makes step j of a restore fail first (an injected failure, or a missing key), exactly the structures retrieved before j are restored, exactly the keys deleted before j are gone, and the answer is the injected code or ESRCH |
| `Persistence.RestoreAfterPartialSave` | dfa.c:114-155 | after a save that stopped after one or two publishes, over a store holding none of the keys, a restore takes the published structures, answers ESRCH at the first missing key (step 2 or 4), and leaves the store as it was before the save |
| `Persistence.RestoreWithoutSave` | dfa.c:134-135 | with no entry under the first key, a restore answers ESRCH and changes nothing |
| `Driver.CopyIn` | dfa.c:99-100 | on success the requested bytes of the caller's grant land at the start of the destination and the rest stays; on failure nothing changes |
| `Driver.DataStore.Publish` | dfa.c:118 | on success the key maps to the data, overwriting any earlier entry; on failure the store is unchanged |
| `Driver.DataStore.Retrieve` | dfa.c:134 | on success the data is the blob cut to the buffer length |
| `Driver.DataStore.Delete` | dfa.c:136 | on success the key is gone; on failure the store is unchanged |
| `Driver.Device.constructor` | dfa.c:11-17 | the globals start zeroed |
| `Driver.Device.Read` | dfa.c:47-86 | changes no engine state; with no failing chunk copy it answers `size` and delivers `size` copies of the verdict (nothing for `size == 0`); when the copy at chunk offset o fails it answers that code and the caller has received o copies |
| `Driver.Device.Write` | dfa.c:88-112 | never changes flags or table; with no failing chunk copy it answers `size` and the current state is the fold of the table over all input bytes from the old current state; when the copy at chunk offset o fails it answers that code and the state is the fold over the first o bytes (no rollback) |
| `Driver.Device.Transitions` | dfa.c:103-105 | the per-byte loop over the staging buffer leaves the state the fold over its first `chunk` bytes reaches, and changes nothing else |
| `Driver.Device.Ioctl` | dfa.c:157-197 | the new structures and the answer are those of `Control.Apply` on the old structures |
| `Driver.Device.SaveState` | dfa.c:114-126 | the store and the answer are those of `Persistence.Save` of the current structures |
| `Driver.Device.LoadAccepting` | dfa.c:140 | the flags become the retrieved bytes overlaid on the old flags |
| `Driver.Device.LoadTable` | dfa.c:146 | the table becomes the retrieved bytes overlaid on the old table |
| `Driver.Device.RestoreState` | dfa.c:128-155 | the structures, the store and the answer are those of `Persistence.Restore` on the old store and structures |
| `Driver.Device.Init` | dfa.c:223-257 | answers OK; FRESH and RESTART zero the structures and leave the store alone; LU restores from the store into zeroed structures and ignores the restore's answer |
| `Driver.FeedTwice` | dfa.c:95-108 | two successful writes of `u` and then `v` leave the state the fold over `u + v` reaches |
| `Driver.PollTwice` | dfa.c:66-85 | two polls in a row deliver the same `size` bytes |
| `Driver.Handoff` | dfa.c:114-155 | a failure-free save by the outgoing instance followed by the LU init of the incoming one gives the incoming instance exactly the outgoing one's structures and leaves none of the three keys in the store |

## Left out

- `main`, `sef_local_startup` and its callback registration,
  `chardriver_task` and `chardriver_announce`. They are host glue with no
  logic of their own. `do_announce_driver` only decides whether to announce.
- The `printf` greetings and `HELLO_MESSAGE`: console output only.
- The kernel's copy primitives and the DS server are abstract. Their
  failures come from the `Fault` and `StoreFault` parameters. Their grant
  checks, storage and transport are not part of this model.
- Each call has at most one injected failure point. Apart from that point, a
  copy fails only outside the grant, and a store call only on a missing key.
- The unused `position`, `minor`, `flags` and `id` parameters, and the
  commented-out EOF and `open_counter` code.
- The numeric request codes come from `sys/ioc_dfa.h`, which is not part of
  this model. Requests are a datatype with a case for every other code.
- Sizes and offsets are unbounded naturals. The C counters `bytes_read` and
  `bytes_written` are `int`, and would overflow for requests above `INT_MAX`
  bytes. The model does not capture that overflow.
- The model uses unsigned bytes throughout. The signed-`char` behaviour is
  modelled only as far as the Findings row shows.

## Findings

| source | as written | input that shows it | evidently intended | confidence | as-written member | corrected member |
|---|---|---|---|---|---|---|
| dfa.c:104 | `transition[current_state][buffer[i]]` indexes with plain `char`, which is signed on i386; the same holds at dfa.c:66, 171, 179 and 187 | symbol 200 from state 0 addresses 56 bytes before the table; from state 1 it reads `transition[0][200]` | index by the unsigned byte value, so every pair has its own cell inside the table | medium, not executed; holds only where plain `char` is signed | `Automaton.SignedIndexAgreesIff` | `Automaton.Index` |
