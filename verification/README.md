# The proxy's hash set, blocklist, host parser and I/O loops, verified

The proxy in this repository refuses connections to hosts on a blocklist. The list is loaded into an
open-addressing hash set (`set.c`), the host is cut out of the request (`utils.c`), and the handler in
`server.c` looks it up and answers. This project models that path and proves it correct.

The difficult part is the set. It probes linearly and cyclically, it grows by doubling its array and
laying the nodes out anew in place, in one pass, while half of them are still where the old size put
them, and it removes a key by re-laying out the cluster behind it. Everything is proved for an
arbitrary hash function, so also for one under which all keys collide.

## How it is built

| file | contents |
|---|---|
| `Options.dfy`, `CStrings.dfy` | optional values, C strings, buffers, hash values |
| `Tables.dfy` | the slot array as a value: walks, probing, the representation invariant `Good` |
| `Relayouts.dfy` | `__relayout_nodes` as a function, and what every run of it conserves |
| `Doubling.dfy` | growing in place is correct for every good table |
| `Deletion.dfy` | exactly when removal is correct, and what goes wrong otherwise |
| `SetModel.dfy` | the set operations as functions, their meaning, and runs of operations |
| `Growth.dfy` | the memory a growing set asks for, and when it is enough |
| `SimpleSets.dfy` | the class with the array in it, its methods proved against `SetModel` |
| `SetAlgebra.dfy` | union, intersection, differences, subset tests, comparison |
| `Shortfalls.dfy` | calls on the class that do not do what the header says |
| `DefaultHashes.dfy` | the FNV-1a variant of the source |
| `HostParser.dfy` | `parseHost`, and the older scan of `redirect.c` |
| `Blocklists.dfy` | loading and looking up, as a set and as a list |
| `SocketIO.dfy` | the loops around `read` and `write` |
| `Proxies.dfy` | the handler's decision, end to end |

Slot `c` is *passed over* by a key if the walk from the key's home slot meets `c` before it meets the
key. A table is searchable if no walk passes over an empty slot.

## Where the code falls short of its documentation

* **Removal can lose another key.** The re-layout in `set_remove` stops at the end of the array. It is
  right if and only if some slot, from the removed key's slot to the end of the array, is passed over
  by no other key (`Deletion.RemovalIsExact`, `SetModel.RemoveIsDifference`). An empty slot behind the
  key, or an empty slot 0, is enough (`Deletion.RoomBehind`). `SetModel.RunCanLoseAKey` gives a run of
  four calls on a fresh set after which a stored key is not found; `SetModel.SafetyIsExact` shows that
  the condition, at every removal of a run, is also necessary.
* **SET_CIRCULAR_ERROR**, said never to happen, does happen: `set_contains` and `set_remove` answer it
  in exactly those sets that began with one slot (`SetModel.CircularNeedsOneSlot`), over all runs, also
  those in which a removal lost a key. For an absent key in a full set the header promises SET_FALSE
  from `set_remove`. `set_add` keeps the promise in every run from every initial size
  (`SetModel.AddNeverCircular`).
* **`set_is_subset` against a full set** always says yes (`SetAlgebra.IsSubset`); the strict test, if
  the sizes allow it. `Shortfalls.SubsetOfAFullSet` and `Shortfalls.StrictSubsetOfAFullSet` are such
  calls. Against sets within the load bound, from two slots up, both tests are exact.
* **The set operations answer SET_TRUE when memory ran out** and keys are missing, and the loading of
  the blocklist goes on. The result is complete if and only if every doubling on the way to its number
  of keys is granted (`Growth.Enough`), which can be told from the initial size before the call. With
  none granted, that is up to 257 keys from 1024 slots (`Growth.EnoughWithoutMemory`).
  Which keys get in is also known beforehand (`Growth.Kept`). `Shortfalls.UnionMissesAKey` is a union
  with a key missing.
* **A blocklist file whose last line has no newline** loses the last byte of that line
  (`Blocklists.EntriesOfFile`).
* **A Host field without a port** is never refused: `parseHost` runs on over the line end to the next
  colon, and no entry has a line end in it (`Proxies.NoPortNoRefusal`). The older scan sees the name.
* The offset basis of the hash is not the published one of FNV-1a; the model has the code's constant.

## Model

| member | source | states |
|---|---|---|
| Tables.ProbeIsLookup | set.c:275-294 | On a searchable table a probe finds a key exactly if it is stored, gives an empty slot for it exactly if it is absent and there is room, and goes all the way around exactly if it is absent and there is none. The place it gives is the first, from slot `hash % n` on, that is empty or holds the key. |
| Tables.StopsIsWalk | set.c:277-292 | Where a probe stops, told by steps: some `d` steps from slot `hash % n` on, the slots before it full of other nodes. |
| Tables.ReachesIsWalk | set.c:277-292 | A node is reached exactly if it is some `d` steps from slot `hash % n` on and the slots before it are full. |
| Tables.SearchableIffFound | set.c:275-294 | The invariant is the right one: a table is searchable exactly if every stored node is found in its own slot. |
| Tables.Placed | set.c:265-271 | Putting an absent key in the slot where its probe stops keeps the invariant and adds exactly that key. |
| Relayouts.NeverStale | set.c:311-319 | On every table, even one with a key twice, `__get_index` finds a place for a stored node, so `index` is never stale. |
| Relayouts.LandsSafely | set.c:311-319 | With distinct keys a stored node stays or moves to an empty slot on its walk. |
| Relayouts.RelayoutConserves | set.c:311-324 | Re-layout conserves the nodes with their hashes, their number and their distinctness, for every table and either mode. |
| Relayouts.RelayoutNeverAdds | set.c:311-324 | On any table, even one with a key twice, re-layout uses no more slots than before. |
| Doubling.DoublingKeepsGood | set.c:249-264 | For every good table, even a full one, the single pass over twice the slots gives a table that is good under the doubled modulus and holds the same nodes. |
| Doubling.LowerStep | set.c:313-319 | In the lower half a node moves back on its walk, or into the upper half if its old walk wrapped, and no processed node is cut off. |
| Doubling.HalfWay | set.c:249-264 | Behind the middle there is a full run at the end of the array that will not move and that contains every upper slot a settled lower node's walk passes over. |
| Doubling.UpperStep | set.c:313-319 | In the upper half every step repairs the walk of the node at hand and breaks none. |
| Deletion.UnpassedIsWalk | set.c:277-292 | A slot is passed over by no key exactly if it is on none of the walks, from slot `hash % n` on, before the key. |
| Deletion.StopsAtEmpty | set.c:320-322 | On any table, an empty slot right behind the removed key ends the pass: all else stays as it was. |
| Deletion.OneHoleStep | set.c:313-319 | During the re-layout after a removal a single hole is all that can break a walk; a step moves it only to a slot that was passed over. |
| Deletion.RemovalIsExact | set.c:77-89 | Removal leaves exactly the other nodes, and a good table if and only if some slot from the key's to the end is passed over by no other key. |
| Deletion.RoomBehind | set.c:311-323 | An empty slot behind the key, or an empty slot 0, makes removal safe, also in clusters that wrapped. |
| Deletion.RemovalCanLoseAKey | set.c:77-89 | Without the condition: after removing the first of two keys whose home is the last slot, the second is stored but not found. |
| SetModel.AddIsInsertion | set.c:244-273 | Adding is insertion in every valid set: present keys change nothing, refused memory changes nothing, all else adds the key, doubles exactly if over a quarter full, and never goes around. |
| SetModel.ContainsIsMembership | set.c:72-75 | The three answers of `set_contains`, each with the exact condition. |
| SetModel.RemoveIsDifference | set.c:77-89 | Removing is set difference on keys and counts always, and for all later queries if and only if it is safe. |
| SetModel.RoomyHasRoom | set.c:17 | A set of two slots or more within the load bound has an empty slot. |
| SetModel.StepIsIdeal | set.c:47-93 | One operation within the load bound gives the result of a mathematical set and stays within the bound. |
| SetModel.RunIsIdeal | set.h:64-94 | Over every run with safe removals all results are those of a mathematical set, the load bound holds at the end, and SET_CIRCULAR_ERROR never happens. |
| SetModel.OneOpMore | set.c:47-93 | The results of a run with one operation more are those of the run and that of the operation where it ends. |
| SetModel.SafetyIsExact | set.h:75-91 | A run is safe if and only if, stopped anywhere and asked about any key, the table answers like a mathematical set. |
| SetModel.ShapeIsHidden | set.h:46-56 | Two runs of the same operations give the same results whatever the initial sizes, from two up, and hash functions. |
| SetModel.RunCanLoseAKey | set.h:75-91 | Add two keys whose home is the last slot, remove the first, ask for the second: the answer is SET_FALSE. |
| SetModel.RunStaysCounted | set.c:244-294 | In every run, safe or not, adding never gives SET_CIRCULAR_ERROR; within the load bound nothing does, and the bound is kept. |
| SetModel.AddNeverCircular | set.h:64-73 | So `set_add` never gives SET_CIRCULAR_ERROR, in any run from any initial size. |
| SetModel.CircularNeedsOneSlot | set.h:75-91 | In some run from `n` slots `set_contains` gives SET_CIRCULAR_ERROR if and only if `n` is 1; the same for `set_remove`. |
| Growth.AddGathers | set.c:249-255 | A set that began empty and was given a list of keys, given one more: it grows no more than its keys make it, and it has just those keys for which memory was enough. |
| Growth.CompleteIffEnough | set.c:249-255 | It has all of them if and only if every doubling up to their number is granted. |
| Growth.PlentyIsEnough | set.c:249-255 | It is, whatever the initial size, if requests of up to eight slots per key are granted. |
| Growth.EnoughWithoutMemory | set.c:249-255 | If nothing is granted, memory is enough exactly for the keys that fit before the first doubling. |
| SimpleSets.SimpleSet.constructor | set.c:32-45 | A new set is valid and empty, and hashes with the given function or the default one. |
| SimpleSets.SimpleSet.Clear | set.c:47-56 | Whatever the state, clearing gives a valid empty set with the same array. |
| SimpleSets.SimpleSet.GetIndex | set.c:275-294 | The loop ends with the probe's outcome: some `d` steps from slot `hash % number_nodes` on, the first slot that is empty or holds the key; or, if there is none, with `*index` left alone. |
| SimpleSets.SimpleSet.RelayoutNodes | set.c:311-324 | The array becomes what the re-layout function gives, in both modes. |
| SimpleSets.SimpleSet.Grow | set.c:251-263 | The array becomes the doubled one. |
| SimpleSets.SimpleSet.PutNode | set.c:265-272 | The node goes to the first empty slot on its walk, and the count rises; else nothing changes. |
| SimpleSets.SimpleSet.AddHashed | set.c:244-273 | State and code are those of the model's `Add`, in any state. |
| SimpleSets.SimpleSet.AddKey | set.h:64-73 | From a valid set: the set stays valid, has the key unless memory was refused, and each code has its exact condition. |
| SimpleSets.SimpleSet.ContainsHashed | set.c:239-242 | The three answers for a key with its hash. |
| SimpleSets.SimpleSet.Contains | set.h:83-91 | The three answers for a key. |
| SimpleSets.SimpleSet.RemoveKey | set.c:77-89 | The key is gone and the count right; the set stays valid exactly if the removal was safe. |
| SimpleSets.SimpleSet.Length | set.c:91-93 | The number of keys. |
| SimpleSets.SimpleSet.ToArray | set.c:95-109 | The array has one entry per key, in slot order, and a null pointer behind them. |
| SimpleSets.ListingPlace | set.c:95-109 | A key is listed behind as many keys as there are in the slots before its own. |
| SimpleSets.ListingIsKeys | set.c:95-109 | That order lists every stored key exactly once. |
| SetAlgebra.Union | set.c:111-128 | An occupied result is refused and left alone; else it stays valid and holds the keys of the inputs for which memory is enough, in slot order, so nothing but the union, and all of it if and only if every doubling on the way is granted. The inputs are untouched; the result may be one of them. |
| SetAlgebra.Intersection | set.c:130-144 | The same for the intersection. |
| SetAlgebra.Difference | set.c:146-161 | The same for the difference. |
| SetAlgebra.SymmetricDifference | set.c:163-185 | The same for the symmetric difference. |
| SetAlgebra.IsSubset | set.c:187-197 | Yes exactly if the keys are a subset or `against` is full; exact against a set within the load bound. |
| SetAlgebra.IsSuperset | set.h:149-151 | Yes exactly if the keys are a superset or `test` is full. |
| SetAlgebra.IsSubsetStrict | set.c:199-204 | Yes exactly for a proper subset, or a smaller set against a full one; exact against a set within the load bound. |
| SetAlgebra.IsSupersetStrict | set.h:172-174 | The mirror image. |
| SetAlgebra.Compare | set.c:206-222 | All four answers exact, equality although only one side is looked up. |
| Shortfalls.UnionMissesAKey | set.c:111-128 | A union that answers SET_TRUE without one of the keys. |
| Shortfalls.SubsetOfAFullSet | set.c:187-197 | A set passes for a subset of one that does not have its key. |
| Shortfalls.StrictSubsetOfAFullSet | set.c:199-204 | The same for the strict test. |
| DefaultHashes.ComputeDefaultHash | set.c:228-237 | The hash of the empty key is the offset basis 14695981039346656073; any other is that of the key without its last byte, xor that byte, times 1099511628211, modulo 2^64. |
| DefaultHashes.HashInFigures | set.c:231-235 | The same, as a law of the function that the set uses. |
| DefaultHashes.XorBits | set.c:233 | The exclusive or in it, bit by bit. |
| DefaultHashes.RoundIsInjective | set.c:233-234 | A round is injective in the 64-bit state for a fixed byte and tells bytes apart in a fixed state. |
| DefaultHashes.RoundReachesAll | set.c:233-234 | Every state is reached by a round with any byte, so that a round permutes the states. |
| DefaultHashes.OneByteApart | set.c:228-237 | Two keys of one length that differ in one byte never have the same default hash. |
| HostParser.FirstAtJoin | utils.c:81-86 | In text, separator, text, the leftmost occurrence of the separator is the written one exactly if the first text has none. |
| HostParser.ParseInvertsRender | utils.c:79-88 | Behind text without "Host: ", host and port written after it, with ":" between and a line end behind, come back exactly if the host has no colon and the port no line end. |
| HostParser.ParseIffRendered | utils.c:79-88 | A request parses to a host and port if and only if it is rendered from them and plain. |
| HostParser.ParseHost | utils.c:79-88 | The zeroed buffers then hold, terminated, the strings between "Host: ", ":" and the line end, each the first of its kind. |
| HostParser.ScanHost | redirect.c:18-31 | The name has no colon and no white space in it, and one of them follows it. |
| HostParser.ScanIsParseUpToSpace | redirect.c:18-31 | On every request that `parseHost` can parse, the older scan gives its host up to the first white space. |
| Blocklists.EntriesOfFile | server.c:122-125 | A file of terminated lines gives those lines; an unterminated last line is loaded without its last byte. |
| Blocklists.EveryFileIsListed | server.c:122-125 | Every file has that form. |
| Blocklists.EntriesAreOneLine | server.c:122-125 | No entry of any file has a newline in it. |
| Blocklists.ListedIsLoaded | server.c:122-125 | Loaded are the terminated lines and, without its last byte, an unterminated one; which is loaded whole only if it is also a terminated line. |
| Blocklists.CheckBlocklist | server.c:24-30 | 1 exactly if the host is in the set. |
| Blocklists.ReadLines | server.c:121-131 | An empty set then holds just those entries of the file for which memory was enough, in order. |
| Blocklists.LoadBlocklist | server.c:114-131 | A fresh set with the default hash holds just those entries, and all of them if and only if memory is enough for their number from 1024 slots. |
| Blocklists.BlockArray.Load | redirect.c:119-132 | The array then lists the entries in order. |
| Blocklists.BlockArray.IsBlocked | redirect.c:34-41 | Blocked exactly if some entry is a prefix of the host. |
| Blocklists.ListsCompared | redirect.c:34-41 | Hosts blocked by the set are blocked by the list; the two agree on a host exactly if no entry is a proper prefix of it or it is an entry. |
| SocketIO.WriteAll | utils.c:36-55 | What is sent is the front of the buffer, as long as the kernel's replies determine. |
| SocketIO.ReadAll | utils.c:16-34 | What is read is the next bytes of the stream, in order, and the rest of the buffer is untouched. |
| SocketIO.TransferMeaning | utils.c:16-55 | A non-negative result counts the bytes; a short one needs a zero reply, -1 a failure. |
| SocketIO.InterruptionsAreInvisible | utils.c:22-24 | Removing all interruptions from the replies changes nothing. |
| SocketIO.OnlyTheSumCounts | utils.c:16-55 | Closed form for all replies: the sum of the counts before the first zero or failure decides, not its portions. |
| Proxies.HandleConnection | server.c:51-87 | A failed or empty first read is refused, any other by its host; the client is sent a front of `403 Forbidden` or `200 OK`. |
| Proxies.RefusedIffListed | server.c:56-87 | For a file of terminated lines and a plain request, read at least up to its port, whose host and port fit their buffers: refused exactly if the host is one of the lines. |
| HostParser.PortlessHost | utils.c:79-88 | For a Host field without a port the scan gives the name; what `parseHost` gives, if anything, has the line end in it. |
| Proxies.NoPortNoRefusal | server.c:66-87 | So such a request, if it parses and what is parsed fits the buffers, is not refused, whatever the file. |
| HostParser.ScannedOfCut | redirect.c:164-167 | The older scan sees the same host in any part of a request that reaches behind it. |
| Proxies.OldProxyCompared | redirect.c:16-41 | For every request that `parseHost` can parse into its buffers and whose host the older proxy reads, and every file of up to 100 entries: what the older proxy blocks, and exactly when the two agree. |
| Proxies.ServeOne | server.c:51-131 | From file and first read to the decision, through hash set, buffers and socket: for every allocator, the decision that the entries with enough memory call for, and the message for it. |

## Left out

- Floating point: the load test of set.c:250 is taken as the exact `4 * used > number`; the rounding of counts that a `float` cannot hold is not modelled.
- Width: `number_nodes` and `used_nodes` are unbounded; an allocator grants no request of 2^64 bytes or more, which keeps the doubling from wrapping.
- Allocation: whether `realloc` succeeds is a function of the size asked for, within one call; failures of the unchecked `malloc` and `calloc` calls for single nodes and strings are not modelled, nor that of the first array.
- Zero slots: a set of no slots divides by zero in `__get_index`; sets have at least one slot. `set_destroy` leaves such a set and is not modelled.
- Memory: nodes are values, so copying and freeing one is a move; leaks and dangling pointers are not modelled.
- Sets in one operation share one hash function, since stored hashes are reused, and no two of them share an array.
- HostParser.ParseHost: requests without the three separators, and hosts or ports that fill their buffers, are required away; the C code follows null pointers or leaves strings unterminated there. Its unspecified result is left out.
- HostParser.ScanHost: needs a terminator behind "Host: ", without which the C scan leaves the request; the size of its buffer is a condition of Proxies.OldProxyCompared only.
- Blocklists.LoadBlocklist: files contain no NUL byte, and reading does not fail.
- Blocklists.BlockArray.Load: more than 100 lines are required away; the C code writes past the array.
- Proxies.HandleConnection: resolving and connecting succeed, as the code asserts; the relay and the threads behind it are I/O plumbing without a stated invariant and are left out.
- SocketIO.WriteAll: a call that asks for 2^31 bytes or more, whose count would not fit an `int`, is not modelled.
- `sendReq` in redirect.c, the other clients and servers, and the container programs are not part of this model.
