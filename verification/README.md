# greyd verification model

A Dafny model of the decision-making core of greyd, a greylisting and blacklisting SMTP daemon, with proofs of what it does
on every input and in every run. `dafny verify dfyconfig.toml` checks the whole project.

Where the program updates something in place the model does too (classes with the program's fields, loops with invariants,
an array for the packet buffer, linked nodes for the trie). Each such method is tied to a function of its old state, and the
theorems are about that function, or about runs built from it.

| files | what they model |
|---|---|
| `Basics`, `TextLines` | types, predicates and lines of text that several modules share |
| `Arithmetic` | division and multiples, for the modules that need them |
| `ByteStrings`, `BigEndian`, `Keys` | the byte order of keys and the codec of database keys and values |
| `ScanSpec`, `ScanTheorems`, `MemoryStore`, `BoltStore` | the database scan: its step-by-step form over an iterator, bolt's deferred form, and what both mean entry by entry |
| `TrapCheck`, `Greylister`, `GreyFields`, `GreyPromise` | the trap check, the greylisting steps, what each does to which field, and every run of them with scans in between, for arbitrary clock readings |
| `IpRange`, `Blacklist`, `Trie`, `Daemon` | ranges to CIDR blocks, collapsing black and white ranges, the radix trie, and the list the daemon ends up with |
| `Seccomp` | the two seccomp program generators, with an interpreter for classic BPF |
| `SmtpText`, `SmtpDialogue`, `SmtpCommands`, `SmtpBody`, `SmtpWriter`, `SmtpReply`, `Accounting` | one SMTP connection, its writer and its replies, and the counters shared by all connections |
| `IpcText`, `IpcCodec`, `IpcScanner`, `IpcFrame`, `IpcReports`, `IpcClient` | the frames between the daemon's processes: printing, framing, scanning, classifying, and the way from client to greylister |
| `SyncWire`, `Replay` | the sync packet and the anti-replay window |
| `Loader` | the include loader |

Main results, hardest first:

- Bolt's deferred scan gives the same result sequences and the same bucket as the immediate scan (`BoltStore.BothScans`), and
  what a scan means is stated without any iteration (`ScanTheorems.ScanStore`, `ScanTheorems.ScanLists`).
- In every run, with any interleaving and any clock, no tuple is whitelisted without two deliveries more than the pass time
  apart (`Greylister.NoWhiteWithoutRetry`, `Greylister.SeenOnceStaysGrey`, `Greylister.WhitelistIsEarned`); and in every run a
  sender that comes back in time is whitelisted, whatever other tuples, scans, retries and white messages there are around it
  (`GreyPromise.RetryInRunIsWhitelisted`). A message traps its address for one of three causes and for no other
  (`GreyFields.TrapsExactly`).
- `RangeToCIDRs` gives a shortest list of blocks if and only if the range is not the whole 32-bit space
  (`IpRange.MinimalExactly`); a collapsed blacklist covers exactly what it should and is shortest too
  (`Blacklist.RangeList.Collapse`), and the trie built from it answers accordingly (`Daemon.CollapsedListMatches`).
- The generated BPF programs decide exactly by their lists (`Seccomp.Deny`, `Seccomp.Allow`).
- The SMTP dialogue never gets stuck, answers every read outside the message text exactly once, and leaves the text exactly when
  it should (`SmtpDialogue.RunSound`, `SmtpDialogue.NeverStuck`, `SmtpBody.MessageEndsExactly`). The envelopes of a conversation
  are exactly those its commands make (`SmtpCommands.EnvelopesExactly`).
- Connection counters are conserved under every interleaving, and in every run a connection is admitted exactly when the live
  ones leave room (`Accounting.RunConserved`, `Accounting.AdmittedExactly`).
- The replay bitmap decides as an unbounded memory would, and which counters that memory refuses is stated over the sequence
  alone (`Replay.Engine.AcceptCounter`, `Replay.RefusedExactly`).
- Whatever any number of clients send, and however their frames interleave, their envelopes and nothing else reach the
  greylister (`IpcClient.EnvelopesArrive`).

Where the code and its documentation differ the code is followed, and each difference has its exact condition:

- The comment that `RangeToCIDRs` is minimal fails for the whole address space, where 33 blocks come out, and for no other range
  (`IpRange.MinimalExactly`, `IpRange.WholeSpaceIsLong`).
- A scan leaves something expired exactly when it re-keys a tuple while the white expiry is not positive
  (`ScanTheorems.ScanExpires`, `ScanTheorems.ZeroExpiryLeavesExpired`). The settings refuse such an expiry
  (internal/settings/settings.go:367), so the daemon never scans with one.
- A tuple key decodes to itself exactly when its first three parts are free of zero bytes (`Keys.DecodeOfEncode`, `Keys.ZeroByteMoves`). Text from a
  client is cut at a zero byte before it gets that far (internal/smtp/conn.go:611), and so are the strings of a sync packet.
- The per-source connection cap is passed exactly by a PROXY reassignment onto a full source (`Accounting.CapExactly`,
  `Accounting.ProxyExceedsCap`).
- A rejection message expands as its comment says exactly when no escape character in it stands before the other one; of such a
  pair only the first comes out (`SmtpReply.DocumentedExactly`, `SmtpReply.MixedPairLosesOne`).
- The replay window is the configured one, at most 64, unless the configured number does not fit 32 bits and what is left of it is
  below 64; a multiple of 2^32 switches the check off (`Replay.WindowExactly`, `Replay.MultipleSwitchesOff`).

## Model

| member | source | states |
|---|---|---|
| ByteStrings.SortSet | adapters/db/memory/memory.go:187-204 | sorting the keys of a bucket gives the one sequence of exactly these keys that ascends strictly in the order `ByteStrings.LessExactly` describes |
| ByteStrings.LessExactly | adapters/db/memory/memory.go:187-204 | a key sorts before another if and only if, behind what they share, it has ended or its next byte is smaller |
| ByteStrings.SortedUnique | adapters/db/memory/memory.go:187-204 | two strictly ascending sequences of the same keys are equal, so a sorted snapshot and a cursor walk in the same order |
| BigEndian.GetPut | adapters/db/kv/kv.go:96-118 | a number that fits its width is read back from its big-endian bytes |
| BigEndian.PutGet | adapters/db/kv/kv.go:96-118 | any bytes are written back from the number read from them, which fits their width |
| BigEndian.PutBytes | adapters/db/kv/kv.go:96-118 | each byte is the digit of its place, the most significant first |
| Keys.EncodeOfDecode | adapters/db/kv/kv.go:59-93 | every byte string that decodes as a key is what that key encodes to |
| Keys.DecodeOfEncode | adapters/db/kv/kv.go:59-93 | a key survives encoding and decoding if and only if it is no tuple, or none of its tuple's first three parts holds a zero byte |
| Keys.ZeroByteMoves | adapters/db/kv/kv.go:59-93 | a tuple with a zero byte in its first part comes back as another one |
| Keys.EncodedDecodes | adapters/db/kv/kv.go:59-93 | every encoded key decodes, to a key of the same kind |
| Keys.KeyLayout | adapters/db/kv/kv.go:59-75 | the bytes of a key: its kind, then its text, or address, greeting, sender and recipient with a zero byte between them |
| Keys.SplitCount | adapters/db/kv/kv.go:77-93 | how many parts a split gives, from the number of zero bytes alone |
| Keys.AddressesFirst | adapters/db/kv/kv.go:59-75 | every address key sorts before every tuple key, which the deferred scan depends on |
| Keys.DecodeOfEncodeData | adapters/db/kv/kv.go:96-118 | every five 64-bit fields survive encoding and decoding |
| Keys.EncodeOfDecodeData | adapters/db/kv/kv.go:96-118 | every value that decodes is written back byte for byte |
| Keys.DataLayout | adapters/db/kv/kv.go:96-107 | every byte of a value: first, pass, expire, block count and pass count, each as eight bytes of two's complement |
| ScanSpec.PromotedOncePerAddress | adapters/db/kv/kv.go:180-211 | an address has at most one tuple that a scan re-keys |
| ScanSpec.VacantExactly | adapters/db/kv/kv.go:180-211 | when the scan reaches a passable tuple, its address has no entry in the partly scanned store if and only if the tuple is the first passable one, in key order, of an address that was or is left vacant |
| ScanSpec.VisitStore | adapters/db/kv/kv.go:149-214 | one turn of the scan turns the declarative store of the keys visited so far into that of one key more |
| ScanSpec.WhiteDistinct | adapters/db/kv/kv.go:149-178 | no two entries put the same address on a whitelist, so the table of seen addresses never refuses one |
| ScanSpec.WalkMeaning | adapters/db/kv/kv.go:149-214 | after any number of turns the store and all three result lists are the declarative ones |
| ScanTheorems.ScanStore | adapters/db/kv/kv.go:149-214 | the final store: exactly the unexpired entries stay, unchanged, except that each promoted tuple is gone and its address holds its data with the new expiry |
| ScanTheorems.ScanCount | adapters/db/kv/kv.go:149-214 | the number of entries drops by exactly the number of expired ones |
| ScanTheorems.ScanExpires | adapters/db/kv/kv.go:149-214 | nothing expired is left if and only if the white expiry is positive or nothing was promoted |
| ScanTheorems.ZeroExpiryLeavesExpired | adapters/db/kv/kv.go:149-214 | with a white expiry of zero, a store of one passable tuple is left with an expired entry |
| ScanTheorems.WhiteExactly | adapters/db/kv/kv.go:149-214 | an address is reported white if and only if its entry in the final store has a pass count of at least zero and its pass time is reached |
| ScanTheorems.TrapOrder | adapters/db/kv/kv.go:149-214 | the traplist is the unexpired trap entries in key order |
| ScanTheorems.ScanLists | adapters/db/kv/kv.go:149-214 | both whitelists are free of duplicates and hold exactly the due addresses of their family; the traplist holds exactly the live traps, whose final entries are traps, so it shares nothing with the whitelists |
| ScanTheorems.EntriesByFields | adapters/db/kv/kv.go:149-214 | by the fields of an entry: when it stays as it is, when it is removed, and that a tuple is re-keyed if and only if it passes, its address is free and it is the first such tuple of the address |
| ScanTheorems.ListsByFields | adapters/db/kv/kv.go:149-214 | by the fields of an entry: an address is on the traplist if and only if it is a trap that has not run out, and on the whitelist of its family if and only if its final entry has passed |
| ScanTheorems.SecondScanStore | adapters/db/kv/kv.go:149-214 | a second scan at the same reading changes nothing if and only if the white expiry is positive or the first promoted nothing |
| ScanTheorems.SecondScanLists | adapters/db/kv/kv.go:149-214 | with a positive white expiry a second scan reports the same traplist and the same whitelists up to order |
| MemoryStore.Tx.Put | adapters/db/memory/memory.go:145-151 | writes one entry of the key's bucket and nothing else; refused in a read-only transaction |
| MemoryStore.Tx.Get | adapters/db/memory/memory.go:153-172 | finds an entry exactly when the encoded key is in its bucket, with its data; a domain part is found exactly when some stored domain matches it, in whatever order the domains are visited |
| MemoryStore.DomainMatchesExactly | adapters/db/kv/kv.go:120-124 | a domain matches if and only if the last bytes of the address are its own, up to the case of letters |
| MemoryStore.Tx.Del | adapters/db/memory/memory.go:174-185 | removes exactly that key and says whether it was there; refused, with nothing changed, in a read-only transaction |
| MemoryStore.Tx.AddrState | internal/core/store.go:197-209 | zero exactly when the address has no entry, one exactly when its entry is a trap |
| MemoryStore.Iterator.constructor | adapters/db/memory/memory.go:187-204 | the snapshot is all entry keys, ascending |
| MemoryStore.Iterator.Next | adapters/db/memory/memory.go:221-244 | moves to the next snapshot key that still exists, skipping exactly the deleted ones, and returns its current data |
| MemoryStore.Iterator.DeleteCurrent | adapters/db/memory/memory.go:253-259 | deletes exactly the entry the iterator stands on |
| MemoryStore.AddToWhitelist | adapters/db/kv/kv.go:149-178 | adds an address to the list of its family unless it was seen |
| MemoryStore.ScanEntry | adapters/db/kv/kv.go:170-211 | one turn of the loop, changing the store under the iterator, is one visit of the declared scan |
| MemoryStore.KvScan | adapters/db/kv/kv.go:149-214 | the loop that changes the store under its own iterator computes the scan of the store it started from, and touches no other bucket |
| MemoryStore.Database.UpdateScan | adapters/db/memory/memory.go:122-137 | a scan in an update transaction is committed as a whole; after a cancelled context, a read-only store or a failing transaction function nothing has changed |
| BoltStore.CursorReads | adapters/db/bolt/bolt.go:330-436 | the entry under the cursor of the untouched bucket is what the mutated store holds for that key |
| BoltStore.AddrStateMirrors | adapters/db/bolt/bolt.go:330-436 | the two address sets answer, for every address, whether the mutated store has an entry for it |
| BoltStore.DeferDelete | adapters/db/bolt/bolt.go:330-436 | queueing a delete keeps the bucket, the queues and the address sets a picture of the store with the key deleted |
| BoltStore.DeferPut | adapters/db/bolt/bolt.go:330-436 | queueing a put of an address does the same for the store with the address written |
| BoltStore.Bucket.Scan | adapters/db/bolt/bolt.go:330-436 | collecting, then all deletes, then all puts gives the store and the three result sequences of the immediate scan |
| BoltStore.Bucket.DeleteAll | adapters/db/bolt/bolt.go:330-436 | the delete loop removes exactly the queued keys |
| BoltStore.Bucket.PutAll | adapters/db/bolt/bolt.go:330-436 | the put loop applies the queued puts in order |
| BoltStore.BothScans | adapters/db/bolt/bolt.go:319-436 | on equal entries the memory driver and the bolt driver report the same sequences and end with the same bucket |
| TrapCheck.Check | internal/grey/greylister.go:153-185 | a recipient is a trap if and only if it is a stored spamtrap, or domains are checked and neither the configured nor the stored ones permit it |
| Greylister.Engine.UpdateGrey | internal/grey/greylister.go:244-297 | the update transaction does to the store what `GreyFields.TrapOutcome`, `GreyFields.ClearOutcome` and `GreyFields.GreyOutcome` describe by fields |
| Greylister.Engine.UpdateNonGrey | internal/grey/greylister.go:314-372 | a white or trap message does what `GreyFields.DeleteOutcome`, `GreyFields.UnusableOutcome`, `GreyFields.TrapMessageOutcome` and `GreyFields.WhiteMessageOutcome` describe by fields |
| GreyFields.TrapOutcome | internal/grey/greylister.go:217-297 | when a message traps, the entry of its address and no other is written: a trap for the trap expiry, or the known entry turned into one with its times kept |
| GreyFields.ClearOutcome | internal/grey/greylister.go:217-241 | when SPF clears the sender, its address and no other entry becomes white from now for the white expiry |
| GreyFields.GreyOutcome | internal/grey/greylister.go:244-297 | otherwise the entry of the tuple and no other is written: new, passing only at its expiry, or seen once more, passing now if and only if more than the pass time has gone by |
| GreyFields.TrapsExactly | internal/grey/greylister.go:188-297 | the entry of the address is made a trap if and only if the recipient is a trap, SPF fails the sender in a way that counts, or an unknown tuple tries the low priority MX after the grace and SPF has not cleared it |
| GreyFields.RecordedExactly | internal/grey/greylister.go:188-297 | a run counts a message as a delivery, as an SPF pass or as neither by the same causes |
| GreyFields.DeleteOutcome | internal/grey/greylister.go:314-372 | a deleting message leaves no entry for its address and touches no other |
| GreyFields.UnusableOutcome | internal/grey/greylister.go:314-372 | a message whose expiry cannot be used changes nothing |
| GreyFields.TrapMessageOutcome | internal/grey/greylister.go:314-372 | a trap message makes a trap until its expiry, or turns the known entry into one with its times kept and one more block |
| GreyFields.WhiteMessageOutcome | internal/grey/greylister.go:314-372 | a white message makes an entry that has passed at once, or counts one more pass for the known one |
| Greylister.RunAccounted | internal/grey/greylister.go:188-399 | in every run every tuple entry records a first delivery and, if its pass time was reached, a later one; every white address was earned |
| Greylister.NoWhiteWithoutRetry | internal/grey/greylister.go:188-399 | whenever a scan turns a tuple into a white address, two deliveries of that tuple were processed more than the pass time apart, the later one not after the scan |
| Greylister.SeenOnceStaysGrey | internal/grey/greylister.go:188-399 | a tuple delivered at most once is never whitelisted, however scans and checks interleave |
| Greylister.RetryIsOfTheTuple | internal/grey/greylister.go:188-297 | when no tuple part holds a zero byte, the deliveries counted for a tuple are of exactly that tuple |
| Greylister.WhitelistIsEarned | internal/grey/greylister.go:188-399 | every address a scan reports as white belongs to a retried tuple, was named by a white message, or passed SPF |
| Greylister.RetryIsRewarded | internal/grey/greylister.go:244-297 | of two deliveries of a new tuple that no trap, SPF or low-priority rule singles out, the first makes nothing passable, and after the second it is passable at a reading if and only if more than the pass time lay between them and the reading lies between the second delivery and the grey expiry |
| Greylister.PassableIsWhitelisted | adapters/db/kv/kv.go:180-211 | whenever an address without a live entry has a passable tuple, the scan puts that address on the whitelist of its family |
| GreyPromise.HarmlessFollow | internal/grey/greylister.go:188-399 | any number of harmless events, in any order, keeps a noted tuple noted and a retried one rewarded: its address white beyond the reading, or the tuple still about to pass |
| GreyPromise.OwnDelivery | internal/grey/greylister.go:244-297 | further deliveries of the tuple itself, early ones before the retry and any up to the reading after it, keep the promise |
| GreyPromise.ScanKeepsRewarded | adapters/db/kv/kv.go:180-211 | a scan between the retry and the reading, at any time, may re-key this tuple, another one of the address or none, and the promise holds |
| GreyPromise.RetryInWorld | internal/grey/greylister.go:188-399 | from any store, two deliveries of a new tuple more than the pass time apart, of an address not trapped at the reading, with harmless events between and after: the scan at the reading lists the address |
| GreyPromise.RetryInRunIsWhitelisted | internal/grey/greylister.go:188-399 | the same over every run, with other tuples of the address, earlier scans, further retries, white messages and SPF passes around the two deliveries |
| GreyPromise.SomeRunPromotes | internal/grey/greylister.go:188-297 | for every tuple there is a run after which a scan re-keys it, whenever the grey expiry leaves room for a retry |
| GreyPromise.SomeRetryIsInTime | internal/grey/greylister.go:188-297 | and a run in which such a retry takes place |
| Greylister.ScanAccounted | internal/grey/greylister.go:377-399 | a scan at any reading keeps every entry accounted for |
| IpRange.MaxBlock | internal/ip/ip.go:93-101 | the shortest prefix length the address is aligned to |
| IpRange.MaxDiff | internal/ip/ip.go:82-91 | the first prefix length, from 1, at which the start and the wrapped successor of the end differ |
| IpRange.BestOfBoth | internal/ip/ip.go:64-79 | the longer of both lengths gives the largest aligned block that fits, unless the range is the whole space |
| IpRange.RangeToCIDRs | internal/ip/ip.go:64-109 | ends on every pair of bounds; the blocks are aligned, follow one another from start to end, each the largest that fits, none of prefix length 0 |
| IpRange.ChainDisjoint | internal/ip/ip.go:64-79 | no address lies in two of the blocks |
| IpRange.ChainCovers | internal/ip/ip.go:64-79 | an address lies in some block if and only if it lies in the range |
| IpRange.Laminar | internal/ip/ip.go:54-109 | two aligned blocks that share an address are nested |
| IpRange.GreedyIsMinimal | internal/ip/ip.go:62-79 | no list of aligned blocks with the same addresses is shorter than one whose blocks cannot be enlarged in place |
| IpRange.MinimalExactly | internal/ip/ip.go:62-109 | the result is a shortest list if and only if the range is not the whole 32-bit space |
| IpRange.WholeSpaceIsLong | internal/ip/ip.go:62-109 | for the whole space the result has exactly 33 blocks where one would do |
| IpRange.MinimalRange | internal/ip/ip.go:62-109 | the method's own result covers exactly the range and is shortest outside that one case |
| Blacklist.SortIsPermutation | internal/blacklist/blacklist.go:145-160 | the sorted boundaries are a permutation of the added ones, by address |
| Blacklist.SortDepth | internal/blacklist/blacklist.go:145-160 | sorting keeps the black and white depth at every address |
| Blacklist.SweepDecides | internal/blacklist/blacklist.go:160-185 | at every address the running totals say whether it lies in a black range and in no white one, and are never negative |
| Blacklist.SweepGroup | internal/blacklist/blacklist.go:160-185 | handling all boundaries of one address keeps the sweep's picture of what is listed, and a region that closes started earlier |
| Blacklist.SweepEnd | internal/blacklist/blacklist.go:160-192 | at the end no region is open and the blocks are exactly the listed addresses |
| Blacklist.RangeList.AddRange | internal/blacklist/blacklist.go:116-131 | a range with its bounds in order is added as two boundaries; any other is ignored |
| Blacklist.RangeList.Collapse | internal/blacklist/blacklist.go:145-192 | for every sequence of calls: an address is covered if and only if it is in a black range and in no white one; the list of blocks is a shortest one and holds no prefix length 0 |
| Trie.Trie.Insert | internal/blacklist/trie.go:41-64 | the stored prefixes grow by exactly the masked one; true exactly when it was new; families never mix |
| Trie.Trie.Reach | internal/blacklist/trie.go:41-60 | walking down makes the missing nodes of the path and no prefix becomes stored by it |
| Trie.Trie.Contains | internal/blacklist/trie.go:67-85 | true if and only if some stored prefix of the address's family covers it |
| Trie.Trie.Len | internal/blacklist/trie.go:88 | the number of distinct stored prefixes |
| Trie.NoPath | internal/blacklist/trie.go:67-85 | below a missing node there is none, so stopping early loses no match |
| Daemon.BitsArePrefixes | internal/blacklist/trie.go:41-85 | two addresses agree on their first n bits if and only if they lie in the same block of length n |
| Daemon.PrefixCovers | internal/ip/ip.go:131-152 | a prefix path of an address is the block's prefix if and only if it has the block's length and the block holds the address |
| Daemon.Install | internal/app/greyd/daemon.go:160-182 | the new trie stores exactly the prefixes of the blocks that are not of length 0 |
| Daemon.MatchIsCover | internal/blacklist/blacklist.go:81-111 | for collapsed blocks a stored prefix matches exactly the covered addresses; none is lost to the length rule |
| Daemon.CollapsedListMatches | internal/app/greyd/daemon.go:160-182 | end to end: the list built from the collapsed ranges matches an address if and only if it is in a black range and in no white one |
| Seccomp.HeaderMeaning | internal/sandbox/sandbox_linux.go:238-243 | a foreign architecture is killed before anything else |
| Seccomp.DenyMeaning | internal/sandbox/sandbox_linux.go:225-255 | under BPF semantics the deny program refuses exactly the listed numbers, no jump being cut to 8 bits |
| Seccomp.Deny | internal/sandbox/sandbox_linux.go:218-255 | a program comes out if and only if the list has at most 250 numbers, and it means what the list says |
| Seccomp.BlockMeaning | internal/sandbox/sandbox_linux.go:267-295 | from any place in a block of at most 200 the rest of the block allows its numbers and falls through otherwise |
| Seccomp.BlocksMeaning | internal/sandbox/sandbox_linux.go:267-295 | the blocks of a list of any length allow exactly its numbers |
| Seccomp.AllowMeaning | internal/sandbox/sandbox_linux.go:267-295 | under BPF semantics the allow program allows exactly the listed numbers |
| Seccomp.Allow | internal/sandbox/sandbox_linux.go:267-295 | the nested loops give a program that means what the list says, for a list of any length |
| SmtpText.NormalizeEmail | internal/core/tuple.go:40-55 | the loop gives the normalised address |
| SmtpText.NormalizeSafe | internal/core/tuple.go:40-55 | a normalised address is lower case, within the length limit, free of the stripped characters, and free of spaces if the input was |
| SmtpText.NormalizeTwice | internal/core/tuple.go:40-55 | normalising twice is normalising once |
| SmtpText.NormalizeExactly | internal/core/tuple.go:40-55 | normalising keeps, in order and as small letters, the first 1023 characters that are no backslash, quote or angle bracket |
| SmtpText.MatchExactly | internal/smtp/state.go:31-35 | a line starts with a command if and only if each of its letters stands there, capital or small |
| SmtpText.SpaceCodes | internal/smtp/state.go:39-62 | the white space that ends a field is the six ASCII blanks |
| SmtpText.GetHeloIs | internal/smtp/state.go:37-48 | the greeting is the first word behind the four letters of the command |
| SmtpText.GetAddrIs | internal/smtp/state.go:50-62 | the address is the first word behind the first colon, and empty without a colon |
| SmtpText.FieldPieces | internal/smtp/state.go:39-62 | every text is blanks, a word and a rest as these two say, so they cover every line |
| SmtpDialogue.Conn.constructor | internal/smtp/conn.go:360-388 | a new connection is open and has its banner queued, or waits to read a PROXY header |
| SmtpDialogue.Conn.NextState | internal/smtp/state.go:66-285 | the switch with its fallthroughs does, for every state, line and PROXY verdict, what `SmtpCommands.CommandAnswered`, `SmtpCommands.ProxyAnswered`, `SmtpDialogue.WrittenSound` and `SmtpBody.BodyEnds` describe |
| SmtpDialogue.Conn.ReadBody | internal/smtp/state.go:235-265 | the loop over the lines of one read follows the message text as the function that `SmtpBody.BodyEnds` describes |
| SmtpCommands.CommandAnswered | internal/smtp/state.go:66-285 | a line read where commands are expected gets the one reply, next state, arguments and bad-command count of a table by state and command; a recipient adds exactly one envelope, of the greeting and sender held before and the recipient named, if and only if the client is greylisted and both addresses are there |
| SmtpCommands.ProxyAnswered | internal/smtp/state.go:66-120 | a PROXY header is answered with the banner, the client then having the standing of its real address, or with a rejection |
| SmtpCommands.EnvelopesExactly | internal/smtp/state.go:66-285 | in every run the envelopes passed on are exactly those made of the commands taken so far: one for each recipient passed on, with the last greeting and sender before it, in order |
| SmtpBody.BodyEnds | internal/smtp/state.go:235-265 | from any place in the text, one read ends the message if and only if a line is a single dot or the lines behind the headers reach ten; otherwise exactly those lines are counted and the headers are over if and only if their end was read |
| SmtpBody.BodyChunks | internal/smtp/state.go:235-265 | how the text is cut into reads does not matter |
| SmtpBody.MessageEndsExactly | internal/smtp/state.go:66-285 | in every run a read of message text leads to the last reply if and only if it says QUIT, holds the dot or brings the body to ten lines, and to more reading otherwise |
| SmtpBody.BodyIsShort | internal/smtp/state.go:235-265 | once past the headers any conversation leaves the text after at most ten more reads, whatever they hold |
| SmtpDialogue.LineSound | internal/smtp/state.go:66-285 | each read outside the message body gets exactly one reply and leaves the connection open |
| SmtpDialogue.WrittenSound | internal/smtp/state.go:66-285 | a reply fully written leads to the one read state it belongs to, or closes |
| SmtpDialogue.RunSound | internal/smtp/state.go:66-285 | in every reachable state exactly the direction its state calls for is pending, the remembered state leads back to the current read state, at most the allowed number of bad-command replies and at most one final rejection were queued |
| SmtpDialogue.NeverStuck | internal/smtp/conn.go:445-462 | an open connection always has exactly one direction pending, and closes only when broken or after its last reply; the branches for stuck and illegal states are never taken |
| SmtpDialogue.RejectedReturns | internal/smtp/state.go:66-285 | after a rejected command is answered the connection reads in the very state it was in |
| SmtpDialogue.EnvelopesAreTokens | internal/smtp/state.go:39-62 | whatever the lines, every envelope passed on has fields without white space, a sender and a recipient |
| SmtpDialogue.EnvelopesAreShort | internal/smtp/state.go:39-62 | with a limit on one read, no envelope of any run has a field beyond it, nor an address beyond its own limit |
| SmtpWriter.MakeCrlf | internal/smtp/conn.go:479-488 | the loop puts a carriage return before each bare newline |
| SmtpWriter.CrlfIsNormal | internal/smtp/conn.go:479-488 | every newline of the result follows a carriage return |
| SmtpWriter.CrlfFixedExactly | internal/smtp/conn.go:479-488 | a text is left alone if and only if it already has this form |
| SmtpWriter.CrlfKeepsLines | internal/smtp/conn.go:479-488 | the lines are the same before and after |
| SmtpWriter.Writer.SetOut | internal/smtp/conn.go:467-477 | a queued reply starts unsent, in network form |
| SmtpWriter.Writer.HandleWrite | internal/smtp/conn.go:626-672 | one byte when stuttering, the rest otherwise, with an added carriage return only where one is missing; closed exactly by a failed write |
| SmtpWriter.Writer.WriteReply | internal/smtp/conn.go:626-672 | for every pattern of stuttering the client receives exactly the queued reply |
| SmtpReply.ExpandMessage | internal/smtp/reply.go:35-70 | the loop with its saved escape character expands as the function over the message does |
| SmtpReply.DocumentedExactly | internal/smtp/reply.go:29-70 | a message expands by the documented rules if and only if no open escape character in it is followed by the other one |
| SmtpReply.MixedPairLosesOne | internal/smtp/reply.go:41-48 | the two such pairs give their first character where both are documented |
| SmtpReply.ExpandQuoted | internal/smtp/reply.go:29-70 | every text can be written as a message that expands to it, whatever the address and whatever follows |
| SmtpReply.FormatReply | internal/smtp/reply.go:72-98 | the reply is the lines of all messages in order, each with the code and a dash, or a blank on the last |
| SmtpReply.LinesAreTheText | internal/smtp/reply.go:79-84 | the lines of a message put back together are its text with its last newline, and there is at least one |
| SmtpReply.EveryListSpeaks | internal/smtp/reply.go:76-86 | every list that matched contributes at least one line |
| SmtpReply.AllLinesInOrder | internal/smtp/reply.go:76-86 | the lines of several messages are those of each, one message after the other |
| SmtpReply.ReplyRoundTrip | internal/smtp/reply.go:72-98 | a client that takes the code off every line and reads up to the first one without a dash reads back exactly these lines, whatever follows |
| Accounting.Counters.Reserve | internal/smtp/conn.go:214-233 | a slot is taken if and only if both limits allow it, as `Accounting.AdmittedExactly` says in terms of the live connections |
| Accounting.Counters.MarkBlack | internal/smtp/conn.go:235-243 | counts one black connection |
| Accounting.Counters.ReassignSource | internal/smtp/conn.go:246-262 | moves one slot between sources and changes nothing else |
| Accounting.Counters.Remove | internal/smtp/conn.go:264-278 | gives back exactly what a connection held |
| Accounting.RunConserved | internal/smtp/conn.go:210-278 | under every interleaving of accept, marking, PROXY move, rematch and close: clients are the live connections and within the limit, black clients those counted black, each source's entry its holders, with no zero entries |
| Accounting.CountersReturnToEmpty | internal/smtp/conn.go:360-442 | no counter is ever negative and all are empty once every connection has closed |
| Accounting.AdmittedExactly | internal/smtp/conn.go:214-233 | in every run a new connection is admitted if and only if the live ones are fewer than the limit, where there is one, and those of its source fewer than the cap, where there is one; a refused one changes nothing |
| Accounting.StandingExactly | internal/smtp/state.go:343-365 | whether a connection is treated as blacklisted is what its last match against the lists found |
| Accounting.CapExactly | internal/smtp/state.go:300-365 | a step keeps every source within its cap unless, and only unless, it moves a connection onto another source that is full |
| Accounting.CapWithoutProxy | internal/smtp/conn.go:214-233 | without PROXY moves the cap holds in every run |
| Accounting.ProxyExceedsCap | internal/smtp/state.go:300-346 | a concrete run with PROXY moves passes the cap |
| IpcText.QuotedPlain | internal/ipc/codec.go:437-459 | quoted text without quotes and backslashes is read back unchanged, whatever follows |
| IpcText.NumberDec | internal/ipc/codec.go:421-435 | a printed number in range is read back |
| IpcText.ListJoin | internal/ipc/codec.go:382-419 | a printed list is read back item by item |
| IpcText.ValueRoundTrip | internal/ipc/codec.go:382-459 | every printable value is read back, and never starts like a blank or a comment |
| IpcText.ParsePrinted | internal/ipc/codec.go:313-336 | scanning printed assignments gives the table of their values, a later one of a name winning |
| IpcText.GapSkips | internal/ipc/codec.go:344-357 | blanks, separators and comments, in any number and order, are skipped |
| IpcText.SkipStops | internal/ipc/codec.go:344-357 | and skipping stops where neither stands |
| IpcScanner.Scanner.SkipSpaces | internal/ipc/codec.go:344-357 | skips exactly blanks, separators and comments |
| IpcScanner.Scanner.Name | internal/ipc/codec.go:371-380 | reads the longest run of name characters |
| IpcScanner.Scanner.ReadNumber | internal/ipc/codec.go:421-435 | reads a number in range, and otherwise puts the position back |
| IpcScanner.Scanner.ReadQuoted | internal/ipc/codec.go:437-459 | reads a quoted string with its escapes, or fails exactly when it does not end |
| IpcScanner.Scanner.ReadList | internal/ipc/codec.go:390-412 | reads the items of a list, or fails exactly when the list is malformed |
| IpcScanner.Scanner.ReadValue | internal/ipc/codec.go:382-419 | reads one value or fails, as the function on the unread text does |
| IpcScanner.Parse | internal/ipc/codec.go:313-336 | the scanner loop ends on every text and computes the assignment table, or fails on exactly the malformed ones |
| IpcScanner.Decode | internal/ipc/codec.go:178-306 | decodes every body to the message, with its statistics where it carries any, or to the error that classification of its table gives |
| IpcCodec.SanitizePlain | internal/ipc/writer.go:101-111 | a sanitised value has no quote or backslash and no new character, and is unchanged if and only if it had none |
| IpcCodec.TableDecodes | internal/ipc/codec.go:186-306 | the table of every sent frame is classified as its own message, no kind taken for another |
| IpcCodec.RoundTrip | internal/ipc/writer.go:142-202 | each of the six frames decodes to the message sent, its text sanitised |
| IpcReports.QuotedUnescapes | internal/ipc/codec.go:437-459 | quoted text is read with every backslash dropped and the character behind it kept, whatever that is |
| IpcReports.NumberedExactly | internal/ipc/codec.go:186-306 | a table with a numeric type is a message if and only if the type is one of the three and its fields are there; otherwise the first missing field is named |
| IpcReports.BlacklistRoundTrip | internal/ipc/writer.go:113-140 | a blacklist arrives with its name, its addresses and its message with the escapes resolved |
| IpcReports.WriteBlacklist | internal/ipc/writer.go:113-140 | writes that frame with a prefix length added to every address without one, and nothing for an empty list |
| IpcReports.ScanStatsRoundTrip | internal/ipc/writer.go:226-231 | each count of a scan arrives under its own name |
| IpcReports.StatsRequestRoundTrip | internal/ipc/writer.go:204-207 | a request for statistics arrives as one |
| IpcReports.StatsReplyRoundTrip | internal/ipc/writer.go:209-224 | every counter arrives under its name, and the blacklists with them |
| IpcFrame.FrameExactly | internal/ipc/frame.go:61-86 | a body of whole lines comes back from its frame if and only if none of its lines reads as the terminator and it fits the limit |
| IpcFrame.TerminatorExactly | internal/ipc/frame.go:61-86 | a line ends a frame if and only if it is two percent signs and then nothing but carriage returns and newlines |
| IpcFrame.TrimIs | internal/ipc/frame.go:61-86 | trimming takes off all carriage returns and newlines at the end and nothing else |
| IpcFrame.UnterminatedRead | internal/ipc/frame.go:61-86 | a stream that ends without a terminator still gives what it holds as a last frame, if it fits |
| IpcFrame.StreamRoundTrip | internal/ipc/frame.go:57-96 | for every list of messages without newlines and within the limit, reading their frames gives exactly these messages in order and then the end of the stream |
| IpcFrame.GreyBodySize | internal/ipc/writer.go:144-149 | a grey frame is at most 57 characters longer than its fields |
| IpcFrame.Reader.ReadLine | internal/ipc/frame.go:61-64 | takes exactly the first line off the stream |
| IpcFrame.Reader.NextRaw | internal/ipc/frame.go:61-86 | the reading loop computes the frame, the end or the overflow, and leaves the rest unread |
| IpcFrame.SanitizeText | internal/ipc/writer.go:101-111 | drops exactly quotes and backslashes |
| IpcFrame.Builder.Int | internal/ipc/writer.go:54-57 | appends one integer assignment to the body, negative numbers with their sign |
| IpcFrame.Builder.SafeStr | internal/ipc/writer.go:69-71 | appends one sanitised string assignment |
| IpcFrame.WriteGrey | internal/ipc/writer.go:144-149 | writes the grey frame the round trip is about |
| IpcFrame.WriteGreyFromSync | internal/ipc/writer.go:153-158 | writes the frame of a synced tuple, marked not to be sent on |
| IpcFrame.WriteAddr | internal/ipc/writer.go:162-171 | writes the frame of a white or trap entry |
| IpcFrame.WriteReplace | internal/ipc/writer.go:174-187 | writes the frame of a firewall set, its list built item by item |
| IpcFrame.WriteNat | internal/ipc/writer.go:191-196 | writes the frame of a NAT lookup |
| IpcFrame.WriteDst | internal/ipc/writer.go:199-202 | writes the frame of its answer |
| IpcClient.EnvelopesArrive | internal/smtp/state.go:166-187 | for any runs of any number of clients within the largest configurable read, and any interleaving of their frames on the shared pipe, the greylister reads one message a frame and then the end, and those of each connection are exactly its envelopes in order |
| SyncWire.EncodeGrey | internal/sync/wire.go:103-132 | the buffer filled field by field is the signed packet of the tuple |
| SyncWire.EncodeAddr | internal/sync/wire.go:135-148 | the same for a white or trap entry |
| SyncWire.PutHeader | internal/sync/wire.go:150-155 | writes the header and leaves the place of the signature zero |
| SyncWire.SignBuffer | internal/sync/wire.go:96-101 | writes the digest of the whole packet into its place |
| SyncWire.Decode | internal/sync/wire.go:194-268 | ends on every byte string with all reads in bounds and gives the decoding that the functions over the packet define |
| SyncWire.CStrOf | internal/sync/wire.go:271-276 | a terminated string is read back if and only if it holds no zero byte |
| SyncWire.GreyRoundTrip | internal/sync/wire.go:103-268 | for any digest function and any packet that fits, decoding gives back counter and tuple if and only if no string holds a zero byte |
| SyncWire.AddrRoundTrip | internal/sync/wire.go:135-268 | decoding an address packet gives back its counter, kind, address and expiry |
| SyncWire.WordBytes | internal/sync/wire.go:94-160 | words are written most significant byte first, cut to their width |
| SyncWire.GreyLayout | internal/sync/wire.go:94-160 | the bytes of a tuple's packet, place by place: version, family, length, counter, digest of the packet with zeros in its place, record, end |
| SyncWire.GreyRecord | internal/sync/wire.go:103-132 | the bytes of its record: kind, length, time, address, the three lengths, then sender, recipient and greeting, each terminated, and zero padding |
| SyncWire.AddrLayout | internal/sync/wire.go:135-160 | the same for a white or trap entry: kind, length, time, expiry, address, end |
| SyncWire.SignedOnly | internal/sync/wire.go:194-268 | nothing is taken from a packet unless version, family and length are right and the digest is that of the packet with zeros in its place; then its records decide |
| Replay.AcceptedOnce | internal/sync/engine.go:348-402 | between resets no counter is accepted twice |
| Replay.RememberedWasAccepted | internal/sync/engine.go:348-402 | what is remembered at any place of the sequence was accepted earlier, with no reset since |
| Replay.RefusedExactly | internal/sync/engine.go:348-402 | a counter is refused if and only if it repeats one accepted since the last reset or lies a window or more below one, and is not a small one below the window, which means a restart; so no unseen counter in the window is refused |
| Replay.WindowExactly | internal/sync/engine.go:349-355 | the window is the configured number capped at 64 if and only if that number fits 32 bits or leaves at least 64 when cut to them |
| Replay.MultipleSwitchesOff | internal/sync/engine.go:349-355 | every multiple of 2^32 leaves no window |
| Replay.AdvanceWindow | internal/sync/engine.go:366-401 | one turn on the 64-bit window decides and moves as the unbounded memory does |
| Replay.Engine.Evict | internal/sync/engine.go:490-502 | removes one peer, one heard of least recently |
| Replay.Engine.AcceptCounter | internal/sync/engine.go:348-402 | accepts everything without a window or a sender address; otherwise decides exactly as the unbounded memory of that peer, notes the reading for it, updates no other peer, forgets a peer only by eviction from a full table, and never exceeds 1024 peers |
| Replay.Engine.AcceptAll | internal/sync/engine.go:348-402 | a whole sequence of counters of a peer is accepted place by place as the sequence theorems say |
| Loader.Config.AddIncludes | internal/config/config.go:206-218 | afterwards each match is processed or queued, and nothing else was queued |
| Loader.Config.PopInclude | internal/config/config.go:234-241 | takes the front of the queue |
| Loader.Config.LoadFile | internal/config/loader.go:31-58 | ends on every include graph; afterwards the queue is drained, or some reachable file cannot be read |
| Loader.Config.LoadFresh | internal/config/loader.go:31-58 | succeeds if and only if every reachable file can be read, and then parsed exactly the reachable files, each once |

## Left out

- In runs the verdicts of the trap check and of SPF are arbitrary: the greylisting results hold for every verdict, not only for the ones `TrapCheck` would give.
- Store entries are kept decoded; the codec that makes this harmless is proved in `Keys`.
- 64-bit overflow of clock readings added to expiry times.
- Address text: parsing, canonical forms, dotted quads and IPv6 zones. Address families are an argument of the scan, and IPv4 addresses are numbers or bit sequences.
- Masks are modelled by division by a power of two, and the 64-bit replay bitmap as 64 booleans.
- Iteration over other buckets than the entries.
- The SQL stores, whose scan runs inside a database engine.
- Bolt's transactions, file locking and cursor implementation; a cursor is an ascending walk over the bucket.
- The firewall adapters, Landlock, pledge, privilege dropping, process spawning and packet capture.
- Installing a seccomp program and the kernel's limit on its length.
- Reading from an SMTP client: line limits, timeouts and the text of a PROXY header, whose verdict is an input; also stutter timing, receive windows and logging.
- Short writes that report no error.
- Cumulative totals and the summary of matched lists.
- The order in which the statistics writer puts its counters; any order is covered. The check of address text that decides which prefix length a blacklist entry gets is an argument. A negative address family in a firewall frame, which no caller sends and the frame grammar cannot read.
- Frame readers over a stream that fails other than by ending, error positions, and text that is not valid UTF-8.
- Unicode white space and case folding; text is ASCII where the commands look at it.
- HMAC-SHA1 is any function from packets to digests; sync packets of more than 65535 bytes, whose length field wraps.
- Parsing of configuration files and file globbing: a file is the list of files its includes match. Loading a second root into the same configuration.
- IpcClient.EnvelopesArrive: takes address texts to be single lines of at most 1024 characters, since printing addresses is not part of the model.
- SmtpDialogue.RunSound: counts replies queued, not bytes sent; `SmtpWriter` covers those.
