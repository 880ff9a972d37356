# go-caskdb DiskStore in Dafny

This project models the storage engine of go-caskdb, `DiskStore`. It is a
log-structured hash table in the style of Bitcask:

- Every `Set` appends one record frame to a single data file.
- An in-memory `keyDir` maps each key to the timestamp, byte offset and total
  size of its latest frame.
- `writePosition` is the offset at which the next frame goes.
- Opening an existing file rebuilds `keyDir` by scanning the file from offset 0
  until the first record that cannot be read completely.

The project has two modules.

- `Codec` (`codec.dfy`) covers the record frame
  `[timestamp:4][keySize:4][valueSize:4][key][value]`:
  - the three header integers are unsigned 32-bit little-endian;
  - it defines encoding and decoding of the header and of the whole frame;
  - it proves both round trips, that decoding reads only the frame's own
    bytes, and that a frame cut short never decodes.
- `CaskDb` (`disk_store.dfy`) has three parts:
  - The store as values: a `State` holds the file's bytes, `keyDir` and
    `writePosition`. `Replay` is what the recovery scan computes. `GetSpec`
    and `SetSpec` are the two operations.
  - The properties of the store:
    - it stays well-formed, meaning the index and cursor are exactly what
      replaying the log rebuilds;
    - Get after Set returns the value, and other keys are unaffected;
    - after any sequence of writes, Get returns the last value written;
    - recovery rebuilds the store that wrote the log;
    - recovery ignores a record torn by a crash mid-append.
  - The `DiskStore` class: its fields `log`, `keyDir` and `writePosition` are
    updated in place by `InitKeyDir`, `Set` and `Write`. Each method is proved
    against the value-level functions above.

Keys and values are byte sequences. A Go `string` is a byte string.
The method `BooksScenario` replays the usage example of disk_store.go:47-51:
it sets "othello" to "shakespeare" on a new store, reads it back, and reads
the empty value for "hamlet".

## Model

| member | source | states |
|---|---|---|
| Codec.EncodeKV | disk_store.go:99 | the frame is exactly header size (12) + key length + value length bytes long, the size that `Set` records as `totalSize` |
| Codec.DecodeKV | disk_store.go:93 | a frame that decodes holds at least header + key + value bytes, and its key and value lengths fit the 32-bit size fields |
| Codec.DecodeEncodeKV | disk_store.go:93-99 | decoding the frame of (timestamp, key, value) gives back exactly that timestamp, key and value, including empty keys and values |
| Codec.EncodeDecodeKV | disk_store.go:93 | any byte string that decodes is the encoding of what it decodes to, followed by bytes the decoder ignores |
| Codec.DecodeKVPrefix | disk_store.go:87-93 | decoding depends only on the frame's own bytes, so reading exactly `totalSize` bytes at the entry's position gives the same record as decoding from that position onward |
| Codec.TornFrameFails | disk_store.go:126-144 | every strict prefix of a frame fails to decode: either the header is incomplete or the sizes it declares run past the end |
| Codec.DecodeHeader | disk_store.go:134 | the header parse succeeds if and only if at least 12 bytes are given |
| Codec.EncodeDecodeHeader | disk_store.go:134 | re-encoding a parsed header reproduces the 12 bytes it was read from |
| Codec.DecodeEncodeHeader | disk_store.go:134 | parsing an encoded header gives back its timestamp, key size and value size, whatever follows it |
| Codec.DecodeHeaderPrefix | disk_store.go:126-134 | the header parse reads only the first 12 bytes |
| Codec.DecodeEncodeU32 | disk_store.go:134 | every 32-bit unsigned integer survives a little-endian encode and decode |
| Codec.EncodeDecodeU32 | disk_store.go:134 | every 4 bytes survive a little-endian decode and encode |
| Codec.EncodeHeader | disk_store.go:99 | an encoded header is always exactly 12 bytes long |
| CaskDb.RecordAt | disk_store.go:125-144 | the complete record starting at an offset, if any; a record found there lies entirely inside the file (RecordAtReads proves it is what the loop reads) |
| CaskDb.Replay | disk_store.go:125-149 | the recovery scan starts at the given offset and stops inside the file |
| CaskDb.ReplayStops | disk_store.go:125-144 | the scan stops exactly where no complete record starts, and it stops at its starting offset if and only if no record starts there |
| CaskDb.RecordAtReads | disk_store.go:126-144 | the record at an offset is what the loop reads there: none when the header, key or value read comes up short, otherwise the header's timestamp with exactly keySize key bytes and valueSize value bytes |
| CaskDb.ReplayIndexSound | disk_store.go:145-147 | every index entry the scan creates points, inside the file, at a complete record of that key with that timestamp and total size |
| CaskDb.WellformedIndexSound | disk_store.go:82-93 | in a well-formed store every index entry addresses a complete record of its own key |
| CaskDb.ReplayExtend | disk_store.go:97-103 | appending bytes after a fully replayed log leaves the replay of the old part unchanged; it continues from the old end with the index built so far |
| CaskDb.ReplayTruncate | disk_store.go:125-147 | bytes after the scan's stopping point never affect the scan |
| CaskDb.RecoverAsWritten | disk_store.go:66-79 | opening an existing file as the source does it (initKeyDir at 122-150, then the reopen at 73): the log keeps every byte of the file, and the index and cursor are those of `Recover`; TornTailBreaksGetAsWritten shows the store it gives need not be well-formed |
| CaskDb.Recover | disk_store.go:122-150 | the corrected recovery of the Findings row: the log is the file cut back to the cursor, so the cursor is the log's length; RecoverWellformed, RecoverOfWellformed and RecoverIgnoresTail state its properties |
| CaskDb.EmptyWellformed | disk_store.go:66-67 | a new store (empty file, empty index, cursor 0) is well-formed |
| CaskDb.RecoverWellformed | disk_store.go:122-150 | for the corrected recovery `Recover` of the Findings row, which discards the torn tail: recovering any file gives a well-formed store whose log is the file up to the end of its last complete record, with no complete record after that point |
| CaskDb.RecoverOfWellformed | disk_store.go:122-150 | recovering the log of a well-formed store gives that same store back |
| CaskDb.RecoverIgnoresTail | disk_store.go:126-144 | for the corrected recovery `Recover` of the Findings row: a tail that does not start with a complete record is ignored: the store recovers as if the tail were absent |
| CaskDb.RecoverAfterTornAppend | disk_store.go:113-120 | for the corrected recovery `Recover` of the Findings row: a crash in the middle of appending a frame leaves a file that recovers to the store as it was before that Set |
| CaskDb.GetSpec | disk_store.go:81-95 | Get on a store value: an unknown key gives the empty value; a known key reads totalSize bytes at its position and returns the decoded value, which fits inside those bytes; a short read (89-92) or a frame that does not decode (93) is `ReadPanic`; GetWellformed, SetGetRoundTrip, SetGetOthers and ApplyWritesGet state its properties |
| CaskDb.SetSpec | disk_store.go:97-103 | Set on a store value: the log grows by the frame size and keeps every earlier byte, the cursor advances by that size, and the key set gains exactly the written key; SetWellformed, SetGetRoundTrip and SetGetOthers state its properties |
| CaskDb.GetWellformed | disk_store.go:81-95 | on a well-formed store Get never panics; an unknown key gives the empty value; a known key's entry addresses a complete record of that key |
| CaskDb.SetWellformed | disk_store.go:97-103 | Set keeps the store well-formed: replaying the longer log rebuilds the updated index and cursor |
| CaskDb.SetGetRoundTrip | disk_store.go:81-103 | after Set(key, value), Get(key) returns value |
| CaskDb.SetGetOthers | disk_store.go:81-103 | Set(key, ...) leaves Get of every other key unchanged |
| CaskDb.LastWriteWins | disk_store.go:97-103 | after two Sets of the same key, Get returns the second value, read from the second record, which sits right after the first |
| CaskDb.ApplyWrites | disk_store.go:97-103 | a sequence of Sets grows the file and the cursor by the total size of their frames and adds at most one key per write |
| CaskDb.ApplyWritesGet | disk_store.go:81-103 | after any sequence of Sets the store is well-formed, and Get returns the last value written to the key, or what it returned before if no write touched the key |
| CaskDb.RecoveryAgreesWithWrites | disk_store.go:122-150 | replaying the file that a sequence of Sets wrote on a new store rebuilds exactly that store, and Get on it returns each key's last value, or the empty value |
| CaskDb.TornTailBreaksGetAsWritten | disk_store.go:66-79 | as written, after a file holding one stray byte is reopened, a Set followed by a Get of the same key panics |
| CaskDb.RecoverThenSetGet | disk_store.go:66-103 | when the torn tail is discarded on recovery, a Set after recovering any file reads back |
| CaskDb.DiskStore.constructor | disk_store.go:66-79 | a new handle is well-formed: it is empty when there is no file, and otherwise it is the corrected recovery `Recover` of the existing file (see Findings), whose index and cursor are those the source computes |
| CaskDb.DiskStore.InitKeyDir | disk_store.go:122-150 | the scan loop leaves the index and cursor that Replay computes; as the corrected recovery of the Findings row, it also cuts the log back to the end of its last complete record, which the source does not do |
| CaskDb.DiskStore.ReadRecord | disk_store.go:125-144 | one pass of the scan's reads gives exactly the record at that offset, or none |
| CaskDb.DiskStore.Get | disk_store.go:81-95 | returns the value of the key's latest record, or the empty value for an unknown key |
| CaskDb.DiskStore.Set | disk_store.go:97-103 | Set appends the frame, points the key at the old cursor with the frame's size, and advances the cursor. It keeps the store well-formed. Get then returns the new value for that key and the old result for every other key |
| CaskDb.DiskStore.Write | disk_store.go:113-120 | the data file afterwards is the old file followed by the given bytes |

## Left out

- Close (disk_store.go:105-111) is not modelled. It only syncs and closes the OS file, and the model has no OS file.
- File plumbing is not modelled:
  - `isFileExists`, `os.OpenFile`, `os.Open` and `Seek` are out. The constructor receives the existing file's bytes, or `None` when there is no file.
  - The error return of `os.OpenFile` (disk_store.go:74-76) is not modelled.
  - Get reads the `log` sequence instead of seeking.
- Write failures are not modelled. `write` panics when the file write or fsync fails (disk_store.go:113-120); the model assumes both succeed. Durability and fsync ordering are not modelled either.
- The clock is a parameter. `time.Now` (disk_store.go:98) is replaced by the `timestamp` argument of `Set`.
- The `fmt.Printf` in the scan loop (disk_store.go:148) is console output and is left out.
- Running out of memory is not modelled. This covers `make` with a huge declared key or value size during the scan.
- `encodeKV`, `decodeKV`, `decodeHeader` and `NewKeyEntry` live in format.go, which is not part of this model. The codec follows the frame layout the store relies on, with the three header integers as 32-bit little-endian.
- Where the documentation and the code disagree, this model follows the code:
  - Get of an unknown key returns the empty value, not a separate "not found" result. An empty value and a missing key therefore read the same.
  - A frame that does not decode, or a short read, is a panic (`ReadPanic` in `GetSpec`).
- CaskDb.DiskStore.Set: does not model the 32-bit wrap-around of `writePosition` (disk_store.go:102). It requires the new cursor to stay below 2^32.
- CaskDb.SetSpec: like Set, requires `writePosition` plus the frame size to stay below 2^32.
- CaskDb.DiskStore.InitKeyDir: does not model the wrap-around of `writePosition` in the scan (disk_store.go:147). It requires the file to be shorter than 2^32 bytes.
- CaskDb.DiskStore.constructor: requires an existing file to be shorter than 2^32 bytes, for the same reason.
- CaskDb.DiskStore.InitKeyDir: cuts the log back to the end of the last complete record; the source keeps the torn tail (see Findings).
- CaskDb.DiskStore.constructor: opens an existing file with the corrected recovery, so its log has no torn tail; the source keeps it (see Findings). RecoverAsWritten models the source's behaviour.
- CaskDb.DiskStore.Get: requires the class invariant `Valid()`, which every constructor and Set establishes. The panic branch of the source is reachable only in `GetSpec`, and GetWellformed proves it unreachable on a well-formed store.
- Concurrent use of one handle is not modelled; the source has no locking.

## Findings

| source | as written | input that shows it | evidently intended | confidence | as-written member | corrected member |
|---|---|---|---|---|---|---|
| disk_store.go:73 | initKeyDir stops at the first incomplete record but leaves its bytes in the file. The file is then reopened with O_APPEND, so the next Set's frame lands after those stray bytes, while keyDir records it at writePosition, the end of the last complete record (disk_store.go:101-102). | A data file holding the single byte 0, then Set of the empty key with the value [1], then Get of the empty key: the 13 bytes read at offset 0 declare a 256-byte value, so decoding the frame panics. | Recovery discards the torn tail, so writePosition equals the file length and every entry points at its own frame. | not executed | CaskDb.TornTailBreaksGetAsWritten | CaskDb.RecoverThenSetGet |
