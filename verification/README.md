# A verified model of the engine's core

This project models the core of the `crates/engine` BitTorrent engine and proves what that code
promises. Each module follows one component of the source; code that updates state in place is a
class or a method with loops, code made of expressions is functions, and protocols between threads
are state machines over single lock sections or queue operations.

- `Bits`: wire bitfields as sets of piece indices.
- `Spans`, `Wanted`, `Progress`, `DiskIo`: byte geometry. A torrent is a flat stream laid over files
  and cut into pieces; reads, writes that may fail midway, hashing, rechecks, the wanted bitfield and
  per-file progress are proved against that stream.
- `HotTorrent` (modules `Possession`, `HotTorrents`), `Picking`, `PeerAvailability`, `HaveHub`: the
  in-memory torrent. Every cached counter equals the simple set it caches after every call; the
  piece picker is proved for every outcome of its random choices and with the real claims;
  availability and HAVE fan-out are proved over every run of connections.
- `PieceLog`, `Catalog`, `Recheck`: the compact stored rows, the grouped piece batch, and the way from
  the disk through the hash pool and the catalog into memory.
- `Rc4`, `Dh`, `BigEndian`, `Crypto`, `Mse`, `Messages`, `ReadCursor`: the encryption handshake from raw
  random bytes to peer messages taken off a decrypted wire.
- `Bencode`, `BencodeLaws`, `BencodeWire`, `BencodeCodec`, `Paths`, `PathText`, `Metainfo`, `MetainfoCases`: the
  codec of BEP 3 (section "bencoding"), its cursor loops, the infohash slice, path components and where
  they lead, the checks that make a layout well formed, and concrete torrents at their edges.
- `Relocate`: moving payload between roots over directory entries and inodes, with every
  intermediate disk recorded.
- `Control`, `ControlWorkers`: the control plane's threads and queues.
- `RateLimit`: the token bucket over real numbers.
- `Wrappers`, `Sequences`, `Hashing`: results, facts about sequences, and the 20-byte hash they share.

Conventions. SHA-1 is an arbitrary function with 20-byte output, and random bytes, clock readings,
the outcome of a claim callback and whether a hard link is possible are parameters or
nondeterministic. Each method of the hot torrent is one atomic step. Offsets and sizes are unbounded
integers except where the source's width decides an outcome (the casts of the metainfo reader, the
16-bit lengths of the handshake, the 16-bit availability counters, the 64-bit length arithmetic of
the bencode decoder), which is written out; the total of the file sizes wraps as in a release build.

Where a promise of the source fails, the model keeps the code and states exactly when it holds:

- The availability count of a piece is exact over a run exactly when the piece never had more than
  65535 advertisers (`AvailabilityCountsAdvertisers`); the next one is lost
  (`PastTheBoundACountIsLost`), and a run gets there (`BoundIsReached`).
- The raw slice behind the infohash decodes to the stored `info` exactly when the first and the last
  `info` of the root carry the same value (`SliceAgreesExactly`); an accepted torrent where they do
  not is in `ParseRepeated`.
- A bencode string length for which cursor plus length overflows panics instead of failing; the exact
  lengths at any cursor are in `LengthOutcomes`, a witness in `OverflowWitness`.
- An accepted torrent has a well-formed layout exactly when its sizes sum below 2^64 and it needs
  fewer than 2^32 pieces (`AcceptedLayout`); one that does not is in `ParseWrapping`.
- A well-formed layout can hold every payload, limits on path length and space aside, exactly when it
  is placeable (`AnyPayloadFits`): each file with bytes has a name, and no two of them are at one place
  or one in a directory the other would have to be. Accepted torrents that fail it: an empty path
  (`ParseNameless`), a file that is also a directory (`ParseNested`), two listings of one place
  (`ParseShared`).
- A path component is never empty, except that a name longer than 255 bytes becomes empty exactly when
  the first 255 bytes of the cleaned and trimmed name are underscores, dots and spaces
  (`AcceptedEmptyExactly`, `EmptyWitness`).
- A relocation is crash safe exactly when its plan is movable (`RelocateTorrentData`): no existing
  file's new name is an old name that goes away, and existing files that come to one new name hold the
  same bytes, and are one inode where that name is already an old name of theirs. Payload files
  that share one relative path do not stand in its way. A move that loses a file is in
  `RelocateNested`. A wipe of the old root spares the payload exactly when none of its new names is
  below it (`WipeRoot`).
- Marking an index past the last piece breaks the counters, unless the torrent is complete or the
  padding bit was set (`MarkHave`).
- A catalog row loads into a valid torrent exactly if its bits, count and flag agree (`FromCatalog`).
- Bytes that arrive together with the handshake's second flight are dropped (`EagerBytesAreLost`).
- A refund keeps the bucket within its capacity exactly when it is no larger than the capacity
  (`RefundSane`); a wait for more than the capacity never ends (`NeverEnough`).

## Model

| member | source | states |
|---|---|---|
| Bits.Extensional | crates/engine/src/catalog/types.rs:246-257 | two bitfields of one length that answer every index alike are the same bytes, padding included |
| Bits.Set | crates/engine/src/catalog/types.rs:252-257 | setting an index changes exactly that bit and is silent past the end |
| Bits.AllSet | crates/engine/src/catalog/types.rs:230-240 | the all-set bitfield has every piece bit one and every padding bit zero |
| Bits.CountHaveBits | crates/engine/src/catalog/types.rs:219-228 | the counting loop yields the size of the set the bitfield stands for |
| Bits.FullCount | crates/engine/src/catalog/types.rs:219-240 | a bitfield has as many ones as pieces exactly when it is all of them |
| Bits.HighestBitFirst | crates/engine/src/catalog/types.rs:219-257 | piece i is bit 7 - i % 8 of byte i / 8, and the bitfield has as few bytes as hold its bits |
| Spans.SpansForRange | crates/engine/src/disk/spans.rs:68-104 | the span loop succeeds exactly on ranges inside the torrent and cuts the range at file boundaries, in order |
| Spans.SpansForPiece | crates/engine/src/disk/spans.rs:106-110 | a piece's spans are those of its stretch of the stream |
| Spans.PieceSizeIs | crates/engine/src/disk/spans.rs:52-65 | every piece of a well-formed layout is nonempty, starts inside the torrent and ends at the next piece or the end |
| Spans.FileAt | crates/engine/src/disk/spans.rs:68-104 | each stream byte lies in exactly one file |
| Spans.FindFile | crates/engine/src/disk/spans.rs:84-88 | the search loop finds the file covering a byte, or reports that none does |
| Spans.NextSpan | crates/engine/src/disk/spans.rs:83-100 | one turn of the span loop cuts the range at the end of its file |
| Spans.PieceOfByte | crates/engine/src/disk/spans.rs:52-65 | division by the piece length names the one piece a stream byte belongs to |
| Spans.CeilDivFits | crates/engine/src/metainfo.rs:90-98 | the piece-count check holds exactly when that many pieces are just enough for the bytes |
| DiskIo.ReadSpansIsStream | crates/engine/src/disk/read.rs:20-48 | reading the spans of a range succeeds exactly when all its bytes are on disk and yields the stream range |
| DiskIo.ReadPiece | crates/engine/src/disk/read.rs:31-48 | reading a piece succeeds exactly when it is all on disk, returns its stretch of the stream, and tells a bad index from an unreadable piece |
| DiskIo.HashPieceWindowed | crates/engine/src/disk/read.rs:52-81 | the hasher is fed, window by window, exactly the bytes a piece read returns, and fails when it does |
| DiskIo.FillFromSpans | crates/engine/src/disk/read.rs:38-47 | filling a buffer span by span yields the concatenated spans, or the first failure |
| DiskIo.Disk.WritePiece | crates/engine/src/disk/write.rs:78-100 | a piece write is accepted exactly for a valid index with data of the piece's length whose spans can all be opened and written, and then replaces that stretch of the stream; when a span write fails, exactly some front of the data has been written; it never makes a set of files that no file system can have |
| DiskIo.Disk.WriteSpan | crates/engine/src/disk/write.rs:67-75 | a buffer too small is refused, and so is a path that names no file or clashes with the files there; a longer buffer writes the span's length only; a failing write leaves the bytes it got to |
| DiskIo.Disk.WriteAll | crates/engine/src/disk/write.rs:91-97 | the span loop writes the data front to back and stops at the first span that fails |
| DiskIo.PartReplaces | crates/engine/src/disk/write.rs:102-120 | a span write cut short replaces exactly its front of the stream |
| DiskIo.FailedWriteSpares | crates/engine/src/disk/write.rs:78-100 | a piece write that failed midway leaves every other readable piece as it was |
| DiskIo.WriteSpansReplaces | crates/engine/src/disk/write.rs:78-100 | writing the spans of a range replaces exactly that range of the stream |
| DiskIo.WriteThenRead | crates/engine/src/disk/write.rs:67-100 | a written piece reads back as written; every other readable piece is unchanged; no foreign file is touched |
| DiskIo.ReadAfterWrites | crates/engine/src/disk/write.rs:78-100 | after any sequence of writes a piece reads as the last data written to it, or as before if it was never written |
| DiskIo.WriteAllPieces | crates/engine/src/disk/write.rs:78-100 | writing all pieces in any order makes the files, laid end to end, equal the payload |
| DiskIo.AnyPayloadFits | crates/engine/src/metainfo.rs:190-230 | a layout can hold every payload, in files a file system can have, exactly when each file with bytes has a name and no two of them are at one place or one inside the other |
| DiskIo.UnheldPayload | crates/engine/src/metainfo.rs:190-230 | for any other layout a payload that no disk can hold, and unless two files share a place no payload at all |
| DiskIo.RoomMeansWritten | crates/engine/src/disk/write.rs:78-100 | on a disk with room for such a layout every span can be opened, and there stays room |
| DiskIo.AfterWritesLegal | crates/engine/src/disk/write.rs:78-100 | any run of piece writes to such a layout keeps room and leaves files that a file system can have |
| Paths.PushPlace | crates/engine/src/metainfo.rs:203-211 | a pushed component is the name behind all that was there, also behind an empty component |
| Paths.NamesFileExactly | crates/engine/src/metainfo.rs:203-211 | a path names a file exactly when something follows its last slash |
| DiskIo.RecheckTorrent | crates/engine/src/hash/recheck.rs:37-64 | a verdict per piece that is true exactly when the piece is on disk and hashes right, and the exact number of good, unreadable and other pieces |
| DiskIo.CheckOnePiece | crates/engine/src/hash/recheck.rs:154-164 | a piece is good exactly when it is on disk and its bytes hash to its 20 bytes of the list, and unreadable is told from bad |
| DiskIo.WriteAllThenRecheck | crates/engine/src/hash/recheck.rs:37-64 | after every piece of a payload was written, every piece is good |
| Wanted.WantedIffSpan | crates/engine/src/hot/pieces.rs:34-57 | a piece is in the wanted set exactly when one of its spans lies in a file whose set priority, or else layout priority, is above zero |
| Wanted.BuildWantedBitfield | crates/engine/src/hot/pieces.rs:34-57 | dividing file ranges by the piece length builds a bitfield with bit i exactly when some byte of piece i lies in a file whose set priority, or else layout priority, is above zero |
| Wanted.WantedByBytes | crates/engine/src/hot/pieces.rs:34-57 | the wanted set byte by byte: a piece is in it exactly when one of its bytes lies in a wanted file |
| Wanted.WantedInside | crates/engine/src/hot/pieces.rs:43-46 | a piece with all its bytes in one file is wanted only if that file is |
| Wanted.MeetsInterval | crates/engine/src/hot/pieces.rs:41-55 | the pieces a file meets are exactly those from the piece of its first byte to the piece of its last |
| Progress.FileHaveBytes | crates/engine/src/catalog/queries.rs:62-91 | the loop over a file's pieces counts the file's bytes that lie in have pieces |
| Progress.SumPieces | crates/engine/src/catalog/queries.rs:77-89 | the loop adds up the overlaps of the have pieces with the file |
| Progress.ProgressConserved | crates/engine/src/catalog/queries.rs:62-91 | summed over all files the counts are the completed payload, and completed plus left is the total size |
| Progress.PayloadTotal | crates/engine/src/hot/pieces.rs:178-192 | the summed size of the have pieces is the number of stream bytes in them |
| Picking.ExactWalk | crates/engine/src/hot/pieces.rs:434-450 | from any random start the exact pass collects eligible pieces only, without repeats, and all of them or the cap's worth |
| Picking.Sample | crates/engine/src/hot/pieces.rs:421-432 | every outcome of the random sample holds distinct eligible pieces within the cap |
| Picking.TryFrom | crates/engine/src/hot/pieces.rs:470-479 | candidates are offered in order until the first grant |
| Picking.SortSorts | crates/engine/src/hot/pieces.rs:452-468 | ranking permutes the candidates and sorts them under the order of the mode |
| Picking.RarestFirst | crates/engine/src/hot/pieces.rs:452-468 | ranked by rarity the availability never falls; in endgame pieces in flight come first and on either side the availability never falls |
| Picking.SortIsStable | crates/engine/src/hot/pieces.rs:452-468 | candidates of one rank stay in the order they were drawn in |
| Picking.Pick | crates/engine/src/hot/pieces.rs:330-507 | for every random outcome: only eligible pieces are offered, the one granted is returned, none only after all eligible pieces or the cap's worth were offered; offers go from rarest to most common, in flight first in endgame, unless it is early in a large torrent; with few pieces missing no eligible piece not offered is rarer |
| Picking.PicksWhenClaimsSucceed | crates/engine/src/hot/pieces.rs:330-507 | when claims on eligible pieces succeed, a piece is picked whenever an eligible one exists |
| Picking.RarestClaimable | crates/engine/src/hot/pieces.rs:434-482 | with few pieces missing no claimable eligible piece has a lower availability than the picked one; in endgame the picked one is in flight if any claimable one is |
| Picking.WalkRacedAway | crates/engine/src/hot/pieces.rs:470-504 | when every candidate of a walk is refused, nothing eligible is free, or a cap's worth of eligible pieces is not |
| Picking.FirstFreeIsBest | crates/engine/src/hot/pieces.rs:452-479 | the first candidate of a complete ranked list outside a set is the rarest eligible piece outside it, in flight if any is |
| Possession.GainedExact | crates/engine/src/hot/have.rs:15-69 | gaining a piece keeps every counter, the completeness flag and the claims exact |
| Possession.GainedMissing | crates/engine/src/hot/have.rs:29-50 | the saturating decrement leaves the missing counter at the number of wanted pieces still lacking |
| Possession.GainedPayload | crates/engine/src/hot/have.rs:28-50 | the running payload stays the summed size of the have pieces, also when the last piece resets it to the total |
| Possession.StrayBreaks | crates/engine/src/hot/have.rs:24-50 | marking an index that is no piece miscounts, or makes the torrent complete without its pieces |
| Possession.LoadedExact | crates/engine/src/hot/registry.rs:84-150 | a state built from a catalog row is sound exactly if the row's bits have the right length, are counted by its count and are not all set |
| Possession.RebuiltExact | crates/engine/src/hot/pieces.rs:63-92 | a rebuilt wanted bitfield with its recount makes the wanted caches exact and disturbs nothing else |
| HotTorrents.HotTorrent.NewComplete | crates/engine/src/hot.rs:169-211 | a new seeder starts with every counter exact |
| HotTorrents.HotTorrent.NewEmpty | crates/engine/src/hot.rs:213-252 | a new leecher starts with every counter exact |
| HotTorrents.HotTorrent.FromCatalog | crates/engine/src/hot/registry.rs:104-150 | from any row the caches are exact, and the whole state is valid exactly if the stored bits, their count and the completeness flag agree |
| HotTorrents.HotTorrent.FinishNew | crates/engine/src/hot.rs:162-166 | rebuilding the caches at the end of construction makes every counter exact |
| HotTorrents.HotTorrent.RefreshCaches | crates/engine/src/hot.rs:162-166 | both cache refreshes are exact from any bitfield and disturb no other counter |
| HotTorrents.HotTorrent.RebuildWantedAndMissing | crates/engine/src/hot/pieces.rs:63-91 | the wanted caches are exact again, with a piece wanted exactly when some byte of it lies in a wanted file, and no other counter is disturbed |
| HotTorrents.HotTorrent.CountMissing | crates/engine/src/hot/pieces.rs:74-87 | the loop counts the wanted pieces that are lacking |
| HotTorrents.HotTorrent.RecountCompletedPayload | crates/engine/src/hot/pieces.rs:178-192 | the recount is the summed size of the have pieces |
| HotTorrents.HotTorrent.CachesAnswer | crates/engine/src/hot/pieces.rs:13-32 | the cached predicates answer membership in the have and wanted sets, and download-complete means wanted within have |
| HotTorrents.HotTorrent.MarkHave | crates/engine/src/hot/have.rs:15-69 | a new piece is added, its claim dropped, all counters follow, it is published once; a known piece changes nothing but a stale claim; the counters stay exact exactly if the index is a piece or its bit or completeness was already there |
| HotTorrents.HotTorrent.NextInterestPiece | crates/engine/src/hot/have.rs:153-174 | the first wanted piece we lack that the peer has, or none if there is none |
| HotTorrents.HotTorrent.SetFilePriority | crates/engine/src/hot/pieces.rs:99-115 | the priority list changes at one file, padded with ones, and the wanted caches are exact again: set to zero or less no piece inside the file is wanted, set above zero every piece it meets is |
| HotTorrents.HotTorrent.ShouldEndgame | crates/engine/src/hot/pieces.rs:138-152 | endgame exactly when few pieces are missing or as many are claimed as missing; outside it some missing piece is unclaimed |
| HotTorrents.HotTorrent.LeftBytes | crates/engine/src/hot/pieces.rs:165-171 | left plus completed is the total size, and left is the summed size of the pieces lacking |
| HotTorrents.HotTorrent.BitfieldSnapshot | crates/engine/src/hot/pieces.rs:194-201 | the snapshot stands for exactly the have set |
| HotTorrents.HotTorrent.TryClaimPiece | crates/engine/src/hot/pieces.rs:231-242 | a claim is granted exactly on a piece we lack that is free or in endgame |
| HotTorrents.HotTorrent.Interfere | crates/engine/src/hot/have.rs:15-69 | any calls of other connections keep the torrent valid and lose no piece |
| HotTorrents.HotTorrent.ReleasePieceClaim | crates/engine/src/hot/pieces.rs:244-248 | exactly that claim goes and every counter stays exact |
| HotTorrents.HotTorrent.AvailAddBitfield | crates/engine/src/hot/pieces.rs:276-289 | availability rises by one, saturating, at exactly the set bits |
| HotTorrents.HotTorrent.AvailSubBitfield | crates/engine/src/hot/pieces.rs:291-301 | availability falls by one, saturating, at exactly the set bits |
| HotTorrents.HotTorrent.EligibleAreMissing | crates/engine/src/hot/pieces.rs:380-401 | eligible pieces are wanted and lacking, so the missing counter bounds their number |
| HotTorrents.HotTorrent.EligibleIsClaimable | crates/engine/src/hot/pieces.rs:231-242 | an eligible piece is one a claim is granted on in that state |
| HotTorrents.HotTorrent.PickRarestPiece | crates/engine/src/hot/pieces.rs:330-507 | the picked piece comes with its true length; with at most 32 pieces missing no eligible piece not offered has a lower availability, in endgame it is in flight if one of those is and compared on its side; offers go in rank except early in a large torrent |
| HotTorrents.HotTorrent.ClaimFrom | crates/engine/src/hot/pieces.rs:470-479 | with other connections acting before each offer, the first candidate free at its turn is claimed, and a refused offer changes no claim |
| HotTorrents.HotTorrent.OfferList | crates/engine/src/hot/pieces.rs:470-479 | one ranked list offered to the torrent's own claims while others act: what is returned is eligible in the snapshot and has its true length, all before it were refused, and nothing is returned only after every candidate was |
| HotTorrents.HotTorrent.OfferRanked | crates/engine/src/hot/pieces.rs:452-479 | the list is put in order and offered; when sorted, the pieces go from rarest to most common, in flight first in endgame |
| HotTorrents.HotTorrent.PickFrom | crates/engine/src/hot/pieces.rs:330-507 | picking on a snapshot that others outdate before and between the offers: the piece returned is eligible in it, was free when claimed, and no other claim is left behind; every better-ranked eligible piece was refused when few are missing; it gives up only when everything eligible, or a cap's worth, was refused |
| HotTorrents.HotTorrent.PickAndClaim | crates/engine/src/hot/pieces.rs:330-507 | in one step a piece is claimed exactly when one is eligible, with its true length; with at most 32 missing no eligible piece has a lower availability, and in endgame it is in flight if any eligible one is and the rarest on its side |
| HotTorrents.HotTorrent.TakeSuggested | crates/engine/src/peer/helpers.rs:119-129 | the first eligible suggestion is claimed and those before it are used up |
| HotTorrents.HotTorrent.StartPiece | crates/engine/src/peer/download.rs:329-353 | the first eligible suggestion, else the picker's piece, the rarest when few are missing; a piece is claimed exactly when one is eligible |
| HotTorrents.WithPriority | crates/engine/src/hot/pieces.rs:99-115 | the priority list after one change, entry by entry |
| PeerAvailabilities.PeerAvailability.OnBitfield | crates/engine/src/hot/peer_avail.rs:24-30 | the old contribution is taken out and the cut or zero-filled new one put in; the bits kept are those of the wire |
| PeerAvailabilities.PeerAvailability.OnHave | crates/engine/src/hot/peer_avail.rs:32-38 | the bit of the index is set, and its count rises by one, saturating, only in range and when new; no other bit or count changes |
| PeerAvailabilities.PeerAvailability.Drop | crates/engine/src/hot/peer_avail.rs:41-45 | a closing connection takes its contribution out |
| PeerAvailabilities.StepExact | crates/engine/src/hot/peer_avail.rs:15-45 | from exact counts one lock section leaves exact counts exactly when every piece has at most 65535 advertisers afterwards |
| PeerAvailabilities.StepCount | crates/engine/src/hot/pieces.rs:262-301 | per piece: an exact count stays exact while the advertisers fit 16 bits, and falls short by one when they no longer do |
| PeerAvailabilities.Fitted | crates/engine/src/hot/peer_avail.rs:24-30 | a wire bitfield of any length keeps exactly its bits below the piece count's bytes |
| PeerAvailabilities.AvailabilityCountsAdvertisers | crates/engine/src/hot/peer_avail.rs:15-45 | over every run, a piece's count is exact in every state so far exactly when it never had more than 65535 advertisers |
| PeerAvailabilities.FewConnectionsCountExactly | crates/engine/src/hot/peer_avail.rs:15-45 | runs with at most 65535 live connections count exactly |
| PeerAvailabilities.PastTheBoundACountIsLost | crates/engine/src/hot/pieces.rs:262-301 | any step to more advertisers, by HAVE or bitfield, leaves the count one short, and an advertiser leaving then makes it one too low |
| PeerAvailabilities.BoundIsReached | crates/engine/src/hot/peer_avail.rs:32-38 | 65536 connections that each send one HAVE make a run whose count is wrong |
| PeerAvailabilities.BitsAreAnnounced | crates/engine/src/hot/peer_avail.rs:15-45 | over every run the connections kept are those opened and not closed, and the bits kept for one are its newest bitfield and the HAVEs since |
| HaveHubs.HaveHub.Publish | crates/engine/src/hot.rs:125-128 | every live subscriber receives the index once and exactly the dead ones are dropped, in order |
| HaveHubs.HaveHub.Subscribe | crates/engine/src/hot.rs:119-123 | a fresh open channel joins the end of the list |
| HaveHubs.KeptMembers | crates/engine/src/hot.rs:125-128 | retaining live subscribers neither adds, loses nor repeats any |
| HaveHubs.FanOutCovers | crates/engine/src/hot.rs:112-128 | in every interleaving possession is covered by snapshot, received indices and indices not yet published, and no index is published twice |
| HaveHubs.DrainedPeersKnowAll | crates/engine/src/hot/have.rs:19-52 | with nothing pending and an empty channel a connection knows exactly what the torrent has |
| HaveHubs.SnapshotBeforeSubscribeMisses | crates/engine/src/hot/pieces.rs:194-201 | taking the bitfield before subscribing loses a piece published in between |
| PieceLog.BatchIsReplay | crates/engine/src/catalog/pieces.rs:139-206 | one torrent's grouped update equals replaying its events one by one |
| PieceLog.SplitBatch | crates/engine/src/catalog/pieces.rs:139-206 | splitting the items into two batches gives the same row |
| PieceLog.OrderIrrelevant | crates/engine/src/catalog/pieces.rs:139-206 | with lengths fixed by the index, reordering or repeating events gives the same row |
| PieceLog.ClosedForm | crates/engine/src/catalog/pieces.rs:139-206 | bits are the union, the count follows the bits, downloaded grows by the new pieces' lengths, the row is complete exactly when it has all pieces, and finish time and state follow |
| PieceLog.WrittenLoads | crates/engine/src/catalog/pieces.rs:92-108 | the compact stored form loads back as the bits and count written, NULL standing for all when complete |
| PieceLog.LoadMeans | crates/engine/src/catalog/pieces.rs:92-108 | a complete row stands for all pieces; any other for its stored bits, and for none without a bitfield row or with NULL bits |
| PieceLog.ReplayReproducesRam | crates/engine/src/hot/have.rs:15-52 | replaying the indices newly set in memory reproduces the in-memory bitfield byte for byte |
| Catalogs.Catalog.MarkPiecesHaveBatch | crates/engine/src/catalog/pieces.rs:116-222 | the batch succeeds exactly when all torrents are known, applies each torrent's share or nothing at all, and reports each newly complete torrent once, in the order the batch first names them |
| Catalogs.Catalog.ApplyGroups | crates/engine/src/catalog/pieces.rs:135-221 | the transaction over the groups updates each torrent once, or rolls everything back at an unknown one |
| Catalogs.Catalog.ApplyItems | crates/engine/src/catalog/pieces.rs:142-206 | one torrent: load once, count new pieces, write once |
| Catalogs.BatchIsReplay | crates/engine/src/catalog/pieces.rs:116-222 | a batch over many torrents equals replaying its events one at a time |
| Catalogs.TableAfterBatch | crates/engine/src/catalog/pieces.rs:116-222 | after a batch each torrent has what it had and the pieces named of it, has downloaded the lengths of the new ones, and a torrent not named is unchanged |
| Catalogs.SplitLog | crates/engine/src/catalog/pieces.rs:116-222 | cutting the log into two batches gives the same table |
| Catalogs.ReportedOnce | crates/engine/src/catalog/pieces.rs:188-203 | over any list of batches a torrent that completes is reported in exactly one of them |
| Catalogs.GroupByTorrent | crates/engine/src/catalog/pieces.rs:121-133 | events are grouped by torrent in log order, torrents without repeats in the order of their first events |
| Catalogs.Catalog.SetBitfieldFromRecheck | crates/engine/src/catalog/pieces.rs:23-83 | succeeds exactly for a known torrent and a verdict per piece; the row then reads back as the checked pieces, is complete exactly when all are good, and other rows are untouched |
| Catalogs.BitsOf | crates/engine/src/catalog/pieces.rs:32-46 | packing the verdicts gives their set and its size |
| Rechecking.CollectResults | crates/engine/src/runtime/recheck_pool.rs:54-80 | results of the hash pool in any order give the serial recheck's verdicts and report once all have arrived, and an error if the workers stop before |
| Rechecking.OneReport | crates/engine/src/runtime/recheck_pool.rs:19-81 | there is only one report a recheck can give |
| Rechecking.AllArrived | crates/engine/src/runtime/recheck_pool.rs:54-80 | as many distinct results as pieces are the results of all pieces |
| Rechecking.RecheckWithPool | crates/engine/src/runtime/recheck_pool.rs:19-81 | after a recheck the stored row is consistent and has exactly the pieces on disk that hash right; if the workers stop, the row keeps its pieces in state checking |
| Rechecking.LoadFromCatalog | crates/engine/src/hot/registry.rs:84-150 | a consistent row becomes a valid torrent with exactly the row's pieces, byte for byte; refused exactly when incomplete and not allowed to be, or without all hashes |
| Rechecking.RecheckAndActivate | crates/engine/src/hot/registry.rs:84-150 | from disk to memory: the activated torrent has exactly the pieces on disk that hash right |
| Rechecking.AllWrittenAllGood | crates/engine/src/hash/recheck.rs:37-64 | once every piece of a payload was written, in any order, a recheck finds them all |
| Rc4s.AdvanceAdd | crates/engine/src/crypto/rc4.rs:39-50 | advancing in two stretches is advancing in one |
| Rc4s.CryptAppend | crates/engine/src/crypto/rc4.rs:54-71 | the cipher of a concatenation is the cipher of its parts over a continued stream |
| Rc4s.CryptTwice | crates/engine/src/crypto/rc4.rs:54-71 | decrypting with the same stream gives back what was encrypted |
| Rc4s.ChunksAreOne | crates/engine/src/crypto/rc4.rs:54-71 | how traffic is cut into chunks does not change its cipher |
| Rc4s.DuplexDelivers | crates/engine/src/crypto/rc4.rs:54-71 | with equal streams, traffic sent in any chunks and received in any others decrypts to what was sent |
| Rc4s.SchedulePermutes | crates/engine/src/crypto/rc4.rs:16-29 | the key schedule leaves a permutation of all octets |
| Rc4s.AdvancePermutes | crates/engine/src/crypto/rc4.rs:39-50 | the generator keeps the table a permutation |
| Rc4s.Rc4.FromKey | crates/engine/src/crypto/rc4.rs:16-29 | the in-place key setup computes the textbook schedule |
| Rc4s.Rc4.Mse | crates/engine/src/crypto/rc4.rs:32-36 | the stream of the key after exactly 1024 bytes are thrown away |
| Rc4s.Rc4.NextByte | crates/engine/src/crypto/rc4.rs:58-67 | the first index steps, the second moves by the entry there, the two entries are exchanged and all others stay, and the byte is the entry at their sum: the textbook round |
| Rc4s.TurnRound | crates/engine/src/crypto/rc4.rs:58-67 | every round of every stream: how the indices move, which entries are exchanged, and which entry is the keystream byte |
| Rc4s.ScheduleRound | crates/engine/src/crypto/rc4.rs:16-29 | the schedule starts from the identity; each round moves the index by the entry and the key byte and exchanges two entries |
| Rc4s.FirstBytes | crates/engine/src/crypto/rc4.rs:54-71 | from the identity table the keystream begins 2, 5, 7 |
| Rc4s.Rc4.DropKeystream | crates/engine/src/crypto/rc4.rs:39-50 | dropping bytes advances the stream by that many rounds |
| Rc4s.Rc4.CryptInplace | crates/engine/src/crypto/rc4.rs:54-71 | the tail is XORed with the keystream, the bytes before it are untouched and the stream advances by the tail's length |
| Dh.PrimeFacts | crates/engine/src/crypto/dh.rs:10-17 | the modulus is odd, above two and fits 96 bytes |
| Dh.ExponentsAgree | crates/engine/src/crypto/dh.rs:50-63 | raising each other's public value to the own exponent gives the same value |
| Dh.TwoPowerNotZero | crates/engine/src/crypto/dh.rs:29-42 | no power of the generator is zero modulo the prime |
| Dh.PaddedValue | crates/engine/src/crypto/dh.rs:66-74 | left padding to 96 bytes keeps the number |
| BigEndian.FromBeAppend | crates/engine/src/crypto/dh.rs:20-74 | leading bytes are the higher digits |
| BigEndian.HighestFirst | crates/engine/src/crypto/mse.rs:52-74 | the 16-bit and 32-bit words of the wire have their highest byte first |
| Dh.SecretsAgree | crates/engine/src/crypto/dh.rs:45-63 | two generated pairs accept each other's public keys and compute the same nonzero secret |
| Dh.SecretValue | crates/engine/src/crypto/dh.rs:45-63 | the secret is two to the product of the exponents modulo the prime |
| Dh.KeyOfThree | crates/engine/src/crypto/dh.rs:29-42 | the exponent 3 gives 95 zero bytes and an 8 |
| CryptoConfig.SelectCrypto | crates/engine/src/crypto/config.rs:112-150 | the cipher picked is plain or RC4 and was offered by both sides |
| CryptoConfig.RejectsExactly | crates/engine/src/crypto/config.rs:112-150 | none is picked exactly when no common cipher is acceptable to the mode |
| CryptoConfig.TakesThePreferred | crates/engine/src/crypto/config.rs:112-150 | with both ciphers common each mode takes the one it prefers, with one common that one if it accepts it |
| CryptoConfig.OffersByMode | crates/engine/src/crypto/config.rs:36-51 | plain is offered unless RC4 is required, RC4 unless encryption is off |
| CryptoConfig.PeModesAgree | crates/engine/src/crypto/config.rs:36-51 | any two modes wanting encryption agree: on plain exactly if the receiver prefers it and the initiator does not require RC4 |
| CryptoKeys.DeobfuscateBack | crates/engine/src/crypto/keys.rs:47-66 | deobfuscation recovers the hidden identity and matches no other |
| CryptoKeys.ObfuscatedHash | crates/engine/src/crypto/keys.rs:47-55 | each byte is that of the hash of "req2" and the identity XOR that of the hash of "req3" and the secret |
| CryptoKeys.DeobfuscateReq2 | crates/engine/src/crypto/keys.rs:58-66 | each byte is XORed with that of the hash of "req3" and the secret |
| Mse.InitiatorBuildSync | crates/engine/src/crypto/mse.rs:52-74 | the second flight and the position of both streams after it |
| Mse.SyncLayout | crates/engine/src/crypto/mse.rs:52-74 | the second flight byte by byte: the hash of "req1" and the secret, the hidden identity, and the rest under "keyA" |
| Mse.InnerBytes | crates/engine/src/crypto/mse.rs:52-135 | both encrypted parts in bytes on an example |
| Mse.ReceiverParseInitiator | crates/engine/src/crypto/mse.rs:77-125 | the parser's result for every buffer and where both streams stand after it |
| Mse.FindSlice | crates/engine/src/crypto/mse.rs:261-263 | the window search finds the first occurrence |
| Mse.ParseInnerBack | crates/engine/src/crypto/mse.rs:102-124 | the offered ciphers and the payload, cut to its 16-bit length, come back through any padC, whatever follows |
| Mse.ParseOfSync | crates/engine/src/crypto/mse.rs:52-125 | behind any padA without an accidental req1, and before any bytes that arrived with it, the receiver gets what was sent and its stream stands behind everything that arrived; it refuses another torrent's key |
| Mse.EagerBytesAreLost | crates/engine/src/crypto/mse.rs:99-124 | what an initiator sends right behind its payload is decrypted and dropped, with both streams level |
| Mse.ReceiverBuildResponse | crates/engine/src/crypto/mse.rs:128-135 | the encrypted response and the stream advanced by its 14 bytes |
| Mse.InitiatorScanResponse | crates/engine/src/crypto/mse.rs:157-202 | the scan's result for every buffer; the stream moves only on a match, by exactly header and padD; the commit check never fails |
| Mse.ScanFinds | crates/engine/src/crypto/mse.rs:163-190 | the first complete match is the one found |
| Mse.ScanWaits | crates/engine/src/crypto/mse.rs:191-201 | without a complete match it waits exactly while an incomplete one is seen or the padding may go on |
| Mse.GrowingPrefixes | crates/engine/src/crypto/mse.rs:157-202 | PadB then response, arriving bit by bit: every proper prefix needs more, the whole is found with its exact length whatever follows |
| Mse.HandshakeLoopback | crates/engine/src/crypto/mse.rs:205-259 | succeeds exactly when both modes want encryption; both ends pick the cipher the receiver prefers among those offered by both, each encrypt stream is where the other's decrypt stream is, and the initiator sends under "keyA", the receiver under "keyB", behind 16 and 14 bytes, with the secret two to the product of the exponents |
| Mse.AgreeOnSecret | crates/engine/src/crypto/mse.rs:214-219 | both sides compute one nonzero secret, two to the product of the exponents modulo the prime, so the first assertion never fails |
| Mse.Negotiate | crates/engine/src/crypto/mse.rs:221-258 | the exchange always finishes with fitting sessions, so the second assertion never fails |
| ReadCursors.ReadCursor.Append | crates/engine/src/net.rs:131-177 | new bytes join the unparsed stream decrypted in place and the bytes already there are left alone |
| ReadCursors.ReadCursor.CompactIfNeeded | crates/engine/src/net.rs:163-172 | compaction never changes what was received or is unparsed |
| ReadCursors.ReadCursor.Advance | crates/engine/src/net.rs:159-161 | advancing moves bytes from unparsed to consumed, never past the end |
| ReadCursors.ReadCursor.RemainingIsExact | crates/engine/src/net.rs:185-195 | the remainder is the exact number of bytes that lets the frame be parsed |
| ReadCursors.ReadCursor.RecvLowat | crates/engine/src/net.rs:198-204 | set exactly when the remainder reaches the minimum; it is the remainder or the chunk size, never past the frame |
| ReadCursors.ReadCursor.RecvLowatPark | crates/engine/src/net.rs:214-236 | nothing once the download is over, otherwise the larger of the frame and pipeline watermarks |
| ReadCursors.PipelineLowat | crates/engine/src/net.rs:239-250 | set exactly when outstanding bytes and half the buffer both reach the minimum, and never above either or the cap |
| ReadCursors.ReadCursor.TakeMessages | crates/engine/src/peer/established.rs:36-54 | messages are taken off the front up to one that is not all there, or that cannot be parsed, which fails the connection |
| ReadCursors.SplitContinues | crates/engine/src/wire/messages.rs:351-463 | taking messages early and going on gives the same messages as taking them all at the end |
| ReadCursors.StuckStays | crates/engine/src/wire/messages.rs:351-463 | behind a message that cannot be parsed nothing is ever parsed |
| ReadCursors.SentMessages | crates/engine/src/wire/messages.rs:351-463 | any sendable messages written one after the other are read back, with nothing left |
| ReadCursors.ServeReads | crates/engine/src/net.rs:131-195 | for any split of the wire into reads, encrypted or plain, the messages taken are those of the decrypted stream |
| ReadCursors.MessagesArriveAsSent | crates/engine/src/net.rs:113-145 | whatever the chunks on either side of an encrypted wire, the messages taken are the messages sent |
| Messages.RoundTrip | crates/engine/src/wire/messages.rs:351-463 | an encoded message comes back off the front of any stream exactly if it is at most the maximum length and not a known id in disguise |
| Messages.DecodeBack | crates/engine/src/wire/messages.rs:368-462 | id and payload decode back to the message unless an unknown message carries a known id |
| Messages.FrontStable | crates/engine/src/wire/messages.rs:351-367 | what is decided about the front of a stream does not change when more arrives |
| Messages.WireFormat | crates/engine/src/wire/messages.rs:175-234 | for every message the id and the order of the fields in bytes |
| Messages.LengthInFront | crates/engine/src/wire/messages.rs:236-256 | the four bytes in front are the length of what follows, highest byte first |
| Messages.ShortMessages | crates/engine/src/wire/messages.rs:175-261 | a choke is 0 0 0 1 0 and a keep-alive four zeros |
| Messages.RefusedPayloads | crates/engine/src/wire/messages.rs:368-462 | a payload is refused exactly when its length does not fit its id |
| Messages.TooLongExactly | crates/engine/src/wire/messages.rs:351-367 | a frame is rejected as too long exactly when it declares more than a mebibyte |
| Bencode.DecodeAt | crates/engine/src/bencode.rs:119-133 | every successful decode strictly advances the cursor within bounds |
| BencodeLaws.RoundTrip | crates/engine/src/bencode.rs:119-245 | wherever an encoding stands it decodes to its value and exactly its bytes are consumed |
| BencodeLaws.RoundTripThenSuffix | crates/engine/src/bencode.rs:75-91 | decoding an encoding followed by any suffix yields the value and its length |
| BencodeLaws.PrefixFree | crates/engine/src/bencode.rs:208-245 | encoding is injective and prefix-free |
| BencodeLaws.Local | crates/engine/src/bencode.rs:119-205 | a decode depends on the bytes it consumes only |
| BencodeLaws.DecodedValid | crates/engine/src/bencode.rs:119-205 | everything accepted is a value in range with sorted keys |
| BencodeLaws.DictKeepsLast | crates/engine/src/bencode.rs:188-205 | the decoded dictionary holds the last pair of each key |
| BencodeLaws.FindTakesFirst | crates/engine/src/bencode.rs:95-117 | the raw search returns the first pair's span, which decodes to its value |
| BencodeLaws.RawSliceMeaning | crates/engine/src/bencode.rs:95-117 | for an accepted root a slice is found exactly for stored keys and decodes on its own |
| BencodeLaws.SliceAgreesExactly | crates/engine/src/bencode.rs:95-117 | slice and stored value agree exactly when first and last pair carry the same value |
| BencodeLaws.DistinctKeysAgree | crates/engine/src/bencode.rs:95-117 | with distinct keys the slice decodes to exactly the stored value |
| BencodeLaws.RepeatedKeyDisagrees | crates/engine/src/bencode.rs:188-205 | a repeated key with two values is accepted, and slice and dictionary show different ones |
| BencodeLaws.EncodedSlice | crates/engine/src/metainfo.rs:47-62 | on encoded dictionaries the slice is the encoding of the stored value, so the infohash is its hash |
| BencodeLaws.LengthOutcomes | crates/engine/src/bencode.rs:153-173 | at any cursor, for any spelling of a length: when it is rejected, overflows, runs past the end or decodes |
| BencodeLaws.CanonicalLengthOutcomes | crates/engine/src/bencode.rs:153-173 | the same for a length as the encoder writes it at the front |
| BencodeWire.IntOutcomes | crates/engine/src/bencode.rs:135-151 | at any cursor, for any digits behind at most one sign: the integer, or a rejection exactly outside 64 bits |
| BencodeWire.DecimalIsBaseTen | crates/engine/src/bencode.rs:135-173 | 123 is the bytes 31 32 33, both ways |
| BencodeWire.Encodings | crates/engine/src/bencode.rs:208-240 | an integer, a string, a list and a dictionary in bytes |
| BencodeWire.LessIs | crates/engine/src/bencode.rs:188-206 | keys are ordered by their first difference, a prefix first |
| BencodeWire.Refusals | crates/engine/src/bencode.rs:119-206 | what an input that is cut off or has no mark is refused with |
| BencodeWire.KeyMustBeString | crates/engine/src/bencode.rs:188-206 | a dictionary whose first key is no byte string is refused |
| BencodeLaws.OverflowWitness | crates/engine/src/bencode.rs:166-168 | the overflow is reachable |
| BencodeCodec.ReadAt | crates/engine/src/bencode.rs:119-205 | the mutually recursive cursor loops compute the decoding function, errors included |
| BencodeCodec.ReadInt | crates/engine/src/bencode.rs:135-151 | the integer loop computes the decoding function |
| BencodeCodec.ReadBytes | crates/engine/src/bencode.rs:153-173 | the string reader computes the decoding function, overflow included |
| BencodeCodec.ReadList | crates/engine/src/bencode.rs:175-186 | the list loop computes the decoding function |
| BencodeCodec.ReadDict | crates/engine/src/bencode.rs:188-205 | the dictionary loop computes the decoding function |
| BencodeCodec.ReadFull | crates/engine/src/bencode.rs:82-91 | trailing bytes are an error |
| BencodeCodec.FindRawDictValue | crates/engine/src/bencode.rs:95-117 | the search loop computes the slice function |
| BencodeCodec.EncodeInto | crates/engine/src/bencode.rs:214-245 | the appending encoder appends exactly the encoding |
| Metainfos.ParseFiles | crates/engine/src/metainfo.rs:186-231 | succeeds exactly when every file has a length and a path of usable components; paths are the normalized components pushed onto the normalized name, sizes the lengths cast to 64 bits, offsets their saturated prefix sums |
| Metainfos.JoinPath | crates/engine/src/metainfo.rs:203-211 | a path succeeds exactly when all its components are text with an on-disk form, and pushes those onto the torrent name |
| Metainfos.ListedPlace | crates/engine/src/metainfo.rs:203-211 | a listed file lies in the directories of its nonempty names but the last, and has no name exactly if the last is empty |
| Metainfos.FilePlace | crates/engine/src/metainfo.rs:186-231 | where each file of an accepted torrent lies, single or listed |
| Metainfos.ComponentsAreSafe | crates/engine/src/metainfo.rs:148-184 | every component of an accepted path is short, free of separators, NUL and control characters, and no current or parent directory |
| PathText.NormalizePathComponent | crates/engine/src/metainfo.rs:148-184 | the character loop, the trimming and the byte cut compute the normal form or refuse |
| PathText.RunIsOne | crates/engine/src/metainfo.rs:151-165 | a run of separators, NULs and control characters behind kept text becomes one underscore, and what follows is cleaned by itself |
| PathText.LeadingDropped | crates/engine/src/metainfo.rs:156-162 | at the front such a run leaves no trace |
| PathText.CleanStays | crates/engine/src/metainfo.rs:163-164 | all other text passes unchanged |
| PathText.BadIs | crates/engine/src/metainfo.rs:153-182 | which characters are replaced, and which are trimmed at the ends and behind the cut |
| PathText.Utf8Steps | crates/engine/src/metainfo.rs:175-181 | how many bytes a character takes |
| PathText.ComponentIsSafe | crates/engine/src/metainfo.rs:148-184 | a normal form is short, without separators, NUL or control characters, and not a current or parent directory |
| PathText.NormalizedIsStable | crates/engine/src/metainfo.rs:148-184 | normalizing a nonempty normal form changes nothing |
| PathText.RefusedExactly | crates/engine/src/metainfo.rs:167-174 | a component is refused exactly when only dots, spaces and tabs are left of it |
| PathText.AcceptedEmptyExactly | crates/engine/src/metainfo.rs:175-182 | an empty component is accepted exactly when the cut at 255 bytes leaves only underscores, dots and spaces |
| PathText.EmptyWitness | crates/engine/src/metainfo.rs:175-182 | 256 underscores become the empty component |
| Metainfos.SumSizes | crates/engine/src/metainfo.rs:88-88 | the total is the sum of the sizes, wrapping at 64 bits |
| Metainfos.ReadTrackers | crates/engine/src/metainfo.rs:102-119 | the tiers of the announce list, numbered by position, or the single announce URL when they yield nothing |
| Metainfos.TrackersAre | crates/engine/src/metainfo.rs:100-119 | the trackers are exactly the texts of the announce list, each under the position of its tier and in the order of tiers; only if there are none, the announce URL in tier 0 |
| Metainfos.TierKeepsOrder | crates/engine/src/metainfo.rs:104-108 | within a tier the URLs keep their order and what is no text is left out |
| Metainfos.NameDefaults | crates/engine/src/metainfo.rs:187-188 | a torrent without a readable name is "unknown", one whose name is refused "unnamed" |
| Metainfos.FieldsRead | crates/engine/src/bencode.rs:21-72 | a field is read under its key and at its type only |
| Metainfos.KeysSpelled | crates/engine/src/metainfo.rs:47-231 | the dictionary keys, letter by letter |
| Metainfos.ReadInfo | crates/engine/src/metainfo.rs:64-98 | accepts exactly the info dictionaries that pass all checks, and takes every field from it |
| Metainfos.ParseBytes | crates/engine/src/metainfo.rs:47-134 | accepts exactly the inputs that pass all checks; every field, the trackers and the file list are those of the decoded root, and the infohash is the hash of its raw slice |
| Metainfos.AcceptedLayout | crates/engine/src/metainfo.rs:90-98 | when an accepted torrent's layout is well formed, both ways |
| MetainfoCases.ParseWrapping | crates/engine/src/metainfo.rs:87-98 | lengths -1 and 1 without any piece hash are accepted, and no layout of that torrent is well formed |
| Metainfos.InfohashCoversInfo | crates/engine/src/metainfo.rs:53-66 | when the hashed bytes decode to the info the other fields are read from, both ways |
| MetainfoCases.RepeatedInfo | crates/engine/src/metainfo.rs:53-66 | a root that repeats info is read by the last one and hashed by the first |
| MetainfoCases.ParseRepeated | crates/engine/src/metainfo.rs:53-66 | an accepted torrent whose infohash is that of the number 0 |
| MetainfoCases.ParseShared | crates/engine/src/metainfo.rs:175-219 | an accepted torrent with two listings of one place, one behind an empty component: some payload of it fits on no disk |
| MetainfoCases.ParseNested | crates/engine/src/metainfo.rs:190-219 | an accepted torrent with a file that is the directory of another: no payload of it fits on a disk |
| MetainfoCases.ParseNameless | crates/engine/src/metainfo.rs:175-230 | an accepted torrent whose only file has an empty path: no payload of it fits on a disk |
| Relocation.Machine.RelocateTorrentData | crates/engine/src/disk/relocate.rs:78-104 | every state a crash can leave reads each payload file's original bytes under the current root and keeps foreign files exactly when the plan is movable; with a clash a file is lost in the end |
| Relocation.Machine.TransferPayloadFiles | crates/engine/src/disk/relocate.rs:23-52 | publishing keeps every shown state good, leaves every file published and counts the missing ones; exactly as many inodes are new as files are counted as copied, and each file is counted once unless its name stays |
| Relocation.Machine.PublishFile | crates/engine/src/disk/relocate.rs:173-207 | one file becomes readable under its new name, on the same inode when linked and on another when copied, or is its own new name |
| Relocation.Machine.Copy | crates/engine/src/disk/relocate.rs:194-206 | a copy shows every prefix of the file, all of them safe, before the whole one |
| Relocation.Machine.UnpublishPayloadFiles | crates/engine/src/disk/relocate.rs:112-144 | old names go unless they are new ones, and every shown state stays good; if the old root is wiped, the payload survives exactly when none of its new names is below it |
| Relocation.Machine.WipeRoot | crates/engine/src/disk/relocate.rs:134-139 | removing the old root entry by entry, in any order, shows only states with the whole payload exactly when none of its new names is below it |
| Relocation.PublishStep | crates/engine/src/disk/relocate.rs:173-207 | changing one file's new name disturbs neither sources nor files already published |
| Relocation.ClashLosesAFile | crates/engine/src/disk/relocate.rs:119-144 | when a new name is another file's old name the file is unreadable at the end |
| Relocation.UnmergeableShows | crates/engine/src/disk/relocate.rs:173-207 | files with different bytes that come to one name are not all readable at the end |
| Relocation.RemovalIsBad | crates/engine/src/disk/relocate.rs:181-190 | replacing another file's old name shows a state in which that file is missing |
| Relocation.GoodMeansMovable | crates/engine/src/disk/relocate.rs:78-104 | a run without a bad state had a movable plan |
| Relocation.NestedClash | crates/engine/src/disk/relocate.rs:119-144 | files t/f and t/t/f moved from d to d/t clash |
| Relocation.RelocateNested | crates/engine/src/disk/relocate.rs:78-104 | relocating them loses a file |
| Control.RepliesIncrease | crates/engine/src/control/reader.rs:14-90 | list replies arrive in strictly increasing generations although coalesced jobs are dropped |
| Control.ListAfterDelete | crates/engine/src/control/mutation.rs:133-149 | a list requested after SoftDeleted was received, or a later one, shows the torrent only if it was added again after the delete committed |
| Control.ListShowsCatalog | crates/engine/src/control/reader.rs:59-67 | a list received for a request shows exactly the catalog of some moment between the request and its receipt |
| Control.ListIsComplete | crates/engine/src/control/reader.rs:59-67 | a torrent listed all that while is in the list, one never listed is not |
| Control.NewestNeverLost | crates/engine/src/control/reader.rs:14-90 | whatever is coalesced, the newest request is always in flight or answered |
| Control.NewestIsAnswered | crates/engine/src/control/reader.rs:14-90 | once all is quiet the last list reply answers the newest request |
| Control.JobsInOrder | crates/engine/src/control/plane.rs:94-202 | the mutations taken, queued and not yet routed are, in order, those sent: none lost, none twice |
| Control.DeletesAnswered | crates/engine/src/control/mutation.rs:133-149 | every delete taken is answered once and in order, and the successes announced are the deletes committed |
| Control.RechecksRun | crates/engine/src/control/mutation.rs:184-240 | a recheck taken begins exactly if its torrent has no claim, and what has begun and not ended runs |
| Control.AnnouncedAfterCommit | crates/engine/src/control/mutation.rs:133-149 | a delete is announced only after it committed |
| Control.RunInOrder | crates/engine/src/control/handle.rs:92-96 | all generations in flight, through every queue, are in increasing order |
| Control.OneRecheckAtATime | crates/engine/src/control/mutation.rs:184-192 | at most one recheck of a torrent runs at any time |
| Control.NoDeleteDuringRecheck | crates/engine/src/session/lifecycle.rs:108-119 | a delete never commits while a recheck of that torrent runs |
| Control.RecheckShutsOutDelete | crates/engine/src/control/mutation.rs:184-240 | between the beginning of a recheck and a later delete of that torrent the recheck has ended |
| ControlWorkers.CatalogReader.Turn | crates/engine/src/control/reader.rs:14-90 | a burst of jobs gets one reply with the newest filter and generation; a shutdown drops it; a failure forgets the connection |
| ControlWorkers.ControlLoop | crates/engine/src/control/plane.rs:94-202 | mutations and list requests reach their queues in command order up to the first shutdown or the hang-up, which each live worker is told once, or up to the first command a dead worker does not take |
| ControlWorkers.RouteOne | crates/engine/src/control/plane.rs:94-202 | which job, with which arguments, each command becomes |
| RateLimits.TokenBucket.TryConsume | crates/engine/src/rate_limit.rs:71-79 | the grant is whole bytes, at most wanted; less is granted only when less than a whole byte is left; tokens and grant together are what the refill left, and tokens stay between zero and capacity |
| RateLimits.TokenBucket.Reconfigure | crates/engine/src/rate_limit.rs:43-57 | a positive rate starts a bucket with one and a half seconds of tokens, zero empties it |
| RateLimits.TokenBucket.Refill | crates/engine/src/rate_limit.rs:59-68 | tokens grow by exactly rate times elapsed time, or to the capacity if that is less; a clock that did not advance changes nothing |
| RateLimits.TokenBucket.Refund | crates/engine/src/rate_limit.rs:124-131 | a refund that fits gives exactly its bytes back, any other fills the bucket; tokens never fall and stay within the capacity exactly when the refund does |
| RateLimits.TokenBucket.Delay | crates/engine/src/rate_limit.rs:165-179 | zero exactly when the refilled bucket has the need, otherwise between a millisecond and a second and, between these, exactly the time to earn the deficit |
| RateLimits.GrantBounds | crates/engine/src/rate_limit.rs:71-79 | a grant is the most whole bytes there are up to the need, and tokens stay between zero and capacity |
| RateLimits.RefundSane | crates/engine/src/rate_limit.rs:124-149 | a refund keeps tokens within capacity exactly when it is no larger than the capacity |
| RateLimits.RefundUndoes | crates/engine/src/rate_limit.rs:71-131 | refunding a whole grant undoes the consume, but for the refill |
| RateLimits.PartRefund | crates/engine/src/rate_limit.rs:71-131 | refunding part of a grant leaves what a grant of the rest would have left |
| RateLimits.WindowLevel | crates/engine/src/rate_limit.rs:59-79 | in any window, with refunds of any size, the net grant is at most the level at its start plus rate times length |
| RateLimits.WindowBound | crates/engine/src/rate_limit.rs:43-79 | net bytes granted in any window of length t are at most 1.5 rate plus rate times t, whatever is refunded in it |
| RateLimits.RunSane | crates/engine/src/rate_limit.rs:43-149 | over any run whose refunds are at most the capacity the tokens stay within it |
| RateLimits.DelayShape | crates/engine/src/rate_limit.rs:165-179 | the delay is zero exactly when the need is there, and otherwise covers the deficit or is the one-second cap |
| RateLimits.TwoNapsSuffice | crates/engine/src/rate_limit.rs:165-179 | a wait for a need within capacity ends after at most two sleeps |
| RateLimits.NeverEnough | crates/engine/src/rate_limit.rs:165-179 | a wait for a need above capacity never ends |

## Left out

- Counter equality while `mark_have` and a priority rebuild interleave inside one another: the code does not keep it, so each call is one step.
- Picking.Sample: random probes are nondeterministic; the number of attempts is kept, the distribution is not modelled.
- HotTorrents.HotTorrent.PickRarestPiece: the claim callback is an oracle over call number and piece; with the torrent's own claims the picker is `PickFrom` and `PickAndClaim`.
- DiskIo.Disk.WritePiece: the descriptor cache and preallocation are not modelled; directories exist as far as files need them, and limits of the file system on path length and space are failures to open or write; a write that fails has written some front of its bytes.
- DiskIo.WriteThenRead: assumes that no two files with bytes share a place; `AnyPayloadFits` and `ParseShared` show that this is needed.
- Rechecking.RecheckWithPool: progress events and a hash pool that refuses a job are not modelled; the layout and the hashes are read from the catalog's other tables by the caller.
- Rechecking.LoadFromCatalog: name, infohash, tracker tiers and tracker key are not modelled; a row that is not consistent is the subject of `FromCatalog`.
- Catalogs.Catalog.MarkPiecesHaveBatch: SQL statements and commit failures are one atomic update; the clock is one reading per replay.
- Catalogs.Catalog.SetBitfieldFromRecheck: for a piece count that is not the row's own, which no caller passes, the row's new bits are not described.
- Mse.GrowingPrefixes: assumes no other offset decrypts to a verification constant by accident; the chance of that is not modelled.
- Mse.ParseOfSync: assumes req1 does not occur inside padA by accident.
- Dh: the quality of the 20 random bytes and the primality of the modulus are not needed and not modelled.
- ReadCursors.ReadCursor.TakeMessages: what the peer loop does with a message is not modelled.
- Messages: the 68-byte handshake and the body of the extension handshake are not modelled.
- ReadCursors.PipelineLowat: the product of outstanding blocks and block size is exact rather than saturating, and arming the socket option is not modelled.
- Bencode: recursion depth is unbounded, and the texts of error messages and the UTF-8 check before number parsing are merged into one error each.
- Metainfos.ParseFiles: decoding bytes as UTF-8 is an arbitrary function; error texts are merged into one error each.
- PathText.NormalizePathComponent: a character is a Dafny `char` with its length in UTF-8.
- Relocation.Machine.RelocateTorrentData: primitive file operations succeed; symbolic links as the last path component and directories are not modelled.
- Control: one UI thread; shutdown, start, stop, remove, priorities and limits are routed in `ControlWorkers` but carry no catalog effect in the machine.
- RateLimits: floating-point rounding, the unlimited fast path and the pairing of the two directions are not modelled.
- User interface, configuration parsing, peer addresses, activity log, tracker announces, the rest of the session lifecycle and piece staging: I/O or easy claims.
