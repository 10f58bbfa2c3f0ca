# overlaybd core, modelled in Dafny

overlaybd serves container images as virtual block devices. Its layers are LSMT/ZFile blobs, gzip tarballs with a seekable index, or EROFS images built from tar streams. This project models the parts of its core that carry logic of their own, and proves properties of them:

- **Seekable gzip** (`src/overlaybd/gzindex/`). `GzIndexFormat` holds the packed index header and entry layouts, with byte-exact encode/decode round trips and the CRC32C `cal_crc` over the header. `GzFile` is the `GzFile` class: index parsing and validation (`init`), the binary search `seek_index`, dictionary loading and the checkpointed `extract` loop behind `pread`. A read is proved equal to the matching slice of a sequential decompression.
- **EROFS over tar** (`src/overlaybd/tar/erofs/`).
  - `ErofsCache` is the 512-byte sector cache. It has a capacity bound, lowest-address eviction with write-back of dirty sectors, and `flush`.
  - `ErofsIo` covers `erofs_read_photon_file`/`erofs_write_photon_file` and the target callbacks. Both return exactly the requested length on success. A write leaves every byte outside its range unchanged.
  - `ErofsDirent` covers `liberofs_find_dirent` and the `ErofsDir` cursor. `ErofsMapFile` and `TarErofs.WriteMapFile` parse map-file lines.
  - `TarErofs` covers the span-buffer read/write helpers of `tarerofs_impl.cpp`, `source_read`, `fallocate` and the `init_tar` buffer sizing.
- **Ring buffers** (`src/overlaybd/photon/`). `Kfifo` is the power-of-two ring with 32-bit wrapping `in`/`out` indices. Its invariant is `0 <= in - out <= size`, and FIFO order is proved: what is fetched is a prefix of what was stored. `Queue` is `spsc_queue`/`mpmc_queue` of pointers on top of it.
- **Prefetch** (`src/prefetch.cpp`). `PrefetchTrace` covers trace recording, `dump`, `reload`, mode detection and the choice of prefetcher; reloading a dump yields the recorded sequence. `PrefetchList` covers `trim`, the path pattern, list `reload` and `get_extents`.
- **Checked apply** (`src/tools/overlaybd-apply.cpp`). `ChecksumFile` is the SHA-256 checked stream, the "sha256:<hex>" string, and the decisions `main` makes around it.
- **Image service and image file** (`src/image_service.cpp`, `src/image_file.cpp`).
  - `ImageService` covers blob-URL parsing, the credential lookup and the image-creation result.
  - `ImageFile` covers the first-failure-wins status latch, the remote URL, the open flags, the choice of a layer's source, the parallel open, in which each worker opens layers through `open_lower_layer` and every failure and download-list entry reaches the image file, then `open_lowers` and `init_image_file`.
- **Helpers**:
  - `ConfigUtils`: `charfilter` and `mergeConfig`;
  - `FdEvents`: the event translation of `fd-events.h`, and epoll's instance of it;
  - `Dsa`: pattern fill/compare, `bsr`, descriptor preparation and re-preparation, the page-fault resubmission decision, `dsa_enqcmd` and `dsa_alloc`.

Shared modules: `Bytes` (bytes, little-endian integers), `Crc32c` (bitwise CRC32C with the reflected polynomial 0x82F63B78), `Files` (a byte file with a position), `Strings`, `Wrappers` (`Option`).

What the model cannot compute enters as parameters:
- zlib's `inflate`, reached through its resumable run and its whole-buffer result;
- the SHA-256 digest, base64 decoding, and parsed JSON/YAML documents;
- `stat`, `rand`, and the outcomes of opening local files, remote files and LSMT stacks;
- the stale bytes of a fresh `malloc` (proved never to reach a file);
- the results of the DSA hardware.

Unsigned C widths are written out where they matter: the 32-bit kfifo indices, the 64-bit map-file arithmetic, the 32-bit tar map count, the DSA `xfer_size` and `bsr(0)`.

## Model

| member | source | states |
|---|---|---|
| `Crc32c.ExtendChain` | src/prefetch.cpp:263-264 | extending a CRC32C over a message piece by piece, each piece's result seeding the next, gives the CRC32C of the whole message |
| `Crc32c.ExtendEmpty` | src/prefetch.cpp:304 | extending over no bytes leaves the seed unchanged, so a table of no records has checksum 0 |
| `GzIndexFormat.MagicFitsWithTerminator` | src/overlaybd/gzindex/gzfile_index.h:33-36 | "ddgzidx" and its NUL fit in the 8-byte `magic` field |
| `GzIndexFormat.EncodeHeader` | src/overlaybd/gzindex/gzfile_index.h:35-75 | the packed header serializes to exactly 333 bytes |
| `GzIndexFormat.EncodeHeaderBody` | src/overlaybd/gzindex/gzfile_index.h:53 | the bytes `cal_crc` covers are exactly the first 329 |
| `GzIndexFormat.DecodeHeader` | src/overlaybd/gzindex/gzfile_index.h:35-75 | reading 333 bytes as the header gives fields that fit their C types |
| `GzIndexFormat.HeaderGroups` | src/overlaybd/gzindex/gzfile_index.h:36-52 | the serialized header holds, at fixed offsets, the ident, geometry, sizes, the 256 reserved bytes, the index area and the crc, in declaration order with no padding |
| `GzIndexFormat.IdentFields` | src/overlaybd/gzindex/gzfile_index.h:36-41 | bytes 0-12 are magic, major and minor version, algorithm, the signed level and the flag |
| `GzIndexFormat.GeometryFields` | src/overlaybd/gzindex/gzfile_index.h:42-44 | bytes 13-24 are span, window and index_size as 4-byte signed integers |
| `GzIndexFormat.SizesFields` | src/overlaybd/gzindex/gzfile_index.h:45-48 | bytes 25-56 are index_num and the three file sizes as 8-byte signed integers |
| `GzIndexFormat.AreaFields` | src/overlaybd/gzindex/gzfile_index.h:50-51 | bytes 313-328 are index_start and index_area_len |
| `GzIndexFormat.DecodeEncodeHeader` | src/overlaybd/gzindex/gzfile_index.h:35-75 | writing a header and reading it back gives the same header |
| `GzIndexFormat.EncodeOfDecodeHeader` | src/overlaybd/gzindex/gzfile_index.h:35-75 | reading any 333 bytes as a header and writing it back gives the same bytes |
| `GzIndexFormat.IdentOfDecode` | src/overlaybd/gzindex/gzfile_index.h:36-41 | re-encoding the decoded ident gives back bytes 0-12 |
| `GzIndexFormat.GeometryOfDecode` | src/overlaybd/gzindex/gzfile_index.h:42-44 | re-encoding the decoded geometry gives back bytes 13-24 |
| `GzIndexFormat.SizesOfDecode` | src/overlaybd/gzindex/gzfile_index.h:45-48 | re-encoding the decoded sizes gives back bytes 25-56 |
| `GzIndexFormat.AreaOfDecode` | src/overlaybd/gzindex/gzfile_index.h:50-51 | re-encoding the decoded index area gives back bytes 313-328 |
| `GzIndexFormat.CalCrcIgnoresCrcField` | src/overlaybd/gzindex/gzfile_index.h:53 | `cal_crc` does not depend on the stored crc |
| `GzIndexFormat.CalCrcOfRawBytes` | src/overlaybd/gzindex/gzfile_index.h:53 | `cal_crc` of a header read from bytes is the CRC32C of its first 329 raw bytes |
| `GzIndexFormat.EncodeEntry` | src/overlaybd/gzindex/gzfile_index.h:77-83 | a packed checkpoint is 29 bytes |
| `GzIndexFormat.DecodeEntry` | src/overlaybd/gzindex/gzfile_index.h:77-83 | reading 29 bytes as a checkpoint gives fields that fit their C types |
| `GzIndexFormat.DecodeEncodeEntry` | src/overlaybd/gzindex/gzfile_index.h:77-83 | writing a checkpoint and reading it back gives the same checkpoint |
| `GzIndexFormat.StrideBound` | src/overlaybd/gzindex/gzfile.cpp:137 | entry i of a table of n lies inside the table |
| `GzIndexFormat.DecodeEntries` | src/overlaybd/gzindex/gzfile.cpp:135-140 | a table of n checkpoints decodes to n entries |
| `GzIndexFormat.DecodeEntriesAt` | src/overlaybd/gzindex/gzfile.cpp:135-140 | entry i is decoded from the 29 bytes at `i * sizeof(IndexEntry)` |
| `GzIndexFormat.EncodeEntries` | src/overlaybd/gzindex/gzfile_index.h:77-83 | a table of n checkpoints is `n * 29` bytes |
| `GzIndexFormat.EncodeEntriesAt` | src/overlaybd/gzindex/gzfile_index.h:77-83 | entry i is written at byte `i * 29` |
| `GzIndexFormat.DecodeEncodeEntries` | src/overlaybd/gzindex/gzfile.cpp:135-140 | a written table decodes to the same checkpoints, in file order |
| `GzFile.ZlibDecompress` | src/overlaybd/gzindex/gzfile.cpp:72-92 | the output is zlib's whole decompression when it fits the buffer, and a failure when it does not fit or does not decompress |
| `GzFile.CheckHeader` | src/overlaybd/gzindex/gzfile.cpp:156-194 | the header is accepted iff the file is at least 333 bytes and every check of `init` holds: size fields, crc, version 1, index_size 29, magic and the gzip size |
| `GzFile.IndexTable` | src/overlaybd/gzindex/gzfile.cpp:109-133 | the table `parse_index` decodes is `index_num * index_size` bytes; uncompressed it is the index area itself, which must be exactly that long |
| `GzFile.InitSpec` | src/overlaybd/gzindex/gzfile.cpp:144-201 | a successful `init` keeps the checked header and `index_num` checkpoints |
| `GzFile.LastNotAfter` | src/overlaybd/gzindex/gzfile.cpp:205-220 | the chosen checkpoint is at or before the offset (or the first one), and every later checkpoint is past the offset |
| `GzFile.GzFile.LastNotAfterUnique` | src/overlaybd/gzindex/gzfile.cpp:205-220 | in a sorted index only one checkpoint satisfies that description |
| `GzFile.GzFile.UpperBound` | src/overlaybd/gzindex/gzfile.cpp:211 | `std::upper_bound` on a sorted index: the first checkpoint past the offset, all earlier ones at or before it |
| `GzFile.GzFile.SeekIndex` | src/overlaybd/gzindex/gzfile.cpp:205-220 | null exactly for an empty index; on a sorted index, the last checkpoint at or before the offset, else the first |
| `GzFile.GetDict` | src/overlaybd/gzindex/gzfile.cpp:222-253 | algorithm 0 needs `win_len == WINSIZE` and returns the stored window; algorithms other than 0 and 1 fail; algorithm 1 needs the stored window to inflate to exactly WINSIZE bytes |
| `GzFile.Outcome` | src/overlaybd/gzindex/gzfile.cpp:295-340 | never more than `count`; -1 exactly when the stream breaks before the discard and output are done; 0 when it ends before the offset |
| `GzFile.OutcomeReadsContent` | src/overlaybd/gzindex/gzfile.cpp:292-340 | a decoder that reproduces the file from a checkpoint on yields `min(count, size - offset)` bytes of the file at the offset, 0 past the end |
| `GzFile.InitAcceptsWrittenIndex` | src/overlaybd/gzindex/gzfile.cpp:144-201 | an index file laid out as the writer lays it out is accepted and yields exactly that header and checkpoint table |
| `GzFile.InitRejectsBadCrc` | src/overlaybd/gzindex/gzfile.cpp:169-171 | a header whose crc field does not match `cal_crc` is refused |
| `GzFile.CopyOut` | src/overlaybd/gzindex/gzfile.cpp:297-298 | the output bytes land at the start of the caller's buffer, the rest untouched |
| `GzFile.GzFile.constructor` | src/overlaybd/gzindex/gzfile.cpp:94-97 | a new reader is not initialised and owns neither file |
| `GzFile.GzFile.ParseIndex` | src/overlaybd/gzindex/gzfile.cpp:108-142 | on success the checkpoints of the table are appended in file order; on failure -1 and the index is unchanged |
| `GzFile.GzFile.Init` | src/overlaybd/gzindex/gzfile.cpp:144-202 | a second call succeeds at once without change; a first call succeeds iff the index file passes every check, and then leaves the header and checkpoints |
| `GzFile.GzFile.Fstat` | src/overlaybd/gzindex/gzfile.cpp:98-107 | initialises on demand (-1 when that fails); once initialised returns the wrapped file's own fstat result and always reports the header's uncompressed size |
| `GzFile.GzFile.ReadMatchesSequentialDecompression` | src/overlaybd/gzindex/gzfile.cpp:344-361 | with a sorted index starting at position 0, a read at any offset returns what sequential decompression of the whole file holds there |
| `GzFile.GzFile.ResumeAt` | src/overlaybd/gzindex/gzfile.cpp:273-290 | decoding resumes at `en_pos`, primed with the top `bits` bits of the byte before it when `bits != 0`, with the checkpoint's window |
| `GzFile.GzFile.Discard` | src/overlaybd/gzindex/gzfile.cpp:294-335 | the discard rounds throw away exactly the wrapped skip distance and fall short exactly when the decoder yields fewer bytes; a non-negative distance goes in rounds of at most 64 KiB summing to it, while a negative one is asked for in ONE round of the distance wrapped to 32 bits (see Findings) |
| `GzFile.FallbackOverrunsDiscardBuffer` | src/overlaybd/gzindex/gzfile.cpp:205-219 | for an offset before the first checkpoint of a sorted index, seek_index falls back to that checkpoint, the skip distance is negative and its discard round exceeds the 64 KiB discard buffer |
| `GzFile.FallbackOverrunExample` | src/overlaybd/gzindex/gzfile.cpp:262 | a single checkpoint at byte 100 and a read at offset 0 ask for a discard round of 2^32 - 100 bytes |
| `GzFile.GzFile.Extract` | src/overlaybd/gzindex/gzfile.cpp:255-342 | for `offset >= de_pos` the discarded bytes come in rounds of at most 64 KiB summing to `offset - de_pos`, and for `offset < de_pos` in one round of the wrapped distance; the bytes returned are the decoder's output right after them; the rest of the buffer is untouched |
| `GzFile.GzFile.Pread` | src/overlaybd/gzindex/gzfile.cpp:344-361 | a failed `init` or a negative offset (EINVAL) or an empty index gives -1; corrected (see Findings): an offset before the first checkpoint of a sorted index gives -1 with EINVAL; otherwise the result of extracting from the last checkpoint not after the offset, with the first r bytes of the buffer holding the decompressed bytes that start at the offset and the rest of the buffer untouched |
| `GzFile.GzFile.ReadIndexed` | src/overlaybd/gzindex/gzfile.cpp:350-361 | a negative offset gives -1 with EINVAL and an empty index -1; corrected (see Findings): an offset before the first checkpoint of a sorted index gives -1 with EINVAL; otherwise extract's result from the last checkpoint not after the offset, the buffer starting with the decompressed bytes at the offset and untouched past them |
| `GzFile.NewGzFile` | src/overlaybd/gzindex/gzfile.cpp:365-372 | null iff a file is missing; otherwise a fresh uninitialised reader with the requested ownership |
| `GzFile.IsGzFile` | src/overlaybd/gzindex/gzfile.cpp:374-379 | true iff the next two bytes are 0x1f 0x8b; the file is rewound to 0 |
| `ErofsCache.WriteBack` | src/overlaybd/tar/erofs/liberofs.cpp:68-69 | a one-sector `pwrite` replaces exactly that sector of the file and keeps its length |
| `ErofsCache.Lowest` | src/overlaybd/tar/erofs/liberofs.cpp:66 | `caches.begin()`: the lowest cached address |
| `ErofsCache.Cache.constructor` | src/overlaybd/tar/erofs/liberofs.cpp:32-34 | a new cache is empty, holds no dirty sector, and shows the file as it is |
| `ErofsCache.Cache.Evict` | src/overlaybd/tar/erofs/liberofs.cpp:65-77 | the lowest address leaves the map (and the dirty set), written back first only if dirty; a failed write-back changes nothing; what the builder sees is unchanged |
| `ErofsCache.Cache.WriteSector` | src/overlaybd/tar/erofs/liberofs.cpp:52-89 | -1 iff the address is unaligned; on success that sector of the view becomes the buffer and is cached dirty, a hit changing nothing else; otherwise the view is unchanged |
| `ErofsCache.Cache.ReadSector` | src/overlaybd/tar/erofs/liberofs.cpp:91-132 | -1 iff unaligned; a hit returns the cached bytes and changes nothing; a miss returns the file's sector and caches it clean; the view never changes |
| `ErofsCache.Cache.Flush` | src/overlaybd/tar/erofs/liberofs.cpp:134-150 | 0 iff every dirty sector could be written back, and then the map and the dirty set are empty; -1 otherwise; the view is unchanged |
| `ErofsCache.ViewIsSectors` | src/overlaybd/tar/erofs/liberofs.cpp:42-43 | what a coherent cache shows is whole sectors at aligned addresses |
| `ErofsCache.EvictionSound` | src/overlaybd/tar/erofs/liberofs.cpp:65-77 | evicting the lowest entry, written back when dirty, keeps the view and keeps every clean entry equal to the file |
| `ErofsCache.StoreSound` | src/overlaybd/tar/erofs/liberofs.cpp:84-86 | storing a dirty sector keeps the cache coherent and replaces exactly that sector of the view |
| `ErofsCache.LoadSound` | src/overlaybd/tar/erofs/liberofs.cpp:124-129 | loading a sector from the file as a clean entry keeps the cache coherent and the view unchanged |
| `ErofsIo.RoundDown` | src/overlaybd/tar/erofs/liberofs.cpp:165 | the aligned address at or below `x`, less than a sector below it |
| `ErofsIo.RoundUp` | src/overlaybd/tar/erofs/liberofs.cpp:166 | the aligned address at or above `x`, less than a sector above it |
| `ErofsIo.Split` | src/overlaybd/tar/erofs/liberofs.cpp:174-210 | for an unaligned request the head bytes, the middle sectors and the tail bytes add up to `len`; head and tail are partial sectors; a head and tail in one sector are read once |
| `ErofsIo.SplitSectors` | src/overlaybd/tar/erofs/liberofs.cpp:175-202 | the head sector, the tail sector and the middle run are exactly the sectors the request touches |
| `ErofsIo.WritePlan` | src/overlaybd/tar/erofs/liberofs.cpp:240-284 | an unaligned write's middle run is aligned and inside the request, and the pieces add up to `len` |
| `ErofsIo.EdgePlan` | src/overlaybd/tar/erofs/liberofs.cpp:241-274 | the head and tail of an unaligned write, over the source's own `start`, `end`, `i` and `j` |
| `ErofsIo.AlignedTouched` | src/overlaybd/tar/erofs/liberofs.cpp:211-219 | an aligned request touches exactly the sectors from `start` to `end` |
| `ErofsIo.InTouched` | src/overlaybd/tar/erofs/liberofs.cpp:165-166 | every byte of a request lies in a sector the request touches |
| `ErofsIo.Assemble` | src/overlaybd/tar/erofs/liberofs.cpp:178-210 | the head, middle and tail bytes read from their sectors are the requested bytes, in order, `len` of them |
| `ErofsIo.WrittenBytes` | src/overlaybd/tar/erofs/liberofs.cpp:244-284 | after a write, a byte inside `[offset, offset + len)` reads as the data and every other byte as before |
| `ErofsIo.ReadAfterWrite` | src/overlaybd/tar/erofs/liberofs.cpp:156-298 | reading back the range just written gives the data |
| `ErofsIo.WriteKeepsUntouched` | src/overlaybd/tar/erofs/liberofs.cpp:228-298 | sectors a write does not touch keep their contents |
| `ErofsIo.PartialOutside` | src/overlaybd/tar/erofs/liberofs.cpp:228-298 | however far a write got, the sectors it does not touch are as they were |
| `ErofsIo.PartialBetween` | src/overlaybd/tar/erofs/liberofs.cpp:244-284 | having written some of the touched sectors is a state between the old view and the written one |
| `ErofsIo.BetweenKeepsBytes` | src/overlaybd/tar/erofs/liberofs.cpp:244-274 | however far a write got, every byte outside `[offset, offset + len)` reads as before, because partial sectors are only replaced by their read-modify-write |
| `ErofsIo.MiddlePatch` | src/overlaybd/tar/erofs/liberofs.cpp:276-277 | a whole middle sector is written straight from the request's bytes |
| `ErofsIo.HeadPatch` | src/overlaybd/tar/erofs/liberofs.cpp:249-250 | the head sector with the first request bytes copied in at `offset - start` is the sector as written |
| `ErofsIo.TailPatch` | src/overlaybd/tar/erofs/liberofs.cpp:265-266 | the tail sector with the last request bytes copied in at its start is the sector as written |
| `ErofsIo.ReadRun` | src/overlaybd/tar/erofs/liberofs.cpp:202-210 | whole sectors read straight into the caller's buffer, in order, stopping at the first failure |
| `ErofsIo.ReadPiece` | src/overlaybd/tar/erofs/liberofs.cpp:180-186 | a partial sector is read into the side buffer and the wanted bytes copied out |
| `ErofsIo.ReadHead` | src/overlaybd/tar/erofs/liberofs.cpp:179-187 | the head sector is read only when `offset` is unaligned and gives the first request bytes |
| `ErofsIo.ReadTail` | src/overlaybd/tar/erofs/liberofs.cpp:190-200 | the tail sector is read unless it is the head sector, and gives the last request bytes |
| `ErofsIo.ReadUnaligned` | src/overlaybd/tar/erofs/liberofs.cpp:174-210 | an unaligned read returns `len` and the view's bytes, or -1 at the first failing sector |
| `ErofsIo.ReadPhotonFile` | src/overlaybd/tar/erofs/liberofs.cpp:156-223 | `len` on success, with the bytes the builder sees at `[offset, offset + len)`, every touched sector present; -1 otherwise; the view never changes |
| `ErofsIo.ReadSectorOf` | src/overlaybd/tar/erofs/liberofs.cpp:180 | a successful sector read returns the sector the builder sees |
| `ErofsIo.WriteSectorOf` | src/overlaybd/tar/erofs/liberofs.cpp:251 | a successful sector write replaces that sector of the view |
| `ErofsIo.WriteWhole` | src/overlaybd/tar/erofs/liberofs.cpp:277-283 | one whole sector written from the caller's buffer |
| `ErofsIo.WriteRun` | src/overlaybd/tar/erofs/liberofs.cpp:276-284 | whole sectors written from the caller's buffer in order, stopping at the first failure, every state on the way between the old view and the written one |
| `ErofsIo.WriteHead` | src/overlaybd/tar/erofs/liberofs.cpp:244-256 | the head sector is read, patched with the first request bytes and written back |
| `ErofsIo.WriteTail` | src/overlaybd/tar/erofs/liberofs.cpp:258-274 | the tail sector is read, patched with the last request bytes and written back |
| `ErofsIo.WriteEdges` | src/overlaybd/tar/erofs/liberofs.cpp:244-274 | head then tail, in the source's order; `write` counts the bytes they took |
| `ErofsIo.WriteAligned` | src/overlaybd/tar/erofs/liberofs.cpp:285-295 | an aligned write writes every sector straight from the caller's buffer |
| `ErofsIo.WriteUnaligned` | src/overlaybd/tar/erofs/liberofs.cpp:240-284 | an unaligned write returns `len` with every touched sector rewritten, or -1 |
| `ErofsIo.WritePhotonFile` | src/overlaybd/tar/erofs/liberofs.cpp:228-298 | `len` on success with exactly the touched sectors rewritten (data inside the range, old bytes outside it); -1 at the first failure, leaving a state between the old view and the written one |
| `ErofsIo.TargetPread` | src/overlaybd/tar/erofs/liberofs.cpp:301-314 | -EINVAL without a target; `len` with the bytes, or -1 |
| `ErofsIo.TargetPwrite` | src/overlaybd/tar/erofs/liberofs.cpp:316-328 | -EINVAL without a target or a buffer; otherwise the photon-file write's result and effect |
| `ErofsIo.TargetFsync` | src/overlaybd/tar/erofs/liberofs.cpp:330-338 | -EINVAL without a target; otherwise the flush's result, an empty cache on 0 |
| `ErofsIo.TargetFallocate` | src/overlaybd/tar/erofs/liberofs.cpp:340-358 | for `len <= 4096`, 0 after zeroing the range or -1; for a longer one the first 4096-byte write's result is returned at once |
| `ErofsDirent.EntryInside` | src/overlaybd/tar/erofs/liberofs.cpp:804-806 | every entry the scan visits lies inside the block |
| `ErofsDirent.NameoffOf` | src/overlaybd/tar/erofs/liberofs.cpp:810 | an entry's `nameoff` is the little-endian 16-bit field at offset 8 of its 12 bytes |
| `ErofsDirent.StrNLen` | src/overlaybd/tar/erofs/liberofs.cpp:813 | the length before the first NUL, or the whole bound when there is none; no NUL before it |
| `ErofsDirent.FindDirent` | src/overlaybd/tar/erofs/liberofs.cpp:798-827 | the first entry whose name is exactly `name`, every earlier one well-formed and different; -EINVAL at the first entry whose name runs past `maxsize`; NULL when no visited entry matches |
| `ErofsDirent.FirstMatchUnique` | src/overlaybd/tar/erofs/liberofs.cpp:806-825 | only one entry can be the first match |
| `ErofsDirent.BogusExcludes` | src/overlaybd/tar/erofs/liberofs.cpp:817-819 | a bogus entry reached by the scan excludes both a match before it and a not-found result |
| `ErofsDirent.ErofsDir.constructor` | src/overlaybd/tar/erofs/liberofs.cpp:1121-1124 | positioned on entry 0 with `telldir() == 1`, or on nothing for an empty list |
| `ErofsDirent.ErofsDir.Closedir` | src/overlaybd/tar/erofs/liberofs.cpp:1130-1135 | drops the entries and returns 0 |
| `ErofsDirent.ErofsDir.Get` | src/overlaybd/tar/erofs/liberofs.cpp:1137-1139 | the entry just handed out, if any |
| `ErofsDirent.ErofsDir.Next` | src/overlaybd/tar/erofs/liberofs.cpp:1141-1150 | hands out entry `loc` and advances, or clears `direntp` at the end; an empty list changes nothing; 1 iff an entry is current |
| `ErofsDirent.ErofsDir.Rewinddir` | src/overlaybd/tar/erofs/liberofs.cpp:1152-1155 | back on entry 0 |
| `ErofsDirent.ErofsDir.Seekdir` | src/overlaybd/tar/erofs/liberofs.cpp:1157-1160 | positioned on entry k with `loc` = k + 1, or on nothing past the end with `loc` = k; on an empty directory the current entry stays and `loc` = k |
| `ErofsDirent.ErofsDir.Telldir` | src/overlaybd/tar/erofs/liberofs.cpp:1162-1164 | the position of the next entry to hand out |
| `ErofsMapFile.RoundUpU64` | src/overlaybd/tar/erofs/liberofs.cpp:604 | a 512-byte multiple below 2^64, at or above the value when adding 511 does not wrap |
| `ErofsMapFile.MulU64` | src/overlaybd/tar/erofs/liberofs.cpp:600-601 | the product modulo 2^64, the exact product when it fits |
| `ErofsMapFile.LineMapping` | src/overlaybd/tar/erofs/liberofs.cpp:596-604 | offset and length are block address and count times the block size; a fourth field trims the zeroed tail, rounded up to a sector |
| `ErofsMapFile.LineMappingExact` | src/overlaybd/tar/erofs/liberofs.cpp:600-604 | when nothing wraps a record is exactly its blocks' byte span, trimmed as above |
| `ErofsMapFile.WriteMapFile` | src/overlaybd/tar/erofs/liberofs.cpp:580-613 | -1 without a map file; otherwise one record per line in order, stopping with -1 at an incomplete line or a short mapping, 0 when every line maps |
| `TarErofs.Window` | src/overlaybd/tar/erofs/tarerofs_impl.cpp:39 | a read gets the file's bytes at the offset, fewer at the end, none past it |
| `TarErofs.Stored` | src/overlaybd/tar/erofs/tarerofs_impl.cpp:105 | a store that fits replaces exactly those bytes; the file's length never changes |
| `TarErofs.Target.constructor` | src/overlaybd/tar/erofs/tarerofs_impl.cpp:127-130 | the target starts as the given bytes |
| `TarErofs.Target.Pread` | src/overlaybd/tar/erofs/tarerofs_impl.cpp:39 | the bytes at the offset, short at the end of the file |
| `TarErofs.Target.Pwrite` | src/overlaybd/tar/erofs/tarerofs_impl.cpp:105-108 | stores the bytes that fit before the end and returns their count |
| `TarErofs.StoredBetween` | src/overlaybd/tar/erofs/tarerofs_impl.cpp:105-108 | storing any prefix of the buffer leaves every byte either old or as the full write puts it |
| `TarErofs.StagedBetween` | src/overlaybd/tar/erofs/tarerofs_impl.cpp:103-105 | writing any prefix of a staged span likewise leaves every byte old or written |
| `TarErofs.StagedWhole` | src/overlaybd/tar/erofs/tarerofs_impl.cpp:103-105 | writing the whole staged span equals storing the caller's bytes |
| `TarErofs.OverlayStaged` | src/overlaybd/tar/erofs/tarerofs_impl.cpp:103 | laying the caller's bytes over a span that agrees with the file elsewhere stages the write |
| `TarErofs.ReadPhotonFile` | src/overlaybd/tar/erofs/tarerofs_impl.cpp:24-48 | one `pread` of the whole aligned span; `len` with the file's bytes at `offset`, or -1 on a short read |
| `TarErofs.PreRead` | src/overlaybd/tar/erofs/tarerofs_impl.cpp:70-101 | a one-sector span is pre-read whole; a longer span pre-reads the head only if `offset` is unaligned and the tail only if `offset + len` is; on success the span agrees with the file outside the request |
| `TarErofs.WritePhotonFile` | src/overlaybd/tar/erofs/tarerofs_impl.cpp:53-117 | an aligned request is one `pwrite`; an unaligned one writes the whole pre-read span; `len` on success with exactly the request's bytes changed, -1 otherwise; no stale buffer byte reaches the file |
| `TarErofs.TargetPread` | src/overlaybd/tar/erofs/tarerofs_impl.cpp:127-135 | `len` when the read returns exactly that, else -1 |
| `TarErofs.TargetPwrite` | src/overlaybd/tar/erofs/tarerofs_impl.cpp:137-148 | -EINVAL for a null buffer, else the write's result |
| `TarErofs.TargetFallocate` | src/overlaybd/tar/erofs/tarerofs_impl.cpp:158-175 | for `len <= 4096`, 0 after writing `len` zero bytes, -2 if the write is short; a longer request returns the first chunk's result |
| `TarErofs.SourceRead` | src/overlaybd/tar/erofs/tarerofs_impl.cpp:220-240 | reads pieces of at most `INT_MAX` bytes until the request is met or a read returns 0; returns the running total, the bytes being the stream's next ones |
| `TarErofs.ScannedRun` | src/overlaybd/tar/erofs/tarerofs_impl.cpp:418 | the leading map lines that have all three fields |
| `TarErofs.TarMapping` | src/overlaybd/tar/erofs/tarerofs_impl.cpp:419-422 | offset is the block address times 4096; count is the block count times 4096 in 32-bit arithmetic |
| `TarErofs.TarCountExact` | src/overlaybd/tar/erofs/tarerofs_impl.cpp:421 | a record's count equals its blocks' byte count exactly when that is below 4 GiB |
| `TarErofs.WriteMapFile` | src/overlaybd/tar/erofs/tarerofs_impl.cpp:406-431 | -1 without a map file; otherwise the records of the leading three-field lines in order, -1 at the first short mapping, else 0 |
| `TarErofs.InitTarBuffer` | src/overlaybd/tar/erofs/tarerofs_impl.cpp:384-403 | a failed `fstat` is returned as is; the buffer starts at 16384 bytes and halves while allocation fails; -ENOMEM when it would go below 1024 |
| `Kfifo.Log2` | src/overlaybd/photon/kfifo.c:49 | an accepted size is `2^e` |
| `Kfifo.Pow2DividesU32` | src/overlaybd/photon/kfifo.c:112 | an accepted size divides 2^32, so a counter's slot `x & (size - 1)` survives 32-bit wrap-around |
| `Kfifo.SlotAdvance` | src/overlaybd/photon/kfifo.c:125 | advancing a 32-bit counter by `n <= size` moves its slot n places round the ring |
| `Kfifo.Wrap` | src/overlaybd/photon/kfifo.c:112-116 | a position below `2 * size` reduced once is its slot |
| `Kfifo.Ahead` | src/overlaybd/photon/kfifo.c:157-161 | how far a slot lies past `out`'s slot, going round the ring, below `size` |
| `Kfifo.Advance` | src/overlaybd/photon/kfifo.c:125 | `in += len` on an unsigned 32-bit counter |
| `Kfifo.Distance` | src/overlaybd/photon/kfifo.h:129-132 | `in - out` in 32-bit arithmetic is the difference, or the difference plus 2^32 |
| `Kfifo.DistanceAfterAdvance` | src/overlaybd/photon/kfifo.c:125 | advancing `in` by n adds n to `in - out` |
| `Kfifo.DistanceAfterConsume` | src/overlaybd/photon/kfifo.c:170 | advancing `out` by n stored bytes subtracts n from `in - out` |
| `Kfifo.FreeSpace` | src/overlaybd/photon/kfifo.c:102 | `size - in + out` in unsigned arithmetic is `size` less the stored bytes |
| `Kfifo.PutPlacement` | src/overlaybd/photon/kfifo.c:112-116 | the first copy fills from `in`'s slot to the buffer end, the second from slot 0 |
| `Kfifo.PutExtendsRing` | src/overlaybd/photon/kfifo.c:112-116 | the bytes placed after the stored ones extend the ring |
| `Kfifo.PutKeepsLayout` | src/overlaybd/photon/kfifo.c:102-127 | a put of bytes that fit appends them to the stored bytes in ring order |
| `Kfifo.GetShrinksRing` | src/overlaybd/photon/kfifo.c:157-161 | the two copies of a get read the n oldest bytes, from `out`'s slot and then from slot 0 |
| `Kfifo.GetKeepsLayout` | src/overlaybd/photon/kfifo.c:147-172 | a get advances `out` by n and keeps the rest in ring order |
| `Kfifo.LogAppend` | src/overlaybd/photon/kfifo.c:97-128 | accepted bytes are appended to the contents and to the log of accepted bytes |
| `Kfifo.LogShift` | src/overlaybd/photon/kfifo.c:142-173 | handed-out bytes move from the contents to the log of handed-out bytes |
| `Kfifo.Fifo.constructor` | src/overlaybd/photon/kfifo.c:60-62 | a new fifo of an accepted size has `in = out = 0` and is empty |
| `Kfifo.Fifo.Len` | src/overlaybd/photon/kfifo.h:129-132 | `__kfifo_len` is the number of stored bytes, at most `size` |
| `Kfifo.Fifo.Reset` | src/overlaybd/photon/kfifo.h:53-56 | both indices 0 and nothing stored |
| `Kfifo.Fifo.Put` | src/overlaybd/photon/kfifo.c:97-128 | stores `min(len, size - (in - out))` leading bytes after the stored ones, advances `in` (mod 2^32) by that count, and writes only those slots |
| `Kfifo.Fifo.Store` | src/overlaybd/photon/kfifo.c:112-116 | the two `memcpy` calls place the bytes from the start slot to the buffer end and then from slot 0, touching no other slot |
| `Kfifo.Fifo.Get` | src/overlaybd/photon/kfifo.c:142-173 | hands out the `min(len, in - out)` oldest bytes, advances `out` by that count, and leaves the buffer as it was |
| `Kfifo.Fifo.LockedPut` | src/overlaybd/photon/kfifo.h:81-93 | the same result and effect as the unlocked put |
| `Kfifo.Fifo.LockedGet` | src/overlaybd/photon/kfifo.h:104-123 | the unlocked get, then both indices 0 once the fifo is empty; the bytes handed out and kept are the same |
| `Kfifo.Fifo.LockedLen` | src/overlaybd/photon/kfifo.h:138-149 | the unlocked length |
| `Kfifo.Fifo.LockedReset` | src/overlaybd/photon/kfifo.h:62-69 | the unlocked reset |
| `Kfifo.Alloc` | src/overlaybd/photon/kfifo.c:43-71 | null iff the size is below 2 or not a power of two; otherwise a fresh empty fifo of that size |
| `Kfifo.GetsArePrefixOfPuts` | src/overlaybd/photon/kfifo.c:97-173 | FIFO order: the bytes handed out since the last reset are a prefix of those accepted, and the stored bytes are the rest |
| `Queue.FifoSize` | src/overlaybd/photon/queue.h:29 | `capacity * sizeof(T*)` as an unsigned int, a multiple of the pointer size |
| `Queue.PopBytes` | src/overlaybd/photon/queue.h:46 | `ptrSize * n` converted to unsigned, a multiple of the pointer size, at most `ptrSize * n` for n >= 0 |
| `Queue.FlattenSplit` | src/overlaybd/photon/queue.h:44-47 | the first r whole elements are the first `r * sizeof(T*)` bytes |
| `Queue.WholeElementFits` | src/overlaybd/photon/queue.h:39-42 | with whole elements stored, the free space is 0 or at least one element, so a push is all-or-nothing |
| `Queue.WholeElementsFetched` | src/overlaybd/photon/queue.h:44-47 | a get of whole elements from whole stored elements fetches whole elements |
| `Queue.PtrQueue.constructor` | src/overlaybd/photon/queue.h:27-32 | a fresh fifo of `capacity * sizeof(T*)` bytes, holding no element |
| `Queue.PtrQueue.Push` | src/overlaybd/photon/queue.h:39-42 | true iff fewer than `capacity` elements are held, and then the first `sizeof(T*)` bytes of the element are appended |
| `Queue.PtrQueue.Pop` | src/overlaybd/photon/queue.h:44-47 | returns `min(bytes asked / ptrSize, held)` elements, never more than n, and hands out the oldest ones in order |
| `Queue.PtrQueue.ReadAvailable` | src/overlaybd/photon/queue.h:49-52 | the number of held elements, at most `capacity` |
| `Queue.PtrQueue.LockedReadAvailable` | src/overlaybd/photon/queue.h:54-57 | the same count as the unlocked overload |
| `PrefetchTrace.DecodeEncodeFormat` | src/prefetch.cpp:203-208 | a trace record (op, 3 padding bytes, uint32 layer index, size_t count, off_t offset: 24 bytes) reads back as the record written |
| `PrefetchTrace.DecodeEncodeHeader` | src/prefetch.cpp:210-214 | the 24-byte trace header (magic, data_size, checksum, with padding) reads back as the header written |
| `PrefetchTrace.DecodeEncodeFormats` | src/prefetch.cpp:263-270 | the records written one after another decode, record by record, to the recorded sequence |
| `PrefetchTrace.WriteRecords` | src/prefetch.cpp:263-270 | the dump loop succeeds iff every record fits the file; then the file holds the header followed by every encoded record and the checksum is the CRC32C chained over all of them; a short write leaves the file truncated to nothing |
| `PrefetchTrace.HeaderRewritten` | src/prefetch.cpp:272-276 | rewriting the header at offset 0 keeps the records behind it |
| `PrefetchTrace.Prefetcher.Dump` | src/prefetch.cpp:235-287 | without a trace file dump succeeds doing nothing; otherwise the file ends up holding exactly the header with the final checksum plus the records when they fit, and nothing otherwise; the result is 0 iff everything fit and the OK file was created |
| `PrefetchTrace.ReadRecords` | src/prefetch.cpp:304-314 | the reload loop succeeds iff the file holds n whole records after the header; then the checksum is the CRC32C of those bytes and the queue their decoding; on a short read the queue holds every whole record read |
| `PrefetchTrace.ReloadTrace` | src/prefetch.cpp:289-324 | reload returns and queues what the reload specification gives: short header, wrong magic or size other than data_size + 24 fail with nothing queued; a short record fails with the records read so far queued; a checksum mismatch fails with the queue emptied |
| `PrefetchTrace.ReloadAccepts` | src/prefetch.cpp:296-323 | a file whose header has the magic and the matching size and whose body matches the checksum reloads successfully to the decoded body |
| `PrefetchTrace.ReloadDump` | src/prefetch.cpp:252-276 | reloading a dumped trace, with the file's own size, succeeds and queues exactly the recorded sequence (dump then reload is the identity) |
| `PrefetchTrace.DetectMode` | src/prefetch.cpp:559-572 | Disabled exactly when stat fails, Record exactly for an empty file, Replay otherwise; the reported size is the file's, 0 when stat fails |
| `PrefetchTrace.NewPrefetcher` | src/prefetch.cpp:538-552 | no prefetcher exactly when the file cannot be opened; the trace prefetcher exactly for an empty file or one starting with a full header carrying TRACE_MAGIC; the list-driven one otherwise |
| `PrefetchTrace.DumpIsReplayed` | src/prefetch.cpp:547 | a dumped trace is picked up by the trace prefetcher, which then starts in Replay mode |
| `PrefetchTrace.Prefetcher.constructor` | src/prefetch.cpp:67-94 | the mode is the one detected from the trace file; only Replay reloads it, with the size stat reported, and queues what the reload gives |
| `PrefetchTrace.Prefetcher.Record` | src/prefetch.cpp:129-136 | record returns 0 and appends the I/O in call order, leaving the records alone once recording has stopped |
| `PrefetchTrace.Prefetcher.StopRecording` | src/prefetch.cpp:96-103 | stopping marks recording stopped and changes nothing else |
| `PrefetchTrace.PrefetchFile.constructor` | src/prefetch.cpp:522-524 | the file keeps its layer index and prefetcher |
| `PrefetchTrace.PrefetchFile.Pread` | src/prefetch.cpp:530-536 | pread returns what the layer file returned, and records READ of (count, offset) exactly when that equals (ssize_t)count and the prefetcher is recording |
| `PrefetchList.Trim` | src/prefetch.cpp:366-379 | trim returns the trimmed string: leading and trailing runs of c removed, the size_t `end` never wrapping |
| `PrefetchList.TrimmedShape` | src/prefetch.cpp:366-379 | the trimmed string neither starts nor ends with c, and the input is it surrounded by runs of c |
| `PrefetchList.TrimmedExtremes` | src/prefetch.cpp:366-379 | a string of only c trims to nothing; one that neither starts nor ends with c is unchanged |
| `PrefetchList.SegmentsIff` | src/prefetch.cpp:382 | the repeated-segment part of the pattern accepts exactly the non-empty strings not starting with '/', over segment characters and '/', with no '//' |
| `PrefetchList.PathPatternIff` | src/prefetch.cpp:381-384 | invalid_abs_path holds exactly for strings over `[a-zA-Z0-9_.-]` and '/' with no two '/' in a row |
| `PrefetchList.Lines` | src/prefetch.cpp:398 | getline's lines contain no newline |
| `PrefetchList.KeptSound` | src/prefetch.cpp:398-405 | every kept entry is the trimmed form of some line and is a non-empty path with no surrounding spaces |
| `PrefetchList.KeptComplete` | src/prefetch.cpp:398-405 | every line that is non-empty after trimming and matches the pattern is kept |
| `PrefetchList.ReloadList` | src/prefetch.cpp:386-409 | -1 when the list cannot be opened or exceeds MAX_FILE_SIZE; otherwise 0 with exactly the kept lines in order |
| `PrefetchList.AlignUp` | src/prefetch.cpp:439 | the size rounded up to a multiple of the alignment, less than one alignment unit above the size |
| `PrefetchList.SlicesShape` | src/prefetch.cpp:449-463 | the slices of a count below 2^63 are READ tasks of layer 0 of 1 to MAX_IO_SIZE bytes, contiguous from the extent's offset, covering exactly the count |
| `PrefetchList.SliceExtent` | src/prefetch.cpp:449-463 | the slicing loop queues exactly the slices of the count |
| `PrefetchList.ExtentTasksTotal` | src/prefetch.cpp:439-448 | over all extents the tasks cover min(total extent length, rounded file size) bytes |
| `PrefetchList.GetExtents` | src/prefetch.cpp:426-466 | -1 exactly when the file cannot be opened or fiemap fails; otherwise 0 with the tasks of every extent, in order, each extent capped by what is left of the rounded size |
| `ChecksumFile.HexDigitsOnly` | src/tools/overlaybd-apply.cpp:87-88 | every character `%02x` produces for the digest is a lowercase hex digit |
| `ChecksumFile.ParseHexOfHex` | src/tools/overlaybd-apply.cpp:87-88 | the two-digits-per-byte rendering loses nothing: it parses back to the digest |
| `ChecksumFile.ChecksumStringsIff` | src/tools/overlaybd-apply.cpp:89 | two "sha256:"-prefixed checksum strings are equal exactly when the digests are |
| `ChecksumFile.FormatAsWritten` | src/tools/overlaybd-apply.cpp:86-88 | the formatting loop as written fills the 64-character array with the hex rendering, and for a non-empty digest its last NUL store falls at index 64, one past the array |
| `ChecksumFile.FormatDigest` | src/tools/overlaybd-apply.cpp:86-89 | with room for the terminator, the first 2n characters are the hex rendering and the next is NUL |
| `ChecksumFile.CheckedFile.constructor` | src/tools/overlaybd-apply.cpp:52-54 | the wrapper starts with nothing digested |
| `ChecksumFile.CheckedFile.Read` | src/tools/overlaybd-apply.cpp:61-68 | read returns the inner read's bytes and count, folds them into the digest when positive, and returns -1 when that update fails; a digest that covered the file up to the position keeps doing so |
| `ChecksumFile.CheckedFile.Lseek` | src/tools/overlaybd-apply.cpp:69-71 | lseek is forwarded and leaves the digest alone |
| `ChecksumFile.CheckedFile.Fstat` | src/tools/overlaybd-apply.cpp:91-93 | fstat reports the wrapped file's size |
| `ChecksumFile.CheckedFile.Checksum` | src/tools/overlaybd-apply.cpp:72-90 | one more read of up to 64 KiB is folded in (warning when it is full), then "sha256:" and the hex digest, "" when that update fails; when the digest tracked the file from its start and at most 64 KiB remained, the result is the checksum of the whole file |
| `ChecksumFile.Plan` | src/tools/overlaybd-apply.cpp:127-188 | --raw opens the image directly and passes no base file; the buffered extfs is used only without a gzip index; an index is built only for gzip input with an index path, and then the gzip adaptor is used; the checksum wrapper is used exactly when a checksum is given |
| `ChecksumFile.Finish` | src/tools/overlaybd-apply.cpp:189-206 | a failed extraction exits with -1; without a checksum the tool succeeds; with one, when the wrapper tracked the whole input, it succeeds exactly when the expected string is the checksum of the input |
| `ImageService.BlobUrlRef` | src/image_service.cpp:62-81 | an http:// or https:// URL gives -1 and no segments unless exactly five '/'-terminated words follow the scheme, otherwise three segments; any other URL gives 0 and no segments |
| `ImageService.SplitWords` | src/image_service.cpp:68-73 | the find loop collects exactly the '/'-terminated words, dropping what follows the last '/' |
| `ImageService.ParseBlobUrl` | src/image_service.cpp:62-81 | parse_blob_url returns and leaves in ref.seg what the specification function gives |
| `ImageService.SlashTerminatedJoin` | src/image_service.cpp:69-73 | a word without '/' followed by '/' is the first word of the split |
| `ImageService.BlobUrlOfParts` | src/image_service.cpp:62-81 | the blob URL of a registry, `scheme registry/v2/namespace/repo/blobs/digest`, parses to [registry, namespace, repo] |
| `ImageService.PrefixesOfRef` | src/image_service.cpp:99-109 | for a non-empty registry the keys tried are registry, registry/namespace and registry/namespace/repo |
| `ImageService.PrefixesStep` | src/image_service.cpp:101-104 | each key is the previous one, a '/' when it is non-empty, and the next segment |
| `ImageService.MatchesKey` | src/image_service.cpp:99-109 | the prefix loop matches exactly when the entry's address is one of the cumulative keys |
| `ImageService.SplitToken` | src/image_service.cpp:115-122 | no split exactly when the token has no ':'; otherwise the user has no ':' and user ':' password is the token |
| `ImageService.SplitTokenJoin` | src/image_service.cpp:115-122 | splitting `user:password` gives back both, whatever the password holds |
| `ImageService.EntryCredentials` | src/image_service.cpp:114-129 | an "auth" token decides alone (base64-decoded and split); without it, credentials exactly when both username and password are present |
| `ImageService.FirstCredentials` | src/image_service.cpp:95-132 | credentials are found exactly when some entry matches a key and supplies credentials |
| `ImageService.LoadCredentials` | src/image_service.cpp:83-133 | 0 with the first matching entry's credentials when there are any; -1 with empty strings when the file does not parse, the URL does not parse or no entry supplies credentials |
| `ImageService.ReloadAuth` | src/image_service.cpp:173-184 | the credentials found, or two empty strings |
| `ImageService.GlobalConfigResult` | src/image_service.cpp:135-171 | 0 exactly when the configuration parses, its io engine is at most 2 and a configured log file opens; -1 otherwise |
| `ImageService.DownloadSection` | src/image_service.cpp:276-279 | the image's own "download" section wins; without one the default configuration's is used |
| `ImageService.ResultText` | src/image_service.cpp:283-290 | "success" for a positive status, otherwise "failed:" followed by the exception |
| `ImageService.CreateImageFile` | src/image_service.cpp:266-292 | the image file is returned exactly when the configuration parsed and its status is positive; the result text is written exactly when the configuration parsed and a result file is configured |
| `ImageFile.Failed` | src/image_file.cpp:373-379 | a failure registers only while booting (status 0): the status becomes non-zero and the reason is kept; afterwards nothing changes |
| `ImageFile.FirstFailureWins` | src/image_file.cpp:365-379 | after a first failure a later one changes nothing: the first reason is the one reported |
| `ImageFile.ImageFile.SetFailed` | src/image_file.cpp:373-379 | the status and exception become what the failure rule gives; the download list is untouched |
| `ImageFile.ImageFile.SetAuthFailed` | src/image_file.cpp:365-371 | set_failed with the reason "Authentication failed" |
| `ImageFile.RemoteUrl` | src/image_file.cpp:105-109 | the URL is the configured repoBlobUrl, then exactly one '/', then the digest |
| `ImageFile.RemoteUrlSlash` | src/image_file.cpp:107-109 | a configured URL with or without its trailing '/' yields the same blob URL |
| `ImageFile.EffectiveEngine` | src/image_file.cpp:44-48 | an io engine above 2 falls back to psync; a valid one is kept |
| `ImageFile.OpenFlags` | src/image_file.cpp:41-52 | the flags carry O_DIRECT exactly for libaio, and are otherwise O_RDONLY |
| `ImageFile.ImageFile.OpenRoFile` | src/image_file.cpp:40-94 | the local file opens exactly when the open, the aligned adaptor (libaio only), the switch file and, for a zfile, the zfile reader all succeed; it is then that adaptor stack; otherwise the reason of the first failing step is recorded |
| `ImageFile.ImageFile.OpenRoRemote` | src/image_file.cpp:96-142 | an empty repoBlobUrl fails; a failed remote open records an authentication failure for EPERM and the URL otherwise; a failed switch-file or sure-file wrapper records its own reason; only a fully wrapped open returns the blob URL, and only it queues the layer directory for download, when downloading is enabled |
| `ImageFile.LayerSource` | src/image_file.cpp:199-214 | a layer is opened from its own file when it names one, else from the committed download in its directory when the blob was downloaded, else from the registry by digest |
| `ImageFile.ImageFile.LayerOpening` | src/image_file.cpp:199-220 | what opening one layer amounts to: a failure always carries a non-empty reason and queues nothing; anything queued comes from an opened layer with downloading on; an opened remote blob with downloading on queues exactly its directory |
| `ImageFile.ImageFile.OpenLowerLayer` | src/image_file.cpp:199-220 | 0 exactly when a file was opened from the layer's source (a local stack for a path, the blob URL for a remote blob); the boot status is unchanged on success and goes through the failure rule with that layer's reason on failure; dl_list grows by exactly what the layer queued |
| `ImageFile.ParallelOpenTask.constructor` | src/image_file.cpp:177-180 | the counter starts at 0, no error, no layer open |
| `ImageFile.ParallelOpenTask.NextJob` | src/image_file.cpp:164-172 | the next index is handed out once, in order, and -1 once none remain |
| `ImageFile.ParallelOpenTask.OpenOne` | src/image_file.cpp:190 | opening one handed-out layer changes the boot status and dl_list exactly as that layer's opening says, and reports whether it opened |
| `ImageFile.ParallelOpenTask.Step` | src/image_file.cpp:184-194 | one pass of the worker loop: either it opened the next layer and the error count and stopping point are unchanged, or it stopped, at the end of the list, on a recorded error or on its own failure with errno recorded |
| `ImageFile.ParallelOpenTask.Work` | src/image_file.cpp:183-197 | a worker keeps the task consistent with the image file, and where the opening stops is the same before it runs (with it among the workers left) as after (without it): it stops its own run at the first failure, or at once when an error is already recorded |
| `ImageFile.FirstMissing` | src/image_file.cpp:246-254 | the first layer left unopened, or the count when every one opened |
| `ImageFile.Opened` | src/image_file.cpp:268-271 | exactly the opened layers are released on error |
| `ImageFile.Workers` | src/image_file.cpp:233 | as many workers as layers, but at most 32 |
| `ImageFile.FailFrom` | src/image_file.cpp:246-254 | the first layer at or after a position that fails to open; every layer before it opens |
| `ImageFile.AttemptEnd` | src/image_file.cpp:183-197 | the workers, run one after another, try a non-empty prefix of the remaining layers, at least one layer |
| `ImageFile.AttemptPastFailure` | src/image_file.cpp:183-197 | however many workers there are and whatever errno the failures leave, the first failing layer is always tried, and without a failure every layer is |
| `ImageFile.BootBeforeFailure` | src/image_file.cpp:373-379 | layers that all open leave the boot status as it was |
| `ImageFile.BootLatched` | src/image_file.cpp:373-379 | after booting has failed, opening further layers changes neither status nor reason |
| `ImageFile.BootAfterFailure` | src/image_file.cpp:373-379 | while booting, once the first failing layer is tried the image has status -1 and that layer's reason, whatever the later layers do |
| `ImageFile.QueuedIncludes` | src/image_file.cpp:132-139 | what one tried layer queued is part of what the tried layers queued |
| `ImageFile.ImageFile.OpenInParallel` | src/image_file.cpp:230-244 | after the workers are joined, the tried layers are exactly those before the stopping point, the open ones are exactly the tried layers that opened, and the boot status and dl_list are what opening the tried layers in order makes of the old ones |
| `ImageFile.ImageFile.OpenLowers` | src/image_file.cpp:222-274 | no layers gives no file, no error and no change; otherwise an error exactly when some layer fails to open or the LSMT stacking fails. When booting, a failing layer leaves status -1 and the reason of the first failing layer; when booting had already failed, the earlier reason is kept, or "failed to open layer N" naming the first failing layer is recorded. A stacking failure records "failed to create overlaybd device" unless a reason is there. dl_list holds the remote layers opened before the stop, which is all of them when none fails. Only opened layers are released, and all of them when only the stacking failed |
| `ImageFile.ImageFile.InitImageFile` | src/image_file.cpp:313-363 | -1 exactly when a lower layer fails, the stacking fails, or both upper paths are set and the upper open or stacking fails; otherwise 1, read-only exactly when an upper path is empty, with the boot status unchanged. A failing lower layer, while booting, leaves status -1 with the first failing layer's reason. The background download starts exactly on success with downloading on and a non-empty dl_list, which is the case whenever some layer comes from the registry |
| `ImageFile.ImageFile.StartDownload` | src/image_file.cpp:144-156 | nothing to do without queued layers; otherwise the delay before downloading |
| `ImageFile.DownloadDelay` | src/image_file.cpp:150-152 | the delay lies between the configured delay and it plus the extra window (30 when the window is 0) |
| `Strings.DecimalRoundTrip` | src/image_file.cpp:250 | the decimal text of a layer index written into "failed to open layer N" reads back as that index |
| `ConfigUtils.UndashedHasNoDash` | src/overlaybd/stream_convertor/config_utils.h:25-27 | no '-' survives the filter |
| `ConfigUtils.UndashedOfDashless` | src/overlaybd/stream_convertor/config_utils.h:22-34 | a name without '-' passes the filter unchanged |
| `ConfigUtils.UndashedIdempotent` | src/overlaybd/stream_convertor/config_utils.h:22-34 | filtering twice is filtering once |
| `ConfigUtils.UndashedPrefix` | src/overlaybd/stream_convertor/config_utils.h:24-31 | filtering a prefix of the input gives a prefix of the filtered input |
| `ConfigUtils.SkipDashes` | src/overlaybd/stream_convertor/config_utils.h:25-27 | the inner loop stops at the end or at a character other than '-', dropping only dashes |
| `ConfigUtils.Charfilter` | src/overlaybd/stream_convertor/config_utils.h:22-34 | charfilter copies the first min(maxlen, n) non-'-' characters of the source, in order, where n is how many there are; it writes a NUL after them, returns that count and leaves the rest of dst alone |
| `ConfigUtils.Lookup` | src/overlaybd/stream_convertor/config_utils.h:55 | a key is found exactly when some entry of the map has it |
| `ConfigUtils.LookupAssign` | src/overlaybd/stream_convertor/config_utils.h:57-60 | after `ret[key] = v`, the key maps to v and every other key to what it mapped to before |
| `ConfigUtils.Merge` | src/overlaybd/stream_convertor/config_utils.h:46-64 | when either node is not a map the result is rhs; two maps merge into a map |
| `ConfigUtils.MergeFromLookup` | src/overlaybd/stream_convertor/config_utils.h:53-62 | from any point of the loop, a key written by a later rhs entry ends up merged over lhs's value, and every other key keeps what the map built so far holds |
| `ConfigUtils.LookupAt` | src/overlaybd/stream_convertor/config_utils.h:53-55 | with distinct keys, looking up an entry's key finds that entry's value |
| `ConfigUtils.MergeMaps` | src/overlaybd/stream_convertor/config_utils.h:46-64 | merging two maps: a key of rhs gets rhs's value merged over lhs's (rhs's alone when lhs lacks it); a key only lhs has keeps lhs's value |
| `ConfigUtils.MergeKeys` | src/overlaybd/stream_convertor/config_utils.h:46-64 | the merged map's keys are exactly those of lhs and rhs |
| `ConfigUtils.MergeConfig` | src/overlaybd/stream_convertor/config_utils.h:46-64 | mergeConfig's loop, recursing into nested maps, computes the merge |
| `FdEvents.NewEventsMap` | src/overlaybd/photon/syncio/fd-events.h:101-116 | the map keeps both event values and both underlay masks, and satisfies the static_asserts and asserts |
| `FdEvents.TranslateBitwisely` | src/overlaybd/photon/syncio/fd-events.h:117-124 | the result holds only underlay read and write bits: the read mask when events shares a bit with ev_read, the write mask when it shares one with ev_write, nothing when it shares neither |
| `FdEvents.BitwiselyFits` | src/overlaybd/photon/syncio/fd-events.h:117-124 | the translation fits the 32-bit result |
| `FdEvents.BitwiselyIff` | src/overlaybd/photon/syncio/fd-events.h:117-124 | with disjoint underlay masks the read bits are set exactly when events has a read bit, and the write bits exactly when it has a write bit |
| `FdEvents.TranslateByval` | src/overlaybd/photon/syncio/fd-events.h:125-130 | ev_read translates to the underlay read mask and ev_write to the write mask, never to nothing |
| `FdEvents.ByvalIsBitwise` | src/overlaybd/photon/syncio/fd-events.h:117-130 | when the two event values share no bit, both translations agree on either event |
| `FdEvents.EpollMap` | src/overlaybd/photon/syncio/epoll.cpp:40 | the epoll engine's map satisfies the asserts |
| `FdEvents.EpollTranslation` | src/overlaybd/photon/syncio/epoll.cpp:40 | under epoll, reading asks for EPOLLIN and EPOLLRDHUP, writing for EPOLLOUT, both for all three, nothing for nothing |
| `Dsa.MemsetPattern` | src/overlaybd/fs/zfile/crc32/dsa.cpp:362-379 | byte i of the first len bytes becomes byte i mod 8 of the pattern's little-endian bytes; the bytes past len are untouched |
| `Dsa.MemcmpPattern` | src/overlaybd/fs/zfile/crc32/dsa.cpp:383-404 | 0 exactly when the first len bytes are the pattern repeated, -1 otherwise; the buffer is only read |
| `Dsa.Match` | src/overlaybd/fs/zfile/crc32/dsa.cpp:392-402 | a word or tail equal to the pattern's first bytes holds the repetition at those positions |
| `Dsa.Mismatch` | src/overlaybd/fs/zfile/crc32/dsa.cpp:393-401 | a word or tail that differs from the pattern's first bytes means the buffer is not the repetition |
| `Dsa.FillThenCompare` | src/overlaybd/fs/zfile/crc32/dsa.cpp:362-404 | comparing right after filling with the same pattern and length returns 0 |
| `Dsa.BitLength` | src/overlaybd/fs/zfile/crc32/dsa.cpp:151 | the number of significant bits: v lies below 2^n and, when non-zero, at or above 2^(n-1) |
| `Dsa.BitLengthBound` | src/overlaybd/fs/zfile/crc32/dsa.cpp:147-153 | a 32-bit value has at most 32 significant bits |
| `Dsa.Clz` | src/overlaybd/fs/zfile/crc32/dsa.cpp:151 | the leading zeros z of a non-zero 32-bit value: below 32, with 2^(31-z) <= v < 2^(32-z) |
| `Dsa.Bsr` | src/overlaybd/fs/zfile/crc32/dsa.cpp:147-153 | for a non-zero value, the index r of its highest set bit (2^r <= val < 2^(r+1)); for 0, 0 - 1 wrapped to 0xFFFFFFFF |
| `Dsa.HwDesc.constructor` | src/overlaybd/fs/zfile/crc32/dsa.cpp:210-215 | a fresh descriptor is all zero |
| `Dsa.HwDesc.PrepCommon` | src/overlaybd/fs/zfile/crc32/dsa.cpp:576-584 | flags, opcode, source and destination are stored unchanged and the length in the 32-bit xfer_size (unchanged below 2^32); nothing else changes |
| `Dsa.CompletionRecord.constructor` | src/overlaybd/fs/zfile/crc32/dsa.h:47-55 | the completion record holds the given status, direction and bytes completed |
| `Dsa.Reprepped` | src/overlaybd/fs/zfile/crc32/dsa.cpp:623-667 | flags and opcode are kept; for a fault in direction 1 the addresses are kept; crcgen never moves the destination; the length stays a 32-bit value |
| `Dsa.ResumeAfterCompleted` | src/overlaybd/fs/zfile/crc32/dsa.cpp:633-660 | after a forward fault the resubmitted descriptor starts right after the completed bytes and ends where the original did, for the source and (copy-crc) the destination |
| `Dsa.Reprep` | src/overlaybd/fs/zfile/crc32/dsa.cpp:623-667 | the descriptor becomes the re-prepared one, the completion status is cleared and nothing else changes |
| `Dsa.DescFlags` | src/overlaybd/fs/zfile/crc32/dsa.cpp:471-513 | CRAV and RCR are always set; BOF exactly when the test asks for it and the queue supports it |
| `Dsa.StatVal` | src/overlaybd/fs/zfile/crc32/dsa.h:33-38 | the status code is below 64 and a status below 64 is its own code |
| `Dsa.WaitDecision` | src/overlaybd/fs/zfile/crc32/dsa.cpp:448-503 | a timed-out wait gives DSA_STATUS_TIMEOUT exactly when the wait failed; resubmission happens exactly when the status code is PAGE_FAULT_NOBOF and the descriptor lacks BOF |
| `Dsa.BlockOnFaultNeverResubmits` | src/overlaybd/fs/zfile/crc32/dsa.cpp:456-473 | a descriptor prepared with block-on-fault is never resubmitted |
| `Dsa.DecisionIgnoresRwBit` | src/overlaybd/fs/zfile/crc32/dsa.h:33-38 | the read/write bit (0x80) of the status byte does not change the decision |
| `Dsa.Enqcmd` | src/overlaybd/fs/zfile/crc32/dsa.cpp:279-293 | ENQCMD is issued until accepted, at most three times, and 0 is returned whether or not any was accepted |
| `Dsa.AlwaysRejected` | src/overlaybd/fs/zfile/crc32/dsa.cpp:279-293 | for a queue that rejects every ENQCMD, dsa_enqcmd as written makes all 3 tries and still returns 0, so the caller's delay on a non-zero result (lines 594-595) never runs; the checked form returns -1 |
| `Dsa.EnqcmdChecked` | src/overlaybd/fs/zfile/crc32/dsa.cpp:279-596 | 0 exactly when one of the three ENQCMDs was accepted, -1 otherwise |
| `Dsa.DsaContext.constructor` | src/overlaybd/fs/zfile/crc32/dsa.cpp:159-161 | a new context has no portal mapped |
| `Dsa.DsaContext.Alloc` | src/overlaybd/fs/zfile/crc32/dsa.cpp:155-187 | any non-null wq_reg, MAP_FAILED included, returns 0 at once; otherwise -ENODEV without a usable queue, or 0 with the queue recorded and max_xfer_bits = bsr(max_xfer_size) |
| `Dsa.DsaContext.AllocChecked` | src/overlaybd/fs/zfile/crc32/dsa.cpp:155-187 | 0 exactly when a portal is mapped afterwards; the early return is taken only for a mapped portal |
| `Dsa.AllocAfterMapFailure` | src/overlaybd/fs/zfile/crc32/dsa.cpp:85-166 | after a failed mmap, a second dsa_alloc finding no queue returns 0 as written and -ENODEV when checked |

## Left out

- Foreign libraries are parameters, not models: zlib's `inflate`, `inflatePrime` and `inflateSetDictionary`; OpenSSL SHA-256; base64 decoding; rapidjson and yaml-cpp parsing. `GzAdaptorFile` (src/overlaybd/gzip/gz.cpp) only forwards to `gzread`/`gzseek` and is not part of this model.
- The EROFS library's own orchestration is not part of this model: `erofs_mkfs`, `extract_tar`, `extract_all`, inode reads, path walks and `fiemap`. All of them run inside erofs-utils code that is not shown.
- Concurrency is modelled sequentially:
  - the kfifo spinlock and memory fences;
  - the epoll and aio engines;
  - the prefetch replay and lock-detection threads;
  - the parallel layer-open coroutines, whose workers run one after another here (see `ImageFile.ParallelOpenTask.Work` below).
- Hardware is not part of this model: DSA's `cpuid`, `umonitor`/`umwait`, `enqcmd` and `movdir64b`; `dsa_desc_submit`; `dsa_get_wq`'s accel-config device scan; `resolve_page_fault`'s raw-address write; the polling timeouts. The idxd header is not part of this model either, so `xfer_size` is taken as a `uint32_t` and the flag and status values are the Linux ones.
- The network and the servers: the stream convertor's UDS server, the construction of the registry file system, the CA-file lookup in `ImageService::init` and the background download itself.
- The LSMT/ZFile command-line tools: they are plumbing over code that is not shown.
- Allocation failure is not modelled:
  - `malloc` returning NULL in the EROFS sector cache (`-ENOMEM` at src/overlaybd/tar/erofs/liberofs.cpp:82 and 122);
  - `malloc` returning NULL in `kfifo_alloc`.
  Two allocation failures are modelled, with whether the allocation succeeds as a parameter: `init_tar`'s halving, and the span buffers of `tarerofs_impl.cpp` (`TarErofs.ReadPhotonFile` and `TarErofs.WritePhotonFile`).
- `Kfifo.Alloc`: a NULL from `malloc` is not modelled. The lock pointer that `kfifo_alloc` writes without allocating it is not modelled either.
- `Queue.PtrQueue.constructor`: the process abort when `kfifo_alloc` refuses the size becomes a precondition that the size is accepted.
- `TarErofs.SourceRead`: the stream read never fails here. In the source a failing read is not caught: `ret` is a `u64`, so a `-1` from `read` becomes 2^64 - 1 and passes the `ret < 1` test (the `-1` branch is unreachable). `bytes -= ret` then grows `bytes` by 1, and `i += ret` steps `i` back by 1, so the loop goes on with the next read landing at `buf + i - 1` (src/overlaybd/tar/erofs/tarerofs_impl.cpp:224-237). The model does not capture that behaviour.
- `TarErofs.ReadPhotonFile`: the leak of its span buffer on success is not modelled. Memory is not tracked.
- `ErofsMapFile.LineMapping`: `lba.count` is taken as a 64-bit field, holding the untruncated u64 product `nblocks * blksz`, and `Accepted` compares `nwrite % 2^32` with it. The width of `LSMT::RemoteMapping.count` is not shown, so a narrower field, which would truncate the product, is not modelled.
- `TarErofs.WriteMapFile`: `nblocks * 4096` is a 32-bit product. The model truncates it (`TarCountExact` says when it is exact). It is not claimed as a defect, because the width of the mapping's count field is not shown.
- `tarerofs`'s `target_fsync` only forwards to the file's `fsync` and is not modelled.
- `ChecksumFile.CheckedFile.Read`: OpenSSL's `SHA256_Update` returns 1 or 0, so the `< 0` test never fires. The update's result is a parameter, so both branches are modelled.
- The checked file's `total_read` field is never updated by the source and is not modelled.
- `ConfigUtils.Charfilter`: the `extract` argument is unused by the source and is dropped.
- `ImageFile.ImageFile.OpenRoRemote`: the remote open, the switch file and the sure file are outcomes passed in. Whether download is enabled is one constant of the image file; the source tests `HasMember("download") && enable() == 1` when it queues a layer and `download().enable()` when it starts the download.
- `ImageFile.ImageFile.OpenLowers`: each layer's opens, and the errno a failed open leaves behind, are outcomes passed in, one `ImageFile.LayerInput` per layer. The messages `open_lowers` writes itself ("failed to open layer N", "failed to create overlaybd device") go to `m_exception` only, without touching `m_status`. When booting, `set_failed` has already recorded the first failing layer's reason, so "failed to open layer N" shows only when booting had failed before.
- `ImageFile.ParallelOpenTask.Work`: photon coroutines may switch wherever an open blocks. Here each worker runs until it stops before the next one starts, so the layers tried are always a prefix of the list. Interleavings in which a later layer is opened before an earlier failure is recorded are not modelled.
- `GzFile.GzFile.Pread`: the `size_t` count is passed to `extract` as an `int` (src/overlaybd/gzindex/gzfile.cpp:69 and 360). A count of 2^31 or more would be cut to 32 bits and could turn negative. The model requires a count below 2^31 and does not model that conversion.
- `PrefetchTrace.EncodeFormat`: the 3 padding bytes after `op` are written as zeros. In the source the record is not zeroed, so those bytes are whatever the stack held, and they go into the trace file and into its CRC. Decoding ignores them, so the round trips hold; the exact bytes and checksum of a dump are those of zeroed padding only.
- `ErofsDirent.ErofsDir.Seekdir`: a negative `loc` is excluded by a precondition, because `next()` would then index `m_dirs` below its start, which is undefined behaviour in the source.
- `GzFile.IndexTable`: `index_buf_len = index_num * index_size` and `idx_area_buf_len = index_area_len` are 32-bit `int`s (src/overlaybd/gzindex/gzfile.cpp:109 and 113). A product that overflows is truncated, and a negative length makes `new[]` throw. The model computes the lengths without bounds and returns None for a negative header field instead of throwing.
- `ImageFile.DownloadDelay`: the 64-bit wrap-around of `rand() % extra_range + delay` is not modelled. `rand()` is a parameter.
- `ImageFile.ImageFile.InitImageFile`: the upper layer's open and the LSMT stacking are outcomes passed in. `BKDL::COMMIT_FILE_NAME` is a parameter of `ImageFile.ImageFile.OpenLowerLayer`, and `LSMT::ALIGNMENT` one of `PrefetchList.GetExtents`.
- `ImageFile.OpenFlags`: `O_RDONLY` and `O_DIRECT` are the Linux values. The adaptors of `ImageFile.ImageFile.OpenRoFile` are recorded as a list, not built.
- `PrefetchTrace.PrefetchFile.constructor`: in Replay mode the constructor also registers the source file with the replay thread. This is not modelled, and neither are the replay threads, `detect_lock` or the lock and OK files. Whether the OK file was created is a parameter.
- `PrefetchList.GetExtents`: `fiemap` results enter as a parameter. `generate_trace`'s directory walk is not modelled.
- `Dsa.WaitDecision`: one round of the wait loop is modelled (resubmit or finish). The polling and the timeout are not.
- `Dsa.DsaContext.Alloc`: the work-queue `mmap` and device scan are outcomes passed in.
- The tests of `GzFile::pread` in src/overlaybd/gzindex/test/test.cpp:84-85 compare a file with itself and say nothing about it. src/overlaybd/fs/test/crc-test.cpp is a threaded benchmark. Neither is modelled.

## Findings

| source | as written | input that shows it | evidently intended | confidence | as-written member | corrected member |
|---|---|---|---|---|---|---|
| src/tools/overlaybd-apply.cpp:86-88 | `res` holds `SHA256_DIGEST_LENGTH * 2` = 64 chars, and the last `sprintf("%02x")` writes its NUL terminator at index 64, one past the end | any 32-byte digest | a 65-byte buffer (or a length-bounded format) holding 64 hex digits and the terminator | not executed | `ChecksumFile.FormatAsWritten` | `ChecksumFile.FormatDigest` |
| src/overlaybd/fs/zfile/crc32/dsa.cpp:279-293 | `dsa_enqcmd` issues `enqcmd` at most 3 times and returns 0 even when every try was rejected. The rejection is silently lost: the caller's 10 ms `usleep` back-off at lines 594-595 never runs, and the descriptor never reaches the queue | a work queue that rejects all 3 submissions | return non-zero after the last rejection, so that the caller backs off for 10 ms before it waits on the completion record (the caller never resubmits) | not executed | `Dsa.Enqcmd` | `Dsa.EnqcmdChecked` |
| src/overlaybd/fs/zfile/crc32/dsa.cpp:85-166 | after a failed work-queue `mmap`, `wq_reg` holds `MAP_FAILED`, which is not NULL, so the next `dsa_alloc` takes the early `return 0` at line 159-161 with no usable portal | a first `dsa_alloc` whose `mmap` fails, followed by a second call | treat `MAP_FAILED` as unset (or reset `wq_reg`) so the second call fails or retries | not executed | `Dsa.DsaContext.Alloc` | `Dsa.DsaContext.AllocChecked` |
| src/overlaybd/gzindex/gzfile.cpp:205-219 | `seek_index` falls back to the first checkpoint when `offset` lies before its `de_pos`, so `extract` gets a negative distance. Being below CHUNK it is not split: one round sets `avail_out = static_cast<unsigned int>(offset)`, up to 2^32 - 1, while `next_out` is the 64 KiB stack buffer `discard` (line 262), so the decoder can write past that buffer | an index whose first checkpoint is at byte 100, and `pread` at offset 0 (`GzFile.FallbackOverrunExample`) | refuse an offset before the first checkpoint (here with EINVAL), so `extract` only ever discards a non-negative distance | not executed | `GzFile.GzFile.Discard` | `GzFile.GzFile.ReadIndexed` |
