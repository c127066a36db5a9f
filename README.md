# macho_edit: a verified model of the `MachO` container editor

macho_edit edits Mach-O executables in place. Its `MachO` class (`macho_edit/macho.cpp`)
opens a thin file or a fat file. A thin file is a single `mach_header`, its load commands
and data. A fat file is a `fat_header`, a table of `fat_arch` descriptors and one slice per
architecture. The class keeps the file's size, whether the file is fat, the fat magic, the
slice count and the list of slices, each with its descriptor, Mach header and load commands.
Its operations rewrite headers and tables and move, zero, copy and truncate byte ranges:

- `make_fat` and `make_thin` convert a file between thin and fat;
- `remove_arch` removes a slice and compacts the ones after it;
- `insert_arch_from_macho` appends a slice from another file;
- `insert_load_command`, `move_load_command`, `remove_load_command` and `change_file_type` edit a slice's load commands;
- `remove_codesignature` strips the code signature that ends a slice.

The model is written in Dafny, module by module:

| module | contents |
|---|---|
| `Bytes` | the file as a sequence of bytes; `fwrite`, `ftruncate`, `fmove`, `fzero` and `fcpy` as pure functions with exact contracts; 32/64-bit unsigned wrap-around; little-endian words |
| `MachOFormat` | magic numbers, load-command tags, record sizes, `SWAP32`/`SWAP64` as an involutive conditional byte swap, `ROUND_UP` |
| `Records` | the descriptor, the Mach header, the load command and the slice as datatypes; the `Container` value holding the whole state; the byte encodings of the records |
| `Persistence` | `write_fat_header`, `write_fat_archs`, `write_mach_header` and `write_load_command` as functions on a `Container`, and what each leaves on disk |
| `Parse` | the opening constructor |
| `Slices` | `make_fat`, `make_thin`, `save_arch_to_file` and `insert_arch_from_macho` |
| `Relayout` | `remove_arch` |
| `Commands` | the load-command operations and the layout of a slice's commands |
| `CodeSignature` | `remove_codesignature` |
| `EditSteps` | the loop invariants and step lemmas the methods use |
| `MachOEdit` | the class `MachO` |

`MachOEdit.MachO` has the object's fields: the file's bytes, `file_size`, `is_fat`,
`fat_magic`, `n_archs` and `archs`. Its methods update them in place. Each method is proved
to leave `State()`, the fields read as a `Container`, equal to the matching function applied
to the old state. The properties the editor promises are proved about those functions.
The loops of the source are loops with invariants in the methods:

- the field swap of `swap_arch`;
- the descriptor loops of the constructor and of `write_fat_archs`;
- the relocation loop of `remove_arch`;
- the shift loop of `move_load_command`;
- the scan of `remove_codesignature`.

The code's quirks are modelled as written:

- `make_fat` writes the fat header and table while the container is still thin, so both writes do nothing, and it zeroes 0 bytes.
- `make_thin` leaves the kept descriptor's offset unchanged.
- `move_load_command` always puts the moved command last in the list. With `lc_index > new_index` it swaps the two indices.
- `insert_load_command` places the first command of a slice with no commands at the slice's end.
- `insert_arch_from_macho` copies from offset 0 of the other file. It extends the file to `file_size + offset` before the table write cuts it to the new slice's end.
- The code-signature scan anchors on the last segment whose name is *not* `"__LINKEDIT"`.

## Model

| member | source | states |
|---|---|---|
| MachOEdit.MachO.constructor | macho_edit/macho.cpp:16-17 | The default constructor leaves an empty, thin container with no slices. |
| MachOEdit.MachO.Open | macho_edit/macho.cpp:19-73 | Opening succeeds exactly when `Parse.Parse` accepts the content, with a fresh object whose state is the parsed container; otherwise it returns the same error (too large, unknown magic, truncated). |
| MachOEdit.MachO.ReadFat | macho_edit/macho.cpp:48-60 | The fat branch: the object ends in the state `ParseFat` gives, or reports truncation exactly when `ParseFat` does. The loop keeps every slice read so far equal to the slice read at the matching table entry. |
| MachOEdit.MachO.ReadThin | macho_edit/macho.cpp:61-72 | The thin branch leaves the object in the state `ParseThin` gives. |
| MachOEdit.MachO.OpenThin | macho_edit/macho.cpp:61-72 | Builds the thin container: the Mach header at 0, the descriptor from `arch_from_mach_header` swapped with `FAT_CIGAM`, one slice. |
| MachOEdit.MachO.SetState | macho_edit/macho.cpp:46-72 | After the assignment of every field, the object's state is the given container. |
| MachOEdit.MachO.SwapArch | macho_edit/macho.cpp:75-80 | The loop swaps all five 32-bit fields with the fat magic, giving `Records.SwapArch`; swapping twice gives the descriptor back. |
| MachOEdit.MachO.WriteFatHeader | macho_edit/macho.cpp:82-94 | Leaves the state `Persistence.WriteFatHeader` describes: unchanged for a thin container, otherwise the fat magic and count at offset 0. |
| MachOEdit.MachO.WriteFatArchs | macho_edit/macho.cpp:96-125 | Leaves the state `Persistence.WriteFatArchs` describes: the swapped descriptors after the fat header, and the file cut or grown to the slice's size (thin) or the last slice's end (fat). |
| MachOEdit.MachO.WriteDescriptors | macho_edit/macho.cpp:108-113 | Writing the swapped descriptors one after another equals writing the whole encoded table at the end of the fat header. |
| MachOEdit.MachO.MakeFat | macho_edit/macho.cpp:165-188 | Leaves the state `Slices.MakeFat` describes. |
| MachOEdit.MachO.MakeThin | macho_edit/macho.cpp:190-208 | Leaves the state `Slices.MakeThin` describes. |
| MachOEdit.MachO.SaveArchToFile | macho_edit/macho.cpp:210-225 | Reports whether the new file could be opened; when it could, the new file holds exactly the slice's bytes. The container is not changed. |
| MachOEdit.MachO.RemoveArch | macho_edit/macho.cpp:227-265 | Leaves the state `Relayout.RemoveArch` describes. |
| MachOEdit.MachO.WriteTableAndTruncate | macho_edit/macho.cpp:258-264 | The end of remove_arch: the header and table written, then the file and its recorded size set to the running offset. |
| MachOEdit.MachO.RelocateTail | macho_edit/macho.cpp:232-256 | The relocation loop yields the kept slices with their new offsets (`Remaining`), the file after every move and zeroing (`MovedFrom`), and the final running offset (`NewEnd`). |
| MachOEdit.MachO.RelocateLoop | macho_edit/macho.cpp:243-256 | The loop keeps `TailState`: the slices placed so far are relocated and their bytes moved, the rest untouched. |
| MachOEdit.MachO.RelocateOne | macho_edit/macho.cpp:244-255 | One round of the loop (round up, record, move, zero, advance) extends `TailState` by one slice. |
| MachOEdit.MachO.InsertArchFromMachO | macho_edit/macho.cpp:267-295 | Leaves the state `Slices.InsertArch` describes. The other container is not modified; it is outside the method's frame. |
| MachOEdit.MachO.WriteMachHeader | macho_edit/macho.cpp:127-130 | Leaves the state `Persistence.WriteMachHeader` describes: only the file's bytes change. |
| MachOEdit.MachO.WriteLoadCommand | macho_edit/macho.cpp:132-135 | Only the file's bytes change: the command's first `cmdsize` bytes are written at its offset. |
| MachOEdit.MachO.RemoveLoadCommand | macho_edit/macho.cpp:297-315 | Leaves the state `Commands.RemoveLoadCommand` describes. |
| MachOEdit.MachO.PopLastCommand | macho_edit/macho.cpp:305-314 | Leaves the state `Commands.PopCommand` describes. |
| MachOEdit.MachO.MoveLoadCommand | macho_edit/macho.cpp:317-348 | Leaves the state `Commands.MoveLoadCommand` describes, including the no-op and swapped-index cases. |
| MachOEdit.MachO.ShiftCommands | macho_edit/macho.cpp:326-347 | The forward move yields the file and list `Commands.MoveForward` gives. |
| MachOEdit.MachO.ShiftRun | macho_edit/macho.cpp:330-340 | The shift loop ends past `new_index`, with the commands after `lc_index` relaid from its offset, written to the file, and the running offset past them. |
| MachOEdit.MachO.ShiftOne | macho_edit/macho.cpp:334-339 | One round of the shift loop keeps that state for one more command. |
| MachOEdit.MachO.PlaceMoved | macho_edit/macho.cpp:342-344 | The moved command gets the offset after the shifted run, and its record is written there. |
| MachOEdit.MachO.MoveToEnd | macho_edit/macho.cpp:346-347 | `erase` then `push_back`: the list without entry `lc_index`, with the moved command appended. |
| MachOEdit.MachO.InsertLoadCommand | macho_edit/macho.cpp:350-373 | Leaves the state `Commands.InsertLoadCommand` describes. |
| MachOEdit.MachO.ChangeFileType | macho_edit/macho.cpp:375-381 | Leaves the state `Commands.ChangeFileType` describes. |
| MachOEdit.MachO.RemoveCodeSignature | macho_edit/macho.cpp:383-476 | Returns and leaves what `CodeSignature.RemoveCodeSignature` gives: true with the signature stripped exactly when the slice is `Signed`, false with nothing changed otherwise. |
| MachOEdit.MachO.CheckSignature | macho_edit/macho.cpp:392-453 | The scan and the two end checks succeed exactly when the slice is `Signed`; then the indices are the last signature command and the last anchor segment, and the reduction is `Reduction`. |
| MachOEdit.MachO.ScanCommands | macho_edit/macho.cpp:392-412 | The scan loop keeps, for each kind, the index of the LAST matching command seen (`LastOf`). |
| Bytes.Add32 | macho_edit/macho.cpp:241 | `uint32_t` addition: the exact sum whenever it does not wrap. |
| Bytes.Sub32 | macho_edit/macho.cpp:455 | `uint32_t` subtraction: the exact difference whenever it does not wrap. |
| Bytes.AddSub32 | macho_edit/macho.cpp:369-370 | Subtracting what was added gives back any 32-bit value, wrapped or not; the `ncmds`/`sizeofcmds` updates of insert and remove undo each other. |
| Bytes.Add64 | macho_edit/macho.cpp:438 | `uint64_t` addition: the exact sum whenever it does not wrap. |
| Bytes.Sub64 | macho_edit/macho.cpp:456 | `uint64_t` subtraction: the exact difference whenever it does not wrap. |
| Bytes.Zeros | macho_edit/macho.cpp:230 | The bytes `fzero` writes: `n` zeros. |
| Bytes.Overwrite | macho_edit/macho.cpp:133-134 | An `fwrite` at an offset: the written bytes at the offset, every other byte kept, the file grown (zero-filled) only when the write runs past its end. |
| Bytes.Resize | macho_edit/macho.cpp:101-103 | `ftruncate`: exactly `n` bytes, the old bytes kept below `n`, zeros beyond the old end. |
| Bytes.Move | macho_edit/macho.cpp:174 | `fmove`: the destination range holds the old source range; every other byte is kept (or zero where the file grew). |
| Bytes.OverwriteConcat | macho_edit/macho.cpp:109-113 | Two writes back to back equal one write of the concatenation: consecutive `WRITE`s of a table. |
| Bytes.OverwriteTwice | macho_edit/macho.cpp:310 | A second write over the same range replaces the first. |
| Bytes.OverwriteSame | macho_edit/macho.cpp:175 | Writing the bytes already there changes nothing. |
| Bytes.LEOfToLE | macho_edit/macho.cpp:38 | Reading back a little-endian encoding gives the value. |
| Bytes.ToLEOfLE | macho_edit/macho.cpp:38 | Encoding a decoded byte string gives the bytes back. |
| Bytes.SwapInvolutive | macho_edit/macho.cpp:53 | A conditional byte reversal is its own inverse. |
| Bytes.SetField | macho_edit/macho.cpp:461-466 | Storing a field changes only its bytes and reads back the stored value. |
| MachOFormat.Swap32 | macho_edit/macho.cpp:53 | `SWAP32`: the identity under a magic in host order. |
| MachOFormat.Swap32Involutive | macho_edit/macho.cpp:75-80 | `SWAP32` twice with the same magic gives the value back. |
| MachOFormat.Put32 | macho_edit/macho.cpp:461-462 | A 32-bit field stored in the command's byte order reads back, and no other byte changes. |
| MachOFormat.Put64 | macho_edit/macho.cpp:465-466 | The same for a 64-bit field. |
| MachOFormat.RoundUp | macho_edit/macho.cpp:170 | `ROUND_UP`: the least multiple of the alignment at or above `x` (aligned, and less than `x + a`). |
| MachOFormat.RoundUp32 | macho_edit/macho.cpp:249 | `ROUND_UP` into a `uint32_t`: the exact rounding whenever it fits. |
| Records.SwapArchInvolutive | macho_edit/macho.cpp:75-80 | `swap_arch` twice with the same fat magic gives the descriptor back. |
| Records.DecodeEncodeFatArch | macho_edit/macho.cpp:57-58 | A descriptor written in the table reads back as the same descriptor. |
| Records.EncodeFatTable | macho_edit/macho.cpp:108-113 | The table holds descriptor `i` at `20 * i`. |
| Records.DecodeEncodeMachHeader | macho_edit/macho.cpp:66-67 | A Mach header written at an offset reads back as the same header. |
| Persistence.HoldsAfterWrite | macho_edit/macho.cpp:132-135 | A write leaves its bytes in place. |
| Persistence.HoldsAcrossWrite | macho_edit/macho.cpp:252-253 | A write keeps every byte range it does not overlap. |
| Persistence.HoldsAcrossResize | macho_edit/macho.cpp:262 | A truncation keeps every range below the new length. |
| Persistence.TableReadsBack | macho_edit/macho.cpp:55-58 | Every descriptor of a written table reads back at its place. |
| Persistence.HeaderReadsBack | macho_edit/macho.cpp:52-53 | A written fat header reads back its magic and count. |
| Persistence.WriteFatHeader | macho_edit/macho.cpp:82-94 | Unchanged for a thin container. For a fat one, the header at 0 reads back the fat magic and the count, and nothing past it changes. |
| Persistence.WriteFatArchs | macho_edit/macho.cpp:96-125 | Thin: size becomes the slice's size, and the file changes only when that differs. Fat: the table is written and the size becomes the last slice's end when there is one. |
| Persistence.WriteMachHeader | macho_edit/macho.cpp:127-130 | The slice's Mach header reads back at its offset, and nothing else changes. |
| Persistence.WriteLoadCommand | macho_edit/macho.cpp:132-135 | The command's record sits at its offset, and nothing else changes. |
| Persistence.WriteTablesKeep | macho_edit/macho.cpp:258-259 | Writing the header and table keeps any range past the table and inside the new end. |
| Persistence.WriteTablesPersist | macho_edit/macho.cpp:258-259 | Writing the header and table persists both and leaves the file exactly as long as the last slice's end. |
| Parse.ArchFromMachHeader | macho_edit/macho.cpp:149-163 | Swapped with the fat magic, the descriptor reads offset 0, the given size, the header's CPU type and subtype in host order, and the CPU's page size as alignment. |
| Parse.ReadSlice | macho_edit/macho.cpp:59 | A slice keeps its descriptor and the commands read at its offset. |
| Parse.EncodeDecodeMachHeader | macho_edit/macho.cpp:66-67 | A Mach header read from the file is written back as the same 28 bytes. |
| Parse.FatDescriptors | macho_edit/macho.cpp:55-58 | The `n` descriptors, each read from its table entry and swapped. |
| Parse.ParseFat | macho_edit/macho.cpp:48-60 | Success: a fat container of the whole content, with the count from the header and the slices at the descriptors. Failure: only truncation. |
| Parse.FatSlices | macho_edit/macho.cpp:55-60 | One slice per descriptor, in order. |
| Parse.ParseThinFields | macho_edit/macho.cpp:61-72 | A thin file gives one slice at offset 0 spanning the file, `n_archs == 1`, `FAT_CIGAM`, and the header's CPU type and page-size alignment. |
| Parse.Parse | macho_edit/macho.cpp:19-73 | Rejects files over `UINT32_MAX` bytes and unknown magics. An accepted file is fat exactly when its magic is a fat magic, and is read by the matching branch. |
| Parse.ParsePersisted | macho_edit/macho.cpp:19-60 | Reopening a fat file whose header, table and Mach headers are persisted gives back the same container. |
| Parse.ParseFatPersisted | macho_edit/macho.cpp:48-60 | The same for the fat branch. |
| Parse.PersistedDescriptors | macho_edit/macho.cpp:55-58 | A persisted table reads back as the container's descriptors. |
| Parse.PersistedSlices | macho_edit/macho.cpp:55-60 | Those descriptors read back the container's slices. |
| Slices.FatOffset | macho_edit/macho.cpp:170 | The fat header's size rounded up to the slice's alignment. |
| Slices.MakeFat | macho_edit/macho.cpp:165-188 | Fat, with `FAT_CIGAM`. The slice is moved to its aligned offset and everything else is kept. The recorded size grows by that offset. |
| Slices.MakeFatBytes | macho_edit/macho.cpp:170-175 | The new file is the padding up to the offset followed by the whole thin file, and its length is the recorded size. |
| Slices.MakeFatKeepsThinMagic | macho_edit/macho.cpp:177-186 | The thin file's first word is left at the start, because both table writes take the thin branch. |
| Slices.MakeThin | macho_edit/macho.cpp:190-208 | The file becomes exactly the slice's bytes. Thin, one slice (the chosen one, offset unchanged), size as the slice's size. |
| Slices.MakeFatThenThin | macho_edit/macho.cpp:165-208 | `make_fat` then `make_thin(0)` gives back the thin file's bytes and size. |
| Slices.SaveArch | macho_edit/macho.cpp:210-225 | Success exactly when the file opens, with the slice's bytes; nothing otherwise. |
| Slices.SaveArchIsMakeThin | macho_edit/macho.cpp:190-225 | A saved slice has the bytes `make_thin` would leave. |
| Slices.ImportedDescSameOrder | macho_edit/macho.cpp:270-274 | Two fat magics of the same byte order import the descriptor unchanged. |
| Slices.AppendOffset | macho_edit/macho.cpp:278 | The appended slice's offset: the file size rounded up to its alignment. |
| Slices.InsertArch | macho_edit/macho.cpp:267-295 | One more slice, appended last with the imported descriptor at the rounded-up offset; the others and the fat magic are kept. |
| Slices.InsertStage | macho_edit/macho.cpp:268-291 | Before the table write: the file extended by the offset, zeros in the gap, the copied bytes at the offset. |
| Slices.Staged | macho_edit/macho.cpp:286-289 | The staged file holds the zeros at the old end and the copied bytes at the offset. |
| Slices.StagedKeeps | macho_edit/macho.cpp:286-289 | Staging keeps every range below the old end. |
| Slices.AppendStage | macho_edit/macho.cpp:280-291 | Appending a slice past the old end: slice list, count, size and bytes. |
| Slices.AppendKeepsSlices | macho_edit/macho.cpp:286-294 | Every old slice keeps its bytes. |
| Slices.AppendLayout | macho_edit/macho.cpp:278-294 | The result is well laid out and persisted, ends at the new slice's end, and holds the copied bytes and zero gap. |
| Slices.AppendedLayout | macho_edit/macho.cpp:282 | Appending a slice past the end keeps the layout conditions. |
| Slices.AppendAll | macho_edit/macho.cpp:278-294 | Both of the above. |
| Slices.InsertArchLayout | macho_edit/macho.cpp:267-295 | On a well laid out fat container whose slices and new offset all start after a table one descriptor longer, with no 32-bit wrap-around: new slice last at the rounded-up file size, holding the other file's leading bytes, zeros before it; old slices in place; result laid out and persisted. |
| Slices.InsertStageIsAppend | macho_edit/macho.cpp:278-291 | Without wrap-around, the staged container is the plain append. |
| Slices.InsertArchIntoTable | macho_edit/macho.cpp:278-294 | When the first slice starts before the longer table ends, the table written reaches into it and the result is not well laid out. |
| Slices.InsertArchOrder | macho_edit/macho.cpp:278-282 | A slice appended at or past the old end keeps the slices in order without overlap. |
| Relayout.Relocated | macho_edit/macho.cpp:243-250 | Each later slice keeps everything but its offset, which becomes the running offset rounded up to its alignment. |
| Relayout.RemoveStage | macho_edit/macho.cpp:230-256 | After zeroing and relocation: one slice fewer, the earlier ones unchanged, the later ones relocated, the count decremented. |
| Relayout.RemoveArch | macho_edit/macho.cpp:227-265 | Fat, one slice fewer, slices as relocated, file length equal to the recorded size. |
| Relayout.PlacedFacts | macho_edit/macho.cpp:249-255 | On a laid-out tail the running offset stays between the start and the limit, and at or below the end of the previous old slice. |
| Relayout.NewOffsetFacts | macho_edit/macho.cpp:249-255 | Each new offset is the rounded-up running offset, at or below the old offset; the running offset then advances by the slice's size. |
| Relayout.PlacedBefore | macho_edit/macho.cpp:249-255 | A slice moved earlier ends by where a later one is placed. |
| Relayout.StepPlaces | macho_edit/macho.cpp:252 | A round puts the slice's old bytes at the new offset and keeps the file's length. |
| Relayout.StepKeeps | macho_edit/macho.cpp:252-253 | A round keeps any range below the new offset or at or past the old end. |
| Relayout.MovedStep | macho_edit/macho.cpp:243-256 | The relocation invariant is kept by one round. |
| Relayout.MovedAll | macho_edit/macho.cpp:243-256 | It holds after the last round. |
| Relayout.RemoveTail | macho_edit/macho.cpp:232-238 | The starting offset is the fat header's end or the previous slice's end, and the later slices are laid out after it. |
| Relayout.ZeroKeeps | macho_edit/macho.cpp:230 | Zeroing the removed slice keeps every other slice's bytes. |
| Relayout.RelocatedOrder | macho_edit/macho.cpp:243-256 | The relocated slices are in order without overlap. |
| Relayout.RelocatedEnd | macho_edit/macho.cpp:255-264 | The last relocated slice ends at the final running offset. |
| Relayout.RemainingLayout | macho_edit/macho.cpp:240-256 | On a well laid out fat container, and, when the first slice goes, with the smaller table ending by the next slice's rounded-up offset: the kept slices are the earlier ones unchanged and the later ones moved down as far as their alignment allows; they are aligned, in order and past the smaller table. |
| Relayout.RemainingEnd | macho_edit/macho.cpp:255-264 | The new end is the last kept slice's end, or the fat header's end when none is left. |
| Relayout.RelocatedLayout | macho_edit/macho.cpp:243-256 | The moved slices fit after the start, aligned and in order. |
| Relayout.RelocatedFollows | macho_edit/macho.cpp:249 | Each moved slice sits at the first aligned offset after the one before. |
| Relayout.RemovedBytes | macho_edit/macho.cpp:230-256 | After the loop every kept slice holds its old bytes at its new offset. |
| Relayout.RewritePersists | macho_edit/macho.cpp:258-264 | Rewriting the header and table and cutting the file persists them. |
| Relayout.RemoveArchLayout | macho_edit/macho.cpp:227-265 | On a well laid out fat container, and, when the first slice goes, with the smaller table ending by the next slice's rounded-up offset: the slice is gone; earlier slices are unchanged; later ones are moved down as far as alignment allows, each holding its old bytes; the result is laid out and persisted, ending after the last slice or the fat header. |
| Relayout.RemoveFirstIntoTable | macho_edit/macho.cpp:233-259 | When the first slice goes and the next one's alignment is at most 20 bytes, that slice moves to `ROUND_UP(8, 1 << align)`, below the end of the table then written, and the result is not well laid out. |
| Relayout.RewriteKeepsAll | macho_edit/macho.cpp:258-264 | The final rewrite keeps every kept slice's bytes. |
| Commands.SumSizesConcat | macho_edit/macho.cpp:370 | The total command size of a concatenation is the sum of the totals. |
| Commands.Relaid | macho_edit/macho.cpp:333-340 | Commands laid back to back from an offset: the same number of commands. |
| Commands.RelaidShape | macho_edit/macho.cpp:333-340 | The relaid commands keep their records and sizes, lie back to back from the offset, and keep the total size. |
| Commands.LaidOrdered | macho_edit/macho.cpp:333-340 | Commands laid back to back do not overlap. |
| Commands.WriteAllSpan | macho_edit/macho.cpp:333-340 | Writing a laid-out run puts each record at its offset and changes nothing outside the run's span. |
| Commands.MoveCommands | macho_edit/macho.cpp:317-348 | Same number of commands, still within their records. |
| Commands.MoveForward | macho_edit/macho.cpp:326-347 | The same for a forward move. |
| Commands.MoveHeld | macho_edit/macho.cpp:326-347 | After a forward move in a laid-out run, the file holds every command of the new list at its new offset. |
| Commands.MoveToEnd | macho_edit/macho.cpp:326-347 | Moving `i` to the last index keeps the run laid out from the same offset, the others in order and `i` last. |
| Commands.MoveKeepsOutside | macho_edit/macho.cpp:326-347 | A forward move keeps the file's length and every byte outside the commands' span. |
| Commands.MoveSizes | macho_edit/macho.cpp:317-348 | A move keeps the commands' total size. |
| Commands.MoveCommandsHeld | macho_edit/macho.cpp:317-348 | Any move (either order, or none) keeps the records held and the total size. |
| Commands.MoveCommandsToEnd | macho_edit/macho.cpp:317-348 | Moving to the last index: laid out from the same offset, the others in order, the moved one last. |
| Commands.MoveLoadCommand | macho_edit/macho.cpp:317-348 | Only slice `a`'s command list and the file change, and the list keeps its length. |
| Commands.RemoveLoadCommand | macho_edit/macho.cpp:297-315 | Only the file and slice `a`'s header and commands change; there is one command fewer. |
| Commands.PopCommand | macho_edit/macho.cpp:305-314 | The header counts one fewer and the last command's size less; the last command is dropped. |
| Commands.NewCommand | macho_edit/macho.cpp:361-367 | The new command sits at the chosen offset and its size fits its record. |
| Commands.InsertLoadCommand | macho_edit/macho.cpp:350-373 | Slice `a`'s list gains the new command, at the end of the last command (or of the slice), as a 32-bit offset. |
| Commands.ChangeFileType | macho_edit/macho.cpp:375-381 | Only the header's file type changes, and it reads back from the file. |
| Commands.MoveLoadCommandLayout | macho_edit/macho.cpp:317-348 | On a slice whose header and commands are in place: file length, header and every command kept; changes only within the commands; total size and counts kept; no-op for equal indices. |
| Commands.MoveLoadCommandToEnd | macho_edit/macho.cpp:317-348 | Moving to the last index keeps the layout, with the moved command last. |
| Commands.PopLayout | macho_edit/macho.cpp:305-314 | Popping keeps the header and the other commands in place, zeroes exactly the popped record, and keeps the counts right. |
| Commands.InsertedRecords | macho_edit/macho.cpp:350-373 | The records and bytes insert leaves: the command appended, the counts raised, the record then the header written. |
| Commands.InsertLoadCommandLayout | macho_edit/macho.cpp:350-373 | The new record lies right after the old commands, the header and commands stay in place, and the counts stay right unless they wrap. |
| Commands.InsertSwappedCount | macho_edit/macho.cpp:361-372 | In a byte-swapped slice, a stored count of one command becomes, after the insert, a count of 0x0100_0001 commands rather than two. |
| Commands.InsertThenRemove | macho_edit/macho.cpp:297-373 | Removing the command just inserted gives back the slices' records. |
| Commands.PushThenPop | macho_edit/macho.cpp:301-314 | Popping an appended command undoes the append and its count changes. |
| Commands.ChangeFileTypeLayout | macho_edit/macho.cpp:375-381 | Header and commands stay in place, only the header's bytes change, and the counts are unaffected. |
| Commands.ChangeFileTypeTwice | macho_edit/macho.cpp:375-381 | The second change wins. |
| Commands.ChangeFileTypeBack | macho_edit/macho.cpp:375-381 | Setting the old file type back restores the container. |
| Commands.RemoveLoadCommandLayout | macho_edit/macho.cpp:297-315 | On a slice whose header and commands are in place: that command is gone, the others in order from the same start, counts right, the last `cmdsize` bytes zero, nothing else changed. |
| Commands.RemoveLoadCommandRecords | macho_edit/macho.cpp:297-315 | The same on the records alone, for any file. |
| CodeSignature.LastOf | macho_edit/macho.cpp:392-412 | The index is that of a matching command, and no later command matches. |
| CodeSignature.LastOfStep | macho_edit/macho.cpp:393-411 | One more scanned command updates the last match exactly as the loop body does. |
| CodeSignature.SizeReduction | macho_edit/macho.cpp:442-453 | The signature's size plus the gap after the string table exactly when there is a symbol table and that gap is between 0 and 16 bytes; the signature's size alone otherwise. |
| CodeSignature.ResizeSegment | macho_edit/macho.cpp:455-467 | Only the segment's record bytes change. |
| CodeSignature.ResizeSegmentFields | macho_edit/macho.cpp:455-467 | File size and `ROUND_UP(filesize, 0x1000)` memory size read back in the command's width; file offset and other bytes kept. |
| CodeSignature.Shrunk | macho_edit/macho.cpp:455-467 | The slice's size and the anchor segment's file size both shrink by the reduction, and nothing else changes. |
| CodeSignature.ShrunkSized | macho_edit/macho.cpp:455-467 | Resizing keeps every command's size and record length. |
| CodeSignature.ShrunkEndsBeforeSignature | macho_edit/macho.cpp:442-455 | Without wrap-around, the shrunk slice ends at the string table's end when a symbol table's strings end 0 to 16 bytes before the signature, and where the signature began otherwise. |
| CodeSignature.ShrunkSegmentEnds | macho_edit/macho.cpp:438-467 | The resized segment still ends where the shrunk slice ends. |
| CodeSignature.Staged | macho_edit/macho.cpp:455-471 | The shrunk slice replaces the old one; a thin file's size becomes the slice's size. |
| CodeSignature.RemoveCodeSignature | macho_edit/macho.cpp:383-476 | True exactly when the slice is signed and both ends match; false leaves the container unchanged. |
| CodeSignature.RemoveCodeSignatureEffect | macho_edit/macho.cpp:383-476 | On success: slice and segment shrink by the reduction; the signature command leaves the list and counts; other commands keep their order; a thin file is cut; other slices are kept. |
| CodeSignature.ShrunkLaid | macho_edit/macho.cpp:455-467 | Resizing a segment moves no command. |

## Left out

- Files are a byte sequence. `fopen`, `fseeko`, `fflush`, `fclose`, `fileno` and file descriptors are not modelled; the helpers `fmove`, `fzero` and `fcpy` appear only through their effect on the bytes. `fileutils.h` is not part of this model.
- `print_description` (console output) and the text of the constructor's exception messages are left out; an error is a `Result` value naming its cause.
- `chmod` in `save_arch_to_file` is left out. Whether the new file can be opened is a parameter.
- `cpu_pagesize` (`cpuinfo.h`) is a function parameter. Reading a slice's load commands (the `MachOArch` and `LoadCommand` constructors, not part of this model) is a parameter giving the commands at a slice's offset.
- The host is taken to be little-endian. `SWAP32` swaps exactly when the magic is a byte-swapped one.
- `MachOEdit.MachO.Open`: `READ` past the end of a short file reads undefined data in the source; the model reports `Truncated` instead.
- `MachOEdit.MachO.MakeFat`: requires that `file_size + offset` fits in 32 bits; the wrap-around of the source is not modelled there.
- `MachOEdit.MachO.RemoveArch`: requires a fat container whose count equals its slice list and whose slices lie within the file. On a thin container the source's `remove_arch` takes the thin branch of `write_fat_archs`; that case is not modelled.
- `MachOEdit.MachO.InsertArchFromMachO`: requires two distinct objects, and a source file at least as long as the copied size.
- `MachOEdit.MachO.WriteFatArchs`: requires a slice to exist where the source indexes `archs[0]` or `archs.back()`.
- `MachOEdit.MachO.InsertLoadCommand`: requires the caller's record to hold at least 8 bytes and `cmdsize` bytes, which the source reads.
- `MachOEdit.MachO.RemoveCodeSignature`: requires each load command's record to be long enough for the fields the scan reads (`FieldsReadable`).
- `Relayout.RemoveArchLayout`: proved only when, if the first slice is removed, the table of the remaining descriptors ends by the next slice's offset `ROUND_UP(8, 1 << align)`. remove_arch does not check this, and `Relayout.RemoveFirstIntoTable` shows the moved slice starting inside the table when the alignment is at most 20 bytes.
- `Relayout.RemainingLayout`: the same room requirement when the first slice is removed.
- `Slices.InsertArchLayout`: proved only when a table one descriptor longer ends before every old slice and before the new offset, and no 32-bit sum wraps. insert_arch_from_macho writes the longer table without checking, and `Slices.InsertArchIntoTable` shows it reaching into the first slice otherwise.
- `MachOEdit.MachO.InsertLoadCommand`: `ncmds` and `sizeofcmds` are incremented as the file stores them, as the source does. The header counts its commands afterwards only in a slice of the host's byte order; in a byte-swapped slice the counts go wrong, as `Commands.InsertSwappedCount` shows.
- `MachOEdit.MachO.RemoveLoadCommand`: `ncmds` and `sizeofcmds` are decremented as stored, so the counts stay right only in a slice of the host's byte order.
- `MachOEdit.MachO.ChangeFileType`: the file type is stored as given, without a swap, so in a byte-swapped slice the caller's value is written in the wrong byte order.
- `Commands.InsertLoadCommandLayout`, `Commands.RemoveLoadCommandLayout`, `Commands.PopLayout`, `Commands.MoveLoadCommandLayout` and `Commands.ChangeFileTypeLayout`: "the header counts the commands" (`Counted`) compares the stored words with the command list. In a byte-swapped slice it does not hold in the first place, so these lemmas promise the counts only for slices in the host's byte order.
- `MachOEdit.MachO.MakeThin`: requires the kept slice to lie within the file. In the source a slice past the end makes `fmove` read past the end of the file; that case is not modelled.
- `MachOEdit.MachO.MakeThin`: after `archs = {arch}` the source reads the size and offset through a reference to `archs[arch_index]`, which dangles when the index is above 0. The model reads the kept descriptor before the list is replaced, which is what happens for index 0.
- `MachOEdit.MachO.SaveArchToFile`: requires the slice to lie within the file; in the source `fcpy` would read past the end of the file.
- `MachOEdit.MachO.RemoveLoadCommand`: requires at least one command, and an index within the list when there are several. In the source `back()` on an empty list and a command index past the end are undefined behaviour.
- `Slices.AlignOf`: the alignment is `2^align` without bound. The source's `1 << align` is a shift of a C `int`, which overflows for `align` of 31 or more.
- Load-command offsets are unbounded naturals (`off_t`). `insert_load_command` truncates the offset to 32 bits as the source's cast does.
- A segment's name is an abstract field of the load command, as the scan reads it through the command object.
- The loops of `remove_arch` and `move_load_command` run on local copies of the slice list, the command list and the bytes, which are then assigned to the object's fields; the result is the same, as the source's loop touches no other state.
- `swap_arch` takes the fat magic as a parameter instead of reading the object's field.
