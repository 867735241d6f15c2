# dviglo engine core — a Dafny model

This project models, in Dafny, the self-contained bookkeeping logic of the dviglo game engine (a fork of
Urho3D) and proves properties of that model. It covers:

- Path strings: `to_internal`, `to_native`, `trim_end_slash`, `SplitPath` and its derivatives,
  `AddTrailingSlash`, `GetParentPath`, `IsAbsolutePath`.
- The file system's directory scan, modelled over an abstract directory tree.
- The asynchronous command requests and their end-of-frame drain.
- Shaders:
  - `CommentOutFunction`, `NormalizeDefines` and the variation cache.
  - The Direct3D 11 bytecode cache file ("USHD"): writer and reader.
  - Define parsing and the constant-buffer sizes.
- CPU-side shadow buffers:
  - the vertex layout (offsets, legacy element mask, lookups);
  - the OpenGL index buffer's lock state machine and range writes;
  - constant-buffer parameter writes and 16-byte size rounding in both back ends.
- Texture parameter validation and normalisation: 2D, 2D array and Direct3D 11 3D textures.
- Bitmap fonts:
  - loading, copying (with glyph packing) and saving the glyph and kerning tables;
  - the kerning key packing and the rectangle blit;
  - the font-type classification and the face cache.
- Resources: the load protocol and the metadata map with its insertion-ordered key list.
- The log: level filter, recursion guard, message format, quiet mode, and the FIFO replay of messages
  written off the main thread.
- The event profiler's find-or-append child lookup.
- The application's start-up error collection and exit-code control flow.
- Two samples: the clicker's large-number abbreviation, and the chat history and button rules.

One Dafny module stands for each source file; `Str`, `Bytes` and `Arith` hold the string, byte and
modular-arithmetic helpers they share.

Where the source updates objects in place, the module has a class whose methods state the whole new state.
Pure computations are functions. Loops are methods with invariants, proved against reference functions,
and the properties of those functions are lemmas.

GPU, operating-system, XML, image and network calls are outside the model. Their outcomes are parameters of
the methods that make them, and their effects, where visible, are recorded in trace fields.

## Model

| member | source | states |
|---|---|---|
| Path.ToInternal | source/dviglo/io/path.h:15-18 | same length; every backslash becomes '/', every other character is kept; no backslash remains |
| Path.ToInternalIdempotent | source/dviglo/io/path.h:15-18 | converting twice equals converting once |
| Path.ToInternalFixed | source/dviglo/io/path.h:15-18 | a path without backslashes is unchanged |
| Path.ToNative | source/dviglo/io/path.h:21-28 | identity off Windows; on Windows every '/' becomes a backslash, other characters kept, length kept |
| Path.NativeInternalRoundTrip | source/dviglo/io/path.h:15-28 | native form converted back to internal form equals the internal form |
| Path.TrimEndSlash | source/dviglo/io/path.h:40-48 | exactly one trailing '/' removed when present, else unchanged; the result is a prefix one shorter or equal |
| FileSystem.SplitName | source/dviglo/io/file_system.cpp:687-697 | the directory part ends in '/' or is empty, the file name has no '/', and together they rebuild the input |
| FileSystem.SplitPath | source/dviglo/io/file_system.cpp:670-698 | without lower-casing, path + file + extension is the internal form of the input; the directory ends in '/' or is empty; the file name has no '/'; the extension is empty or starts with its only '.' and has no '/' |
| FileSystem.GetPath | source/dviglo/io/file_system.cpp:700-705 | the directory part of the path: a prefix of its internal form, empty or ending in '/' |
| FileSystem.GetFileName | source/dviglo/io/file_system.cpp:707-712 | the file name without directory or extension: no '/', and no '.' when the path has no extension |
| FileSystem.GetExtension | source/dviglo/io/file_system.cpp:714-719 | the extension: empty, or starting with its only '.' and holding no '/' |
| FileSystem.CutExtension | source/dviglo/io/file_system.cpp:674-685 | the extension is taken only when the last '.' follows the last '/'; the stem is a prefix; without lower-casing stem + extension is the input |
| FileSystem.GetFileNameAndExtension | source/dviglo/io/file_system.cpp:721-726 | no '/' in the result; the directory plus the result rebuild the internal form |
| FileSystem.ReplaceExtension | source/dviglo/io/file_system.cpp:728-733 | the internal form with its extension cut off, followed by the new extension |
| FileSystem.SplitPathLowercase | source/dviglo/io/file_system.cpp:682-684 | lower-casing changes only the extension, into its lower-case form |
| FileSystem.PathPartsReconstruct | source/dviglo/io/file_system.cpp:700-719 | GetPath + GetFileName + GetExtension is the internal form |
| FileSystem.ReplaceExtensionRoundTrip | source/dviglo/io/file_system.cpp:670-733 | after replacing a well-formed extension, splitting gives the old directory and file name and the new extension |
| FileSystem.AddTrailingSlashShape | source/dviglo/io/file_system.cpp:735-742 | trims blanks and converts backslashes; '/' appended only to a non-empty result lacking one; empty exactly when the trimmed input is |
| FileSystem.AddTrailingSlash | source/dviglo/io/file_system.cpp:735-742 | the result holds no backslash and is empty or ends in '/' |
| FileSystem.AddTrailingSlashIdempotent | source/dviglo/io/file_system.cpp:735-742 | applying it twice equals applying it once |
| FileSystem.GetParentPath | source/dviglo/io/file_system.cpp:744-751 | the input up to and including the last '/' of its slash-trimmed form, or empty when that form has no '/' |
| FileSystem.IsAbsolutePath | source/dviglo/io/file_system.cpp:753-769 | false for ""; true for a leading '/' or backslash; off Windows exactly that; on Windows also a drive letter and ':' |
| FileSystem.FilterExtension | source/dviglo/io/file_system.cpp:570-572 | the filter's text from its last '.', or empty when there is no '.' or it holds a '*' |
| FileSystem.ScanDirInternal | source/dviglo/io/file_system.cpp:563-637 | appends exactly the names ScanListing gives for the tree, recursing into subdirectories |
| FileSystem.ScanDirEntry | source/dviglo/io/file_system.cpp:609-630 | one entry: hidden names skipped, directories listed when asked and recursed into except "." and "..", files listed when asked and matching the filter |
| FileSystem.ScanDir | source/dviglo/io/file_system.cpp:481-487 | the result is the scan of the tree from the path with a trailing slash, starting empty |
| FileSystem.ScanNothingRequested | source/dviglo/io/file_system.cpp:615-628 | with neither files nor directories requested the scan finds nothing, at any depth |
| FileSystem.ScanEntriesNothing | source/dviglo/io/file_system.cpp:615-628 | the same for the first n entries of a listing |
| FileSystem.ScanFilesMatchFilter | source/dviglo/io/file_system.cpp:624-628 | without directories and with an extension filter, every name found ends with the filter extension |
| FileSystem.ScanEntriesMatchFilter | source/dviglo/io/file_system.cpp:624-628 | the same for the first n entries of a listing |
| FileSystem.NextRequestID | source/dviglo/io/file_system.cpp:155-162 | increment on 32 bits, skipping the reserved maximum: from a valid ID the next one is valid and different |
| FileSystem.IssuedIdsAsWritten | source/dviglo/io/file_system.cpp:323-347 | n submissions as written return n IDs |
| FileSystem.IssuedIds | source/dviglo/io/file_system.cpp:155-162 | the k-th ID is the counter advanced k times |
| FileSystem.AsWrittenRepeatsId | source/dviglo/io/file_system.cpp:326-327 | as written, two submissions in a row return the same ID |
| FileSystem.IdAfterClosedForm | source/dviglo/io/file_system.cpp:158-161 | the advancing counter cycles through 1 .. 0xFFFFFFFE |
| FileSystem.IssuedIdsDistinct | source/dviglo/io/file_system.cpp:158-161 | with the counter advanced, 0xFFFFFFFE consecutive requests get distinct IDs |
| FileSystem.Pending | source/dviglo/io/file_system.cpp:643-660 | the requests the drain keeps are all still running |
| FileSystem.DrainSnoc | source/dviglo/io/file_system.cpp:643-660 | appending one request extends the kept list or the finish events accordingly |
| FileSystem.DrainPartitions | source/dviglo/io/file_system.cpp:643-660 | every request is either kept or produces exactly one finish event |
| FileSystem.DrainIdempotent | source/dviglo/io/file_system.cpp:643-660 | a second drain with no new completions sends nothing and keeps the queue |
| FileSystem.FileSystemState.SubmitAsyncAsWritten | source/dviglo/io/file_system.cpp:323-347 | as written: queues a request under the current ID and leaves the counter unchanged; without threading returns the maximum |
| FileSystem.FileSystemState.SubmitAsync | source/dviglo/io/file_system.cpp:323-347 | corrected: the counter advances past the returned ID |
| FileSystem.FileSystemState.Complete | source/dviglo/io/file_system.cpp:195-199 | the worker thread marks its request completed with its exit code |
| FileSystem.FileSystemState.HandleBeginFrame | source/dviglo/io/file_system.cpp:640-661 | the queue becomes the pending requests in order; one finish event (ID, exit code) per completed request, in queue order |
| Shader.ClosingBraceFound | source/dviglo/graphics_api/shader.cpp:28-41 | the first '}' at or after the start where the 32-bit brace counter returns to zero: every earlier position fails, and none means there is no such position |
| Shader.LevelStep | source/dviglo/graphics_api/shader.cpp:22-34 | one step of the unsigned counter (wrapping at 0 and 2^32-1) tracks the brace balance modulo 2^32 |
| Shader.CommentOutFunction | source/dviglo/graphics_api/shader.cpp:19-42 | the loop computes the reference CommentedOut: "/*" before the first occurrence of the signature and "*/" after the '}' that balances the braces |
| Shader.CommentOutAbsent | source/dviglo/graphics_api/shader.cpp:21-24 | without the signature the code is unchanged |
| Shader.CommentOutOpening | source/dviglo/graphics_api/shader.cpp:26 | the code before the signature is kept, "/*" follows, then the signature |
| Shader.CommentOutUnclosed | source/dviglo/graphics_api/shader.cpp:28-41 | when the braces never balance only "/*" is inserted: removing it gives back the code |
| Shader.CommentOutClosed | source/dviglo/graphics_api/shader.cpp:33-38 | when they balance at a '}', "*/" follows that brace, and removing both markers gives back the code |
| Shader.DefineWords | source/dviglo/graphics_api/shader.cpp:188-193 | the words of the normal form are sorted, a permutation of the upper-cased words, non-empty, upper-case and without spaces |
| Shader.NormalizeDefines | source/dviglo/graphics_api/shader.cpp:188-193 | the normal form joins the words of DefineWords with single spaces; this function states nothing itself, and its properties are the DefineWords, NormalizeWords, NormalizeIdempotent, NormalizeReorder and NormalizeIgnoresCase rows |
| Shader.NormalizeWords | source/dviglo/graphics_api/shader.cpp:188-193 | splitting the normal form on spaces gives back those words |
| Shader.NormalizeIdempotent | source/dviglo/graphics_api/shader.cpp:188-193 | normalising a normal form leaves it unchanged |
| Shader.NormalizeReorder | source/dviglo/graphics_api/shader.cpp:188-193 | define lists with the same words, in any order, have the same normal form |
| Shader.NormalizeIgnoresCase | source/dviglo/graphics_api/shader.cpp:188-193 | upper-casing first does not change the normal form |
| Shader.SharedVariation | source/dviglo/graphics_api/shader.cpp:108-138 | in a valid cache two define strings map to the same variation exactly when their normal forms agree |
| Shader.VariationsDistinct | source/dviglo/graphics_api/shader.cpp:108-138 | no two variations created for one shader type are equal |
| Shader.CacheAddAlias | source/dviglo/graphics_api/shader.cpp:118-122 | caching one more define string for the variation of its normal form keeps the cache valid |
| Shader.CacheAddNew | source/dviglo/graphics_api/shader.cpp:123-134 | creating a variation for an uncached normal form and caching it under that form keeps the cache valid |
| Shader.CacheExtendOther | source/dviglo/graphics_api/shader.cpp:111 | a new variation of one type keeps the other type's cache valid |
| Shader.MemoryUse | source/dviglo/graphics_api/shader.cpp:195-199 | the memory use is truncated to an unsigned 32-bit value |
| Shader.ShaderResource.constructor | source/dviglo/graphics_api/shader.cpp:44-49 | no source, no variations, time stamp 0, caches valid |
| Shader.ShaderResource.RefreshMemoryUse | source/dviglo/graphics_api/shader.cpp:195-199 | memory use = sizeof(Shader) + both source lengths + variations * sizeof(ShaderVariation), on 32 bits; nothing else changes |
| Shader.ShaderResource.BeginLoad | source/dviglo/graphics_api/shader.cpp:63-90 | fails without graphics or when the source does not load; with graphics present the time stamp restarts at 0 and is raised to the newest modification time of the files read, also when an include then fails, in which case both sources are kept; on success each stage's source has the other entry point commented out, and on OpenGL its own entry renamed to main(); the caches are untouched |
| Shader.RaisedStamp | source/dviglo/graphics_api/shader.cpp:146-153 | raising the stamp file by file gives the largest of the starting stamp and the file times |
| Shader.RaisedStampMonotone | source/dviglo/graphics_api/shader.cpp:140-173 | reading more files never lowers the stamp, so a read that stops at a missing include keeps the times already raised |
| Shader.ShaderResource.GetVariation | source/dviglo/graphics_api/shader.cpp:108-138 | a cached define string returns its variation; otherwise an alias to the variation of the normal form is added, or a new variation is created and cached under both strings; the variation returned always has the normal-form defines, and the caches stay valid |
| Shader.ShaderResource.AddAlias | source/dviglo/graphics_api/shader.cpp:120-121 | one more key for an existing variation, caches valid |
| Shader.ShaderResource.CreateVariation | source/dviglo/graphics_api/shader.cpp:123-134 | appends the variation, caches it under the normal form and counts it, caches valid |
| ShaderVariationD3D11.ParamRoundTrip | source/dviglo/graphics_api/direct3d11/d3d11_shader_variation.cpp:182-187 | one written parameter entry reads back as the same parameter |
| ShaderVariationD3D11.ParamsRoundTrip | source/dviglo/graphics_api/direct3d11/d3d11_shader_variation.cpp:178-187 | the parameter entries written are read back, in order, as the same parameters |
| ShaderVariationD3D11.UsedRegistersExact | source/dviglo/graphics_api/direct3d11/d3d11_shader_variation.cpp:436-443 | a register is written exactly when its texture unit is used |
| ShaderVariationD3D11.UsedCountEntries | source/dviglo/graphics_api/direct3d11/d3d11_shader_variation.cpp:429-435 | the unit count written equals the number of unit entries |
| ShaderVariationD3D11.UnitRoundTrip | source/dviglo/graphics_api/direct3d11/d3d11_shader_variation.cpp:193-194 | one written texture unit entry (name and register byte) reads back as its register |
| ShaderVariationD3D11.UnitsRoundTrip | source/dviglo/graphics_api/direct3d11/d3d11_shader_variation.cpp:189-197 | the unit entries written are read back as the used registers in ascending order |
| ShaderVariationD3D11.DecodeRoundTrip | source/dviglo/graphics_api/direct3d11/d3d11_shader_variation.cpp:164-199 | reading a written file gives a valid id, the upper half of the element hash, the parameters, the used registers and the bytecode |
| ShaderVariationD3D11.ByteCodeFile | source/dviglo/graphics_api/direct3d11/d3d11_shader_variation.cpp:413-447 | the file written starts with the "USHD" id; DecodeRoundTrip states that it decodes back to its contents |
| ShaderVariationD3D11.Decode | source/dviglo/graphics_api/direct3d11/d3d11_shader_variation.cpp:167-203 | the id is accepted exactly when the file starts with "USHD", and the hash read is a 32-bit value; DecodeRoundTrip states what it reads from a written file |
| ShaderVariationD3D11.BodyRoundTrip | source/dviglo/graphics_api/direct3d11/d3d11_shader_variation.cpp:178-199 | the same for the part after the hash |
| ShaderVariationD3D11.HashRoundTrip | source/dviglo/graphics_api/direct3d11/d3d11_shader_variation.cpp:175-176 | the element hash read back is the written one with its lower 32 bits cleared |
| ShaderVariationD3D11.InsertedSnoc | source/dviglo/graphics_api/direct3d11/d3d11_shader_variation.cpp:186 | inserting one more parameter overwrites its name's entry |
| ShaderVariationD3D11.InsertedKeys | source/dviglo/graphics_api/direct3d11/d3d11_shader_variation.cpp:186 | every entry of the loaded map sits under its own name and has the reading variation's type |
| ShaderVariationD3D11.InsertedDistinct | source/dviglo/graphics_api/direct3d11/d3d11_shader_variation.cpp:186 | with distinct names each parameter is found under its name, and the keys are exactly the old keys and those names |
| ShaderVariationD3D11.LoadRestoresParameters | source/dviglo/graphics_api/direct3d11/d3d11_shader_variation.cpp:420-427 | loading the entries saved from a map into an empty map restores that map |
| ShaderVariationD3D11.ClipPlaneDefines | source/dviglo/graphics_api/direct3d11/d3d11_shader_variation.cpp:147-150 | the result ends with " CLIPPLANE"; it is appended only when missing |
| ShaderVariationD3D11.ClipPlaneIdempotent | source/dviglo/graphics_api/direct3d11/d3d11_shader_variation.cpp:147-150 | applying the suffix twice is applying it once |
| ShaderVariationD3D11.CompileDefines | source/dviglo/graphics_api/direct3d11/d3d11_shader_variation.cpp:224-247 | every define handed to the compiler is non-empty and has no space |
| ShaderVariationD3D11.DefineSplit | source/dviglo/graphics_api/direct3d11/d3d11_shader_variation.cpp:255-263 | a define with '=' is name, '=', value with no '=' in the name; without '=' the name is the define and the value "1" |
| ShaderVariationD3D11.DefineName | source/dviglo/graphics_api/direct3d11/d3d11_shader_variation.cpp:255-262 | the macro name is a prefix of the define and holds no '=' |
| ShaderVariationD3D11.DefineValue | source/dviglo/graphics_api/direct3d11/d3d11_shader_variation.cpp:255-262 | "1" for a define without '='; otherwise a proper suffix of the define |
| ShaderVariationD3D11.MaxBonesDefine | source/dviglo/graphics_api/direct3d11/d3d11_shader_variation.cpp:247 | the last define is MAXBONES with the bone count in decimal |
| ShaderVariationD3D11.ParseDefines | source/dviglo/graphics_api/direct3d11/d3d11_shader_variation.cpp:252-263 | for every define, its name and its value as DefineName and DefineValue give them |
| ShaderVariationD3D11.ParamEnd | source/dviglo/graphics_api/direct3d11/d3d11_shader_variation.cpp:460 | offset + size as an unsigned 32-bit sum |
| ShaderVariationD3D11.MaxEndUnique | source/dviglo/graphics_api/direct3d11/d3d11_shader_variation.cpp:450-466 | the buffer size is determined by the parameters, whatever the iteration order |
| ShaderVariationD3D11.MaxEndStep | source/dviglo/graphics_api/direct3d11/d3d11_shader_variation.cpp:456-463 | taking the larger end for one more parameter keeps the maximum over the parameters seen |
| ShaderVariationD3D11.ShaderVariation.constructor | source/dviglo/graphics_api/shader_variation.cpp:38-43 | no object, no parameters, units unused, buffer sizes 0 |
| ShaderVariationD3D11.ShaderVariation.Release | source/dviglo/graphics_api/direct3d11/d3d11_shader_variation.cpp:109-141 | with an object but no graphics nothing changes; otherwise the object, compiler output, units, buffer sizes, parameters, bytecode and hash are all cleared |
| ShaderVariationD3D11.ShaderVariation.SetDefines | source/dviglo/graphics_api/direct3d11/d3d11_shader_variation.cpp:143-151 | stores the defines and their clip-plane form |
| ShaderVariationD3D11.ShaderVariation.CalculateConstantBufferSizes | source/dviglo/graphics_api/direct3d11/d3d11_shader_variation.cpp:450-466 | each slot gets the largest 32-bit end of the parameters in that buffer (0 when none); indices past the slots are ignored |
| ShaderVariationD3D11.ShaderVariation.ReadParameters | source/dviglo/graphics_api/direct3d11/d3d11_shader_variation.cpp:178-187 | the map gets the n entries read inserted in order; the rest of the stream is returned |
| ShaderVariationD3D11.ShaderVariation.ReadParameter | source/dviglo/graphics_api/direct3d11/d3d11_shader_variation.cpp:182-187 | one parameter entry is read as ParamAt reads it, tagged with the variation's type, and inserted into the map under its name |
| ShaderVariationD3D11.ShaderVariation.ReadTextureUnits | source/dviglo/graphics_api/direct3d11/d3d11_shader_variation.cpp:189-197 | each register read below the unit count is marked used, the others unchanged |
| ShaderVariationD3D11.ShaderVariation.LoadByteCode | source/dviglo/graphics_api/direct3d11/d3d11_shader_variation.cpp:153-219 | no change and failure when the file is missing, older than the source, unopened or without "USHD"; otherwise the decoded hash, parameters, units and bytecode are stored, success exactly when the bytecode is non-empty, with the buffer sizes recalculated |
| ShaderVariationD3D11.ShaderVariation.SaveByteCode | source/dviglo/graphics_api/direct3d11/d3d11_shader_variation.cpp:413-447 | the file is ByteCodeFile of the type, hash, parameters in the order visited, units and bytecode |
| ShaderVariationD3D11.ShaderVariation.WriteParameters | source/dviglo/graphics_api/direct3d11/d3d11_shader_variation.cpp:419-427 | every parameter is written once, in the order returned |
| ShaderVariationD3D11.ShaderVariation.CountUsedUnits | source/dviglo/graphics_api/direct3d11/d3d11_shader_variation.cpp:429-434 | the loop counts the used texture units |
| ShaderVariationD3D11.ShaderVariation.WriteUnits | source/dviglo/graphics_api/direct3d11/d3d11_shader_variation.cpp:436-443 | the loop writes the name and index of every used unit, in unit order |
| VertexBuffer.WithOffsets | source/dviglo/graphics_api/vertex_buffer.cpp:185-194 | one element per input element |
| VertexBuffer.SizeSum | source/dviglo/graphics_api/vertex_buffer.cpp:74-94 | the vertex size is at least 4 bytes per element |
| VertexBuffer.LegacyMask | source/dviglo/graphics_api/vertex_buffer.cpp:86-91 | the mask holds only legacy bit indices; LegacyMaskExact states which bits |
| VertexBuffer.OffsetsContiguous | source/dviglo/graphics_api/vertex_buffer.cpp:185-194 | offsets keep each element's kind, start at 0, follow each other by the element sizes, and the last one ends at the vertex size |
| VertexBuffer.UpdateOffsets | source/dviglo/graphics_api/vertex_buffer.cpp:185-194 | the loop computes WithOffsets: each offset is the total size of the elements before it |
| VertexBuffer.LayoutHash | source/dviglo/graphics_api/vertex_buffer.cpp:76-84 | the hash is a 64-bit value (shifts and sums wrap modulo 2^64) |
| VertexBuffer.HashIgnoresOffsets | source/dviglo/graphics_api/vertex_buffer.cpp:80-84 | the hash does not depend on the offsets |
| VertexBuffer.LegacyMaskExact | source/dviglo/graphics_api/vertex_buffer.cpp:86-91 | bit j is set exactly when j is a legacy index and some element matches legacy element j in type, semantic and index |
| VertexBuffer.LegacyElementsExact | source/dviglo/graphics_api/vertex_buffer.cpp:149-160 | the elements of a mask are exactly the legacy elements whose bits are set |
| VertexBuffer.MaskSizeIsElementsSize | source/dviglo/graphics_api/vertex_buffer.cpp:162-183 | the vertex size of a mask equals the vertex size of its elements |
| VertexBuffer.LegacyDistinct | source/dviglo/graphics_api/vertex_buffer.cpp:86-91 | no two legacy elements describe the same data |
| VertexBuffer.LegacyMaskRoundTrip | source/dviglo/graphics_api/vertex_buffer.cpp:149-160 | the mask of a mask's elements is that mask restricted to the legacy bits |
| VertexBuffer.GetElements | source/dviglo/graphics_api/vertex_buffer.cpp:149-160 | the loop returns the legacy elements of the set bits in ascending bit order |
| VertexBuffer.GetVertexSize | source/dviglo/graphics_api/vertex_buffer.cpp:162-170 | the loop returns the sum of the element sizes |
| VertexBuffer.GetMaskVertexSize | source/dviglo/graphics_api/vertex_buffer.cpp:172-183 | the loop returns the vertex size of the mask's elements |
| VertexBuffer.GetElement | source/dviglo/graphics_api/vertex_buffer.cpp:123-134 | the first element with the type, semantic and index; none exactly when no element matches |
| VertexBuffer.GetElementBySemantic | source/dviglo/graphics_api/vertex_buffer.cpp:97-108 | the first element with the semantic and index; none exactly when no element matches |
| VertexBuffer.HasElement | source/dviglo/graphics_api/vertex_buffer.cpp:136-140 | true exactly when some element matches |
| VertexBuffer.GetElementOffset | source/dviglo/graphics_api/vertex_buffer.cpp:142-147 | the offset of the first match, or NINDEX when there is none |
| VertexBuffer.VertexBuffer.constructor | source/dviglo/graphics_api/vertex_buffer.cpp:16-24 | a headless buffer is shadowed; no elements, no vertices, no shadow data |
| VertexBuffer.VertexBuffer.UpdateMemberOffsets | source/dviglo/graphics_api/vertex_buffer.cpp:73-95 | offsets, vertex size, layout hash and legacy mask all computed from the element list |
| VertexBuffer.VertexBuffer.SetShadowed | source/dviglo/graphics_api/vertex_buffer.cpp:31-46 | shadowing follows the request but stays on without graphics; the shadow data matches the new setting |
| VertexBuffer.VertexBuffer.SetSize | source/dviglo/graphics_api/vertex_buffer.cpp:54-71 | stores count, layout (with offsets, size, hash and mask) and usage; the shadow data is reallocated to count * vertex size when shadowed and non-empty, else dropped; the result is whether the GPU buffer was created |
| VertexBuffer.VertexBuffer.SetSizeMask | source/dviglo/graphics_api/vertex_buffer.cpp:48-52 | stores the count and usage as SetSize does; the layout is the mask's legacy elements, the vertex size their size sum, and the stored mask the given one restricted to the legacy bits; the shadow data is reallocated to count * vertex size when shadowed and non-empty, else dropped |
| VertexBuffer.OffsetsIdempotent | source/dviglo/graphics_api/vertex_buffer.cpp:185-194 | recomputing offsets changes nothing, nor the vertex size or the mask |
| VertexBuffer.MatchLegacy | source/dviglo/graphics_api/vertex_buffer.cpp:86-91 | the inner loop collects exactly the legacy bits the element matches |
| VertexBuffer.SizeSumIgnoresOffsets | source/dviglo/graphics_api/vertex_buffer.cpp:162-170 | the vertex size does not depend on the offsets |
| VertexBuffer.LegacyMaskIgnoresOffsets | source/dviglo/graphics_api/vertex_buffer.cpp:86-91 | the legacy mask does not depend on the offsets |
| IndexBufferOGL.IndexBuffer.Upload | source/dviglo/graphics_api/opengl/ogl_index_buffer.cpp:127-140 | a GL upload is issued exactly when there is a GL object and the device is not lost |
| IndexBufferOGL.IndexBuffer.RangeCall | source/dviglo/graphics_api/opengl/ogl_index_buffer.cpp:127-140 | a whole-buffer range is a full upload; a discarding range from 0 re-specifies the buffer with the range's bytes; any other range is a sub-data update at start * indexSize |
| IndexBufferOGL.IndexBuffer.LockedData | source/dviglo/graphics_api/opengl/ogl_index_buffer.cpp:170-186 | while locked, the exposed bytes are count * indexSize long |
| IndexBufferOGL.IndexBuffer.SetData | source/dviglo/graphics_api/opengl/ogl_index_buffer.cpp:58-91 | fails on null data or index size 0 with nothing changed; otherwise the shadow gets the data, data is no longer lost, the upload is issued or marked pending while the device is lost |
| IndexBufferOGL.IndexBuffer.SetDataRange | source/dviglo/graphics_api/opengl/ogl_index_buffer.cpp:93-143 | a whole-buffer range is SetData; null data, index size 0 or a range past the end fail unchanged; count 0 succeeds unchanged; otherwise exactly the range's shadow bytes are replaced and the range uploaded or marked pending |
| IndexBufferOGL.IndexBuffer.Lock | source/dviglo/graphics_api/opengl/ogl_index_buffer.cpp:145-187 | refused (null, no change) when already locked, index size 0, out of range or count 0; otherwise the range is recorded and the shadow lock points into the shadow at start * indexSize, the scratch lock gets a fresh buffer of the range's size, and without either nothing is locked |
| IndexBufferOGL.IndexBuffer.Unlock | source/dviglo/graphics_api/opengl/ogl_index_buffer.cpp:189-209 | a no-op when unlocked; otherwise the locked bytes are written back as a range write and the lock is left, the scratch buffer freed |
| IndexBufferOGL.IndexBuffer.UnlockShadow | source/dviglo/graphics_api/opengl/ogl_index_buffer.cpp:193-196 | the locked shadow range is written back as a range write, the shadow keeps its bytes, and the lock is left |
| IndexBufferOGL.IndexBuffer.UnlockScratch | source/dviglo/graphics_api/opengl/ogl_index_buffer.cpp:198-204 | the scratch bytes are written as the locked range, the scratch buffer is freed and the lock is left |
| IndexBufferOGL.IndexBuffer.UnlockCalls | source/dviglo/graphics_api/opengl/ogl_index_buffer.cpp:189-209 | an unlocked buffer issues no call when unlocking, a locked one at most one |
| IndexBufferOGL.IndexBuffer.Release | source/dviglo/graphics_api/opengl/ogl_index_buffer.cpp:37-56 | unlocks (the locked bytes written back, no scratch left, data no longer lost after a whole-buffer lock, pending when the device is lost), then deletes the GL object (call issued unless the device is lost) unless the graphics subsystem is gone; the shadow is kept |
| IndexBufferOGL.IndexBuffer.Create | source/dviglo/graphics_api/opengl/ogl_index_buffer.cpp:211-241 | with no indices the buffer is released and creation succeeds: the GL object is deleted (call issued unless the device is lost) unless the graphics subsystem is gone; without graphics or with a lost device nothing is issued; otherwise a name is generated when missing (failing when none is given) and the storage is specified; the lock, scratch buffer, data flags and shadow are kept on every path |
| IndexBufferOGL.IndexBuffer.UpdateToGPU | source/dviglo/graphics_api/opengl/ogl_index_buffer.cpp:243-249 | succeeds exactly when there is an object, a shadow and an index size, by writing the whole shadow; otherwise nothing changes |
| IndexBufferOGL.IndexBuffer.OnDeviceReset | source/dviglo/graphics_api/opengl/ogl_index_buffer.cpp:24-35 | a missing object is recreated (its storage specified, then the whole shadow uploaded) and a pending upload is redone (the whole shadow uploaded); data is lost exactly when that upload fails; a present object without pending data issues nothing; the lock is kept and nothing is pending afterwards |
| IndexBufferOGL.IndexBuffer.ShadowUpload | source/dviglo/graphics_api/opengl/ogl_index_buffer.cpp:243-249 | the whole-shadow upload is one full-size BufferData of the shadow bytes, issued exactly when there is a shadow, an index size, a GL object and the device is not lost |
| ConstantBuffers.MaskClearsLowBits | source/dviglo/graphics_api/direct3d11/d3d11_constant_buffer.cpp:40 | masking with 0xfffffff0 subtracts the remainder modulo 16 |
| ConstantBuffers.RoundUp16AsWritten | source/dviglo/graphics_api/direct3d11/d3d11_constant_buffer.cpp:38-40 | as written: a 32-bit multiple of 16 |
| ConstantBuffers.RoundUp16AsWrittenWraps | source/dviglo/graphics_api/direct3d11/d3d11_constant_buffer.cpp:38-40 | as written, every request above 0xFFFFFFF0 rounds to 0 |
| ConstantBuffers.RoundUp16 | source/dviglo/graphics_api/direct3d11/d3d11_constant_buffer.cpp:38-40 | corrected: the least multiple of 16 not below the request, defined exactly when it fits 32 bits |
| ConstantBuffers.RoundUp16AgreesBelowWrap | source/dviglo/graphics_api/opengl/ogl_constant_buffer.cpp:47-49 | below the wrap the written rounding is the intended one |
| ConstantBuffers.RoundUp16Idempotent | source/dviglo/graphics_api/opengl/ogl_constant_buffer.cpp:33-49 | re-rounding a rounded size leaves it unchanged, so a device reset keeps the size |
| ConstantBuffers.ParameterCheckCounterexample | source/dviglo/graphics_api/constant_buffer.cpp:26 | as written, one byte at offset 0xFFFFFFFF passes the check on a 16-byte buffer although it is out of range |
| ConstantBuffers.ParameterCheckAgrees | source/dviglo/graphics_api/constant_buffer.cpp:26 | when the sum fits 32 bits the written check is the intended one |
| ConstantBuffers.Vector3CheckCounterexample | source/dviglo/graphics_api/constant_buffer.cpp:35 | as written, 2^30 rows pass the check on a 16-byte buffer |
| ConstantBuffers.Vector3CheckAgrees | source/dviglo/graphics_api/constant_buffer.cpp:35 | when rows * 4 fits 32 bits the written check is the intended one |
| ConstantBuffers.Vector3Written | source/dviglo/graphics_api/constant_buffer.cpp:38-47 | the shadow keeps its length |
| ConstantBuffers.Vector3WrittenRows | source/dviglo/graphics_api/constant_buffer.cpp:41-47 | slot r gets row r's 12 bytes in its first 12 bytes; its w bytes are kept |
| ConstantBuffers.Vector3WrittenOutside | source/dviglo/graphics_api/constant_buffer.cpp:38-47 | bytes outside the written slots are kept |
| ConstantBuffers.Vector3Step | source/dviglo/graphics_api/constant_buffer.cpp:41-47 | one more row changes only that row's first 12 bytes |
| ConstantBuffers.ConstantBuffer.constructor | source/dviglo/graphics_api/constant_buffer.cpp:14-17 | size 0, clean, no GPU object |
| ConstantBuffers.ConstantBuffer.SetParameter | source/dviglo/graphics_api/constant_buffer.cpp:24-31 | out of range (corrected check): nothing changes; otherwise the data is copied at the offset, the rest kept, and the buffer marked dirty |
| ConstantBuffers.ConstantBuffer.CopyRow | source/dviglo/graphics_api/constant_buffer.cpp:43-45 | copies 12 bytes into the slot and keeps every other byte |
| ConstantBuffers.ConstantBuffer.SetVector3ArrayParameter | source/dviglo/graphics_api/constant_buffer.cpp:33-50 | out of range (corrected check): nothing changes; otherwise the shadow becomes Vector3Written and the buffer is dirty |
| ConstantBuffers.ConstantBuffer.ReleaseD3D11 | source/dviglo/graphics_api/direct3d11/d3d11_constant_buffer.cpp:20-26 | no GPU object and size 0 |
| ConstantBuffers.ConstantBuffer.SetSizeD3D11 | source/dviglo/graphics_api/direct3d11/d3d11_constant_buffer.cpp:28-67 | releases first; a zero or unroundable request fails; otherwise the rounded size, a zeroed clean shadow, and a created buffer when there are graphics, success unless creation fails |
| ConstantBuffers.ConstantBuffer.Apply | source/dviglo/graphics_api/direct3d11/d3d11_constant_buffer.cpp:69-76 | a dirty buffer with a GPU object uploads its shadow and becomes clean; otherwise nothing changes |
| ConstantBuffers.ConstantBuffer.ReleaseOGL | source/dviglo/graphics_api/opengl/ogl_constant_buffer.cpp:15-31 | with an object but no graphics nothing changes; otherwise the object is deleted (when there was one), the shadow dropped and the size 0 |
| ConstantBuffers.ConstantBuffer.SetSizeOGL | source/dviglo/graphics_api/opengl/ogl_constant_buffer.cpp:39-67 | succeeds exactly for a non-zero roundable request (corrected rounding; see Findings), with nothing changed on failure; on success the rounded size, a zeroed clean shadow, a GL name when generated and the storage uploaded |
| ConstantBuffers.ConstantBuffer.OnDeviceResetOGL | source/dviglo/graphics_api/opengl/ogl_constant_buffer.cpp:33-37 | a buffer with a size is recreated at the same size with a zeroed clean shadow, gains a GL name when it had none and one is generated, and uploads that shadow when graphics are present; a zero-sized one is left alone |
| Texture3DD3D11.AlignDown4 | source/dviglo/graphics_api/direct3d11/d3d11_texture_3d.cpp:83-84 | the largest multiple of 4 not above the value |
| Texture3DD3D11.AlignUp4 | source/dviglo/graphics_api/direct3d11/d3d11_texture_3d.cpp:85-88 | the least multiple of 4 not below the value |
| Texture3DD3D11.AlignBox | source/dviglo/graphics_api/direct3d11/d3d11_texture_3d.cpp:80-89 | uncompressed: unchanged; compressed: x and y moved down to a block boundary by less than 4, width and height grown to multiples of 4 by less than 4; z and depth kept |
| Texture3DD3D11.NumRows | source/dviglo/graphics_api/direct3d11/d3d11_texture_3d.cpp:98-101 | compressed: the rows of 4-texel blocks covering the height; otherwise the height |
| Texture3DD3D11.SourceRepeatsPagesAsWritten | source/dviglo/graphics_api/direct3d11/d3d11_texture_3d.cpp:116-121 | as written, page 1 reads the same source bytes as page 0, whereas the paged layout reads different ones |
| Texture3DD3D11.SourceRowsDisjoint | source/dviglo/graphics_api/direct3d11/d3d11_texture_3d.cpp:116-121 | corrected: distinct (page, row) pairs read non-overlapping source rows |
| Texture3DD3D11.WriteRow | source/dviglo/graphics_api/direct3d11/d3d11_texture_3d.cpp:120-121 | the mapped memory keeps its length |
| Texture3DD3D11.WriteRowHolds | source/dviglo/graphics_api/direct3d11/d3d11_texture_3d.cpp:120-121 | a copied row holds its source row's bytes, which lie inside the data |
| Texture3DD3D11.CopyRowsIn | source/dviglo/graphics_api/direct3d11/d3d11_texture_3d.cpp:116-123 | the page and row loops compute WritePages, reading each page's own rows |
| Texture3DD3D11.GatherRows | source/dviglo/graphics_api/direct3d11/d3d11_texture_3d.cpp:343-349 | n rows of rowSize bytes |
| Texture3DD3D11.GatherPages | source/dviglo/graphics_api/direct3d11/d3d11_texture_3d.cpp:343-349 | n pages of rows * rowSize bytes |
| Texture3DD3D11.GatherRowsAt | source/dviglo/graphics_api/direct3d11/d3d11_texture_3d.cpp:347-348 | row r of a gathered page is that row of the mapped staging memory, at its pitches |
| Texture3DD3D11.GatherInto | source/dviglo/graphics_api/direct3d11/d3d11_texture_3d.cpp:343-349 | the loops fill the destination with GatherPages: all rows of all pages back to back |
| Texture3DD3D11.ClampMipSkip | source/dviglo/graphics_api/direct3d11/d3d11_texture_3d.cpp:240-244 | the skip is at most the request and below the level count; a non-zero skip keeps every dimension at least 4; no larger skip up to the cap does |
| Texture3DD3D11.PlanCompressedLoad | source/dviglo/graphics_api/direct3d11/d3d11_texture_3d.cpp:240-249 | the dimensions divided by 2^skip and the remaining level count, at least 1 |
| Texture3DD3D11.MaxLevels | source/dviglo/graphics_api/direct3d11/d3d11_texture_3d.cpp:364 | at least one level, exactly one when every dimension is at most 1 |
| Texture3DD3D11.CheckMaxLevels | source/dviglo/graphics_api/direct3d11/d3d11_texture_3d.cpp:364 | between 1 and the full chain; the request when it is non-zero and fits, else the full chain |
| Texture3DD3D11.Texture3D.constructor | source/dviglo/graphics_api/direct3d11/d3d11_texture_3d.cpp:357-364 | the texture's parameters, no levels, no object, no view |
| Texture3DD3D11.Texture3D.DynamicCopy | source/dviglo/graphics_api/direct3d11/d3d11_texture_3d.cpp:90-121 | the dynamic copy (corrected page offset; see Findings) covers depth pages of the aligned region's rows, each of the aligned width's row size, starting at page z and (block) row y |
| Texture3DD3D11.Texture3D.BoxUpdate | source/dviglo/graphics_api/direct3d11/d3d11_texture_3d.cpp:127-143 | the update box is the aligned region, with row pitch the row size and depth pitch the level's rows times that |
| Texture3DD3D11.Texture3D.SetData | source/dviglo/graphics_api/direct3d11/d3d11_texture_3d.cpp:48-146 | fails without an object, with null data, a bad level or a region outside the level, or a failed map, changing nothing; a dynamic texture gets the rows copied into the mapped memory, each page from its own source offset (corrected; see Findings); another gets one UpdateSubresource |
| Texture3DD3D11.Texture3D.StagingOf | source/dviglo/graphics_api/direct3d11/d3d11_texture_3d.cpp:327-333 | the staging layout has the level's depth in pages, its (block) rows and row size |
| Texture3DD3D11.Texture3D.GetData | source/dviglo/graphics_api/direct3d11/d3d11_texture_3d.cpp:275-355 | fails without an object, destination, valid level or staging copy, leaving the destination; otherwise fills it with the gathered rows |
| Texture3DD3D11.Texture3D.Release | source/dviglo/graphics_api/direct3d11/d3d11_texture_3d.cpp:32-46 | no object and no view |
| Texture3DD3D11.Texture3D.Create | source/dviglo/graphics_api/direct3d11/d3d11_texture_3d.cpp:357-401 | releases first; fails without graphics or with a zero dimension; otherwise the levels are CheckMaxLevels, one level for a dynamic texture, the texture and then its view are created, success when both are |
| Texture2D.Clamp | source/dviglo/graphics_api/texture_2d.cpp:100 | the value clamped into [lo, hi]: kept inside, lo below, hi above |
| Texture2D.NormalizeSampling | source/dviglo/graphics_api/texture_2d.cpp:100-108 | an accepted setup has 1 to 16 samples and never resolves a single sample |
| Texture2D.NormalizeRefuses | source/dviglo/graphics_api/texture_2d.cpp:100-108 | the request is refused exactly when more than one sample is asked of a texture that is not a render target or depth-stencil |
| Texture2D.NormalizeConsistent | source/dviglo/graphics_api/texture_2d.cpp:100-113 | an accepted request gives a consistent setup with the count clamped to 1..16, keeping the resolve flag when multisampling |
| Texture2D.NormalizeFixesConsistent | source/dviglo/graphics_api/texture_2d.cpp:100-113 | a consistent setup is accepted unchanged |
| Texture2D.NormalizeIdempotent | source/dviglo/graphics_api/texture_2d.cpp:100-113 | normalising a normalised setup changes nothing |
| Texture2D.Texture2D.constructor | source/dviglo/graphics_api/texture_2d.cpp:22-28 | an empty static texture with one sample, no render surface and nothing loading |
| Texture2D.Texture2D.SetSize | source/dviglo/graphics_api/texture_2d.cpp:92-141 | a non-positive size or a refused sampling request fails with nothing changed; otherwise the size, format, usage and normalised sampling are stored, a render surface exists exactly for target usage with its addressing and filtering defaults, and the result is whether creation succeeds |
| Texture2D.Texture2D.GetImage | source/dviglo/graphics_api/texture_2d.cpp:143-154 | an image of the texture's size exactly when the format is the RGBA or RGB format |
| Texture2D.Texture2D.BeginLoad | source/dviglo/graphics_api/texture_2d.cpp:40-72 | headless: succeeds with nothing changed; device lost: succeeds marking data pending; otherwise succeeds exactly when the image loads, then records the parameter file ReplaceExtension(name, ".xml") when it exists |
| Texture2D.Texture2D.EndLoad | source/dviglo/graphics_api/texture_2d.cpp:74-90 | headless or device lost: succeeds with nothing changed; otherwise the result is the upload's, and the load image and parameters are dropped |
| Texture2D.ParameterFileName | source/dviglo/graphics_api/texture_2d.cpp:68 | the parameter file sits beside the texture: the same directory and file name, with the extension ".xml" |
| Texture2DArray.LayerPaths | source/dviglo/graphics_api/texture_2d_array.cpp:77-90 | one requested name per layer element |
| Texture2DArray.LayerUploads | source/dviglo/graphics_api/texture_2d_array.cpp:116-121 | one SetData per loaded layer, layer i getting image i |
| Texture2DArray.Resized | source/dviglo/graphics_api/texture_2d_array.cpp:171 | the new length, with the common prefix kept |
| Texture2DArray.DirectoryShape | source/dviglo/graphics_api/texture_2d_array.cpp:81-85 | the directory of a name is empty or ends in '/' and has no backslash |
| Texture2DArray.LayerPathInDirectory | source/dviglo/graphics_api/texture_2d_array.cpp:83-85 | a bare layer name resolves into the XML file's directory |
| Texture2DArray.LayerPathsAt | source/dviglo/graphics_api/texture_2d_array.cpp:77-90 | entry i of the requested names is layer element i's name, resolved |
| Texture2DArray.ResolveLayers | source/dviglo/graphics_api/texture_2d_array.cpp:77-90 | the layer loop requests exactly LayerPaths, in document order |
| Texture2DArray.Texture2DArray.constructor | source/dviglo/graphics_api/texture_2d_array.cpp:26-34 | an empty static array with no layers, nothing loading |
| Texture2DArray.Texture2DArray.SetLayers | source/dviglo/graphics_api/texture_2d_array.cpp:126-131 | releases the texture, then takes the layer count |
| Texture2DArray.Texture2DArray.ResetLayerMemoryUse | source/dviglo/graphics_api/texture_2d_array.cpp:171-173 | one zero entry per layer |
| Texture2DArray.Texture2DArray.SetSize | source/dviglo/graphics_api/texture_2d_array.cpp:133-176 | a non-positive size or depth-stencil usage fails with nothing changed; otherwise size, format and usage are stored, a non-zero layer count replaces the old one, every layer's memory use is 0, a render surface exists exactly for render targets, and the result is creation's |
| Texture2DArray.Texture2DArray.BeginLoad | source/dviglo/graphics_api/texture_2d_array.cpp:46-103 | headless: nothing changes; device lost: data pending; otherwise succeeds exactly when the XML loads, requesting each layer's image (bare names in the XML file's directory) and recording them as dependencies |
| Texture2DArray.Texture2DArray.LoadParameters | source/dviglo/graphics_api/texture_2d_array.cpp:62-89 | the dependencies are reset; a description that does not parse fails, keeping the image list; otherwise each layer element's image is requested (LayerPaths) and recorded as a dependency |
| Texture2DArray.Texture2DArray.EndLoad | source/dviglo/graphics_api/texture_2d_array.cpp:105-124 | headless or device lost: nothing changes; otherwise the parameters are applied, the layer count becomes the number of images, and each image is uploaded to its layer in order |
| Texture2DArray.RequestedLayersResolve | source/dviglo/graphics_api/texture_2d_array.cpp:81-85 | a requested layer name without a directory lands in the XML file's directory |
| FontFaceBitmap.Short | source/dviglo/ui/font_face_bitmap.cpp:112-118 | the `(short)` cast yields a 16-bit value and keeps every value already in range |
| FontFaceBitmap.ToU32 | source/dviglo/ui/font_face_bitmap.cpp:133-135 | an int read into an unsigned is below 2^32 and unchanged when already in range |
| FontFaceBitmap.I32RoundTrip | source/dviglo/ui/font_face_bitmap.cpp:293 | writing a 32-bit character code as a signed attribute and reading it back as unsigned gives the code |
| FontFaceBitmap.KerningKey | source/dviglo/ui/font_face_bitmap.cpp:133-135 | the packed key of a character pair is a 32-bit value |
| FontFaceBitmap.KerningKeyValue | source/dviglo/ui/font_face_bitmap.cpp:135 | for characters below 0x10000 the key is first times 0x10000 plus second |
| FontFaceBitmap.KerningKeyRoundTrip | source/dviglo/ui/font_face_bitmap.cpp:235-236 | unpacking a packed pair of 16-bit characters gives both characters back |
| FontFaceBitmap.KerningKeySplit | source/dviglo/ui/font_face_bitmap.cpp:235-236 | every 32-bit key splits into two 16-bit halves that pack back to the key |
| FontFaceBitmap.NumComponents | source/dviglo/ui/font_face_bitmap.cpp:321-331 | 4 exactly for RGBA, 3 exactly for RGB, 2 exactly for luminance-alpha, 1 for anything else |
| FontFaceBitmap.ComponentsRoundTrip | source/dviglo/ui/font_face_bitmap.cpp:333-337 | a texture made from an image with 1 to 4 components reports that many components |
| FontFaceBitmap.FormatRoundTrip | source/dviglo/ui/font_face_bitmap.cpp:321-337 | each of the four known formats survives conversion to a component count and back |
| FontFaceBitmap.GlyphOf | source/dviglo/ui/font_face_bitmap.cpp:109-119 | a loaded glyph's size equals its texture size and it is not marked used |
| FontFaceBitmap.CharElementRoundTrip | source/dviglo/ui/font_face_bitmap.cpp:109-119 | reading back a saved char element gives its character and the glyph with the use mark cleared |
| FontFaceBitmap.GlyphTable | source/dviglo/ui/font_face_bitmap.cpp:103-125 | the glyph table after the char loop gains only 32-bit keys |
| FontFaceBitmap.CharElements | source/dviglo/ui/font_face_bitmap.cpp:289-304 | Save writes one char element per character of the iteration order |
| FontFaceBitmap.GlyphTablePrefix | source/dviglo/ui/font_face_bitmap.cpp:103-125 | loading the elements saved for part of the order restores exactly those glyphs, use marks cleared |
| FontFaceBitmap.GlyphTableRoundTrip | source/dviglo/ui/font_face_bitmap.cpp:103-125 | saving the glyph table and loading it back gives the table with every use mark cleared |
| FontFaceBitmap.KerningElementRoundTrip | source/dviglo/ui/font_face_bitmap.cpp:133-136 | reading back a saved kerning element gives its 32-bit key and its 16-bit amount |
| FontFaceBitmap.KerningTable | source/dviglo/ui/font_face_bitmap.cpp:127-140 | the kerning table after the kerning loop gains only 32-bit keys |
| FontFaceBitmap.KerningElements | source/dviglo/ui/font_face_bitmap.cpp:306-316 | Save writes one kerning element per key of the iteration order |
| FontFaceBitmap.KerningTablePrefix | source/dviglo/ui/font_face_bitmap.cpp:127-140 | loading the elements saved for part of the order restores exactly those entries |
| FontFaceBitmap.KerningTableRoundTrip | source/dviglo/ui/font_face_bitmap.cpp:127-140 | saving a table of 32-bit keys and 16-bit amounts and loading it back gives the same table |
| FontFaceBitmap.BlitRows | source/dviglo/ui/font_face_bitmap.cpp:351-361 | the row copies never change the destination's length |
| FontFaceBitmap.Blit | source/dviglo/ui/font_face_bitmap.cpp:351-361 | the destination image afterwards is the row-by-row copy of `height` rows of `width * components` bytes |
| FontFaceBitmap.BlitOutside | source/dviglo/ui/font_face_bitmap.cpp:351-361 | a destination byte outside every copied row keeps its value |
| FontFaceBitmap.BlitInside | source/dviglo/ui/font_face_bitmap.cpp:351-361 | with non-overlapping rows, each byte of every copied row (the r-th, r from 1 to n) holds the matching byte of the matching source row |
| FontFaceBitmap.GetU32 | source/dviglo/ui/font_face_bitmap.cpp:61 | the page count read is a 32-bit unsigned value |
| FontFaceBitmap.LoadablePages | source/dviglo/ui/font_face_bitmap.cpp:68-101 | the pages that load are a prefix of those requested, stopping at the first page missing, unreadable or without a texture |
| FontFaceBitmap.PageTextures | source/dviglo/ui/font_face_bitmap.cpp:88-96 | one texture per loaded page, named after its image file, in page order |
| FontFaceBitmap.LoadablePagesAll | source/dviglo/ui/font_face_bitmap.cpp:68-101 | when every requested page loads, all of them are loaded |
| FontFaceBitmap.LoadablePagesStop | source/dviglo/ui/font_face_bitmap.cpp:68-101 | the first page that fails is where loading stops, however many more are requested |
| FontFaceBitmap.Pack | source/dviglo/ui/font_face_bitmap.cpp:167-192 | the repacking always uses at least one page |
| FontFaceBitmap.PackBlocked | source/dviglo/ui/font_face_bitmap.cpp:171-185 | the copy gives up exactly when some used glyph fits neither the current page nor a fresh one |
| FontFaceBitmap.PackKeys | source/dviglo/ui/font_face_bitmap.cpp:171-192 | the new table holds the old entries plus every used glyph and no unused one |
| FontFaceBitmap.PackPlacesUsed | source/dviglo/ui/font_face_bitmap.cpp:187-191 | each used glyph is the old glyph moved to a 16-bit position on one of the new pages |
| FontFaceBitmap.BlockedStays | source/dviglo/ui/font_face_bitmap.cpp:183-184 | once a glyph fits nowhere, the glyphs after it change nothing |
| FontFaceBitmap.KeptKerning | source/dviglo/ui/font_face_bitmap.cpp:233-239 | exactly the pairs whose two characters both have glyphs are kept, with their amounts |
| FontFaceBitmap.WithDefaults | source/dviglo/ui/font_face_bitmap.cpp:224 | looking up the other face's glyph for a missing key inserts a default glyph and changes no existing entry |
| FontFaceBitmap.GlyphBlits | source/dviglo/ui/font_face_bitmap.cpp:221-227 | one rectangle copy per new glyph, from its old place to its new place, in the table's order |
| FontFaceBitmap.NewPages | source/dviglo/ui/font_face_bitmap.cpp:202-231 | one new page per page used, all in the face's format |
| FontFaceBitmap.SavedPages | source/dviglo/ui/font_face_bitmap.cpp:273-282 | one page element per texture |
| FontFaceBitmap.SaveLoadHeader | source/dviglo/ui/font_face_bitmap.cpp:250-279 | loading a saved face gives back its point size, row height and page count |
| FontFaceBitmap.SaveLoadTables | source/dviglo/ui/font_face_bitmap.cpp:284-316 | loading a saved face gives back its glyph table, use marks cleared, and its kerning table |
| FontFaceBitmap.FontFaceBitmap.constructor | source/dviglo/ui/font_face_bitmap.cpp:22-25 | a new face has no glyphs, kerning pairs or textures |
| FontFaceBitmap.FontFaceBitmap.LoadPages | source/dviglo/ui/font_face_bitmap.cpp:62-101 | the textures of the loadable page prefix are appended; success exactly when all requested pages load, with their image bytes summed in 32 bits |
| FontFaceBitmap.FontFaceBitmap.LoadGlyphs | source/dviglo/ui/font_face_bitmap.cpp:103-125 | the glyph table becomes the char elements read in order over the old table |
| FontFaceBitmap.FontFaceBitmap.LoadKernings | source/dviglo/ui/font_face_bitmap.cpp:127-140 | the kerning table becomes the kerning elements read in order over the old table |
| FontFaceBitmap.FontFaceBitmap.LoadXml | source/dviglo/ui/font_face_bitmap.cpp:31-146 | an unreadable document or a missing pages element fails with nothing changed; otherwise the face is loaded from the document |
| FontFaceBitmap.FontFaceBitmap.LoadDoc | source/dviglo/ui/font_face_bitmap.cpp:55-146 | the point size (when info exists), row height, page textures, and on success the glyph and kerning tables, are read from the document |
| FontFaceBitmap.FontFaceBitmap.Copy | source/dviglo/ui/font_face_bitmap.cpp:148-242 | copying from itself changes nothing; without used-glyph packing every table is copied; otherwise the used glyphs are repacked, failing exactly when one fits nowhere, and on success the glyphs are blitted to the new pages and the kerning pairs of kept characters carried over |
| FontFaceBitmap.FontFaceBitmap.PlaceGlyphs | source/dviglo/ui/font_face_bitmap.cpp:167-192 | the glyph table and page count are the repacking's, succeeding exactly when it is not blocked |
| FontFaceBitmap.FontFaceBitmap.BlitGlyphs | source/dviglo/ui/font_face_bitmap.cpp:221-227 | the copies are one per glyph of the new table, and the other face gains default glyphs for its missing keys |
| FontFaceBitmap.FontFaceBitmap.KeepKerning | source/dviglo/ui/font_face_bitmap.cpp:233-239 | the pairs whose two characters have glyphs are added to the kerning table |
| FontFaceBitmap.FontFaceBitmap.Save | source/dviglo/ui/font_face_bitmap.cpp:244-319 | the document written is the face's saved form, with one PNG path per texture in the save directory |
| FontFaceBitmap.SavePages | source/dviglo/ui/font_face_bitmap.cpp:272-282 | one page element and one image path `<name>_<i>.png` per texture |
| FontFaceBitmap.SaveChars | source/dviglo/ui/font_face_bitmap.cpp:289-304 | the char elements written are those of the table in iteration order |
| FontFaceBitmap.SaveKernings | source/dviglo/ui/font_face_bitmap.cpp:306-316 | the kerning elements written are those of the table in iteration order |
| Font.TypeOfExtension | source/dviglo/ui/font.cpp:78-86 | FreeType exactly for .ttf, .otf and .woff; bitmap exactly for .xml, .fnt and .sdf; none otherwise |
| Font.SdfIsBitmap | source/dviglo/ui/font.cpp:84-87 | a signed-distance-field font is loaded as a bitmap font |
| Font.FloatToFixed | source/dviglo/ui/font.cpp:24-28 | the value times 64, truncated toward zero |
| Font.FacePointSize | source/dviglo/ui/font.cpp:125-129 | 0 for bitmap fonts; otherwise a size within [1, 96] |
| Font.FaceKeyRange | source/dviglo/ui/font.cpp:125-132 | the key is 0 for bitmap fonts and between 64 and 6144 otherwise, the truncated 64ths of the face's size |
| Font.FaceKeyStable | source/dviglo/ui/font.cpp:202-222 | a face's own point size maps to the key it is cached under, so asking again finds it |
| Font.Font.constructor | source/dviglo/ui/font.cpp:34-41 | a new font has no type, no data, zero offsets and no cached faces |
| Font.Font.BeginLoad | source/dviglo/ui/font.cpp:55-91 | headless: succeeds with nothing changed; otherwise the faces are dropped, an empty or short read fails with no type, and a full read keeps the data, sets the memory use, the type and SDF flag from the extension, and reads parameters for FreeType fonts |
| Font.Font.ApplyExtension | source/dviglo/ui/font.cpp:76-89 | the type and SDF flag follow the lower-cased extension; only FreeType fonts read the parameter file |
| Font.Font.LoadParameters | source/dviglo/ui/font.cpp:171-200 | the offsets come from the long element names, else the short ones, else stay as they were |
| Font.Font.GetFace | source/dviglo/ui/font.cpp:118-158 | headless gives none; a cached face that is not data-lost is returned with the cache unchanged; otherwise the stale entry is dropped and a face of the font's type is loaded and cached under its key, none for an unknown type or a failed load |
| Font.Font.GetFaceFreeType | source/dviglo/ui/font.cpp:202-211 | a FreeType face is cached under its key exactly when it loads |
| Font.Font.GetFaceBitmap | source/dviglo/ui/font.cpp:213-222 | a bitmap face is cached under its key exactly when it loads |
| Font.Font.StoreFace | source/dviglo/ui/font.cpp:204-221 | a loaded face is stored under the key of its point size; a failed load stores nothing |
| Font.Font.SaveXml | source/dviglo/ui/font.cpp:93-106 | saving succeeds exactly when a face for the size exists or can be loaded, the copy succeeds (always without used-glyph packing; with it, when every used glyph finds room) and the file is written; the face cache changes as GetFace changes it (kept on a hit, the entry dropped on a failed load, the loaded face stored under its key) |
| Resource.Resource.constructor | source/dviglo/resource/resource.cpp:14-18 | a new resource has no memory use and is not loading |
| Resource.Resource.Load | source/dviglo/resource/resource.cpp:20-51 | success exactly when BeginLoad and EndLoad both succeed; EndLoad runs exactly when BeginLoad succeeded; the state is "loading" during a load off the main thread and "done" afterwards |
| Resource.Resource.BeginLoad | source/dviglo/resource/resource.cpp:53-57 | the base BeginLoad fails |
| Resource.Resource.EndLoad | source/dviglo/resource/resource.cpp:59-63 | the base EndLoad succeeds |
| Resource.Resource.Save | source/dviglo/resource/resource.cpp:65-69 | the base Save fails |
| Resource.Resource.LoadFile | source/dviglo/resource/resource.cpp:71-75 | succeeds exactly when the file opens and the load succeeds; a file that does not open leaves the load state alone |
| Resource.Resource.SaveFile | source/dviglo/resource/resource.cpp:77-81 | with the base Save, saving to a file always fails |
| Resource.Resource.SetName | source/dviglo/resource/resource.cpp:83-87 | the name becomes the new one |
| Resource.Resource.SetMemoryUse | source/dviglo/resource/resource.cpp:89-93 | a non-negative size becomes the memory use |
| Resource.Resource.SetAsyncLoadState | source/dviglo/resource/resource.cpp:100-103 | the load state becomes the new one |
| Resource.Resource.ResetUseTimer | source/dviglo/resource/resource.cpp:95-98 | the timer restarts at the current clock reading |
| Resource.Resource.GetUseTimer | source/dviglo/resource/resource.cpp:105-115 | with more than one reference the timer restarts and 0 is returned; otherwise the time since the last restart, leaving the timer running |
| Resource.RemoveFirst | source/dviglo/resource/resource.cpp:128 | removing a name drops exactly one element when it is listed and nothing otherwise |
| Resource.Saved | source/dviglo/resource/resource.cpp:160-168 | one (name, value) pair per listed name, in list order, with the value looked up by name |
| Resource.AddedConsistent | source/dviglo/resource/resource.cpp:117-123 | adding keeps one listed name per map entry, with no name listed twice |
| Resource.RemovedConsistent | source/dviglo/resource/resource.cpp:125-129 | removing a listed name keeps the map and the list in step |
| Resource.SavedPrefixRoundTrip | source/dviglo/resource/resource.cpp:148-168 | loading the first n saved pairs restores the entries of the first n names, in order |
| Resource.SaveLoadRoundTrip | source/dviglo/resource/resource.cpp:148-168 | saving metadata and loading it into an empty holder gives back the map and the name order |
| Resource.HasMetadataIffListed | source/dviglo/resource/resource.cpp:143-146 | with map and list in step, there is metadata exactly when some name is listed |
| Resource.ResourceWithMetadata.constructor | source/dviglo/resource/resource.cpp:117-174 | a new holder has no metadata and no names |
| Resource.ResourceWithMetadata.AddMetadata | source/dviglo/resource/resource.cpp:117-123 | the value is stored under the name's hash, and the name is listed only when the hash was new; map and list stay in step |
| Resource.ResourceWithMetadata.RemoveMetadata | source/dviglo/resource/resource.cpp:125-129 | the hash's entry and the name's first listing are removed; map and list stay in step when the name was listed or its hash absent |
| Resource.ResourceWithMetadata.RemoveAllMetadata | source/dviglo/resource/resource.cpp:131-135 | both the map and the list become empty |
| Resource.ResourceWithMetadata.GetMetadata | source/dviglo/resource/resource.cpp:137-141 | the value under the name's hash, the empty variant when there is none |
| Resource.ResourceWithMetadata.HasMetadata | source/dviglo/resource/resource.cpp:143-146 | true exactly when the map is non-empty, and exactly when some name is listed |
| Resource.ResourceWithMetadata.LoadMetadata | source/dviglo/resource/resource.cpp:148-158 | the entries are added in document order, keeping map and list in step |
| Resource.ResourceWithMetadata.SaveMetadata | source/dviglo/resource/resource.cpp:160-168 | the pairs written are the saved form of the metadata in insertion order |
| Resource.ResourceWithMetadata.CopyMetadata | source/dviglo/resource/resource.cpp:170-174 | both the map and the list become the source's |
| Log.Prefix | source/dviglo/io/log.cpp:22-30 | each valid level has a non-empty prefix without a colon |
| Log.Formatted | source/dviglo/io/log.cpp:158-163 | the line ends with the message; without time stamps it is the prefix, ": " and the message; with them it starts with '[' |
| Log.Emitted | source/dviglo/io/log.cpp:165-189 | one print unless quiet and not an error, errors to the error stream; one file write when a log file is open; the log event last |
| Log.Log.Emit | source/dviglo/io/log.cpp:159-189 | the message becomes the last message and the outputs gain exactly Emitted: the console line, the file line and the log event; the queue and the thread-error flag are kept |
| Log.RawStep | source/dviglo/io/log.cpp:206-236 | during a log event nothing happens; otherwise the message becomes the last message and the event carries it at LOG_ERROR or LOG_INFO; no setting changes |
| Log.WriteStep | source/dviglo/io/log.cpp:129-190 | a level that is invalid, below the log level or written during a log event changes nothing; an accepted one records the message and ends with the event of the formatted line; no setting changes |
| Log.Queued | source/dviglo/io/log.cpp:131-152 | off the main thread a message is queued exactly when its level is raw or valid |
| Log.FormatQueued | source/dviglo/io/log.cpp:107-127 | WriteFormat queues exactly raw messages and valid levels not below the log level |
| Log.Replay | source/dviglo/io/log.cpp:255-265 | replaying the queue only appends outputs and changes no setting |
| Log.Events | source/dviglo/io/log.cpp:180-189 | the events of a trace are at most its outputs |
| Log.EventsAppend | source/dviglo/io/log.cpp:180-189 | the events of two traces run one after the other are the events of the first followed by those of the second |
| Log.EmittedEvents | source/dviglo/io/log.cpp:165-189 | a write raises exactly one event, carrying the formatted text and its level |
| Log.ProcessEvents | source/dviglo/io/log.cpp:259-262 | outside a log event, replaying one stored message raises exactly its expected event |
| Log.ReplayEvents | source/dviglo/io/log.cpp:255-265 | draining the queue raises one event per message that passes the filter, in queue order |
| Log.QuietReplayPrintsErrorsOnly | source/dviglo/io/log.cpp:255-265 | in quiet mode every print the drain makes goes to the error stream |
| Log.DeferredAsDirect | source/dviglo/io/log.cpp:142-152 | a message queued off the main thread and replayed has the effect of writing it on the main thread |
| Log.Log.constructor | source/dviglo/io/log.cpp:35-48 | the level starts at LOG_DEBUG in debug builds and LOG_INFO otherwise, with time stamps on and quiet off |
| Log.Log.SetTimeStamp | source/dviglo/io/log.cpp:97-100 | stamping becomes the flag given |
| Log.Log.SetQuiet | source/dviglo/io/log.cpp:102-105 | quiet mode becomes the flag given |
| Log.Log.SendEvent | source/dviglo/io/log.cpp:180-189 | exactly the one event is added, whatever the handlers write during it |
| Log.Log.Write | source/dviglo/io/log.cpp:129-190 | on the main thread the log moves by the write step; elsewhere the message is queued and nothing else changes |
| Log.Log.WriteRaw | source/dviglo/io/log.cpp:192-237 | on the main thread the log moves by the raw step; elsewhere the raw message is queued |
| Log.Log.WriteFormat | source/dviglo/io/log.cpp:107-127 | filters by level before writing: on the main thread the write step, elsewhere the filtered queueing |
| Log.Log.SetLevel | source/dviglo/io/log.cpp:86-95 | a level within [LOG_TRACE, LOG_NONE] is stored and nothing else changes; any other leaves the level and logs an error: on the main thread by the write step with the queue kept, elsewhere by queueing it (filtered by the old level) with the rest of the log kept |
| Log.Log.HandleEndFrame | source/dviglo/io/log.cpp:239-266 | on the main thread the queue is replayed in order and emptied; elsewhere the thread error is printed once and the queue kept |
| Log.Log.DrainThreadMessages | source/dviglo/io/log.cpp:255-265 | the loop leaves the log as replaying the whole queue would, with the queue empty |
| EventProfiler.FindChild | source/dviglo/core/event_profiler.h:24-37 | the first child with the event ID, none exactly when no child has it |
| EventProfiler.AppendDistinct | source/dviglo/core/event_profiler.h:24-37 | appending a child with a new ID keeps the children's IDs distinct |
| EventProfiler.EventProfilerBlock.constructor | source/dviglo/core/event_profiler.h:17-21 | a new block has its parent and event ID and no children |
| EventProfiler.EventProfilerBlock.GetChild | source/dviglo/core/event_profiler.h:24-37 | an existing child with the ID is returned with the children unchanged; otherwise a new child of this block is appended; the IDs stay distinct |
| EventProfiler.EventProfiler.SetActive | source/dviglo/core/event_profiler.h:53-55 | the switch becomes the flag given |
| EventProfiler.EventProfiler.IsActive | source/dviglo/core/event_profiler.h:53-55 | reads the switch |
| EventProfiler.EventProfiler.BeginBlock | source/dviglo/core/event_profiler.h:58-66 | off the main thread nothing changes; on it the current block becomes its child for the event, found or appended |
| EventProfiler.EventProfiler.constructor | source/dviglo/core/event_profiler.h:49-70 | a new profiler is inactive, positioned at a fresh root block without children |
| Application.Substring | source/dviglo/engine/application.cpp:113 | the tail from a position, empty past the end |
| Application.StrippedAsWritten | source/dviglo/engine/application.cpp:110-113 | as written: with a ']' anywhere, the text after it and one more character; otherwise the text |
| Application.Stripped | source/dviglo/engine/application.cpp:109-113 | as intended: only a line starting with '[' loses anything, and never gains length |
| Application.StrippedLogLine | source/dviglo/engine/application.cpp:107-115 | for an error line the log formats, stripping leaves "ERROR: " and the message whether time stamps are on or off |
| Application.StrippedAsWrittenCutsMessage | source/dviglo/engine/application.cpp:110-113 | as written, an unstamped error message containing "] " loses its head |
| Application.DialogText | source/dviglo/engine/application.cpp:94-100 | the message when there is one, else the collected errors, else the default text; never empty |
| Application.CollectedNoErrors | source/dviglo/engine/application.cpp:107 | events of other levels collect nothing |
| Application.CollectedEmptyIffNoErrors | source/dviglo/engine/application.cpp:107-116 | the collected text is empty exactly when no error was logged, and otherwise ends with a line break |
| Application.Application.constructor | source/dviglo/engine/application.cpp:30-40 | the exit code starts at EXIT_SUCCESS with no collected errors |
| Application.Application.HandleLogMessage | source/dviglo/engine/application.cpp:103-117 | an error's stripped text and a line break are appended, with only a leading time stamp stripped (corrected; see Findings); other levels change nothing |
| Application.Application.HandleLogMessages | source/dviglo/engine/application.cpp:103-117 | a run of log events appends exactly the collected errors, each stripped of a leading time stamp only (corrected; see Findings) |
| Application.Application.ErrorExit | source/dviglo/engine/application.cpp:89-101 | the engine is asked to exit, the code is EXIT_FAILURE, and one dialog with the dialog text is shown |
| Application.Application.Run | source/dviglo/engine/application.cpp:42-87 | a non-zero code after Setup or Start is returned at once; a failed initialisation exits with EXIT_FAILURE and shows one dialog with the collected start-up errors (or the default text); on every other path no dialog is added and no exit is requested by Run itself; the frames and Stop run exactly when all three stages succeed, and the code is then the one they leave; any earlier failure gives a non-zero code |
| Clicker.ShortNumberRepresentation | source/samples/games/clicker/clicker.cpp:59-111 | up to three digits are kept as they are; longer texts lose fewer than 45 characters |
| Clicker.ShortByGroups | source/samples/games/clicker/clicker.cpp:59-111 | the fifteen cases are one rule: drop the last k groups of three digits and append the k-th suffix, leaving 1 to 3 leading digits up to 48 digits |
| Clicker.DropDigitsText | source/samples/games/clicker/clicker.cpp:61 | dropping decimal digits of the number drops as many characters from the end of its text |
| Clicker.ShortOfNumber | source/samples/games/clicker/clicker.cpp:59-111 | the abbreviation of a score is the score with 3k digits dropped, followed by the k-th suffix |
| Clicker.Clicker.constructor | source/samples/games/clicker/clicker.cpp:31-51 | the score starts at 0 and the power at 1, with the hint text and "Power: 1" shown |
| Clicker.Clicker.HandleUpdate | source/samples/games/clicker/clicker.cpp:113-134 | the delay runs down; with the left button held and the delay run out, the score grows by the power, is shown abbreviated and the delay restarts at 0.2; otherwise the score stays |
| Clicker.Clicker.HandleMouseButtonDown | source/samples/games/clicker/clicker.cpp:136-150 | the right button doubles the power and shows it abbreviated; other buttons change nothing |
| Chat.Rows | source/samples/network/chat/chat.cpp:148-153 | the history text holds at least one character per row |
| Chat.RowsAppend | source/samples/network/chat/chat.cpp:148-153 | the text of two runs of rows is the text of the first followed by that of the second |
| Chat.Shifted | source/samples/network/chat/chat.cpp:145-146 | the oldest row leaves when there is one, the rest keep their order, and the new row comes last |
| Chat.ShownText | source/samples/network/chat/chat.cpp:143-154 | after a row is shown, the text is the remaining rows followed by the new row and a line break |
| Chat.ButtonsFor | source/samples/network/chat/chat.cpp:156-167 | Send exactly when connected; Connect and Start Server exactly when neither connected nor serving; Disconnect exactly when either |
| Chat.ConnectXorDisconnect | source/samples/network/chat/chat.cpp:162-166 | Connect and Disconnect are never shown together, and one of them always is |
| Chat.WriteString | source/samples/network/chat/chat.cpp:259 | the text followed by one terminating NUL |
| Chat.ReadString | source/samples/network/chat/chat.cpp:248 | the characters before the first NUL, all of them when there is none |
| Chat.ReadWriteString | source/samples/network/chat/chat.cpp:248 | reading back a written text gives it, cut at its first NUL |
| Chat.Chat.constructor | source/samples/network/chat/chat.cpp:65-105 | the history has the given number of empty rows and the buttons are those of the disconnected state |
| Chat.Chat.ShowChatText | source/samples/network/chat/chat.cpp:143-154 | the history shifts by the row and the shown text is every row with a line break |
| Chat.Chat.UpdateButtons | source/samples/network/chat/chat.cpp:156-167 | the buttons are those of the connection state |
| Chat.Chat.HandleLogMessage | source/samples/network/chat/chat.cpp:169-174 | every log line is shown in the history |
| Chat.Chat.HandleSend | source/samples/network/chat/chat.cpp:176-195 | a non-empty edit text is sent as a chat message and cleared exactly when connected; otherwise nothing changes |
| Chat.Chat.HandleConnect | source/samples/network/chat/chat.cpp:197-212 | connects to the trimmed edit text, or localhost when it is empty, on port 2345; the edit is cleared and the buttons updated |
| Chat.Chat.HandleDisconnect | source/samples/network/chat/chat.cpp:214-226 | a connection is closed if there is one, else a running server stops; the buttons are updated |
| Chat.Chat.HandleStartServer | source/samples/network/chat/chat.cpp:228-234 | a server is started on port 2345 and the buttons updated |
| Chat.Chat.HandleNetworkMessage | source/samples/network/chat/chat.cpp:236-266 | only chat messages are handled; a server prefixes the sender and a space, broadcasts and shows the text; a client shows the text |

## Left out

- GPU calls (`glBufferData`, `glGenBuffers`, `CreateTexture3D`, `Map`/`Unmap`, `UpdateSubresource`, `D3DCompile`, `D3DReflect`, `D3DStripShader`): these are foreign library calls. Their outcomes are parameters, and the calls made are recorded in trace fields where the source's logic depends on them.
- The `GAPI` dispatch switches in vertex_buffer.cpp, texture_2d.cpp and texture_2d_array.cpp (`Create`, `Release`, `SetData`, `Lock`/`Unlock`, `OnDeviceLost`/`OnDeviceReset`, `HandleRenderSurfaceUpdate`): these are back-end dispatch with no logic of their own.
- `ShaderVariation::ParseParameters_D3D11` and the reflection part of `Compile_D3D11`: these walk the Direct3D reflection API. Only the define parsing of `Compile_D3D11` is modelled.
- `Shader::ProcessSource`: its include expansion reads through the resource cache, and the file times come from the file system. What it reads is a parameter of `Shader.ShaderResource.BeginLoad`: the modification times of the non-packaged files it opened, in order, and the expanded text, or none when an include is missing or fails. Recording include files as resource dependencies is not modelled.
- `Shader::EndLoad`: its variation release loop calls the GPU.
- ShaderVariationD3D11.ShaderVariation.SaveByteCode: the path resolution and the early returns when the file cannot be opened are not modelled. The method returns the bytes written.
- ShaderVariationD3D11.ShaderVariation.LoadByteCode: the bytes are a parameter, and file opening is not modelled.
- ShaderVariationD3D11.ShaderVariation.LoadByteCode: the element hash's low 32 bits read back as 0, as in the source. The 64-bit hash is modelled as a natural below 2^64.
- Shader.ShaderResource.GetVariation: the cache is keyed by define strings rather than by their `StringHash`, so hash collisions are not modelled.
- Resource.ResourceWithMetadata.RemoveMetadata: the map is keyed by a `hash` parameter (standing for `StringHash`). Consistency of the key list is kept only when the removed name is listed or its hash is absent, since a colliding name breaks the list in the source too.
- Resource: the profiler blocks in `Resource::Load` and the `nameHash_` that `SetName` computes are not modelled.
- Header constants and helpers that are not part of this model are taken from Urho3D, from which dviglo is forked:
  - `ELEMENT_TYPESIZES`, `LEGACY_VERTEXELEMENTS`, `NINDEX` = -1;
  - `MAX_TEXTURE_UNITS` = 16, `MAX_SHADER_PARAMETER_GROUPS` = 7;
  - the log levels (`LOG_RAW` = -1 to `LOG_NONE` = 5), the `SCAN_*` flags and the `TextureUsage` codes;
  - `MSG_USER` = 153, and the initial async execution ID 1;
  - the String helpers in `Str` (`Split` drops empty parts; `Substring` past the end is empty).
- texture.cpp, d3d11_texture.cpp (level sizes, row data size, compressed formats) and index_buffer.cpp are not part of this model. Their results are written as functions in the modules that use them, following Urho3D.
- VertexBuffer.VertexBuffer.SetSize: the vertex count and size are unbounded naturals. The source computes the shadow size as `(size_t)vertexCount_ * vertexSize_` after asserting `vertexCount >= 0`, so the model needs no wrap-around there.
- VertexBuffer: `Lock`, `Unlock`, `SetData` and `SetDataRange` of the generic buffer are not modelled. Their OpenGL index-buffer counterparts are.
- IndexBufferOGL: `OnDeviceLost_OGL`, `MapBuffer_OGL` and `UnmapBuffer_OGL` only call the GPU. The scratch buffer is represented by its contents, which start as zeros.
- ConstantBuffers.ConstantBuffer.ReleaseD3D11: a freed shadow buffer is represented by an empty array. The GPU binding calls of `Apply` are not recorded.
- Texture3DD3D11.ClampMipSkip: the wrap of `levels - 1` when `levels` is 0, and the overflow of `1 << skip`, are not modelled. Dimensions are unbounded integers.
- Texture3DD3D11.AlignBox: the i32 overflow of the rounded width and height is not modelled.
- Texture3DD3D11.Texture3D.SetData: a graphics subsystem is taken to exist whenever a GPU object does. Without one, the source would dereference null.
- Texture3DD3D11: the uncompressed mip loop of `SetData_D3D11(Image*)` and its memory-use sum are not modelled. Only the compressed mip-skip plan is.
- Texture2D, Texture2DArray: image decoding and the image paths of `SetData` are outside the model. For Texture2D the image loading result is a parameter of `BeginLoad`.
- Texture2DArray.Texture2DArray.EndLoad: the layer images are represented by their requested names. Whether each image loaded is not modelled: the source passes a possibly null image to `SetData`, which then fails for that layer, whereas the model records an upload for every layer. `CheckTextureBudget` (resource-cache memory management) and `SetParameters(loadParameters_)` (parsing the parameter XML in texture.cpp, which is not part of this model) are not modelled either; applying the parameters is recorded as one call.
- FontFaceBitmap: the XML tree, image decoding, `AreaAllocator` packing and the iteration order of hash maps are outside the model. The document, the allocator's answers and the orders are parameters.
- FontFaceBitmap.FontFaceBitmap.Copy: `LoadFaceTexture` (font_face.cpp, not part of this model) is taken to succeed.
- FontFaceBitmap.FontFaceBitmap.Copy: the resource cache's `AddManualResource` and the texture naming side effects are not modelled.
- FontFaceBitmap.FontFaceBitmap.LoadGlyphs: the debug assertion on the glyph page is not modelled.
- Font.FloatToFixed: the float point size is modelled as a real number, so the rounding of a 32-bit float is not captured.
- Font.Font.GetFaceFreeType: the FreeType load outcome is a parameter, as is the bitmap load outcome in `Font.Font.GetFaceBitmap`.
- Font: `SetAbsoluteGlyphOffset`, `SetScaledGlyphOffset`, `ReleaseFaces` and `GetTotalGlyphOffset` are not modelled. They are plain setters or floating-point arithmetic.
- Font.Font.BeginLoad: on a short read, the font data holds the bytes that were read.
- Log: printing, the log file, `Open`/`Close`, time stamps and main-thread detection are outside the model. Output is a trace, the time stamp text is a parameter, and "main thread" is a boolean input.
- Log: the mutex around the thread message queue is not modelled, and neither are the static functions' early return when no log instance exists.
- EventProfiler: block timing (`ProfilerBlock::Begin`/`End`) and the event name register are not modelled. Event IDs are naturals.
- EventProfiler.EventProfiler.constructor: the constructor body is not part of this model. A root block with ID 0 and no parent is assumed.
- Application.Application.Run: `Engine::ParseParameters`, the engine's own initialisation and the `bad_alloc` handler are not modelled. Setup and Start are represented by the exit code they leave, and the frame loop by a frame count and the exit code that the frames and Stop leave. Dialogs shown and exits requested by an ErrorExit inside a frame or Stop are not modelled.
- FileSystem.ScanDirInternal: only the POSIX branch (file_system.cpp:604-637) is modelled, with its hidden rule of a leading '.'. The `_WIN32` branch, which hides entries by `FILE_ATTRIBUTE_HIDDEN` instead, is not modelled.
- Texture2D.Texture2D.EndLoad: `CheckTextureBudget` (resource-cache memory management) and `SetParameters(loadParameters_)` (parsing the parameter XML in texture.cpp, which is not part of this model) are not modelled. Only the upload's outcome and the dropped load state are.
- ShaderVariationD3D11.ShaderVariation.ReadParameters: the parameter map is keyed by the parameter's name rather than by its `StringHash`, so hash collisions are not modelled.
- FontFaceBitmap: kerning amounts (`HashMap<u32, float>`) and glyph offsets and advances are integers in the model. The source loads them from 16-bit attributes, but a face copied from a FreeType face can carry fractional values, which `SetI32` truncates on Save. That truncation is not modelled.
- Clicker.Clicker.HandleUpdate: the click delay is a real number rather than a float. The score is an unbounded natural rather than a `BigInt`.
- Clicker.Clicker.constructor: the initial power of 1 comes from clicker.h, which is not part of this model.
- Chat.Chat.constructor: the number of history rows, which the source derives from the screen height and the font's row height, is a parameter.
- Chat.Chat.ShowChatText: erasing the first row of an empty history is taken to be a no-op.
- Chat: `HandleConnectionStatus` only calls `UpdateButtons`. The UI element creation and the network calls are outside the model, and their outcomes are parameters of the handlers.

## Findings

| source | as written | input that shows it | evidently intended | confidence | as-written member | corrected member |
|---|---|---|---|---|---|---|
| source/dviglo/io/file_system.cpp:155-162 | `AsyncSystemCommand`/`AsyncSystemRun` take the request ID by value, so the base constructor increments a copy and `nextAsyncExecID_` never advances | two asynchronous commands in a row get the same request ID | every request gets a fresh ID, and the counter advances by one per request | not executed | FileSystem.FileSystemState.SubmitAsyncAsWritten, FileSystem.AsWrittenRepeatsId | FileSystem.FileSystemState.SubmitAsync, FileSystem.IssuedIdsDistinct |
| source/dviglo/graphics_api/direct3d11/d3d11_constant_buffer.cpp:38-40 | `(size + 15) & ~15` on a 32-bit unsigned wraps (the OpenGL back end rounds the same way) | size 0xFFFFFFF1 rounds to 0 | the size is rounded up to a multiple of 16 that is at least the request, or the request fails | not executed | ConstantBuffers.RoundUp16AsWritten, ConstantBuffers.RoundUp16AsWrittenWraps | ConstantBuffers.RoundUp16, ConstantBuffers.ConstantBuffer.SetSizeD3D11, ConstantBuffers.ConstantBuffer.SetSizeOGL |
| source/dviglo/graphics_api/constant_buffer.cpp:26 | the range check `offset + size > size_` adds two 32-bit unsigned values, which can wrap | offset 0xFFFFFFFF, size 1, buffer size 16 passes the check | writes outside the shadow buffer are refused | not executed | ConstantBuffers.ParameterOutOfRangeAsWritten, ConstantBuffers.ParameterCheckCounterexample | ConstantBuffers.ParameterOutOfRange, ConstantBuffers.ParameterCheckAgrees |
| source/dviglo/graphics_api/constant_buffer.cpp:35 | in the range check `offset + rows * 4 * sizeof(float) > size_`, the product `rows * 4` is computed in 32-bit unsigned arithmetic and can wrap before it is widened to `size_t` | 2^30 rows, buffer size 16 passes the check | writes outside the shadow buffer are refused | not executed | ConstantBuffers.Vector3OutOfRangeAsWritten, ConstantBuffers.Vector3CheckCounterexample | ConstantBuffers.Vector3OutOfRange, ConstantBuffers.Vector3CheckAgrees |
| source/dviglo/graphics_api/direct3d11/d3d11_texture_3d.cpp:120-121 | the dynamic-usage copy reads each row from `src + row * rowSize`, leaving out the page offset | a box of depth 2 or more copies the first page's rows into every page | page p reads from `src + (p * height + row) * rowSize` | not executed | Texture3DD3D11.SourceOffsetAsWritten, Texture3DD3D11.SourceRepeatsPagesAsWritten | Texture3DD3D11.SourceOffset, Texture3DD3D11.SourceRowsDisjoint, Texture3DD3D11.Texture3D.SetData |
| source/dviglo/engine/application.cpp:110-113 | the time stamp is stripped after the first ']' anywhere in the message, even when time stamps are off | the error message "a] b" with time stamps off is collected as "b" | only a leading "[stamp] " is removed | not executed | Application.StrippedAsWritten, Application.StrippedAsWrittenCutsMessage | Application.Stripped, Application.StrippedLogLine, Application.Application.HandleLogMessage, Application.Application.HandleLogMessages |
