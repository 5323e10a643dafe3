# Entity storage core and Vulkan selection rules, in Dafny

This project models the entity/component storage core of a small game engine, and proves properties of the model. The core is the archetype store together with the world that moves entities between archetypes. The project also models a handful of pure rules from the engine's Vulkan back end.

- **`registry.dfy`** (`Registry`): component types as the storage sees them.
  - Each type has a dense index and a size, an alignment and a default value.
  - Masks are sets of indices.
  - A row (one entity's components) is a map from index to an abstract value.
- **`layout.dfy`** (`Layout`): the column layout of an archetype.
  - Components are sorted by alignment (descending), with ties broken by index.
  - A chunk of `CHUNK_SIZE` bytes holds `entityPerChunk` rows.
  - Each column sits at a cumulative byte offset.
  - A row number maps to a (chunk, slot) pair.
- **`archetype.dfy`** (`Archetype`): an archetype is a dense sequence of rows spread over fixed-size chunks. The model covers:
  - `add` and swap-removing `remove`;
  - `move` into another archetype, which copies the shared components and defaults the rest;
  - `clear`;
  - the chunk count, which is always `ceil(size / entityPerChunk)`.
- **`world.dfy`** (`World`): the world. It holds:
  - the entity record table;
  - one cached `mask_archetype` per mask, each keeping a back-pointer from every row to the entity it holds;
  - the component registry;
  - views, each listing every archetype whose mask contains the view's mask.

  `Valid` ties these together. `add` and `remove` move an entity between archetypes by mask union and symmetric difference. Both are proved to keep `Valid`, to give the entity the right mask and values, and to leave every other entity alone.
- **`swap_chain.dfy`** (`SwapChain`): the swap-chain selection rules. They choose the surface format, present mode, extent, image count and sharing mode.
- **`pipeline.dfy`** (`Pipeline`): the pure parts of the pipeline objects:
  - the vertex stride table;
  - descriptor binding and uniform-buffer index assignment;
  - vertex input;
  - cull mode;
  - the frame-ring copy-and-write logic of pipeline parameters (`sync` and `set`).

**Pointers and values.** Pointers become keys. A record's archetype pointer is the archetype's mask, because the cache holds one archetype per mask. An archetype's record pointer is the entity id. Component values are abstract: default construction yields a per-type default value, and moving or swapping a component moves or swaps values in sequences.

**Component identity.** `archetype.cpp` indexes its mask and offsets by component id. `world.hpp` keeps a separate dense component index and builds masks from it. The model uses the dense index for both. Where the two orders disagree, the layout's tie-break among equally aligned components differs from the source (see "Left out").

**Chunk size and capacity.** `archetype_chunk::CHUNK_SIZE` is declared in `node/archetype_chunk.hpp`, which archetype.cpp includes (archetype.cpp:2, 132) and which is not part of this model. The model fixes it at 4096 bytes, so 24-byte rows give 170 rows per chunk. `archetype::capacity()`, which `allocate` compares the size against (archetype.cpp:145), is not defined in archetype.cpp either. The model takes it to be the chunk count times `entityPerChunk` (`Archetype.Capacity`), and the chunk-count invariant rests on that (see "Left out").

## Model

| member | source | states |
|---|---|---|
| Layout.Sort | engine/core/private/node/archetype.cpp:124-126 | The component list is reordered into a permutation of itself, sorted by alignment descending with ties broken by ascending id. |
| Layout.MakeLayout | engine/core/private/node/archetype.cpp:105-140 | The layout order is a sorted permutation of the components. `entityPerChunk` is `CHUNK_SIZE / row size` and is at least 1 when a row fits. The offset table has exactly the archetype's components as keys. |
| Layout.InitializeLayout | engine/core/private/node/archetype.cpp:105-140 | The loop version (transform, sort, size sum, offset loop) computes exactly the layout `MakeLayout` specifies. |
| Layout.AssignOffsets | engine/core/private/node/archetype.cpp:134-139 | The offset loop gives each component `entityPerChunk` times the sizes of the components before it. |
| Layout.OffsetOfColumn | engine/core/private/node/archetype.cpp:134-139 | The k-th component in layout order sits at `entityPerChunk * (sum of the sizes of the first k)`. |
| Layout.FirstColumnAtZero | engine/core/private/node/archetype.cpp:124-139 | The first component in layout order has offset 0 and the largest alignment of all the archetype's components. |
| Layout.SizeSumPermutation | engine/core/private/node/archetype.cpp:128-130 | The row size does not depend on the order of the components. |
| Layout.EntityPerChunkIsCapacity | engine/core/private/node/archetype.cpp:128-132 | `entityPerChunk` rows fit in a chunk and one more row would not. |
| Layout.ColumnWithinChunk | engine/core/private/node/archetype.cpp:132-139 | Every column ends within the chunk, and every offset is below 2^16, so the `uint16_t` cast loses nothing. |
| Layout.Locate | engine/core/private/node/archetype.cpp:37-38 | `std::div` of a row number gives a chunk and a slot with `chunk * epc + slot == row` and `slot < epc`. |
| Layout.SlotsDisjoint | engine/core/private/node/archetype.cpp:157-162 | Two distinct (component, slot) pairs of one chunk occupy disjoint byte ranges. |
| Layout.MakeLayoutExtends | engine/ecs/include/world.hpp:125-127 | Registering more types does not change the layout of an existing component list. |
| Archetype.New | engine/core/private/node/archetype.cpp:6-18 | A new archetype is valid, has no rows and no chunks, and its mask is the set of its components. |
| Archetype.AllocateChunks | engine/core/private/node/archetype.cpp:142-150 | After one more row the chunk count is still the ceiling of size over `epc`. It grows by one exactly when the old size had reached capacity. |
| Archetype.Append | engine/core/private/node/archetype.cpp:142-150 | Appending keeps the invariant and every old row, puts the new row last and follows the chunk rule. |
| Archetype.Add | engine/core/private/node/archetype.cpp:25-31 | `add` returns the old size and grows the size by one. Every old row stays, and the new row holds the default of each component. A chunk is appended exactly when the old size was at capacity. |
| Archetype.Swap | engine/core/private/node/archetype.cpp:180-198 | Two rows are exchanged, every other row is unchanged, and the rows are a permutation of the old ones. |
| Archetype.SwapRemove | engine/core/private/node/archetype.cpp:78-84 | The size drops by one and row i holds the former last row when i was not last. Every other row is unchanged, and the removed row leaves the multiset. |
| Archetype.ReleaseChunks | engine/core/private/node/archetype.cpp:86-90 | After one row fewer the chunk count is the ceiling of size over `epc`. A chunk is popped exactly when the new size is a multiple of `epc`. |
| Archetype.Remove | engine/core/private/node/archetype.cpp:74-91 | `remove(i)` keeps the invariant and does the swap-remove. It pops a chunk exactly when the new size is a multiple of `epc`. |
| Archetype.MigrateRow | engine/core/private/node/archetype.cpp:45-68 | The row moved into the target has exactly the target's components. Shared components keep their values and the others hold defaults. |
| Archetype.Move | engine/core/private/node/archetype.cpp:33-72 | `move` returns the target's old size. The target keeps its rows and gains the migrated row, and the source is `remove(i)` of the old source: the last row takes row i's place and every other row stays. Both stay valid. |
| Archetype.Clear | engine/core/private/node/archetype.cpp:93-103 | `clear` leaves size 0, no chunks, and the same components and layout. |
| Archetype.RowInAllocatedChunk | engine/core/private/node/archetype.cpp:200-203 | Every live row's chunk index is below the chunk count. |
| Archetype.ComponentAddressInChunk | engine/core/private/node/archetype.cpp:152-164 | The bytes of every live (row, component) pair lie inside an allocated chunk. |
| Archetype.AddN | engine/core/private/node/archetype.cpp:142-150 | After n adds the size has grown by n and every old row is unchanged. Every new row holds each component's default, and the chunk count is `ceil(size / epc)`. |
| Archetype.ThreeChunksFrom341Rows | engine/core/private/node/archetype.cpp:128-150 | Two 12-byte components give 170 rows per chunk, so every row count from 341 to 510 takes exactly 3 chunks. |
| Archetype.ValidUnderLongerRegistry | engine/ecs/include/world.hpp:125-127 | An archetype stays valid when later types are registered. |
| World.Init | engine/ecs/include/world.hpp:94 | A new world is valid and empty, and the entity component is registered first with index 0. |
| World.RegisterComponent | engine/ecs/include/world.hpp:106-127 | A known type is left alone. An unseen type gets the next dense index and its info in the slot at that index. Earlier indices and all storage are unchanged. |
| World.RegisterComponents | engine/ecs/include/world.hpp:103-129 | Registering a pack keeps the invariant and registers every type of the pack. Old types keep their index and info. Storage, views and the entity counter are unchanged. |
| World.RegisterKnownIsNoOp | engine/ecs/include/world.hpp:107-109 | Registering only known types changes nothing. |
| World.RegisterIdempotent | engine/ecs/include/world.hpp:103-129 | Registering the same pack twice is the same as registering it once. |
| World.Create | engine/ecs/include/world.hpp:131 | `create` returns the counter's value and advances it by one. Records, archetypes, views and the registry are unchanged. |
| World.RunAdvancesCounter | engine/ecs/include/world.hpp:86-87 | Over any runnable sequence of `create`, `register_component`, `add`, `remove` and `make_view` calls, the entity counter advances by exactly the number of `create`s. |
| World.CreateIncreasing | engine/ecs/include/world.hpp:86-87 | A `create` after any such sequence of operations returns an id larger than an earlier `create`: larger by one plus the number of `create`s in between. |
| World.AppendNew | engine/ecs/include/world.hpp:149-150 | `layout.insert` yields a duplicate-free list whose mask is the union. |
| World.Erase | engine/ecs/include/world.hpp:172-173 | `layout.erase` yields a duplicate-free list whose mask is the difference. |
| World.NotifyViews | engine/ecs/include/world.hpp:254-258 | A new archetype is appended to exactly the views whose mask it contains. |
| World.MakeArchetype | engine/ecs/include/world.hpp:250-261 | The new archetype is cached under its own mask and every existing archetype is kept. The world stays valid, so views stay complete. |
| World.MakeView | engine/ecs/include/world.hpp:193-208 | The new view lists each cached archetype whose mask contains the view's mask, each once, and no other. Earlier views, storage and the registry are unchanged. |
| World.ViewComplete | engine/ecs/include/world.hpp:199-258 | In a valid world every view lists, each once, exactly the archetypes whose mask contains its own. This covers archetypes created before the view and after it. |
| World.MaskAdd | engine/ecs/include/world.hpp:30-38 | `mask_archetype::add` points the record at a new last row holding defaults. Every other record and row is unchanged. |
| World.MaskRemove | engine/ecs/include/world.hpp:40-50 | After `mask_archetype::remove`, the storage is `Archetype.Remove` of the old one and every remaining row's record points back at it. The removed entity is gone from the archetype. Every other archetype, the registry, the views and the records outside the archetype are untouched. |
| World.RemovedBackPointers | engine/ecs/include/world.hpp:44-48 | After the swap-remove of the back-pointer list, only the record of the row that took the removed row's place needs re-pointing. |
| World.RecordsDistinct | engine/ecs/include/world.hpp:35-37 | Two rows of one archetype belong to different entities. |
| World.MaskMove | engine/ecs/include/world.hpp:52-67 | `mask_archetype::move` keeps the world invariant, including every back-pointer. |
| World.MaskMoveMovesEntity | engine/ecs/include/world.hpp:52-59 | The moved entity's record points at the row appended to the target. That row has the target's components: shared values copied, the rest defaulted. |
| World.MaskMoveKeepsOthers | engine/ecs/include/world.hpp:61-66 | Every other entity keeps its archetype and its values through the move. |
| World.AddTarget | engine/ecs/include/world.hpp:139-158 | The target archetype is fetched or created for `{entity} + Ts` (unassigned entity) or for `current + Ts` (assigned entity), and existing archetypes are kept. Every existing view keeps its mask, and its archetype list only grows at the end. |
| World.Add | engine/ecs/include/world.hpp:135-160 | `add` keeps the world invariant and the registry, and never drops a cached archetype. Every view keeps its mask, and its list only grows at the end. |
| World.AddUnassigned | engine/ecs/include/world.hpp:139-143 | A first `add` places the entity in the archetype for `{entity} + Ts`, with every component at its default. |
| World.AddAssigned | engine/ecs/include/world.hpp:144-159 | A later `add` moves the entity to the archetype for the union. Its old values are kept and the new components are defaulted. |
| World.AddCorrect | engine/ecs/include/world.hpp:135-160 | After `add` the entity's mask is the union, its old components keep their values and the new ones hold defaults. Every other entity keeps its mask and values. |
| World.ComponentList | engine/ecs/include/world.hpp:211-219 | `make_component_set` lists one dense index per pack type, in pack order. Every index is below the component counter, and a pack of distinct types gives distinct indices. |
| World.MakeMask | engine/ecs/include/world.hpp:222-227 | `make_mask` sets the bit of every pack type's dense index and no other bit, and every set bit is a registered index. |
| World.Component | engine/ecs/include/world.hpp:184-191 | `component<T>` reads the owned component from the row the entity's record points at. Any row whose back-pointer names the entity is that same row, in that same archetype. |
| World.ComponentAfterAdd | engine/ecs/include/world.hpp:184-191 | After `add<Ts...>`, `component<T>` for T in the pack reads the entity's old value if it had one, and otherwise the default. |
| World.RemoveTarget | engine/ecs/include/world.hpp:166-177 | The target archetype is fetched or created for `current ^ Ts`, which equals `current - Ts` since Ts is owned. Every existing view keeps its mask, and its archetype list only grows at the end. |
| World.Remove | engine/ecs/include/world.hpp:162-182 | `remove` keeps the world invariant and the registry, and never drops a cached archetype. Every view keeps its mask, and its list only grows at the end. |
| World.RemoveCorrect | engine/ecs/include/world.hpp:162-182 | After `remove` the entity's mask loses exactly the removed components and the rest keep their values. Every other entity keeps its mask and values. |
| World.AddRemoveRoundTrip | engine/ecs/include/world.hpp:135-182 | Adding components an entity lacks and then removing them is allowed, and returns the entity to its original mask and values. |
| SwapChain.ChooseSurfaceFormat | engine/plugin/vulkan/source/vk_renderer.cpp:104-130 | A single undefined format yields RGBA8 sRGB. Otherwise the result is RGBA8 sRGB if listed, else the first listed format. The result is always a listed format unless any format is allowed. |
| SwapChain.ChoosePresentMode | engine/plugin/vulkan/source/vk_renderer.cpp:132-145 | The result is the last mailbox or immediate entry, or FIFO when there is none. |
| SwapChain.PresentModeChoice | engine/plugin/vulkan/source/vk_renderer.cpp:134-144 | The mode is FIFO exactly when no mailbox or immediate mode is offered. Otherwise it is an offered low-latency mode. |
| SwapChain.Clamp | engine/plugin/vulkan/source/vk_renderer.cpp:164-171 | `std::clamp` returns a value within bounds that equals the input when the input is in range. |
| SwapChain.ChooseSwapExtent | engine/plugin/vulkan/source/vk_renderer.cpp:147-175 | The current extent is used unless its width is `UINT32_MAX`. In that case each dimension lies within the surface's bounds, and a requested dimension below the minimum or above the maximum becomes that bound. |
| SwapChain.SwapExtentKeepsSupportedSize | engine/plugin/vulkan/source/vk_renderer.cpp:160-172 | A requested size in range is used unchanged, and choosing again from the result gives the same extent. |
| SwapChain.ImageCount | engine/plugin/vulkan/source/vk_renderer.cpp:49-51 | The image count never exceeds a nonzero maximum. |
| SwapChain.ImageCountBounds | engine/plugin/vulkan/source/vk_renderer.cpp:49-51 | Without wrap-around the count is `minImageCount + 1`, capped at a nonzero `maxImageCount`. |
| SwapChain.ImageCountWrapsAtMax | engine/plugin/vulkan/source/vk_renderer.cpp:49 | `minImageCount == UINT32_MAX` wraps the 32-bit count to 0. |
| SwapChain.ChooseSharingMode | engine/plugin/vulkan/source/vk_renderer.cpp:64-76 | The mode is concurrent, with two family indices, exactly when the graphics and present families differ. |
| SwapChain.SharingCoversBothQueues | engine/plugin/vulkan/source/vk_renderer.cpp:65-76 | Exactly the graphics and present families can access the images. |
| Pipeline.VertexStride | engine/plugins/vulkan/source/vk_pipeline.cpp:12-55 | The stride is channels × bytes per channel as the format name gives them: 1–4 for 8-bit formats and 4–16 for 32-bit ones. It is 0 exactly for unlisted formats. |
| Pipeline.BuildParameterLayout | engine/plugins/vulkan/source/vk_pipeline.cpp:63-94 | There is one binding per parameter, and binding i has number i. Uniform buffers get a one-descriptor vertex-stage binding and index = number of uniform buffers before them. Other types keep zeroed entries. |
| Pipeline.UniformIndicesDense | engine/plugins/vulkan/source/vk_pipeline.cpp:66-90 | Uniform-buffer indices strictly increase in declaration order, stay below the uniform-buffer count, and use every index below it. |
| Pipeline.UniformIndexIsPosition | engine/plugins/vulkan/source/vk_pipeline.cpp:119-137 | When every parameter is a uniform buffer, each parameter's index is its position. So the buffers the parameter object creates in order are the ones `index` names. |
| Pipeline.BuildVertexInput | engine/plugins/vulkan/source/vk_pipeline.cpp:274-289 | Attribute i gets binding i and location i, with the stride table's stride. Binding numbers are distinct. |
| Pipeline.MapCullMode | engine/plugins/vulkan/source/vk_pipeline.cpp:335-348 | None, front and back map to the Vulkan value of the same meaning, and any other value throws. |
| Pipeline.CullModeCoversVulkan | engine/plugins/vulkan/source/vk_pipeline.cpp:335-348 | Every Vulkan value with an engine counterpart is what that counterpart maps to. |
| Pipeline.CreateParameter | engine/plugins/vulkan/source/vk_pipeline.cpp:113-138 | Creation succeeds exactly when every parameter is a uniform buffer. It starts with update frame 0 and the sync frame at `size_t(-1)`. |
| Pipeline.PreviousIndex | engine/plugins/vulkan/source/vk_pipeline.cpp:231 | The previous index is below the count. Without wrap-around it is `current - 1`, or `count - 1` when current is 0. |
| Pipeline.PreviousIndexPrecedes | engine/plugins/vulkan/source/vk_pipeline.cpp:231 | Stepping forward from the previous index lands on the current one. |
| Pipeline.SlotAddressInSlot | engine/plugins/vulkan/source/vk_pipeline.cpp:204-205 | `offset + size * index` lies within frame slot `index` and within the buffer. |
| Pipeline.SlotAddressInjective | engine/plugins/vulkan/source/vk_pipeline.cpp:204-205 | Distinct (slot, offset) pairs have distinct byte addresses. |
| Pipeline.CopyRecent | engine/plugins/vulkan/source/vk_pipeline.cpp:233-249 | Each parameter set within the last `count` frames gets its previous slot copied over its current slot. Nothing else changes. |
| Pipeline.SyncAsWritten | engine/plugins/vulkan/source/vk_pipeline.cpp:221-250 | `sync` does nothing when it already ran this frame or when the last update is older than `count` frames. Otherwise it records the frame and copies. |
| Pipeline.Sync | engine/plugins/vulkan/source/vk_pipeline.cpp:221-250 | The intended `sync` always leaves the frame recorded as synced and changes no update stamps. It copies only when the as-written version would. |
| Pipeline.Write | engine/plugins/vulkan/source/vk_pipeline.cpp:198-209 | The data lands at `offset` in the current slot of the parameter, and every other byte is unchanged. The frame is stamped as the last update overall and of that parameter. |
| Pipeline.SetAsWritten | engine/plugins/vulkan/source/vk_pipeline.cpp:190-210 | `set` leaves the written bytes in the current slot and stamps the frame. Every other byte and the sync frame are as the as-written `sync` left them. |
| Pipeline.Set | engine/plugins/vulkan/source/vk_pipeline.cpp:190-210 | With the intended `sync`, `set` also leaves the frame recorded as synced. Every byte outside the write is as that `sync` left it, and is unchanged when the frame was already synced. |
| Pipeline.SyncOncePerFrame | engine/plugins/vulkan/source/vk_pipeline.cpp:225-228 | The intended `sync` does its work once per frame: syncing again, or after a `set`, changes nothing. |
| Pipeline.SecondSetKeepsFirstWrite | engine/plugins/vulkan/source/vk_pipeline.cpp:190-210 | With the intended `sync`, a second `set` in the same frame keeps every byte the first one wrote and did not overwrite itself. |
| Pipeline.StaleSetLosesWrite | engine/plugins/vulkan/source/vk_pipeline.cpp:221-228 | With `sync` as written, two `set`s in one frame on a parameter idle for more than `count` frames lose the first write. |

## Left out

- **Byte memory and type erasure.** The placement-new, move-construct, destruct and swap function pointers, and `memcpy` of component data, are not modelled. `archetype::construct` becomes a default row, `destruct` drops the row, and `swap` exchanges rows.
- **Pointer arithmetic.** `get_data_pointer`'s address arithmetic is modelled as integers (`Layout.ByteOffset`).
- **Chunks.** The chunk allocator and the chunks' storage are out; an archetype keeps only its chunk count.
- **Preconditions instead of behaviour.** An empty component list (row size 0, division by zero), a row larger than a chunk (`entityPerChunk` 0, division by zero) and `std::div`'s `long` conversion are preconditions, not modelled behaviour.
- **Self-moves.** `add` of components the entity already owns, and `remove` of an empty pack, hit the self-move assertion in `move`. They are excluded by `CanAdd` and `CanRemove`.
- **`remove` preconditions.** `remove` of components the entity does not own is excluded, because XOR would add them. So is `remove` of every component.
- World.CanAdd, World.CanRemove, World.MakeView: require every type of the pack to be registered. `make_mask` and `make_component_set` (world.hpp:211-228) look an unregistered type up with `operator[]`. That silently inserts it with index 0, the entity component's index, which the model does not follow.
- World.CanRemove, World.Component: require an assigned entity. The source dereferences the null archetype pointer of an unassigned record (world.hpp:166-168, 187-188), which is undefined behaviour. World.Component also requires the entity to own the component it reads. The source checks nothing before `record.archetype->begin<T>() + record.index` (world.hpp:187-190); for a component outside the archetype that lookup goes through `archetype.hpp`'s handles, which are not part of this model, so the model has no value to give there and excludes the case.
- Layout.Sort, Layout.MakeLayout: break ties between equally aligned components by the dense index, where archetype.cpp:124-126 uses the component id. Where the two orders disagree, the model's column order and offsets differ from the source's. The proved layout properties (disjoint columns, every column within the chunk, the first column at offset 0 with the largest alignment) hold for either tie-break.
- Archetype.ThreeChunksFrom341Rows: depends on `CHUNK_SIZE` being 4096. The constant is declared in `node/archetype_chunk.hpp`, which is not part of this model.
- Archetype.Capacity: is taken to be `chunkCount * entityPerChunk`. `capacity()` is defined outside archetype.cpp and is not part of this model. Archetype.AllocateChunks, Archetype.Append, Archetype.Add, Archetype.AddN and the chunk-count invariant `chunkCount == ceil(size / entityPerChunk)` hold under that reading of the comparison at archetype.cpp:145.
- **Atomic counters.** The index generators are plain counters. Concurrency is out of scope.
- World.Create, World.RunAdvancesCounter, World.CreateIncreasing: the entity counter is an unbounded natural. In the source, `fetch_add` on `entity_id` (world.hpp:86-87, 131) wraps at the type's width. After the wrap, ids stop increasing and an id still in use can be handed out again. The proved increase holds only until that wrap.
- World.RegisterComponent, World.RegisterComponents: the component index counter is unbounded too. The source's `index_generator<component_index>` wraps at `component_index`'s width, which the model does not follow.
- World.MakeMask, World.Add, World.Remove, World.MakeView: masks are unbounded sets. The source's `component_mask` is a fixed-width bit set (`set`, `test`, `^`), whose `set` and `test` throw `std::out_of_range` for an index past its width. Neither the width nor that exception path is modelled.
- **`world::release`.** Its body is empty, so no entity destruction is modelled.
- **The world destructor.** It only clears the archetypes (`Archetype.Clear`).
- **Hash order.** `std::unordered_map` becomes a Dafny map. `make_view` iterates the archetype map in an unspecified order; the model lists archetypes in creation order. The view's set of archetypes, which is what is proved, does not depend on that order.
- **View iteration.** `view.hpp`'s iteration and `archetype.hpp`'s handles are not part of this model. `component<T>` reads the value straight from the entity's row.
- **Vulkan API calls.** Instance, device, swapchain, descriptor-set and pipeline creation, `vkUpdateDescriptorSets` and shader loading are out. So are all fixed pipeline-state constants (viewport, blending, depth, dynamic state).
- **The parameter constructor's descriptor writes** (vk_pipeline.cpp:140-183) are out. `vk_util::map_format` is not part of this model, so a vertex attribute keeps the engine format.
- **Texture `set` and `get_descriptor_set`.** The texture overload of `set` has an empty body and `get_descriptor_set` only reads an array; neither is modelled.
- **Frame counters.** The renderer's frame counter, frame-resource count and frame-resource index are inputs (`FrameContext`); the code that advances them is not part of this model.
- **Uniform buffer contents.** `vk_uniform_buffer` is not part of this model. A new parameter's buffers start as zero bytes.
- **The byte-address view of buffers.** A buffer is modelled as one byte sequence per frame slot. The byte address `offset + size * index` is covered separately by `Pipeline.SlotAddressInSlot` and `Pipeline.SlotAddressInjective`.
- Pipeline.CopyRecent: omits the descriptor-type check inside the `sync` loop. Every parameter of a successfully created parameter object is a uniform buffer (`Pipeline.CreateParameter`), so the check always passes.
- Pipeline.Write: requires the write to fit within one frame slot. A `memcpy` past the slot is undefined or writes into the next slot, and is not modelled.
- Pipeline.PreviousIndex: the predecessor property is proved only when `current + count - 1` does not wrap `std::size_t`. The wrapped value is still modelled.
- SwapChain.ChooseSwapExtent: requires minimum ≤ maximum when the surface leaves the extent open, because `std::clamp` is undefined otherwise.
- SwapChain.ChooseSurfaceFormat: requires a non-empty list, which the constructor asserts (vk_renderer.cpp:35).
- **`ImageCount`'s width.** The count `minImageCount + 1` is computed modulo 2^32. `maxImageCount` is an unconstrained natural that caps the count unchanged, so the result is below 2^32 or equals `maxImageCount`. Vulkan delivers it as a `uint32_t`, so the second case also lies below 2^32.

## Findings

| source | as written | input that shows it | evidently intended | confidence | as-written member | corrected member |
|---|---|---|---|---|---|---|
| engine/plugins/vulkan/source/vk_pipeline.cpp:225-228 | `sync` returns early when the parameter object was last updated more than `count` frames ago, without recording `m_last_sync_frame`. The `set` that called it then stamps the frame as the last update, so the next `set` in the same frame runs `sync` for real. That copy overwrites the current slot of every recently updated parameter with its previous slot, including the one just written. | Two one-byte uniform parameters, two frame resources, no update since frame 0, frame 10, slot 0: `set(0, [7])` then `set(1, [9])`. Parameter 0's current slot ends up 0, not 7. | Record the frame as synced even when there is nothing to copy, so `sync` runs at most once per frame and never copies over a write made in the same frame. | medium; not executed | Pipeline.StaleSetLosesWrite | Pipeline.SecondSetKeepsFirstWrite |
